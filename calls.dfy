/** The calls a registration makes on its collaborators, in the order it makes them;
    the unit tests observe exactly these through their mocks. */
module Calls {
  import opened Users

  datatype Call =
    | UsernameCheck(username: string)  // IUserRepository.UsernameExists
    | EmailCheck(email: string)        // IUserRepository.EmailExists
    | Hash(password: string)           // IPasswordHasher.HashPassword
    | Create(user: User)               // IUserRepository.CreateUser

  /** How many calls of `trace` satisfy `kind`. */
  function Count(trace: seq<Call>, kind: Call -> bool): nat
  {
    if trace == [] then 0
    else (if kind(trace[0]) then 1 else 0) + Count(trace[1..], kind)
  }
}

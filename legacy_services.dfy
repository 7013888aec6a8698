/** The older `UserService.RegisterUser`: a username check, then one insert of a record
    that carries the password as it was sent. There is no email check and no hashing. */
module LegacyServices {
  import opened Wrappers
  import opened Users
  import opened Calls
  import opened Repositories
  import opened Dtos

  const UsernameExistsCode := "USER_USERNAME_EXISTS"

  /** The `UserModel` the older service builds: only `Username` and `Password` are set, the
      other properties keep their initial values (an empty email and an empty salt). */
  function NewUser(request: Request, id: Guid): User
  {
    User(id, request.username, "", request.password, [])
  }

  class UserService {
    const repository: UserRepository

    constructor (repository: UserRepository)
      ensures this.repository == repository
    {
      this.repository := repository;
    }

    /** Registers `request`; `id` is the record's `Guid.NewGuid()` and `storageFault` the
        exception the insert raises, if any. */
    method RegisterUser(request: Request, id: Guid, storageFault: Option<string>)
      returns (outcome: Outcome, trace: seq<Call>)
      modifies repository
      // username taken: fail, insert nothing
      ensures old(repository.UsernameExists(request.username)) ==>
        outcome == Err(UsernameExistsCode) && trace == [UsernameCheck(request.username)]
        && repository.users == old(repository.users)
      // username free: one insert of the plaintext record, whose failure propagates
      ensures !old(repository.UsernameExists(request.username)) ==>
        trace == [UsernameCheck(request.username), Create(NewUser(request, id))]
        && outcome == (if storageFault.Some? then Err(storageFault.value) else Ok)
      // neither an email check nor hashing happens on any path
      ensures forall i :: 0 <= i < |trace| ==> !trace[i].EmailCheck? && !trace[i].Hash?
      ensures outcome.Ok? ==> repository.users == old(repository.users) + [NewUser(request, id)]
      ensures outcome.Ok? ==>
        && |repository.users| == |old(repository.users)| + 1
        && repository.users[..|old(repository.users)|] == old(repository.users)
        && repository.users[|old(repository.users)|].username == request.username
        && repository.users[|old(repository.users)|].password == request.password
      ensures outcome.Err? ==> repository.users == old(repository.users)
      // the username check keeps usernames unique (emails are not checked)
      ensures old(UniqueUsernames(repository.users)) ==> UniqueUsernames(repository.users)
    {
      trace := [UsernameCheck(request.username)];
      if repository.UsernameExists(request.username) {
        return Err(UsernameExistsCode), trace;
      }
      var user := NewUser(request, id);
      trace := trace + [Create(user)];
      ghost var before := repository.users;
      outcome := repository.CreateUser(user, storageFault);
      if outcome.Ok? && UniqueUsernames(before) {
        AppendFreshUsername(before, user);
      }
    }
  }
}

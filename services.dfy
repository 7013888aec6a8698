/** `UserService.RegisterUser` of the current service: username check, email check,
    password hashing, building the record, one insert. */
module Services {
  import opened Wrappers
  import opened Users
  import opened Calls
  import opened Repositories
  import opened PasswordHashing
  import opened Dtos

  const UsernameExistsCode := "USERNAME_EXISTS"
  const EmailExistsCode := "EMAIL_EXISTS"

  /** The `UserModel` the service builds: identifiers from the request, credentials from
      the hasher, and a freshly generated id. */
  function NewUser(request: Request, id: Guid, hashed: Hashed): User
  {
    User(id, request.username, request.email, hashed.hash, hashed.salt)
  }

  /** The calls of a registration in which no check fails, in the order they are made. */
  function Protocol(request: Request, user: User): seq<Call>
  {
    [UsernameCheck(request.username), EmailCheck(request.email), Hash(request.password), Create(user)]
  }

  /** The effect of one registration: how it ends, the calls it makes, and the table after it. */
  datatype Run = Run(outcome: Outcome, trace: seq<Call>, users: seq<User>)

  /** One registration of `request` against the table `users`; `hashed` is what the hasher
      returns for the request's password and `id` the new record's id. */
  function Register(users: seq<User>, request: Request, id: Guid, hashed: Hashed, storageFault: Option<string>): (r: Run)
    // the calls always follow the fixed order: username, email, hash, insert
    ensures r.trace <= Protocol(request, NewUser(request, id, hashed))
    // the mocks' Times.Once / Times.Never
    ensures Count(r.trace, IsUsernameCheck) == 1
    ensures Count(r.trace, IsEmailCheck) == if AnyUsername(users, request.username) then 0 else 1
    ensures Count(r.trace, IsHash) == Count(r.trace, IsCreate) ==
      if AnyUsername(users, request.username) || AnyEmail(users, request.email) then 0 else 1
    // the two conflicts, checked in this order, and the insert's own failure
    ensures AnyUsername(users, request.username) ==> r.outcome == Err(UsernameExistsCode)
    ensures !AnyUsername(users, request.username) && AnyEmail(users, request.email) ==>
      r.outcome == Err(EmailExistsCode)
    ensures !AnyUsername(users, request.username) && !AnyEmail(users, request.email) ==>
      r.outcome == if storageFault.Some? then Err(storageFault.value) else Ok
    // exactly one row appended on success, the table untouched otherwise
    ensures r.users == if r.outcome.Ok? then users + [NewUser(request, id, hashed)] else users
    // the checks keep usernames and emails unique
    ensures UniqueUsernames(users) ==> UniqueUsernames(r.users)
    ensures UniqueEmails(users) ==> UniqueEmails(r.users)
  {
    var user := NewUser(request, id, hashed);
    if AnyUsername(users, request.username) then
      ProtocolPrefixCounts(request, user, 1);
      assert [UsernameCheck(request.username)] == Protocol(request, user)[..1];
      Run(Err(UsernameExistsCode), [UsernameCheck(request.username)], users)
    else if AnyEmail(users, request.email) then
      ProtocolPrefixCounts(request, user, 2);
      assert [UsernameCheck(request.username), EmailCheck(request.email)] == Protocol(request, user)[..2];
      Run(Err(EmailExistsCode), [UsernameCheck(request.username), EmailCheck(request.email)], users)
    else
      ProtocolPrefixCounts(request, user, 4);
      assert Protocol(request, user) == Protocol(request, user)[..4];
      if storageFault.Some? then
        Run(Err(storageFault.value), Protocol(request, user), users)
      else
        AppendUnique(users, user);
        Run(Ok, Protocol(request, user), users + [user])
  }

  /** Appending a row whose username and email are both new keeps both unique. */
  lemma AppendUnique(users: seq<User>, user: User)
    requires !AnyUsername(users, user.username) && !AnyEmail(users, user.email)
    ensures UniqueUsernames(users) ==> UniqueUsernames(users + [user])
    ensures UniqueEmails(users) ==> UniqueEmails(users + [user])
  {
    if UniqueUsernames(users) { AppendFreshUsername(users, user); }
    if UniqueEmails(users) { AppendFreshEmail(users, user); }
  }

  predicate IsUsernameCheck(c: Call) { c.UsernameCheck? }
  predicate IsEmailCheck(c: Call) { c.EmailCheck? }
  predicate IsHash(c: Call) { c.Hash? }
  predicate IsCreate(c: Call) { c.Create? }

  /** Each kind of call occurs at most once in any prefix of the protocol, and in this order. */
  lemma {:induction false} ProtocolPrefixCounts(request: Request, user: User, k: nat)
    requires k <= 4
    ensures var trace := Protocol(request, user)[..k];
      && Count(trace, IsUsernameCheck) == (if k >= 1 then 1 else 0)
      && Count(trace, IsEmailCheck) == (if k >= 2 then 1 else 0)
      && Count(trace, IsHash) == (if k >= 3 then 1 else 0)
      && Count(trace, IsCreate) == (if k >= 4 then 1 else 0)
  {
    var p := Protocol(request, user);
    var trace := p[..k];
    if k > 0 {
      ProtocolPrefixCounts(request, user, k - 1);
      assert trace == p[..k - 1] + [p[k - 1]];
      CountAppend(p[..k - 1], p[k - 1], IsUsernameCheck);
      CountAppend(p[..k - 1], p[k - 1], IsEmailCheck);
      CountAppend(p[..k - 1], p[k - 1], IsHash);
      CountAppend(p[..k - 1], p[k - 1], IsCreate);
    }
  }

  /** Counting over a trace with one more call at its end. */
  lemma {:induction false} CountAppend(trace: seq<Call>, c: Call, kind: Call -> bool)
    ensures Count(trace + [c], kind) == Count(trace, kind) + (if kind(c) then 1 else 0)
  {
    if trace != [] {
      assert (trace + [c])[1..] == trace[1..] + [c];
      CountAppend(trace[1..], c, kind);
    }
  }

  class UserService {
    const repository: UserRepository
    /** The key derivation of the injected `IPasswordHasher`. */
    const derive: Derivation

    constructor (repository: UserRepository, derive: Derivation)
      ensures this.repository == repository && this.derive == derive
    {
      this.repository := repository;
      this.derive := derive;
    }

    /** Registers `request`. `id` is the `Guid.NewGuid()` of the new record, `salt` the bytes
        the hasher draws, `storageFault` the exception the insert raises, if any. Returns how the
        call ended and the calls it made on its collaborators; the new table, the outcome and the
        calls are those of `Register`, with the hasher called on the request's password. */
    method RegisterUser(request: Request, id: Guid, salt: Salt, storageFault: Option<string>)
      returns (outcome: Outcome, trace: seq<Call>)
      modifies repository
      ensures Run(outcome, trace, repository.users)
        == Register(old(repository.users), request, id, HashPassword(request.password, salt, derive), storageFault)
      // the stored row keeps the 16 bytes its hash was derived with
      ensures outcome.Ok? ==>
        && |repository.users| > 0
        && var row := repository.users[|repository.users| - 1];
           |row.salt| == SaltSize && row.salt == salt && row.password == derive(request.password, row.salt)
    {
      ghost var before := repository.users;
      ghost var expected := Register(before, request, id, HashPassword(request.password, salt, derive), storageFault);
      trace := [UsernameCheck(request.username)];
      if repository.UsernameExists(request.username) {
        assert AnyUsername(before, request.username);
        assert expected == Run(Err(UsernameExistsCode), trace, before);
        return Err(UsernameExistsCode), trace;
      }
      trace := trace + [EmailCheck(request.email)];
      if repository.EmailExists(request.email) {
        assert AnyEmail(before, request.email);
        assert expected == Run(Err(EmailExistsCode), trace, before);
        return Err(EmailExistsCode), trace;
      }
      var hashed := HashPassword(request.password, salt, derive);
      trace := trace + [Hash(request.password)];
      var user := NewUser(request, id, hashed);
      trace := trace + [Create(user)];
      assert trace == Protocol(request, user);
      outcome := repository.CreateUser(user, storageFault);
      assert expected == Run(outcome, trace, repository.users);
    }
  }
}

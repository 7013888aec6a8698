/** `UserRepository` over an in-memory table: two existence queries and an append. */
module Repositories {
  import opened Wrappers
  import opened Users

  /** `Users.AnyAsync(u => u.Username == username)`: ordinal (case-sensitive) comparison. */
  function AnyUsername(users: seq<User>, username: string): (r: bool)
    ensures r <==> exists i :: 0 <= i < |users| && users[i].username == username
  {
    if users == [] then false
    else if users[0].username == username then true
    else
      var rest := AnyUsername(users[1..], username);
      assert rest <==> exists i :: 0 < i < |users| && users[i].username == username by {
        if rest {
          var j :| 0 <= j < |users[1..]| && users[1..][j].username == username;
          assert users[j + 1].username == username;
        }
        if exists i :: 0 < i < |users| && users[i].username == username {
          var i :| 0 < i < |users| && users[i].username == username;
          assert users[1..][i - 1].username == username;
        }
      }
      rest
  }

  /** `Users.AnyAsync(u => u.Email == email)`, by analogy with `AnyUsername`. */
  function AnyEmail(users: seq<User>, email: string): (r: bool)
    ensures r <==> exists i :: 0 <= i < |users| && users[i].email == email
  {
    if users == [] then false
    else if users[0].email == email then true
    else
      var rest := AnyEmail(users[1..], email);
      assert rest <==> exists i :: 0 < i < |users| && users[i].email == email by {
        if rest {
          var j :| 0 <= j < |users[1..]| && users[1..][j].email == email;
          assert users[j + 1].email == email;
        }
        if exists i :: 0 < i < |users| && users[i].email == email {
          var i :| 0 < i < |users| && users[i].email == email;
          assert users[1..][i - 1].email == email;
        }
      }
      rest
  }

  /** No two rows share a username. */
  ghost predicate UniqueUsernames(users: seq<User>)
  {
    forall i, j :: 0 <= i < j < |users| ==> users[i].username != users[j].username
  }

  /** No two rows share an email address. */
  ghost predicate UniqueEmails(users: seq<User>)
  {
    forall i, j :: 0 <= i < j < |users| ==> users[i].email != users[j].email
  }

  /** Appending a row whose username is not yet taken keeps usernames unique. */
  lemma AppendFreshUsername(users: seq<User>, user: User)
    requires UniqueUsernames(users) && !AnyUsername(users, user.username)
    ensures UniqueUsernames(users + [user])
  {
  }

  /** Appending a row whose email is not yet taken keeps emails unique. */
  lemma AppendFreshEmail(users: seq<User>, user: User)
    requires UniqueEmails(users) && !AnyEmail(users, user.email)
    ensures UniqueEmails(users + [user])
  {
  }

  class UserRepository {
    /** The rows of the `Users` table, in insertion order. */
    var users: seq<User>

    /** A repository over an empty table: no username and no email exists yet. */
    constructor ()
      ensures users == []
      ensures forall username :: !UsernameExists(username)
      ensures forall email :: !EmailExists(email)
    {
      users := [];
    }

    /** True iff some stored row has exactly this username; reads the table, changes nothing. */
    function UsernameExists(username: string): (r: bool)
      reads this
      ensures r <==> exists i :: 0 <= i < |users| && users[i].username == username
    {
      AnyUsername(users, username)
    }

    /** True iff some stored row has exactly this email; reads the table, changes nothing. */
    function EmailExists(email: string): (r: bool)
      reads this
      ensures r <==> exists i :: 0 <= i < |users| && users[i].email == email
    {
      AnyEmail(users, email)
    }

    /** `AddAsync` then `SaveChangesAsync`. `storageFault` is the exception the database
        raises while saving, if any: then nothing is saved and the exception propagates. */
    method CreateUser(user: User, storageFault: Option<string>) returns (outcome: Outcome)
      modifies this
      ensures outcome == if storageFault.Some? then Err(storageFault.value) else Ok
      ensures users == if outcome.Ok? then old(users) + [user] else old(users)
      ensures outcome.Ok? ==> UsernameExists(user.username) && EmailExists(user.email)
      ensures forall i :: 0 <= i < |old(users)| ==> users[i] == old(users)[i]
    {
      if storageFault.Some? {
        return Err(storageFault.value);
      }
      users := users + [user];
      assert users[|users| - 1] == user;
      outcome := Ok;
    }
  }
}

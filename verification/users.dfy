/**
 * The user directory behind `POST /api/auth/demo-login` (`demo_login`):
 * look the email up in `users` and insert a row on a miss, named with the
 * text before the email's first `@`. The access token the route returns is
 * not part of this model; only the user id it encodes is.
 */
module Users {
  import opened Results
  import Text

  /** A row of `users` (`google_id` and `created_at` are not read by `demo_login`). */
  datatype User = User(id: int, email: string, name: Option<string>)

  /** `id` is the primary key of `users` and `email` is declared unique. */
  predicate WellFormed(users: seq<User>) {
    forall i, j :: 0 <= i < j < |users| ==> users[i].id != users[j].id && users[i].email != users[j].email
  }

  /** The directory after a login, and the user id the token is issued for. */
  datatype Login = Login(users: seq<User>, userId: int)

  /** `SELECT ... WHERE email = email`, first row. */
  function FindByEmail(users: seq<User>, email: string): (r: Option<User>)
    ensures r.Some? ==> r.value in users && r.value.email == email
    ensures r.None? <==> forall i :: 0 <= i < |users| ==> users[i].email != email
  {
    if |users| == 0 then None
    else if users[0].email == email then Some(users[0])
    else FindByEmail(users[1..], email)
  }

  /** `email.split("@")[0]`, the name given to a user created by a demo login. */
  function DefaultName(email: string): (name: string)
    ensures Text.StartsWith(email, name) && '@' !in name
    ensures |name| < |email| ==> email[|name|] == '@'
    ensures '@' !in email ==> name == email
  {
    Text.BeforeFirst(email, '@')
  }

  /**
   * `demo_login`: a known email returns its user's id and leaves the
   * directory alone; an unknown one appends exactly one user with the id
   * `newId` the database allocates and the default name.
   */
  function DemoLogin(users: seq<User>, email: string, newId: int): (r: Login)
    ensures (exists i :: 0 <= i < |users| && users[i].email == email) ==>
      r.users == users && exists i :: 0 <= i < |users| && users[i].email == email && r.userId == users[i].id
    ensures (forall i :: 0 <= i < |users| ==> users[i].email != email) ==>
      r.userId == newId && r.users == users + [User(newId, email, Some(DefaultName(email)))]
  {
    match FindByEmail(users, email)
    case Some(user) => Login(users, user.id)
    case None => Login(users + [User(newId, email, Some(DefaultName(email)))], newId)
  }

  /** Logging in twice with one email returns the same id, and the second login adds nobody. */
  lemma DemoLoginIdempotent(users: seq<User>, email: string, id1: int, id2: int)
    ensures var first := DemoLogin(users, email, id1);
      var second := DemoLogin(first.users, email, id2);
      second == first
  {
    var first := DemoLogin(users, email, id1);
    if FindByEmail(users, email).None? {
      assert first.users[|users|].email == email;
      assert FindByEmail(first.users, email) == Some(first.users[|users|]);
    }
  }

  /** With a fresh key for the database to allocate, a login keeps ids and emails unique. */
  lemma DemoLoginKeepsDirectoryWellFormed(users: seq<User>, email: string, newId: int)
    requires WellFormed(users)
    requires forall i :: 0 <= i < |users| ==> users[i].id != newId
    ensures WellFormed(DemoLogin(users, email, newId).users)
  {
  }
}

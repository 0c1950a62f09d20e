/** The user store: a hashed password per username, looked up, changed and created. */
module Users {
  import opened Models
  import opened Tables

  /** `SELECT password FROM user WHERE username=$1`: the stored hash, or "" and "no rows" for an
      unknown username. The username is matched exactly as given. */
  function GetPassword(s: Store, username: string): (r: (string, Outcome))
    ensures r.1.Pass? <==> username in s.users
    ensures r.1.Pass? ==> r.0 == s.users[username]
    ensures r.1.Fail? ==> r == ("", Fail(NoRows))
  {
    if username in s.users then (s.users[username], Pass) else ("", Fail(NoRows))
  }

  /** `UPDATE user SET password=$1 WHERE username=$2`: never fails; an unknown username changes
      nothing. */
  function ChangePassword(s: Store, username: string, password: string): (r: (Outcome, Store))
    ensures r.0 == Pass
    ensures username in s.users ==> r.1.users == s.users[username := password]
    ensures username !in s.users ==> r.1 == s
    ensures r.1 == s.(users := r.1.users)
    ensures Inv(s) ==> Inv(r.1)
  {
    (Pass, UpdateUser(s, username, password))
  }

  /** `INSERT INTO user(username, password) VALUES ($1, $2)`: fails on a taken username. */
  function CreateUser(s: Store, user: UserLogin): (r: (Outcome, Store))
    ensures r.0.Pass? <==> user.username !in s.users
    ensures r.0.Fail? ==> r == (Fail(UniqueFailed("user.username")), s)
    ensures r.0.Pass? ==> r.1 == s.(users := s.users[user.username := user.password])
    ensures Inv(s) ==> Inv(r.1)
  {
    InsertUser(s, user.username, user.password)
  }

  // ---------------------------------------------------------------------------
  // Properties

  /** A created user's password reads back as the hash that was stored. */
  lemma CreateThenGet(s: Store, user: UserLogin)
    requires user.username !in s.users
    ensures GetPassword(CreateUser(s, user).1, user.username) == (user.password, Pass)
  {
  }

  /** Creating a username twice: the second attempt fails and changes nothing. */
  lemma CreateTwiceConflicts(s: Store, user: UserLogin, user': UserLogin)
    requires user.username !in s.users && user'.username == user.username
    ensures var s1 := CreateUser(s, user).1;
            CreateUser(s1, user') == (Fail(UniqueFailed("user.username")), s1)
  {
  }

  /** A changed password reads back as the new hash, and every other user keeps theirs. */
  lemma ChangeThenGet(s: Store, username: string, password: string, other: string)
    requires username in s.users && other != username
    ensures var s1 := ChangePassword(s, username, password).1;
            && GetPassword(s1, username) == (password, Pass)
            && GetPassword(s1, other) == GetPassword(s, other)
  {
  }

  /** Usernames are matched exactly: a user stored as "Alice" is unknown as "alice". */
  lemma ExactUsernames(s: Store)
    requires s.users == map["Alice" := "hash"]
    ensures GetPassword(s, "Alice") == ("hash", Pass)
    ensures GetPassword(s, "alice") == ("", Fail(NoRows))
  {
    assert "alice" != "Alice" by { assert "alice"[0] != "Alice"[0]; }
  }
}

/**
 * `df_users.merge(df_logins, on='username', how='left')`: every user row is
 * paired with every login row of the same username, in login order; a user
 * without one keeps a single row whose `lastLogin` is `NaT`.
 */
module Join {
  import opened Records
  import Seqs

  /** A row of the merged table: the user's `id`, `username`, `name` and a `lastLogin`. */
  datatype JoinedRow = JoinedRow(id: string, username: string, name: string, lastLogin: Option<Timestamp>)

  /** Whether `r` carries the user columns of `u`. */
  predicate RowOf(r: JoinedRow, u: User)
  {
    r.id == u.id && r.username == u.username && r.name == u.name
  }

  function UsernameOf(l: Login): string
  {
    l.username
  }

  function LastLoginOf(l: Login): Option<Timestamp>
  {
    l.lastLogin
  }

  function JoinedLogin(r: JoinedRow): Option<Timestamp>
  {
    r.lastLogin
  }

  /** How often `name` occurs in the `username` column of the login table. */
  function Occurrences(name: string, logins: seq<Login>): nat
  {
    multiset(Seqs.Map(logins, UsernameOf))[name]
  }

  /** Whether every username occurs at most once in the login table. */
  predicate UniqueUsernames(logins: seq<Login>)
  {
    forall a, b :: 0 <= a < b < |logins| ==> logins[a].username != logins[b].username
  }

  /** The `lastLogin` of every login row whose username is exactly `name`, in login order. */
  function Matches(name: string, logins: seq<Login>): (m: seq<Option<Timestamp>>)
    ensures |m| <= |logins|
    ensures (forall k :: 0 <= k < |logins| ==> logins[k].username != name) ==> m == []
  {
    if logins == [] then []
    else (if logins[0].username == name then [logins[0].lastLogin] else []) + Matches(name, logins[1..])
  }

  /** The merged rows one user contributes: at least one, each carrying the user's columns. */
  function RowsFor(u: User, logins: seq<Login>): (rows: seq<JoinedRow>)
    ensures |rows| >= 1
    ensures forall k :: 0 <= k < |rows| ==> RowOf(rows[k], u)
  {
    var m := Matches(u.username, logins);
    if m == [] then [JoinedRow(u.id, u.username, u.name, None)]
    else seq(|m|, k requires 0 <= k < |m| => JoinedRow(u.id, u.username, u.name, m[k]))
  }

  /** The merged table: each user's rows, in user order; no user is dropped. */
  function LeftJoin(users: seq<User>, logins: seq<Login>): (joined: seq<JoinedRow>)
    ensures |joined| >= |users|
    ensures users == [] ==> joined == []
  {
    if users == [] then []
    else RowsFor(users[0], logins) + LeftJoin(users[1..], logins)
  }

  /** Merging a concatenation of user tables is concatenating their merges. */
  lemma {:induction false} LeftJoinAppend(a: seq<User>, b: seq<User>, logins: seq<Login>)
    ensures LeftJoin(a + b, logins) == LeftJoin(a, logins) + LeftJoin(b, logins)
  {
    if a == [] {
      assert a + b == b;
    } else {
      assert (a + b)[0] == a[0];
      assert (a + b)[1..] == a[1..] + b;
      LeftJoinAppend(a[1..], b, logins);
    }
  }

  /** The matches are the `lastLogin` column of the login rows selected by username, in login order. */
  lemma {:induction false} MatchesBySelection(name: string, logins: seq<Login>)
    ensures Matches(name, logins) == Seqs.Map(Seqs.Filter(logins, (l: Login) => l.username == name), LastLoginOf)
  {
    if logins != [] {
      MatchesBySelection(name, logins[1..]);
      var head := if logins[0].username == name then [logins[0]] else [];
      Seqs.MapAppend(head, Seqs.Filter(logins[1..], (l: Login) => l.username == name), LastLoginOf);
    }
  }

  /** One match per login row carrying the username: none dropped, none invented. */
  lemma {:induction false} MatchesCount(name: string, logins: seq<Login>)
    ensures |Matches(name, logins)| == Occurrences(name, logins)
  {
    if logins != [] {
      MatchesCount(name, logins[1..]);
      assert Seqs.Map(logins, UsernameOf) == [logins[0].username] + Seqs.Map(logins[1..], UsernameOf);
    }
  }

  /** The matches are exactly the `lastLogin` values of the login rows with that username. */
  lemma {:induction false} MatchesExactly(name: string, logins: seq<Login>)
    ensures forall x :: x in Matches(name, logins) <==>
              exists k :: 0 <= k < |logins| && logins[k].username == name && logins[k].lastLogin == x
  {
    if logins != [] {
      MatchesExactly(name, logins[1..]);
      forall x | x in Matches(name, logins[1..])
        ensures exists k :: 0 <= k < |logins| && logins[k].username == name && logins[k].lastLogin == x
      {
        var k :| 0 <= k < |logins[1..]| && logins[1..][k].username == name && logins[1..][k].lastLogin == x;
        assert logins[k + 1] == logins[1..][k];
      }
      forall x, k | 0 <= k < |logins| && logins[k].username == name && logins[k].lastLogin == x
        ensures x in Matches(name, logins)
      {
        if k > 0 {
          assert logins[1..][k - 1] == logins[k];
        }
      }
    }
  }

  /** With unique usernames, a username has one match if some login row carries it and none otherwise. */
  lemma {:induction false} MatchesUnique(name: string, logins: seq<Login>)
    requires UniqueUsernames(logins)
    ensures forall k :: 0 <= k < |logins| && logins[k].username == name ==> Matches(name, logins) == [logins[k].lastLogin]
    ensures (forall k :: 0 <= k < |logins| ==> logins[k].username != name) ==> Matches(name, logins) == []
  {
    if logins != [] {
      var rest := logins[1..];
      assert UniqueUsernames(rest) by {
        forall a, b | 0 <= a < b < |rest| ensures rest[a].username != rest[b].username {
          assert rest[a] == logins[a + 1] && rest[b] == logins[b + 1];
        }
      }
      MatchesUnique(name, rest);
      if logins[0].username == name {
        assert forall k :: 0 <= k < |rest| ==> rest[k].username != name by {
          forall k | 0 <= k < |rest| ensures rest[k].username != name {
            assert rest[k] == logins[k + 1];
          }
        }
      } else {
        forall k | 0 < k < |logins| && logins[k].username == name
          ensures Matches(name, logins) == [logins[k].lastLogin]
        {
          assert rest[k - 1] == logins[k];
        }
        if forall k :: 0 <= k < |logins| ==> logins[k].username != name {
          assert forall k :: 0 <= k < |rest| ==> rest[k].username != name by {
            forall k | 0 <= k < |rest| ensures rest[k].username != name {
              assert rest[k] == logins[k + 1];
            }
          }
        }
      }
    }
  }

  /**
   * The rows of one user: one per login row with the same username, carrying
   * that row's `lastLogin` (no login row wins over another), or a single row
   * with a missing `lastLogin` when there is none.
   */
  lemma RowsOfOneUser(u: User, logins: seq<Login>)
    ensures |RowsFor(u, logins)| == if Occurrences(u.username, logins) == 0 then 1 else Occurrences(u.username, logins)
    ensures forall r :: r in RowsFor(u, logins) ==> RowOf(r, u)
    ensures Occurrences(u.username, logins) == 0 ==> RowsFor(u, logins) == [JoinedRow(u.id, u.username, u.name, None)]
    ensures forall r :: r in RowsFor(u, logins) && r.lastLogin.Some? ==>
              exists k :: 0 <= k < |logins| && logins[k].username == u.username && logins[k].lastLogin == r.lastLogin
    ensures forall k :: 0 <= k < |logins| && logins[k].username == u.username ==>
              JoinedRow(u.id, u.username, u.name, logins[k].lastLogin) in RowsFor(u, logins)
    ensures Occurrences(u.username, logins) > 0 ==>
              Seqs.Map(RowsFor(u, logins), JoinedLogin) == Matches(u.username, logins)
  {
    MatchesCount(u.username, logins);
    MatchesExactly(u.username, logins);
    var m := Matches(u.username, logins);
    forall r | r in RowsFor(u, logins) && r.lastLogin.Some?
      ensures exists k :: 0 <= k < |logins| && logins[k].username == u.username && logins[k].lastLogin == r.lastLogin
    {
      var j :| 0 <= j < |RowsFor(u, logins)| && RowsFor(u, logins)[j] == r;
      assert r.lastLogin in m;
    }
    forall k | 0 <= k < |logins| && logins[k].username == u.username
      ensures JoinedRow(u.id, u.username, u.name, logins[k].lastLogin) in RowsFor(u, logins)
    {
      assert logins[k].lastLogin in m;
      var j :| 0 <= j < |m| && m[j] == logins[k].lastLogin;
      assert RowsFor(u, logins)[j] == JoinedRow(u.id, u.username, u.name, logins[k].lastLogin);
    }
  }

  /** User `i`'s rows sit as one block, after the rows of the users before it. */
  lemma JoinBlock(users: seq<User>, logins: seq<Login>, i: int)
    requires 0 <= i < |users|
    ensures LeftJoin(users, logins) == LeftJoin(users[..i], logins) + RowsFor(users[i], logins) + LeftJoin(users[i + 1..], logins)
  {
    assert users == users[..i] + ([users[i]] + users[i + 1..]);
    LeftJoinAppend(users[..i], [users[i]] + users[i + 1..], logins);
    assert ([users[i]] + users[i + 1..])[1..] == users[i + 1..];
  }

  /** Every user has at least one row, so the merge never has fewer rows than users. */
  lemma {:induction false} JoinKeepsEveryUser(users: seq<User>, logins: seq<Login>)
    ensures |LeftJoin(users, logins)| >= |users|
    ensures forall i :: 0 <= i < |users| ==> exists r :: r in LeftJoin(users, logins) && RowOf(r, users[i])
  {
    if users != [] {
      JoinKeepsEveryUser(users[1..], logins);
      RowsOfOneUser(users[0], logins);
      var rows := LeftJoin(users, logins);
      assert RowsFor(users[0], logins)[0] in rows;
      forall i | 1 <= i < |users| ensures exists r :: r in rows && RowOf(r, users[i]) {
        assert users[1..][i - 1] == users[i];
      }
    }
  }

  /** Every row of the merge comes from some user and, when it has a `lastLogin`, from a login row of that user's name. */
  lemma {:induction false} JoinRowsComeFromInputs(users: seq<User>, logins: seq<Login>)
    ensures forall r :: r in LeftJoin(users, logins) ==>
              exists i :: 0 <= i < |users| && RowOf(r, users[i]) &&
                (r.lastLogin.Some? ==>
                   exists k :: 0 <= k < |logins| && logins[k].username == users[i].username && logins[k].lastLogin == r.lastLogin)
  {
    if users != [] {
      JoinRowsComeFromInputs(users[1..], logins);
      RowsOfOneUser(users[0], logins);
      forall r | r in LeftJoin(users, logins)
        ensures exists i :: 0 <= i < |users| && RowOf(r, users[i]) &&
                  (r.lastLogin.Some? ==>
                     exists k :: 0 <= k < |logins| && logins[k].username == users[i].username && logins[k].lastLogin == r.lastLogin)
      {
        if r !in RowsFor(users[0], logins) {
          var i :| 0 <= i < |users[1..]| && RowOf(r, users[1..][i]) &&
                   (r.lastLogin.Some? ==>
                      exists k :: 0 <= k < |logins| && logins[k].username == users[1..][i].username && logins[k].lastLogin == r.lastLogin);
          assert users[i + 1] == users[1..][i];
        }
      }
    }
  }

  /**
   * A user whose username occurs in several login rows gets one row per such
   * login row: in particular no "last one wins" rule drops any of them.
   */
  lemma JoinKeepsEveryMatch(users: seq<User>, logins: seq<Login>, i: int, k: int)
    requires 0 <= i < |users| && 0 <= k < |logins|
    requires logins[k].username == users[i].username
    ensures JoinedRow(users[i].id, users[i].username, users[i].name, logins[k].lastLogin) in LeftJoin(users, logins)
  {
    JoinBlock(users, logins, i);
    RowsOfOneUser(users[i], logins);
  }

  /** With unique usernames, each user contributes exactly one row. */
  lemma RowsForUnique(u: User, logins: seq<Login>)
    requires UniqueUsernames(logins)
    ensures |RowsFor(u, logins)| == 1 && RowOf(RowsFor(u, logins)[0], u)
    ensures forall k :: 0 <= k < |logins| && logins[k].username == u.username ==>
              RowsFor(u, logins)[0].lastLogin == logins[k].lastLogin
    ensures (forall k :: 0 <= k < |logins| ==> logins[k].username != u.username) ==>
              RowsFor(u, logins)[0].lastLogin == None
  {
    MatchesUnique(u.username, logins);
  }

  lemma {:induction false} JoinLengthUnique(users: seq<User>, logins: seq<Login>)
    requires UniqueUsernames(logins)
    ensures |LeftJoin(users, logins)| == |users|
  {
    if users != [] {
      JoinLengthUnique(users[1..], logins);
      RowsForUnique(users[0], logins);
    }
  }

  /**
   * When no username occurs twice among the login rows, the merge has exactly
   * one row per user, in user order, carrying the matching `lastLogin` or none.
   */
  lemma JoinWithUniqueUsernames(users: seq<User>, logins: seq<Login>)
    requires UniqueUsernames(logins)
    ensures |LeftJoin(users, logins)| == |users|
    ensures forall i :: 0 <= i < |users| ==> RowOf(LeftJoin(users, logins)[i], users[i])
    ensures forall i, k :: 0 <= i < |users| && 0 <= k < |logins| && logins[k].username == users[i].username ==>
              LeftJoin(users, logins)[i].lastLogin == logins[k].lastLogin
    ensures forall i :: 0 <= i < |users| && (forall k :: 0 <= k < |logins| ==> logins[k].username != users[i].username) ==>
              LeftJoin(users, logins)[i].lastLogin == None
  {
    JoinLengthUnique(users, logins);
    forall i | 0 <= i < |users|
      ensures LeftJoin(users, logins)[i] == RowsFor(users[i], logins)[0]
    {
      JoinBlock(users, logins, i);
      JoinLengthUnique(users[..i], logins);
      RowsForUnique(users[i], logins);
    }
    forall i | 0 <= i < |users| {
      RowsForUnique(users[i], logins);
    }
  }
}

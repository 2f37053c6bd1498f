/**
 * The "load users" flow: filter the fetched users by organisation unit, build
 * the login table, merge, flag duplicate names and sort by last login.
 */
module UserTable {
  import opened Records
  import Seqs
  import opened OrgUnits
  import opened Logins
  import opened Join
  import opened Duplicates
  import opened Ordering
  import Recency

  /** What the flow produces. */
  datatype LoadOutcome =
    | NoUsersFound                   // the "Aucun utilisateur trouvé" warning
    | NoLastLoginColumn              // the login table has no `lastLogin` column: a `KeyError`
    | Loaded(table: seq<TableRow>)

  function TableLogin(r: TableRow): Option<Timestamp>
  {
    r.lastLogin
  }

  /**
   * The user table for unit `unitId`, from the fetched users and credential
   * records. Rebinds the table step by step as the script does.
   */
  method LoadUsers(fetched: seq<User>, unitId: string, creds: seq<Credential>, parse: string -> Option<Timestamp>)
    returns (outcome: LoadOutcome)
    ensures outcome == NoUsersFound <==> FilterByOrgUnit(fetched, unitId) == []
    ensures outcome == NoLastLoginColumn <==> FilterByOrgUnit(fetched, unitId) != [] && !HasLastLoginColumn(creds)
    ensures outcome.Loaded? ==>
              multiset(Seqs.Map(outcome.table, DropFlag)) ==
              multiset(LeftJoin(FilterByOrgUnit(fetched, unitId), ToDatetime(creds, parse)))
    ensures outcome.Loaded? ==>
              |outcome.table| >= |FilterByOrgUnit(fetched, unitId)| &&
              forall u :: u in FilterByOrgUnit(fetched, unitId) ==>
                exists r :: r in outcome.table && r.id == u.id && r.username == u.username && r.name == u.name
    ensures outcome.Loaded? && UniqueUsernames(ToDatetime(creds, parse)) ==>
              |outcome.table| == |FilterByOrgUnit(fetched, unitId)|
    ensures outcome.Loaded? ==> FlagsMarkNamesakes(outcome.table)
    ensures outcome.Loaded? ==> SortedDesc(outcome.table, TableLogin)
  {
    var users := FilterByOrgUnit(fetched, unitId);
    if users == [] {
      return NoUsersFound;
    }
    if !HasLastLoginColumn(creds) {
      return NoLastLoginColumn;
    }
    var logins := ToDatetime(creds, parse);
    var joined := LeftJoin(users, logins);
    var flagged := MarkDuplicates(joined);
    var sorted := SortByLastLogin(flagged, TableLogin);
    Seqs.MapPermutation(sorted, flagged, DropFlag);
    FlagsSurvivePermutation(flagged, sorted);
    PermutedJoinCoversUsers(sorted, users, logins);
    return Loaded(sorted);
  }

  lemma PermutedLength(table: seq<TableRow>, rows: seq<JoinedRow>)
    requires multiset(Seqs.Map(table, DropFlag)) == multiset(rows)
    ensures |table| == |rows|
  {
    var column := Seqs.Map(table, DropFlag);
    assert |column| == |multiset(column)|;
    assert |rows| == |multiset(rows)|;
  }

  lemma PermutedHasRow(table: seq<TableRow>, rows: seq<JoinedRow>, row: JoinedRow)
    requires multiset(Seqs.Map(table, DropFlag)) == multiset(rows)
    requires row in rows
    ensures exists r :: r in table && DropFlag(r) == row
  {
    var column := Seqs.Map(table, DropFlag);
    assert row in multiset(column);
    var k :| 0 <= k < |column| && column[k] == row;
    assert table[k] in table;
  }

  /** User `i` has a row in any reordering of the flagged merge. */
  lemma PermutedCoversUser(table: seq<TableRow>, users: seq<User>, logins: seq<Login>, i: int)
    requires multiset(Seqs.Map(table, DropFlag)) == multiset(LeftJoin(users, logins))
    requires 0 <= i < |users|
    ensures exists r :: r in table && r.id == users[i].id && r.username == users[i].username && r.name == users[i].name
  {
    JoinKeepsEveryUser(users, logins);
    var row :| row in LeftJoin(users, logins) && RowOf(row, users[i]);
    PermutedHasRow(table, LeftJoin(users, logins), row);
  }

  /**
   * Any reordering of the flagged merge still has a row for every user, and
   * exactly one per user when no username repeats among the login rows.
   */
  lemma PermutedJoinCoversUsers(table: seq<TableRow>, users: seq<User>, logins: seq<Login>)
    requires multiset(Seqs.Map(table, DropFlag)) == multiset(LeftJoin(users, logins))
    ensures |table| >= |users|
    ensures forall u :: u in users ==>
              exists r :: r in table && r.id == u.id && r.username == u.username && r.name == u.name
    ensures UniqueUsernames(logins) ==> |table| == |users|
  {
    assert |LeftJoin(users, logins)| >= |users| by {
      JoinKeepsEveryUser(users, logins);
    }
    PermutedLength(table, LeftJoin(users, logins));
    if UniqueUsernames(logins) {
      JoinLengthUnique(users, logins);
    }
    forall u | u in users
      ensures exists r :: r in table && r.id == u.id && r.username == u.username && r.name == u.name
    {
      var i :| 0 <= i < |users| && users[i] == u;
      PermutedCoversUser(table, users, logins, i);
    }
  }

  /**
   * Two accounts named "John Doe", only the first of which has logged in,
   * one day before: both rows are flagged, the first keeps its login and is
   * shaded green, the second has none and is shaded red.
   */
  lemma TwoJohnDoes(t: Timestamp)
    ensures var users := [User("u1", "jdoe", "John Doe", None), User("u2", "jdoe2", "John Doe", None)];
            var logins := [Login("jdoe", Some(t))];
            var table := MarkDuplicates(LeftJoin(users, logins));
            table == [TableRow("u1", "jdoe", "John Doe", Some(t), Oui), TableRow("u2", "jdoe2", "John Doe", None, Oui)] &&
            Recency.ColorLogin(table[0].lastLogin, t + NanosPerDay) == Recency.Green &&
            Recency.ColorLogin(table[1].lastLogin, t + NanosPerDay) == Recency.Red
  {
    var users := [User("u1", "jdoe", "John Doe", None), User("u2", "jdoe2", "John Doe", None)];
    var logins := [Login("jdoe", Some(t))];
    assert Matches("jdoe", logins) == [Some(t)];
    assert Matches("jdoe2", logins) == [];
    assert LeftJoin(users[1..], logins) == [JoinedRow("u2", "jdoe2", "John Doe", None)];
    var joined := LeftJoin(users, logins);
    assert joined == [JoinedRow("u1", "jdoe", "John Doe", Some(t)), JoinedRow("u2", "jdoe2", "John Doe", None)];
    var table := MarkDuplicates(joined);
    assert HasNamesake(table, 0) by { assert table[1].name == table[0].name; }
    assert HasNamesake(table, 1) by { assert table[0].name == table[1].name; }
  }
}

/**
 * The `doublon` column: `duplicated(subset='name', keep=False)` on the merged
 * table, written as "Oui" or "Non".
 */
module Duplicates {
  import opened Records
  import Seqs
  import opened Join

  /** A row of the user table once the `doublon` column is added. */
  datatype TableRow = TableRow(id: string, username: string, name: string, lastLogin: Option<Timestamp>, doublon: YesNo)

  function JoinedName(r: JoinedRow): string
  {
    r.name
  }

  function TableName(r: TableRow): string
  {
    r.name
  }

  /** The merged row a table row extends, i.e. the table without its `doublon` column. */
  function DropFlag(r: TableRow): JoinedRow
  {
    JoinedRow(r.id, r.username, r.name, r.lastLogin)
  }

  /** Whether some row of `table` other than row `i` has exactly the same name. */
  predicate HasNamesake(table: seq<TableRow>, i: int)
    requires 0 <= i < |table|
  {
    exists j :: 0 <= j < |table| && j != i && table[j].name == table[i].name
  }

  /** The meaning of the column: "Oui" exactly on the rows whose name another row shares. */
  predicate FlagsMarkNamesakes(table: seq<TableRow>)
  {
    forall i :: 0 <= i < |table| ==> (table[i].doublon == Oui <==> HasNamesake(table, i))
  }

  /** Another position holds the same name exactly when the name occurs more than once. */
  lemma NamesakeIffCount(names: seq<string>, i: int)
    requires 0 <= i < |names|
    ensures (exists j :: 0 <= j < |names| && j != i && names[j] == names[i]) <==> multiset(names)[names[i]] > 1
  {
    var pre, post := names[..i], names[i + 1..];
    assert names == pre + [names[i]] + post;
    assert multiset(names)[names[i]] == multiset(pre)[names[i]] + 1 + multiset(post)[names[i]];
    if multiset(pre)[names[i]] > 0 {
      var j :| 0 <= j < |pre| && pre[j] == names[i];
      assert names[j] == names[i];
    }
    if multiset(post)[names[i]] > 0 {
      var j :| 0 <= j < |post| && post[j] == names[i];
      assert names[i + 1 + j] == names[i];
    }
    if j :| 0 <= j < |names| && j != i && names[j] == names[i] {
      if j < i {
        assert pre[j] == names[i];
      } else {
        assert post[j - i - 1] == names[i];
      }
    }
  }

  /** A row has a namesake exactly when its name occurs more than once in the name column. */
  lemma HasNamesakeByCount(table: seq<TableRow>, i: int)
    requires 0 <= i < |table|
    ensures HasNamesake(table, i) <==> multiset(Seqs.Map(table, TableName))[table[i].name] > 1
  {
    NamesakeIffCount(Seqs.Map(table, TableName), i);
  }

  /**
   * The table with the `doublon` column: the merged rows unchanged and in
   * order, each flagged "Oui" when its name is shared by another row. Like
   * pandas, it counts how often each name occurs.
   */
  function MarkDuplicates(rows: seq<JoinedRow>): (table: seq<TableRow>)
    ensures |table| == |rows|
    ensures Seqs.Map(table, DropFlag) == rows
    ensures FlagsMarkNamesakes(table)
  {
    var counts := multiset(Seqs.Map(rows, JoinedName));
    var table := seq(|rows|, i requires 0 <= i < |rows| =>
                   var r := rows[i];
                   TableRow(r.id, r.username, r.name, r.lastLogin, if counts[r.name] > 1 then Oui else Non));
    FlagsByCount(rows, table);
    table
  }

  /** Flagging by name count marks exactly the rows that have a namesake. */
  lemma FlagsByCount(rows: seq<JoinedRow>, table: seq<TableRow>)
    requires |table| == |rows|
    requires forall i :: 0 <= i < |rows| ==>
               table[i] == TableRow(rows[i].id, rows[i].username, rows[i].name, rows[i].lastLogin,
                                    if multiset(Seqs.Map(rows, JoinedName))[rows[i].name] > 1 then Oui else Non)
    ensures Seqs.Map(table, DropFlag) == rows
    ensures FlagsMarkNamesakes(table)
  {
    SameNames(rows, table);
    var counts := multiset(Seqs.Map(table, TableName));
    forall i | 0 <= i < |table| ensures table[i].doublon == Oui <==> HasNamesake(table, i) {
      assert table[i].doublon == Oui <==> counts[table[i].name] > 1;
      HasNamesakeByCount(table, i);
    }
    DropFlagColumn(rows, table);
  }

  lemma DropFlagColumn(rows: seq<JoinedRow>, table: seq<TableRow>)
    requires |table| == |rows|
    requires forall i :: 0 <= i < |rows| ==>
               table[i].id == rows[i].id && table[i].username == rows[i].username &&
               table[i].name == rows[i].name && table[i].lastLogin == rows[i].lastLogin
    ensures Seqs.Map(table, DropFlag) == rows
  {
    var column := Seqs.Map(table, DropFlag);
    assert |column| == |rows|;
  }

  lemma SameNames(rows: seq<JoinedRow>, table: seq<TableRow>)
    requires |table| == |rows|
    requires forall i :: 0 <= i < |rows| ==> table[i].name == rows[i].name
    ensures Seqs.Map(table, TableName) == Seqs.Map(rows, JoinedName)
  {
    var a, b := Seqs.Map(table, TableName), Seqs.Map(rows, JoinedName);
    assert |a| == |b|;
    assert forall i :: 0 <= i < |a| ==> a[i] == b[i];
  }

  /** Reordering the rows keeps the column meaningful: the flag depends only on the multiset of names. */
  lemma FlagsSurvivePermutation(t1: seq<TableRow>, t2: seq<TableRow>)
    requires multiset(t1) == multiset(t2)
    requires FlagsMarkNamesakes(t1)
    ensures FlagsMarkNamesakes(t2)
  {
    Seqs.MapPermutation(t1, t2, TableName);
    forall i | 0 <= i < |t2| ensures t2[i].doublon == Oui <==> HasNamesake(t2, i) {
      assert t2[i] in multiset(t1);
      var a :| 0 <= a < |t1| && t1[a] == t2[i];
      HasNamesakeByCount(t1, a);
      HasNamesakeByCount(t2, i);
    }
  }

  /** Rows that share a name are all flagged "Oui". */
  lemma NamesakesAreFlagged(table: seq<TableRow>, i: int, j: int)
    requires FlagsMarkNamesakes(table)
    requires 0 <= i < |table| && 0 <= j < |table| && i != j
    requires table[i].name == table[j].name
    ensures table[i].doublon == Oui && table[j].doublon == Oui
  {
    assert HasNamesake(table, i);
    assert table[i].name == table[j].name;
    assert HasNamesake(table, j);
  }

  /** A name that occurs once is flagged "Non". */
  lemma SingleNameIsNotFlagged(table: seq<TableRow>, i: int)
    requires FlagsMarkNamesakes(table)
    requires 0 <= i < |table|
    requires multiset(Seqs.Map(table, TableName))[table[i].name] == 1
    ensures table[i].doublon == Non
  {
    HasNamesakeByCount(table, i);
  }
}

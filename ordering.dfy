/**
 * `sort_values(by='lastLogin', ascending=False)`: the most recent login first,
 * missing values (`NaT`) last, which is pandas' default `na_position`.
 */
module Ordering {
  import opened Records

  /** Whether a row with login `a` may stand before a row with login `b` in the sorted table. */
  predicate LoginFirst(a: Option<Timestamp>, b: Option<Timestamp>)
  {
    b.None? || (a.Some? && a.value >= b.value)
  }

  /** Descending by `key`: later logins first, and every present login before every missing one. */
  predicate SortedDesc<T>(s: seq<T>, key: T -> Option<Timestamp>)
  {
    forall i, j :: 0 <= i < j < |s| ==> LoginFirst(key(s[i]), key(s[j]))
  }

  /** `x` put into the sorted `s` at the first place where it may stand before the rest. */
  function Insert<T>(s: seq<T>, x: T, key: T -> Option<Timestamp>): (r: seq<T>)
    ensures multiset(r) == multiset(s) + multiset{x}
  {
    if s == [] then [x]
    else if !LoginFirst(key(s[0]), key(x)) then [x] + s
    else
      assert s == [s[0]] + s[1..];
      [s[0]] + Insert(s[1..], x, key)
  }

  /** Inserting into a descending table keeps it descending. */
  lemma {:induction false} InsertSorted<T>(s: seq<T>, x: T, key: T -> Option<Timestamp>)
    requires SortedDesc(s, key)
    ensures SortedDesc(Insert(s, x, key), key)
  {
    if s != [] {
      if !LoginFirst(key(s[0]), key(x)) {
        assert forall j :: 0 <= j < |s| ==> LoginFirst(key(x), key(s[j]));
      } else {
        var rest := Insert(s[1..], x, key);
        InsertSorted(s[1..], x, key);
        forall j | 0 <= j < |rest| ensures LoginFirst(key(s[0]), key(rest[j])) {
          assert rest[j] in multiset(rest);
          if rest[j] != x {
            assert rest[j] in multiset(s[1..]);
            var k :| 0 <= k < |s[1..]| && s[1..][k] == rest[j];
            assert s[k + 1] == rest[j];
          }
        }
        assert Insert(s, x, key) == [s[0]] + rest;
      }
    }
  }

  /**
   * The rows reordered so that logins descend and missing logins come last.
   * The order among rows with equal logins is not promised: pandas' default
   * sort is not stable.
   */
  function SortByLastLogin<T>(rows: seq<T>, key: T -> Option<Timestamp>): (sorted: seq<T>)
    ensures multiset(sorted) == multiset(rows)
    ensures SortedDesc(sorted, key)
  {
    if rows == [] then []
    else
      assert rows == [rows[0]] + rows[1..];
      var sorted := SortByLastLogin(rows[1..], key);
      InsertSorted(sorted, rows[0], key);
      Insert(sorted, rows[0], key)
  }
}

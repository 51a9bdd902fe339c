/**
 * The meaning of the SQL clauses the repositories use, over a table held as
 * the sequence of its rows in storage order: `WHERE` keeps the rows a
 * condition accepts, `UPDATE ... WHERE` rewrites them in place, `LIKE '%k%'`
 * is a substring test and `ORDER BY date DESC` sorts newest first.
 */
module Sql {
  import opened Calendar

  /** `SELECT * ... WHERE p` (and the rows a `DELETE` keeps, with the condition negated), in storage order. */
  function Where<T(!new)>(s: seq<T>, p: T -> bool): (r: seq<T>)
    ensures forall x :: x in r <==> x in s && p(x)
    ensures multiset(r) <= multiset(s)
    ensures forall x :: p(x) ==> multiset(r)[x] == multiset(s)[x]
  {
    if s == [] then []
    else
      assert s == [s[0]] + s[1..];
      (if p(s[0]) then [s[0]] else []) + Where(s[1..], p)
  }

  /** `UPDATE ... SET ... WHERE p`: every row `p` accepts is replaced by `f` of it, in its place. */
  function UpdateWhere<T>(s: seq<T>, p: T -> bool, f: T -> T): (r: seq<T>)
    ensures |r| == |s|
    ensures forall i :: 0 <= i < |s| ==> r[i] == if p(s[i]) then f(s[i]) else s[i]
  {
    if s == [] then []
    else [if p(s[0]) then f(s[0]) else s[0]] + UpdateWhere(s[1..], p, f)
  }

  /** `k` occurs at the start of `s`. */
  predicate IsPrefix(k: string, s: string) {
    |k| <= |s| && s[..|k|] == k
  }

  /** `s LIKE '%k%'` read as plain substring containment. */
  predicate Contains(s: string, k: string)
    decreases |s|
  {
    IsPrefix(k, s) || (0 < |s| && Contains(s[1..], k))
  }

  /** Every string contains the empty one, so `LIKE '%%'` accepts every title. */
  lemma ContainsEmpty(s: string)
    ensures Contains(s, "")
  {
  }

  /** Newest first: no row is older than a row after it. */
  ghost predicate SortedByDateDesc<T>(s: seq<T>, date: T -> DateTime) {
    forall i, j :: 0 <= i < j < |s| ==> DateTimeLeq(date(s[j]), date(s[i]))
  }

  /** Places `x` before the first row that is not newer than it. */
  function InsertByDateDesc<T>(x: T, s: seq<T>, date: T -> DateTime): (r: seq<T>)
    ensures multiset(r) == multiset(s) + multiset{x}
  {
    if s == [] then [x]
    else if DateTimeLeq(date(s[0]), date(x)) then [x] + s
    else
      assert s == [s[0]] + s[1..];
      [s[0]] + InsertByDateDesc(x, s[1..], date)
  }

  /** A row that is not older than any row of a newest-first sequence can head it. */
  lemma ConsKeepsSorted<T>(h: T, s: seq<T>, date: T -> DateTime)
    requires SortedByDateDesc(s, date)
    requires forall y :: y in s ==> DateTimeLeq(date(y), date(h))
    ensures SortedByDateDesc([h] + s, date)
  {
    var r := [h] + s;
    forall i, j | 0 <= i < j < |r| ensures DateTimeLeq(date(r[j]), date(r[i])) {
      if i == 0 { assert r[j] in s; } else { assert r[i] == s[i - 1] && r[j] == s[j - 1]; }
    }
  }

  lemma {:induction false} InsertKeepsSorted<T>(x: T, s: seq<T>, date: T -> DateTime)
    requires SortedByDateDesc(s, date)
    ensures SortedByDateDesc(InsertByDateDesc(x, s, date), date)
  {
    if s == [] {
    } else if DateTimeLeq(date(s[0]), date(x)) {
      forall y | y in s ensures DateTimeLeq(date(y), date(x)) {
        var j :| 0 <= j < |s| && s[j] == y;
        if j > 0 { DateTimeLeqTransitive(date(s[j]), date(s[0]), date(x)); }
      }
      ConsKeepsSorted(x, s, date);
    } else {
      var rest := InsertByDateDesc(x, s[1..], date);
      InsertKeepsSorted(x, s[1..], date);
      DateTimeLeqTotal(date(s[0]), date(x));
      forall y | y in rest ensures DateTimeLeq(date(y), date(s[0])) {
        assert y in multiset(rest);
        if y != x {
          var k :| 0 <= k < |s[1..]| && s[1..][k] == y;
          assert s[k + 1] == y;
        }
      }
      ConsKeepsSorted(s[0], rest, date);
    }
  }

  /** `ORDER BY date DESC`: the same rows, newest first; the order among equal timestamps is not promised. */
  function SortByDateDesc<T>(s: seq<T>, date: T -> DateTime): (r: seq<T>)
    ensures multiset(r) == multiset(s)
    ensures SortedByDateDesc(r, date)
  {
    if s == [] then []
    else
      assert s == [s[0]] + s[1..];
      var sorted := SortByDateDesc(s[1..], date);
      InsertKeepsSorted(s[0], sorted, date);
      InsertByDateDesc(s[0], sorted, date)
  }

  /** `SELECT * ... WHERE p ORDER BY date DESC`. */
  function WhereOrderByDateDesc<T(!new)>(s: seq<T>, p: T -> bool, date: T -> DateTime): (r: seq<T>)
    ensures forall x :: x in r <==> x in s && p(x)
    ensures multiset(r) <= multiset(s)
    ensures forall x :: p(x) ==> multiset(r)[x] == multiset(s)[x]
    ensures SortedByDateDesc(r, date)
  {
    var w := Where(s, p);
    var r := SortByDateDesc(w, date);
    assert forall x :: x in r <==> x in w by {
      forall x ensures x in r <==> x in w {
        assert x in r <==> x in multiset(r);
        assert x in w <==> x in multiset(w);
      }
    }
    r
  }

  /** No two rows share a key: what a PRIMARY KEY column guarantees. */
  ghost predicate UniqueKeys<T>(s: seq<T>, key: T -> int) {
    forall i, j :: 0 <= i < j < |s| ==> key(s[i]) != key(s[j])
  }

  ghost predicate HasKey<T>(s: seq<T>, key: T -> int, k: int) {
    exists x :: x in s && key(x) == k
  }

  /** Under unique keys, a key identifies one row. */
  lemma UniqueKeysIdentify<T>(s: seq<T>, key: T -> int)
    ensures UniqueKeys(s, key) ==> forall x, y :: x in s && y in s && key(x) == key(y) ==> x == y
  {
    if UniqueKeys(s, key) {
      forall x, y | x in s && y in s && key(x) == key(y) ensures x == y {
        var i :| 0 <= i < |s| && s[i] == x;
        var j :| 0 <= j < |s| && s[j] == y;
        assert !(i < j) && !(j < i);
      }
    }
  }

  /** Dropping the first row keeps the keys unique, and no remaining row has the first row's key. */
  lemma TailKeepsUniqueKeys<T>(s: seq<T>, key: T -> int)
    requires s != [] && UniqueKeys(s, key)
    ensures UniqueKeys(s[1..], key)
    ensures !HasKey(s[1..], key, key(s[0]))
  {
    var tail := s[1..];
    forall i, j | 0 <= i < j < |tail| ensures key(tail[i]) != key(tail[j]) {
      assert tail[i] == s[i + 1] && tail[j] == s[j + 1];
    }
    forall x | x in tail ensures key(x) != key(s[0]) {
      var i :| 0 <= i < |tail| && tail[i] == x;
      assert s[i + 1] == x;
    }
  }

  /** A key whose rows are unique matches one row when present and none otherwise. */
  lemma {:induction false} WhereByKey<T(!new)>(s: seq<T>, p: T -> bool, key: T -> int, k: int)
    requires UniqueKeys(s, key)
    requires forall x :: p(x) <==> key(x) == k
    ensures |Where(s, p)| == if HasKey(s, key, k) then 1 else 0
  {
    if s != [] {
      var tail := s[1..];
      TailKeepsUniqueKeys(s, key);
      WhereByKey(tail, p, key, k);
      assert HasKey(s, key, k) <==> key(s[0]) == k || HasKey(tail, key, k) by {
        assert s == [s[0]] + tail;
      }
      if key(s[0]) == k {
        assert Where(s, p) == [s[0]] + Where(tail, p);
      } else {
        assert Where(s, p) == Where(tail, p);
      }
    }
  }

  lemma {:induction false} WhereKeepsUniqueKeys<T(!new)>(s: seq<T>, p: T -> bool, key: T -> int)
    requires UniqueKeys(s, key)
    ensures UniqueKeys(Where(s, p), key)
  {
    if s != [] {
      var tail := s[1..];
      TailKeepsUniqueKeys(s, key);
      WhereKeepsUniqueKeys(tail, p, key);
      var rest := Where(tail, p);
      if p(s[0]) {
        assert Where(s, p) == [s[0]] + rest;
        forall x | x in rest ensures key(x) != key(s[0]) {
          assert x in tail;
        }
        KeepsUniqueKeysWithHead(s[0], rest, key);
      } else {
        assert Where(s, p) == rest;
      }
    }
  }

  lemma KeepsUniqueKeysWithHead<T>(x: T, s: seq<T>, key: T -> int)
    requires UniqueKeys(s, key)
    requires forall y :: y in s ==> key(y) != key(x)
    ensures UniqueKeys([x] + s, key)
  {
    var r := [x] + s;
    forall i, j | 0 <= i < j < |r| ensures key(r[i]) != key(r[j]) {
      if i == 0 { assert r[j] in s; } else { assert r[i] == s[i - 1] && r[j] == s[j - 1]; }
    }
  }

  lemma UpdateKeepsUniqueKeys<T>(s: seq<T>, p: T -> bool, f: T -> T, key: T -> int)
    requires UniqueKeys(s, key)
    requires forall x :: key(f(x)) == key(x)
    ensures UniqueKeys(UpdateWhere(s, p, f), key)
  {
    var r := UpdateWhere(s, p, f);
    forall i, j | 0 <= i < j < |r| ensures key(r[i]) != key(r[j]) {
      assert key(r[i]) == key(s[i]) && key(r[j]) == key(s[j]);
    }
  }
}

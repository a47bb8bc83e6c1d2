/**
 * Rows of a table as a sequence in storage order, and the relational
 * operations the repositories are built from: selection (`where`), ordering
 * (`order by`), lookup by primary key, first row (`findFirst`) and
 * `Collectors.groupingBy`.
 */
module Rows {
  import opened Common

  /** An `order by` key: two columns, compared lexicographically, ascending. */
  type Key = (int, int)

  predicate KeyLe(a: Key, b: Key) {
    a.0 < b.0 || (a.0 == b.0 && a.1 <= b.1)
  }

  /** The rows are in `order by key` order. */
  predicate SortedBy<T(!new)>(s: seq<T>, key: T -> Key) {
    forall i, j :: 0 <= i < j < |s| ==> KeyLe(key(s[i]), key(s[j]))
  }

  /** `where p`: the rows satisfying `p`, in storage order. */
  function Filter<T(!new)>(s: seq<T>, p: T -> bool): (r: seq<T>)
    ensures |r| <= |s|
    ensures forall x :: x in r <==> x in s && p(x)
  {
    if s == [] then []
    else (if p(s[0]) then [s[0]] else []) + Filter(s[1..], p)
  }

  /** Selection keeps each qualifying row as often as it occurs. */
  lemma {:induction false} FilterCount<T(!new)>(s: seq<T>, p: T -> bool, x: T)
    ensures multiset(Filter(s, p))[x] == if p(x) then multiset(s)[x] else 0
  {
    if s != [] {
      FilterCount(s[1..], p, x);
      assert s == [s[0]] + s[1..];
    }
  }

  /** Selection commutes with reordering: permuted rows give permuted results. */
  lemma FilterPermutation<T(!new)>(a: seq<T>, b: seq<T>, p: T -> bool)
    requires multiset(a) == multiset(b)
    ensures multiset(Filter(a, p)) == multiset(Filter(b, p))
  {
    forall x ensures multiset(Filter(a, p))[x] == multiset(Filter(b, p))[x] {
      FilterCount(a, p, x);
      FilterCount(b, p, x);
    }
  }

  /** Two conditions that agree on every row select the same rows. */
  lemma {:induction false} FilterCongruent<T(!new)>(s: seq<T>, p: T -> bool, q: T -> bool)
    requires forall x :: x in s ==> p(x) == q(x)
    ensures Filter(s, p) == Filter(s, q)
  {
    if s != [] {
      FilterCongruent(s[1..], p, q);
    }
  }

  lemma {:induction false} FilterAppend<T(!new)>(s: seq<T>, t: seq<T>, p: T -> bool)
    ensures Filter(s + t, p) == Filter(s, p) + Filter(t, p)
  {
    if s == [] {
      assert s + t == t;
    } else {
      assert (s + t)[1..] == s[1..] + t;
      FilterAppend(s[1..], t, p);
    }
  }

  /** The conjunction of two conditions. */
  function Both<T>(p: T -> bool, q: T -> bool): T -> bool {
    (x: T) => p(x) && q(x)
  }

  /** Two successive selections are one selection by both conditions. */
  lemma {:induction false} FilterTwice<T(!new)>(s: seq<T>, p: T -> bool, q: T -> bool)
    ensures Filter(Filter(s, p), q) == Filter(s, Both(p, q))
  {
    if s != [] {
      var head := if p(s[0]) then [s[0]] else [];
      FilterTwice(s[1..], p, q);
      FilterAppend(head, Filter(s[1..], p), q);
      if p(s[0]) {
        assert head[1..] == [];
      }
    }
  }

  /** Two successive selections are one selection by any condition equivalent to both. */
  lemma FilterTwiceIs<T(!new)>(s: seq<T>, p: T -> bool, q: T -> bool, r: T -> bool)
    requires forall x :: x in s ==> (p(x) && q(x)) == r(x)
    ensures Filter(Filter(s, p), q) == Filter(s, r)
  {
    FilterTwice(s, p, q);
    FilterCongruent(s, Both(p, q), r);
  }

  /** Selecting from rows in key order leaves them in key order. */
  lemma {:induction false} FilterSorted<T(!new)>(s: seq<T>, p: T -> bool, key: T -> Key)
    requires SortedBy(s, key)
    ensures SortedBy(Filter(s, p), key)
  {
    if s != [] {
      FilterSorted(s[1..], p, key);
      var rest := Filter(s[1..], p);
      forall y | y in rest ensures KeyLe(key(s[0]), key(y)) {
        var j :| 0 <= j < |s[1..]| && s[1..][j] == y;
        assert s[j + 1] == y;
      }
    }
  }

  /** Places `x` in front of the first row with a larger key. */
  function Insert<T(!new)>(x: T, s: seq<T>, key: T -> Key): (r: seq<T>)
    requires SortedBy(s, key)
    ensures SortedBy(r, key)
    ensures multiset(r) == multiset(s) + multiset{x}
  {
    if s == [] then [x]
    else if KeyLe(key(x), key(s[0])) then [x] + s
    else
      var rest := Insert(x, s[1..], key);
      assert forall j :: 0 <= j < |rest| ==> KeyLe(key(s[0]), key(rest[j])) by {
        forall j | 0 <= j < |rest| ensures KeyLe(key(s[0]), key(rest[j])) {
          assert rest[j] in multiset(rest);
          if rest[j] != x {
            var m :| 0 <= m < |s[1..]| && s[1..][m] == rest[j];
            assert s[m + 1] == rest[j];
          }
        }
      }
      assert s == [s[0]] + s[1..];
      [s[0]] + rest
  }

  /** `order by key`: a reordering of the rows that is in key order. */
  function SortByKey<T(!new)>(s: seq<T>, key: T -> Key): (r: seq<T>)
    ensures SortedBy(r, key)
    ensures multiset(r) == multiset(s)
    ensures |r| == |s|
  {
    if s == [] then []
    else
      assert s == [s[0]] + s[1..];
      Insert(s[0], SortByKey(s[1..], key), key)
  }

  /**
   * `where p order by key`: the rows satisfying `p`, each as often as it is
   * stored, in key order.
   */
  function Select<T(!new)>(s: seq<T>, p: T -> bool, key: T -> Key): (r: seq<T>)
    ensures SortedBy(r, key)
    ensures forall x :: multiset(r)[x] == if p(x) then multiset(s)[x] else 0
    ensures forall x :: x in r <==> x in s && p(x)
  {
    var f := Filter(s, p);
    var r := SortByKey(f, key);
    assert forall x :: multiset(r)[x] == if p(x) then multiset(s)[x] else 0 by {
      forall x ensures multiset(r)[x] == if p(x) then multiset(s)[x] else 0 {
        FilterCount(s, p, x);
      }
    }
    assert forall x :: x in r <==> x in multiset(r);
    r
  }

  /** The first row of a sorted sequence has the least key. */
  lemma SortedHeadLeast<T(!new)>(s: seq<T>, key: T -> Key, y: T)
    requires SortedBy(s, key) && y in s
    ensures KeyLe(key(s[0]), key(y))
  {
    var j :| 0 <= j < |s| && s[j] == y;
    if j == 0 {
      assert KeyLe(key(y), key(y));
    }
  }

  /** `stream().findFirst()` / `Optional` of a `findFirst...` query. */
  function Head<T(!new)>(s: seq<T>): (r: Option<T>)
    ensures r.None? <==> s == []
    ensures r.Some? ==> r.value == s[0]
  {
    if s == [] then None else Some(s[0])
  }

  /** `Map.get`: the value stored under `k`, or nothing (Java's `null`). */
  function Get<K, V>(m: map<K, V>, k: K): (r: Option<V>)
    ensures r.Some? <==> k in m
    ensures r.Some? ==> r.value == m[k]
  {
    if k in m then Some(m[k]) else None
  }

  /** `getOrDefault(k, List.of())` on a map of row lists. */
  function GetOrEmpty<K, V>(m: map<K, seq<V>>, k: K): seq<V> {
    if k in m then m[k] else []
  }

  /** The key column of the rows, in order (`rows.stream().map(key)`). */
  function KeysOf<T>(rows: seq<T>, key: T -> int): (ids: seq<int>)
    ensures |ids| == |rows|
    ensures forall i :: 0 <= i < |rows| ==> ids[i] == key(rows[i])
  {
    seq(|rows|, i requires 0 <= i < |rows| => key(rows[i]))
  }

  /** `findById`: the row whose primary key is `k`, if any. */
  function Find<T(!new)>(rows: seq<T>, key: T -> int, k: int): (r: Option<T>)
    ensures r.Some? ==> r.value in rows && key(r.value) == k
    ensures r.None? <==> forall x :: x in rows ==> key(x) != k
  {
    if rows == [] then None
    else if key(rows[0]) == k then Some(rows[0])
    else Find(rows[1..], key, k)
  }

  /** The row `Find` returns is the first one with that key. */
  lemma {:induction false} FindFirst<T(!new)>(rows: seq<T>, key: T -> int, k: int) returns (i: nat)
    requires Find(rows, key, k).Some?
    ensures i < |rows| && rows[i] == Find(rows, key, k).value
    ensures forall j :: 0 <= j < i ==> key(rows[j]) != k
  {
    if key(rows[0]) == k {
      i := 0;
    } else {
      var i' := FindFirst(rows[1..], key, k);
      i := i' + 1;
    }
  }

  /** Appending a row changes a lookup only when no earlier row had the key. */
  lemma {:induction false} FindAppend<T(!new)>(rows: seq<T>, key: T -> int, k: int, x: T)
    ensures Find(rows + [x], key, k) == if Find(rows, key, k).Some? then Find(rows, key, k) else if key(x) == k then Some(x) else None
  {
    if rows == [] {
      assert rows + [x] == [x];
      assert [x][1..] == [];
    } else {
      assert (rows + [x])[0] == rows[0];
      assert (rows + [x])[1..] == rows[1..] + [x];
      FindAppend(rows[1..], key, k, x);
    }
  }

  /** No two rows share a primary key. */
  predicate DistinctKeys<T(!new)>(rows: seq<T>, key: T -> int) {
    forall i, j :: 0 <= i < j < |rows| ==> key(rows[i]) != key(rows[j])
  }

  /** Every primary key was drawn from the counter before it reached `next`. */
  predicate KeysBelow<T(!new)>(rows: seq<T>, key: T -> int, next: int) {
    forall i :: 0 <= i < |rows| ==> 1 <= key(rows[i]) < next
  }

  /** The table invariant: keys are distinct and drawn from the counter. */
  predicate WellKeyed<T(!new)>(rows: seq<T>, key: T -> int, next: int) {
    DistinctKeys(rows, key) && KeysBelow(rows, key, next)
  }

  /** Inserting a row keyed by the counter keeps the table well keyed. */
  lemma AppendFresh<T(!new)>(rows: seq<T>, key: T -> int, next: int, x: T)
    requires 1 <= next && WellKeyed(rows, key, next) && key(x) == next
    ensures WellKeyed(rows + [x], key, next + 1)
  {
  }

  /** A row inserted under a fresh key is what a lookup by that key then finds. */
  lemma AppendFreshFound<T(!new)>(rows: seq<T>, key: T -> int, next: int, x: T)
    requires KeysBelow(rows, key, next) && key(x) == next
    ensures Find(rows + [x], key, next) == Some(x)
  {
    FindAppend(rows, key, next, x);
  }

  /** `save` of a row whose key exists: that row is replaced, the others are kept. */
  function Replace<T(!new)>(rows: seq<T>, key: T -> int, x: T): (r: seq<T>)
    ensures |r| == |rows|
    ensures forall i :: 0 <= i < |rows| ==> r[i] == if key(rows[i]) == key(x) then x else rows[i]
  {
    seq(|rows|, i requires 0 <= i < |rows| => if key(rows[i]) == key(x) then x else rows[i])
  }

  lemma ReplaceKeepsKeys<T(!new)>(rows: seq<T>, key: T -> int, next: int, x: T)
    requires WellKeyed(rows, key, next) && Find(rows, key, key(x)).Some?
    ensures WellKeyed(Replace(rows, key, x), key, next)
  {
  }

  /** After a replacement, a lookup by the replaced key finds the new row. */
  lemma FindReplaced<T(!new)>(rows: seq<T>, key: T -> int, x: T)
    requires Find(rows, key, key(x)).Some?
    ensures Find(Replace(rows, key, x), key, key(x)) == Some(x)
  {
    var r := Replace(rows, key, x);
    var i :| 0 <= i < |rows| && rows[i] == Find(rows, key, key(x)).value;
    assert r[i] == x;
  }

  /** The predicate "the row's `key` column equals `k`". */
  function HasKey<T(!new)>(key: T -> int, k: int): T -> bool {
    x => key(x) == k
  }

  /** The predicate "the row's `key` column differs from `k`". */
  function LacksKey<T(!new)>(key: T -> int, k: int): T -> bool {
    x => key(x) != k
  }

  /** `delete`: every row whose key is `k` disappears, the others keep their order. */
  function Remove<T(!new)>(rows: seq<T>, key: T -> int, k: int): (r: seq<T>)
    ensures forall x :: x in r <==> x in rows && key(x) != k
  {
    Filter(rows, LacksKey(key, k))
  }

  lemma {:induction false} RemoveKeepsKeys<T(!new)>(rows: seq<T>, key: T -> int, next: int, k: int)
    requires WellKeyed(rows, key, next)
    ensures WellKeyed(Remove(rows, key, k), key, next)
    decreases |rows|
  {
    if rows != [] {
      assert WellKeyed(rows[1..], key, next) by {
        forall i, j | 0 <= i < j < |rows[1..]|
          ensures key(rows[1..][i]) != key(rows[1..][j])
        {
          assert rows[1..][i] == rows[i + 1] && rows[1..][j] == rows[j + 1];
        }
      }
      RemoveKeepsKeys(rows[1..], key, next, k);
      var rest := Remove(rows[1..], key, k);
      assert Remove(rows, key, k) == (if key(rows[0]) != k then [rows[0]] else []) + rest;
      forall y | y in rest ensures key(y) != key(rows[0]) {
        var j :| 0 <= j < |rows[1..]| && rows[1..][j] == y;
        assert rows[j + 1] == y;
      }
    }
  }

  /**
   * `Collectors.groupingBy(key)`: one entry per key that occurs, holding the
   * rows with that key in encounter order.
   */
  function GroupBy<T(!new)>(s: seq<T>, key: T -> int): (m: map<int, seq<T>>)
    ensures forall k :: k in m <==> exists x :: x in s && key(x) == k
    ensures forall k :: k in m ==> m[k] == Filter(s, HasKey(key, k))
  {
    map k | k in (set i | 0 <= i < |s| :: key(s[i])) :: Filter(s, HasKey(key, k))
  }

  /** A key that no row carries selects nothing. */
  lemma EmptyGroup<T(!new)>(s: seq<T>, key: T -> int, k: int)
    requires forall x :: x in s ==> key(x) != k
    ensures Filter(s, HasKey(key, k)) == []
  {
  }

  /** `getOrDefault(k, List.of())` on a grouping is the selection of group `k`. */
  lemma GroupByGetOrDefault<T(!new)>(s: seq<T>, key: T -> int, k: int)
    ensures (if k in GroupBy(s, key) then GroupBy(s, key)[k] else []) == Filter(s, HasKey(key, k))
  {
    if k !in GroupBy(s, key) {
      EmptyGroup(s, key, k);
    }
  }
}

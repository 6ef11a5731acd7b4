/** Stable sorting by a comparator, the behaviour `Array.prototype.sort` guarantees and
    SQL `ORDER BY` produces. `le(a, b)` means "a may come before b" (`compare(a, b) <= 0`).
    Insertion sort is used as the reference definition; it is stable because an element
    is inserted in front of every element it ties with. */
module Sorting {

  /** `le` compares every pair and is transitive. */
  ghost predicate TotalPreorder<T(!new)>(le: (T, T) -> bool) {
    (forall a, b :: le(a, b) || le(b, a))
    && Transitive(le)
  }

  ghost predicate Transitive<T(!new)>(le: (T, T) -> bool) {
    forall a, b, c :: le(a, b) && le(b, c) ==> le(a, c)
  }

  predicate SortedBy<T>(s: seq<T>, le: (T, T) -> bool) {
    forall i, j :: 0 <= i < j < |s| ==> le(s[i], s[j])
  }

  /** Inserts `x` in front of the first element it may precede. */
  function Insert<T>(x: T, s: seq<T>, le: (T, T) -> bool): (r: seq<T>)
    ensures |r| == |s| + 1
    ensures multiset(r) == multiset(s) + multiset{x}
  {
    if s == [] || le(x, s[0]) then [x] + s
    else
      assert s == [s[0]] + s[1..];
      [s[0]] + Insert(x, s[1..], le)
  }

  /** The input sorted by `le`, ties kept in input order. */
  function SortBy<T>(s: seq<T>, le: (T, T) -> bool): (r: seq<T>)
    ensures |r| == |s|
    ensures multiset(r) == multiset(s)
  {
    if s == [] then []
    else
      assert s == [s[0]] + s[1..];
      Insert(s[0], SortBy(s[1..], le), le)
  }

  lemma {:induction false} InsertSorted<T(!new)>(x: T, s: seq<T>, le: (T, T) -> bool)
    requires TotalPreorder(le)
    requires SortedBy(s, le)
    ensures SortedBy(Insert(x, s, le), le)
  {
    if s != [] && !le(x, s[0]) {
      var tail := Insert(x, s[1..], le);
      InsertSorted(x, s[1..], le);
      var r := [s[0]] + tail;
      forall k | 0 <= k < |tail| ensures le(s[0], tail[k]) {
        assert tail[k] in multiset(tail);
        assert tail[k] in multiset(s[1..]) + multiset{x};
        if tail[k] != x {
          assert tail[k] in s[1..];
        }
      }
    }
  }

  /** The result of `SortBy` is sorted. */
  lemma {:induction false} SortBySorted<T(!new)>(s: seq<T>, le: (T, T) -> bool)
    requires TotalPreorder(le)
    ensures SortedBy(SortBy(s, le), le)
  {
    if s != [] {
      SortBySorted(s[1..], le);
      InsertSorted(s[0], SortBy(s[1..], le), le);
    }
  }

  /** The elements of `s` that tie with `k`, in their order in `s`. */
  function TiesWith<T>(s: seq<T>, k: T, le: (T, T) -> bool): (r: seq<T>)
    ensures |r| <= |s|
  {
    if s == [] then []
    else (if le(s[0], k) && le(k, s[0]) then [s[0]] else []) + TiesWith(s[1..], k, le)
  }

  lemma {:induction false} InsertStable<T(!new)>(x: T, s: seq<T>, k: T, le: (T, T) -> bool)
    requires Transitive(le)
    ensures TiesWith(Insert(x, s, le), k, le)
         == (if le(x, k) && le(k, x) then [x] else []) + TiesWith(s, k, le)
  {
    if s == [] || le(x, s[0]) {
      assert ([x] + s)[1..] == s;
    } else {
      var r := [s[0]] + Insert(x, s[1..], le);
      assert r[1..] == Insert(x, s[1..], le);
      InsertStable(x, s[1..], k, le);
      // x sorts after s[0], so the two cannot both tie with k.
      var y := s[0];
      assert le(x, k) && le(k, y) ==> le(x, y);
      var head := if le(y, k) && le(k, y) then [y] else [];
      var tied := if le(x, k) && le(k, x) then [x] else [];
      assert head == [] || tied == [];
      assert TiesWith(r, k, le) == head + (tied + TiesWith(s[1..], k, le));
      assert head + (tied + TiesWith(s[1..], k, le)) == tied + (head + TiesWith(s[1..], k, le));
    }
  }

  /** Stability: the elements that tie with any `k` appear in the output in the same
      relative order as in the input. */
  lemma {:induction false} SortByStable<T(!new)>(s: seq<T>, k: T, le: (T, T) -> bool)
    requires Transitive(le)
    ensures TiesWith(SortBy(s, le), k, le) == TiesWith(s, k, le)
  {
    if s != [] {
      SortByStable(s[1..], k, le);
      InsertStable(s[0], SortBy(s[1..], le), k, le);
    }
  }
}

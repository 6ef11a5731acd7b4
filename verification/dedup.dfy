/** Order-preserving deduplication by a key: what filling a JavaScript `Map` only for
    unseen keys (or a `Set`) and reading it back in insertion order produces. */
module Dedup {

  /** The key of an element that is its own key (a `Set` of values). */
  function Identity<T>(x: T): T {
    x
  }

  /** The keys present in `s`. */
  function KeysOf<T, K>(s: seq<T>, key: T -> K): set<K> {
    set i | 0 <= i < |s| :: key(s[i])
  }

  predicate DistinctBy<T, K(==)>(s: seq<T>, key: T -> K) {
    forall i, j :: 0 <= i < j < |s| ==> key(s[i]) != key(s[j])
  }

  lemma KeysOfSnoc<T, K>(s: seq<T>, x: T, key: T -> K)
    ensures KeysOf(s + [x], key) == KeysOf(s, key) + {key(x)}
  {
    var r := s + [x];
    forall k | k in KeysOf(r, key) ensures k in KeysOf(s, key) + {key(x)} {
      var i :| 0 <= i < |r| && key(r[i]) == k;
      if i < |s| { assert key(s[i]) == k; }
    }
    forall k | k in KeysOf(s, key) ensures k in KeysOf(r, key) {
      var i :| 0 <= i < |s| && key(s[i]) == k;
      assert key(r[i]) == k;
    }
    assert key(r[|s|]) == key(x);
  }

  /** The first element for each key, in order of first occurrence. Defined element by
      element from the left, as the loop that fills the map does. */
  function DedupBy<T, K(==)>(s: seq<T>, key: T -> K): (r: seq<T>)
    ensures |r| <= |s|
    ensures DistinctBy(r, key)
    ensures KeysOf(r, key) == KeysOf(s, key)
  {
    if s == [] then []
    else
      var init := s[..|s| - 1];
      var last := s[|s| - 1];
      var kept := DedupBy(init, key);
      KeysOfSnoc(init, last, key);
      assert s == init + [last];
      if key(last) in KeysOf(kept, key) then kept
      else
        KeysOfSnoc(kept, last, key);
        kept + [last]
  }

  /** Appending an element: it is kept exactly when its key is new. */
  lemma DedupBySnoc<T, K>(s: seq<T>, x: T, key: T -> K)
    ensures DedupBy(s + [x], key)
         == if key(x) in KeysOf(s, key) then DedupBy(s, key) else DedupBy(s, key) + [x]
  {
    assert (s + [x])[..|s|] == s;
  }

  /** The positions in `s` of the elements `DedupBy` keeps. */
  ghost function KeptIndices<T, K>(s: seq<T>, key: T -> K): seq<nat> {
    if s == [] then []
    else
      var idx := KeptIndices(s[..|s| - 1], key);
      if key(s[|s| - 1]) in KeysOf(DedupBy(s[..|s| - 1], key), key) then idx
      else idx + [|s| - 1]
  }

  /** The result is a subsequence of the input (strictly increasing positions), and each
      kept element is the first one in the input with its key. */
  lemma {:induction false} DedupByFirstOccurrences<T, K>(s: seq<T>, key: T -> K)
    ensures var r, idx := DedupBy(s, key), KeptIndices(s, key);
      && |idx| == |r|
      && (forall j :: 0 <= j < |idx| ==> idx[j] < |s| && r[j] == s[idx[j]])
      && (forall j, j' :: 0 <= j < j' < |idx| ==> idx[j] < idx[j'])
      && (forall j, i :: 0 <= j < |idx| && 0 <= i < idx[j] ==> key(s[i]) != key(r[j]))
  {
    if s != [] {
      var init := s[..|s| - 1];
      DedupByFirstOccurrences(init, key);
      var kept, idx := DedupBy(init, key), KeptIndices(init, key);
      var last := s[|s| - 1];
      var r, idx' := DedupBy(s, key), KeptIndices(s, key);
      forall j | 0 <= j < |idx| ensures idx[j] < |init| && kept[j] == s[idx[j]] {
        assert kept[j] == init[idx[j]];
      }
      forall j, i | 0 <= j < |idx| && 0 <= i < idx[j] ensures key(s[i]) != key(kept[j]) {
        assert s[i] == init[i];
      }
      if key(last) in KeysOf(kept, key) {
        assert r == kept && idx' == idx;
      } else {
        assert r == kept + [last] && idx' == idx + [|s| - 1];
        forall i | 0 <= i < |s| - 1 ensures key(s[i]) != key(last) {
          assert s[i] == init[i];
          assert key(init[i]) in KeysOf(init, key);
        }
        forall j | 0 <= j < |idx'| ensures idx'[j] < |s| && r[j] == s[idx'[j]] {
          if j < |idx| { assert r[j] == kept[j] && idx'[j] == idx[j]; }
        }
        forall j, i | 0 <= j < |idx'| && 0 <= i < idx'[j] ensures key(s[i]) != key(r[j]) {
          if j < |idx| { assert r[j] == kept[j] && idx'[j] == idx[j]; }
        }
      }
    }
  }

  /** A sequence whose keys are already distinct is left as it is. */
  lemma {:induction false} DedupByDistinct<T, K>(s: seq<T>, key: T -> K)
    requires DistinctBy(s, key)
    ensures DedupBy(s, key) == s
  {
    if s != [] {
      var init := s[..|s| - 1];
      var last := s[|s| - 1];
      DedupByDistinct(init, key);
      forall i | 0 <= i < |init| ensures key(init[i]) != key(last) {
        assert key(s[i]) != key(s[|s| - 1]);
      }
      assert init + [last] == s;
    }
  }

  /** Deduplicating twice is deduplicating once. */
  lemma DedupByIdempotent<T, K>(s: seq<T>, key: T -> K)
    ensures DedupBy(DedupBy(s, key), key) == DedupBy(s, key)
  {
    DedupByDistinct(DedupBy(s, key), key);
  }

  /** Deduplicating a concatenation keeps the deduplicated first part as a prefix: the
      elements of `a` come first, and `b` contributes only keys `a` lacks. */
  lemma {:induction false} DedupByAppend<T, K>(a: seq<T>, b: seq<T>, key: T -> K)
    ensures |DedupBy(a, key)| <= |DedupBy(a + b, key)|
    ensures DedupBy(a + b, key)[..|DedupBy(a, key)|] == DedupBy(a, key)
    ensures forall j :: |DedupBy(a, key)| <= j < |DedupBy(a + b, key)| ==> key(DedupBy(a + b, key)[j]) !in KeysOf(a, key)
    decreases |b|
  {
    if b == [] {
      assert a + b == a;
    } else {
      var init := b[..|b| - 1];
      var x := b[|b| - 1];
      DedupByAppend(a, init, key);
      var d, p := DedupBy(a, key), DedupBy(a + init, key);
      assert a + b == (a + init) + [x];
      DedupBySnoc(a + init, x, key);
      if key(x) in KeysOf(p, key) {
        assert DedupBy(a + b, key) == p;
      } else {
        var q := p + [x];
        assert DedupBy(a + b, key) == q;
        assert key(x) !in KeysOf(a, key) by {
          KeysOfPrefix(a, init, key);
        }
        assert q[..|d|] == p[..|d|];
        forall j | |d| <= j < |q| ensures key(q[j]) !in KeysOf(a, key) {
          if j < |p| { assert q[j] == p[j]; }
        }
      }
    }
  }

  /** The keys of a prefix are keys of the whole. */
  lemma KeysOfPrefix<T, K>(a: seq<T>, b: seq<T>, key: T -> K)
    ensures KeysOf(a, key) <= KeysOf(a + b, key)
  {
    forall k | k in KeysOf(a, key) ensures k in KeysOf(a + b, key) {
      var i :| 0 <= i < |a| && key(a[i]) == k;
      assert key((a + b)[i]) == k;
    }
  }

  /** Keyed by the elements themselves, the key set is the set of elements. */
  lemma KeysOfIdentity<T>(s: seq<T>)
    ensures forall x :: x in KeysOf(s, Identity) <==> x in s
  {
    forall x | x in s ensures x in KeysOf(s, Identity) {
      var i :| 0 <= i < |s| && s[i] == x;
      assert Identity(s[i]) == x;
    }
  }

  /** Deduplicating values keeps exactly the values present. */
  lemma DedupIdentityMembers<T>(s: seq<T>)
    ensures forall x :: x in DedupBy(s, Identity) <==> x in s
  {
    KeysOfIdentity(s);
    KeysOfIdentity(DedupBy(s, Identity));
  }
}

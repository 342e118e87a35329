/** A stable sort in descending key order: Python's `list.sort(key=..., reverse=True)`,
    which keeps elements with equal keys in their original order. */
module Sorting {

  predicate SortedDesc<T>(s: seq<T>, key: T -> real) {
    forall i, j :: 0 <= i < j < |s| ==> key(s[i]) >= key(s[j])
  }

  /** The elements of `s` whose key is `k`, in their order in `s`. */
  function WithKey<T>(s: seq<T>, key: T -> real, k: real): seq<T> {
    if |s| == 0 then []
    else WithKey(s[..|s| - 1], key, k) + (if key(s[|s| - 1]) == k then [s[|s| - 1]] else [])
  }

  /** Inserts `x` after every element whose key is at least `x`'s. */
  function Insert<T(==)>(s: seq<T>, x: T, key: T -> real): (r: seq<T>)
    requires SortedDesc(s, key)
    ensures SortedDesc(r, key)
    ensures multiset(r) == multiset(s) + multiset{x}
  {
    if |s| == 0 || key(s[|s| - 1]) >= key(x) then
      s + [x]
    else
      var p := s[..|s| - 1];
      var last := s[|s| - 1];
      assert s == p + [last];
      var q := Insert(p, x, key);
      InsertedAboveLast(p, last, x, q, key);
      q + [last]
  }

  lemma InsertedAboveLast<T>(p: seq<T>, last: T, x: T, q: seq<T>, key: T -> real)
    requires SortedDesc(p + [last], key)
    requires key(last) < key(x)
    requires multiset(q) == multiset(p) + multiset{x}
    requires SortedDesc(q, key)
    ensures SortedDesc(q + [last], key)
  {
    forall i | 0 <= i < |q|
      ensures key(q[i]) >= key(last)
    {
      assert q[i] in multiset(q);
      if q[i] != x {
        assert q[i] in multiset(p);
        var m :| 0 <= m < |p| && p[m] == q[i];
        assert (p + [last])[m] == p[m] && (p + [last])[|p|] == last;
      }
    }
  }

  /** `WithKey` of one more element at the end. */
  lemma WithKeySnoc<T>(s: seq<T>, y: T, key: T -> real, k: real)
    ensures WithKey(s + [y], key, k) == WithKey(s, key, k) + (if key(y) == k then [y] else [])
  {
    assert (s + [y])[..|s|] == s;
  }

  lemma InsertAtEnd<T>(s: seq<T>, x: T, key: T -> real)
    requires SortedDesc(s, key)
    requires |s| == 0 || key(s[|s| - 1]) >= key(x)
    ensures Insert(s, x, key) == s + [x]
  {
  }

  lemma InsertBeforeLast<T>(s: seq<T>, x: T, key: T -> real)
    requires SortedDesc(s, key)
    requires |s| > 0 && key(s[|s| - 1]) < key(x)
    ensures SortedDesc(s[..|s| - 1], key)
    ensures Insert(s, x, key) == Insert(s[..|s| - 1], x, key) + [s[|s| - 1]]
  {
    SortedPrefix(s, key);
  }

  lemma SortedPrefix<T>(s: seq<T>, key: T -> real)
    requires SortedDesc(s, key) && |s| > 0
    ensures SortedDesc(s[..|s| - 1], key)
  {
    var p := s[..|s| - 1];
    assert forall i :: 0 <= i < |p| ==> p[i] == s[i];
  }

  /** Keys `key(a) != key(b)`: at most one of `a` and `b` is kept by `WithKey`, so their
      order does not matter. */
  lemma KeptInEitherOrder<T>(w: seq<T>, a: T, b: T, key: T -> real, k: real)
    requires key(a) != key(b)
    ensures w + (if key(a) == k then [a] else []) + (if key(b) == k then [b] else [])
         == w + (if key(b) == k then [b] else []) + (if key(a) == k then [a] else [])
  {
  }

  /** Inserting `x` adds it after the elements that already share its key. */
  lemma {:induction false} InsertIsStable<T>(s: seq<T>, x: T, key: T -> real, k: real)
    requires SortedDesc(s, key)
    ensures WithKey(Insert(s, x, key), key, k) == WithKey(s, key, k) + (if key(x) == k then [x] else [])
  {
    if |s| == 0 || key(s[|s| - 1]) >= key(x) {
      InsertAtEnd(s, x, key);
      WithKeySnoc(s, x, key, k);
    } else {
      var p := s[..|s| - 1];
      var last := s[|s| - 1];
      InsertBeforeLast(s, x, key);
      InsertIsStable(p, x, key, k);
      assert s == p + [last];
      StableUnderLast(p, last, x, Insert(p, x, key), key, k);
    }
  }

  /** An element with a smaller key than `x`, appended after both `p` and `q`, keeps `x` last
      among the elements with `x`'s key. */
  lemma StableUnderLast<T>(p: seq<T>, last: T, x: T, q: seq<T>, key: T -> real, k: real)
    requires key(last) < key(x)
    requires WithKey(q, key, k) == WithKey(p, key, k) + (if key(x) == k then [x] else [])
    ensures WithKey(q + [last], key, k) == WithKey(p + [last], key, k) + (if key(x) == k then [x] else [])
  {
    WithKeySnoc(q, last, key, k);
    WithKeySnoc(p, last, key, k);
    KeptInEitherOrder(WithKey(p, key, k), x, last, key, k);
  }

  /** Sorts by descending key. */
  function SortDesc<T(==)>(s: seq<T>, key: T -> real): (r: seq<T>)
    ensures SortedDesc(r, key)
    ensures multiset(r) == multiset(s)
    ensures |r| == |s|
  {
    if |s| == 0 then []
    else
      var p := s[..|s| - 1];
      assert s == p + [s[|s| - 1]];
      var r := Insert(SortDesc(p, key), s[|s| - 1], key);
      assert |r| == |multiset(r)|;
      r
  }

  /** The sort is stable: for every key, the elements carrying it appear in the same order
      before and after sorting. */
  lemma {:induction false} SortIsStable<T>(s: seq<T>, key: T -> real, k: real)
    ensures WithKey(SortDesc(s, key), key, k) == WithKey(s, key, k)
  {
    if |s| > 0 {
      var p := s[..|s| - 1];
      SortIsStable(p, key, k);
      InsertIsStable(SortDesc(p, key), s[|s| - 1], key, k);
    }
  }
}

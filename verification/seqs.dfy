/** Sequence helpers shared by the catalogue index, the conversation memory and the ranking. */
module Seqs {

  function Min(a: int, b: int): int {
    if a <= b then a else b
  }

  /** No element occurs twice. */
  predicate NoDup<T(==)>(s: seq<T>) {
    forall i, j :: 0 <= i < j < |s| ==> s[i] != s[j]
  }

  /** Appends `x` unless it is already present: the "if x not in xs: xs.append(x)" idiom. */
  function AddIfAbsent<T(==)>(s: seq<T>, x: T): (r: seq<T>)
    ensures NoDup(s) ==> NoDup(r)
    ensures forall i :: 0 <= i < |s| ==> s[i] in r
    ensures forall i :: 0 <= i < |r| ==> r[i] in s || r[i] == x
    ensures x in r
  {
    if x in s then s else s + [x]
  }

  /** The distinct elements of `s`, each kept where it first occurs. */
  function Dedup<T(==)>(s: seq<T>): (r: seq<T>)
    ensures NoDup(r)
    ensures forall i :: 0 <= i < |s| ==> s[i] in r
    ensures forall i :: 0 <= i < |r| ==> r[i] in s
    ensures |r| <= |s|
  {
    if |s| == 0 then []
    else
      var p := s[..|s| - 1];
      assert s == p + [s[|s| - 1]];
      AddIfAbsent(Dedup(p), s[|s| - 1])
  }

  /** The position of the first occurrence of `x` in `s`. */
  function FirstIndex<T(==)>(s: seq<T>, x: T): (i: nat)
    requires x in s
    ensures i < |s| && s[i] == x
    ensures forall j :: 0 <= j < i ==> s[j] != x
  {
    if s[0] == x then 0 else 1 + FirstIndex(s[1..], x)
  }

  /** Concatenation is associative. */
  lemma AppendAssoc<T>(a: seq<T>, b: seq<T>, c: seq<T>)
    ensures a + (b + c) == a + b + c
  {
  }

  /** Deduplicating one more element adds it unless it was already there. */
  lemma DedupSnoc<T>(s: seq<T>, x: T)
    ensures Dedup(s + [x]) == AddIfAbsent(Dedup(s), x)
    ensures x in Dedup(s) <==> x in s
  {
    assert (s + [x])[..|s|] == s;
  }

  lemma {:induction false} FirstIndexOfPrefix<T>(p: seq<T>, q: seq<T>, x: T)
    requires x in p
    ensures FirstIndex(p + q, x) == FirstIndex(p, x)
  {
    if p[0] != x {
      assert (p + q)[1..] == p[1..] + q;
      FirstIndexOfPrefix(p[1..], q, x);
    }
  }

  /** An element missing from `a` is first found in `a + s` past all of `a`. */
  lemma {:induction false} FirstIndexAfter<T>(a: seq<T>, s: seq<T>, x: T)
    requires x in s && x !in a
    ensures x in a + s
    ensures FirstIndex(a + s, x) == |a| + FirstIndex(s, x)
  {
    if |a| == 0 {
      assert a + s == s;
    } else {
      assert (a + s)[1..] == a[1..] + s;
      FirstIndexAfter(a[1..], s, x);
    }
  }

  /** Dedup lists the distinct elements in the order of their first occurrence. */
  lemma {:induction false} DedupKeepsFirstOccurrenceOrder<T>(s: seq<T>)
    ensures forall i, j :: 0 <= i < j < |Dedup(s)| ==>
      FirstIndex(s, Dedup(s)[i]) < FirstIndex(s, Dedup(s)[j])
  {
    if |s| > 0 {
      var p := s[..|s| - 1];
      var x := s[|s| - 1];
      assert s == p + [x];
      var d := Dedup(p);
      DedupKeepsFirstOccurrenceOrder(p);
      forall y | y in p
        ensures FirstIndex(s, y) == FirstIndex(p, y)
      {
        FirstIndexOfPrefix(p, [x], y);
      }
      if x !in d {
        assert x !in p;
        assert FirstIndex(s, x) == |p|;
        assert Dedup(s) == d + [x];
      } else {
        assert Dedup(s) == d;
      }
    }
  }

  lemma DedupOfSingleton<T>(x: T)
    ensures Dedup([x]) == [x]
  {
    assert [x][..0] == [];
  }

  lemma TakeTwo<T>(s: seq<T>)
    requires |s| >= 2
    ensures Take(s, 2) == [s[0], s[1]]
  {
  }

  /** A property of every element of two sequences holds of every element of their
      concatenation. */
  lemma AllOfConcat<T>(x: seq<T>, y: seq<T>, p: T -> bool)
    requires forall k :: 0 <= k < |x| ==> p(x[k])
    requires forall k :: 0 <= k < |y| ==> p(y[k])
    ensures forall k :: 0 <= k < |x + y| ==> p((x + y)[k])
  {
  }

  /** `a` can be obtained from `b` by deleting elements, keeping the order. */
  predicate IsSubsequence<T(==)>(a: seq<T>, b: seq<T>)
    decreases |b|
  {
    |a| == 0 ||
    (|b| > 0 && ((a[0] == b[0] && IsSubsequence(a[1..], b[1..])) || IsSubsequence(a, b[1..])))
  }

  /** A subsequence stays one when the whole, or both, gain a first element. */
  lemma SubsequenceOfCons<T>(x: T, a: seq<T>, b: seq<T>)
    requires IsSubsequence(a, b)
    ensures IsSubsequence(a, [x] + b)
    ensures IsSubsequence([x] + a, [x] + b)
  {
    assert ([x] + b)[1..] == b;
    assert ([x] + a)[1..] == a;
  }

  lemma {:induction false} SubsequenceReflexive<T>(s: seq<T>)
    ensures IsSubsequence(s, s)
    decreases |s|
  {
    if |s| > 0 {
      SubsequenceReflexive(s[1..]);
    }
  }

  /** Every element of a subsequence occurs in the whole. */
  lemma {:induction false} SubsequenceMembers<T>(a: seq<T>, b: seq<T>)
    requires IsSubsequence(a, b)
    ensures forall i :: 0 <= i < |a| ==> a[i] in b
    decreases |b|
  {
    if |a| > 0 {
      if a[0] == b[0] && IsSubsequence(a[1..], b[1..]) {
        SubsequenceMembers(a[1..], b[1..]);
        forall i | 0 < i < |a|
          ensures a[i] in b
        {
          assert a[i] == a[1..][i - 1];
          assert a[i] in b[1..];
        }
      } else {
        SubsequenceMembers(a, b[1..]);
        forall i | 0 <= i < |a|
          ensures a[i] in b
        {
          assert a[i] in b[1..];
        }
      }
    }
  }

  /** `p` is a prefix of `s`. */
  predicate IsPrefix<T(==)>(p: seq<T>, s: seq<T>) {
    |p| <= |s| && s[..|p|] == p
  }

  /** Python's `s[start:]`: a negative start counts from the end; both ends are clamped. */
  function SliceFrom<T>(s: seq<T>, start: int): (r: seq<T>)
    ensures |r| <= |s|
    ensures r == s[|s| - |r|..]
  {
    var b := if start < 0 then (if |s| + start < 0 then 0 else |s| + start)
             else (if start > |s| then |s| else start);
    s[b..]
  }

  /** The newest `k` elements, the reference reading of Python's `s[-k:]` for k >= 1. */
  function Newest<T>(s: seq<T>, k: nat): (r: seq<T>)
    ensures |r| == Min(k, |s|)
  {
    s[|s| - Min(k, |s|)..]
  }

  /** Appending one element to the newest `k` and trimming back to `k` gives the newest `k`
      of the longer sequence. */
  lemma NewestSnoc<T>(s: seq<T>, k: nat)
    requires k >= 1 && |s| > 0
    ensures var h := Newest(s[..|s| - 1], k) + [s[|s| - 1]];
      (if |h| > k then SliceFrom(h, -(k as int)) else h) == Newest(s, k)
  {
    var p, e := s[..|s| - 1], s[|s| - 1];
    assert s == p + [e];
    var h := Newest(p, k) + [e];
    if |p| >= k {
      var start: int := |p| + 1 - k;
      assert SliceFrom(h, -(k as int)) == h[1..];
      assert h[1..] == (p + [e])[start..];
    }
  }

  lemma SliceFromNegativeIsNewest<T>(s: seq<T>, k: int)
    requires k >= 1
    ensures SliceFrom(s, -k) == Newest(s, k)
  {
  }

  /** Python's `s[:n]` for n >= 0. */
  function Take<T>(s: seq<T>, n: nat): (r: seq<T>)
    ensures |r| == Min(n, |s|)
    ensures IsPrefix(r, s)
  {
    s[..Min(n, |s|)]
  }
}

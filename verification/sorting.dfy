/** Insertion into, and sorting of, sequences ordered by a real-valued key. */
module Sorting {
  ghost predicate Sorted<T>(s: seq<T>, key: T -> real) {
    forall i, j :: 0 <= i < j < |s| ==> key(s[i]) <= key(s[j])
  }

  /** Insertion scanning from the end: after everything that is not strictly greater. */
  function Insert<T>(s: seq<T>, x: T, key: T -> real): (r: seq<T>)
    ensures |r| == |s| + 1
  {
    if s == [] then [x]
    else if key(s[|s| - 1]) > key(x) then Insert(s[..|s| - 1], x, key) + [s[|s| - 1]]
    else s + [x]
  }

  lemma {:induction false} InsertContents<T>(s: seq<T>, x: T, key: T -> real)
    ensures multiset(Insert(s, x, key)) == multiset(s) + multiset{x}
  {
    if s != [] {
      assert s == s[..|s| - 1] + [s[|s| - 1]];
      InsertContents(s[..|s| - 1], x, key);
    }
  }

  lemma {:induction false} InsertBounded<T>(s: seq<T>, x: T, key: T -> real, bound: real)
    requires key(x) <= bound && forall i :: 0 <= i < |s| ==> key(s[i]) <= bound
    ensures forall i :: 0 <= i < |s| + 1 ==> key(Insert(s, x, key)[i]) <= bound
  {
    if s != [] && key(s[|s| - 1]) > key(x) {
      InsertBounded(s[..|s| - 1], x, key, bound);
    }
  }

  lemma {:induction false} InsertSorts<T>(s: seq<T>, x: T, key: T -> real)
    requires Sorted(s, key)
    ensures Sorted(Insert(s, x, key), key)
  {
    if s != [] && key(s[|s| - 1]) > key(x) {
      InsertSorts(s[..|s| - 1], x, key);
      InsertBounded(s[..|s| - 1], x, key, key(s[|s| - 1]));
    }
  }

  function Sort<T>(s: seq<T>, key: T -> real): (r: seq<T>)
    ensures |r| == |s|
  {
    if s == [] then [] else Insert(Sort(s[..|s| - 1], key), s[|s| - 1], key)
  }

  /** Sorting permutes and orders. */
  lemma {:induction false} SortSorts<T>(s: seq<T>, key: T -> real)
    ensures Sorted(Sort(s, key), key) && multiset(Sort(s, key)) == multiset(s)
  {
    if s != [] {
      var front, last := s[..|s| - 1], s[|s| - 1];
      assert s == front + [last];
      SortSorts(front, key);
      InsertContents(Sort(front, key), last, key);
      InsertSorts(Sort(front, key), last, key);
    }
  }

  lemma SameElements<T>(a: seq<T>, b: seq<T>)
    requires multiset(a) == multiset(b)
    ensures forall x :: x in a <==> x in b
    ensures forall i :: 0 <= i < |a| ==> a[i] in b
    ensures forall i :: 0 <= i < |b| ==> b[i] in a
  {
    forall i | 0 <= i < |a| ensures a[i] in b {
      assert a[i] in multiset(a);
    }
    forall i | 0 <= i < |b| ensures b[i] in a {
      assert b[i] in multiset(b);
    }
    forall x ensures x in a <==> x in b {
      assert x in a <==> x in multiset(a);
      assert x in b <==> x in multiset(b);
    }
  }

  lemma SubsetCounts<T>(a: multiset<T>, b: multiset<T>)
    requires a <= b
    ensures |a| <= |b|
  {
    assert b == a + (b - a);
  }

  lemma DisjointCounts<T>(low: multiset<T>, high: multiset<T>, all: multiset<T>, key: T -> real, v: real)
    requires low <= all && high <= all
    requires forall x :: x in low ==> key(x) <= v
    requires forall x :: x in high ==> key(x) > v
    ensures |low| + |high| <= |all|
  {
    SubsetCounts(low + high, all);
  }

  lemma EachOf<T>(s: seq<T>, p: T -> bool)
    requires forall i :: 0 <= i < |s| ==> p(s[i])
    ensures forall x :: x in multiset(s) ==> p(x)
  {
    forall x | x in multiset(s) ensures p(x) {
      var i :| 0 <= i < |s| && s[i] == x;
    }
  }

  /** If some arrangement has `n + 1` entries of key at most `v`, then so has the sorted one:
      its entry at `n` is at most `v`. */
  lemma SortedRank<T>(s: seq<T>, sorted: seq<T>, key: T -> real, n: nat, v: real)
    requires multiset(s) == multiset(sorted) && n < |s| && |s| == |sorted|
    requires Sorted(sorted, key)
    requires forall i :: 0 <= i <= n ==> key(s[i]) <= v
    ensures key(sorted[n]) <= v
  {
    var low, high := s[..n + 1], sorted[n..];
    assert s == low + s[n + 1..] && sorted == sorted[..n] + high;
    assert |multiset(low)| + |multiset(high)| > |multiset(s)|;
    if key(sorted[n]) > v {
      EachOf(low, x => key(x) <= v);
      EachOf(high, x => key(x) > v);
      DisjointCounts(multiset(low), multiset(high), multiset(s), key, v);
    }
  }
}

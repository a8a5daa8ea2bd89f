/** A column of values and a second column that every operation takes along. */
module MirroredRows {
  /** A value, and what is mirrored along with it. */
  type Row = (real, nat)

  function Zip(a: seq<real>, m: seq<nat>): (s: seq<Row>)
    requires |a| == |m|
    ensures |s| == |a| && forall i :: 0 <= i < |s| ==> s[i] == (a[i], m[i])
  {
    seq(|a|, i requires 0 <= i < |a| => (a[i], m[i]))
  }

  /** Both columns, row by row. */
  function Rows(target: array<real>, mirror: array<nat>): (s: seq<Row>)
    requires target.Length == mirror.Length
    reads target, mirror
    ensures |s| == target.Length && forall i :: 0 <= i < |s| ==> s[i] == (target[i], mirror[i])
  {
    Zip(target[..], mirror[..])
  }

  function Exchanged<T>(s: seq<T>, i: nat, j: nat): (r: seq<T>)
    requires i < |s| && j < |s|
    ensures |r| == |s|
  {
    s[i := s[j]][j := s[i]]
  }

  lemma ExchangedTwice<T>(s: seq<T>, i: nat, j: nat)
    requires i < |s| && j < |s|
    ensures Exchanged(Exchanged(s, i, j), i, j) == s
  {
  }

  /** `t` permutes the rows of `s` from `lo` up to `hi` and keeps the others. */
  ghost predicate PermutedWithin<T>(s: seq<T>, t: seq<T>, lo: nat, hi: nat) {
    && lo <= hi <= |s| == |t|
    && s[..lo] == t[..lo] && s[hi..] == t[hi..] && multiset(s[lo..hi]) == multiset(t[lo..hi])
  }

  lemma ExchangePermutes<T>(s: seq<T>, i: nat, j: nat, lo: nat, hi: nat)
    requires lo <= i < hi <= |s| && lo <= j < hi
    ensures PermutedWithin(s, Exchanged(s, i, j), lo, hi)
  {
    var t := Exchanged(s, i, j);
    assert t[lo..hi] == Exchanged(s[lo..hi], i - lo, j - lo);
  }

  lemma PermutedTwice<T>(s: seq<T>, t: seq<T>, u: seq<T>, lo: nat, hi: nat)
    requires PermutedWithin(s, t, lo, hi) && PermutedWithin(t, u, lo, hi)
    ensures PermutedWithin(s, u, lo, hi)
  {
  }

  lemma ExchangeMore<T>(was: seq<T>, s: seq<T>, t: seq<T>, i: nat, j: nat, lo: nat, hi: nat)
    requires lo <= i < hi <= |s| && lo <= j < hi && PermutedWithin(was, s, lo, hi) && t == Exchanged(s, i, j)
    ensures PermutedWithin(was, t, lo, hi)
  {
    ExchangePermutes(s, i, j, lo, hi);
    PermutedTwice(was, s, t, lo, hi);
  }

  /** A permutation of fewer rows is one of more. */
  lemma PermutedInside<T>(s: seq<T>, t: seq<T>, lo: nat, hi: nat, from: nat, to: nat)
    requires PermutedWithin(s, t, lo, hi) && from <= lo && hi <= to <= |s|
    ensures PermutedWithin(s, t, from, to)
  {
    assert s[from..to] == s[from..lo] + s[lo..hi] + s[hi..to];
    assert t[from..to] == t[from..lo] + t[lo..hi] + t[hi..to];
    assert s[from..lo] == s[..lo][from..] == t[from..lo];
    assert s[hi..to] == s[hi..][..to - hi] == t[hi..][..to - hi] == t[hi..to];
    assert s[..from] == s[..lo][..from] == t[..from];
    assert s[to..] == s[hi..][to - hi..] == t[to..];
  }

  lemma PermutedAll<T>(s: seq<T>, t: seq<T>, lo: nat, hi: nat)
    requires PermutedWithin(s, t, lo, hi)
    ensures multiset(s) == multiset(t)
  {
    PermutedInside(s, t, lo, hi, 0, |s|);
    assert s[0..|s|] == s && t[0..|t|] == t;
  }

  /** A row of the range was in the range before. */
  lemma CameFromRange<T>(s: seq<T>, t: seq<T>, lo: nat, hi: nat, j: nat) returns (i: nat)
    requires PermutedWithin(s, t, lo, hi) && lo <= j < hi
    ensures lo <= i < hi && s[i] == t[j]
  {
    assert t[j] == t[lo..hi][j - lo];
    assert t[j] in multiset(s[lo..hi]);
    var d :| 0 <= d < hi - lo && s[lo..hi][d] == t[j];
    i := lo + d;
  }

  /** Rows outside the range stay. */
  lemma KeptOutside<T>(s: seq<T>, t: seq<T>, lo: nat, hi: nat, i: nat)
    requires PermutedWithin(s, t, lo, hi) && i < |s| && !(lo <= i < hi)
    ensures t[i] == s[i]
  {
    if i < lo {
      assert t[i] == t[..lo][i] == s[..lo][i];
    } else {
      assert t[i] == t[hi..][i - hi] == s[hi..][i - hi];
    }
  }

  method Swap(target: array<real>, mirror: array<nat>, i: nat, j: nat)
    requires target.Length == mirror.Length && i < target.Length && j < target.Length
    modifies target, mirror
    ensures Rows(target, mirror) == Exchanged(old(Rows(target, mirror)), i, j)
  {
    target[i], target[j] := target[j], target[i];
    mirror[i], mirror[j] := mirror[j], mirror[i];
  }

  /** From `lo` up to `hi`: below `v` before `mid`, and not below from there on. */
  ghost predicate Parted(s: seq<Row>, lo: nat, mid: nat, hi: nat, v: real) {
    && lo <= mid <= hi <= |s|
    && (forall i :: lo <= i < mid ==> s[i].0 < v) && forall i :: mid <= i < hi ==> s[i].0 >= v
  }
}

/** How the mirrored selection chooses its pivots (src/mirror_select_nth_unstable_by.rs): a median
    of medians, and a range found in descending order is reversed. */
module PivotLaws {
  import opened MirroredRows
  import opened MirrorSelect

  /** How many of three numbers satisfy a test. */
  function Among(p: bool, q: bool, r: bool): nat {
    (if p then 1 else 0) + (if q then 1 else 0) + (if r then 1 else 0)
  }

  /** Of three rows, two are not above the median and two are not below it. No exchange is counted
      exactly for rows in order, three exactly for rows that strictly descend. */
  lemma MedianIsMiddle(s: seq<Row>, a: nat, b: nat, c: nat, swaps: nat)
    requires a < |s| && b < |s| && c < |s| && a != b && b != c && a != c
    ensures var (m, n) := Median(s, a, b, c, swaps);
            && Among(s[a].0 <= s[m].0, s[b].0 <= s[m].0, s[c].0 <= s[m].0) >= 2
            && Among(s[a].0 >= s[m].0, s[b].0 >= s[m].0, s[c].0 >= s[m].0) >= 2
            && (n == swaps <==> s[a].0 <= s[b].0 <= s[c].0)
            && (n == swaps + 3 <==> s[a].0 > s[b].0 > s[c].0)
  {
  }

  ghost predicate Descending(s: seq<Row>, lo: nat, hi: nat) {
    hi <= |s| && forall i, j :: lo <= i < j < hi ==> s[i].0 > s[j].0
  }

  ghost predicate Rising(s: seq<Row>, lo: nat, hi: nat) {
    hi <= |s| && forall i, j :: lo <= i < j < hi ==> s[i].0 <= s[j].0
  }

  lemma MedianInOrder(s: seq<Row>, a: nat, b: nat, c: nat, swaps: nat)
    requires a < |s| && b < |s| && c < |s|
    ensures s[a].0 <= s[b].0 <= s[c].0 ==> Median(s, a, b, c, swaps) == (b, swaps)
    ensures s[a].0 > s[b].0 > s[c].0 ==> Median(s, a, b, c, swaps) == (b, swaps + 3)
  {
  }

  /** In a long range the pivot is the median of three medians. */
  lemma MiddleOfLong(s: seq<Row>, lo: nat, hi: nat, a: nat, b: nat, c: nat, each: nat)
    requires lo + 50 <= hi <= |s| && a == lo + (hi - lo) / 4 && b == lo + (hi - lo) / 4 * 2 && c == lo + (hi - lo) / 4 * 3
    requires Median(s, a - 1, a, a + 1, 0) == (a, each) && Median(s, b - 1, b, b + 1, each) == (b, 2 * each)
    requires Median(s, c - 1, c, c + 1, 2 * each) == (c, 3 * each) && Median(s, a, b, c, 3 * each) == (b, 4 * each)
    ensures MedianIndex(s, lo, hi) == (b, 4 * each)
  {
  }

  ghost predicate Falls(s: seq<Row>, i: nat) {
    0 < i < |s| - 1 && s[i - 1].0 > s[i].0 > s[i + 1].0
  }

  ghost predicate Climbs(s: seq<Row>, i: nat) {
    0 < i < |s| - 1 && s[i - 1].0 <= s[i].0 <= s[i + 1].0
  }

  lemma DescendingMedians(s: seq<Row>, a: nat, b: nat, c: nat)
    requires 0 < a < b < c && c + 1 < |s| && Falls(s, a) && Falls(s, b) && Falls(s, c) && s[a].0 > s[b].0 > s[c].0
    ensures Median(s, a - 1, a, a + 1, 0) == (a, 3) && Median(s, b - 1, b, b + 1, 3) == (b, 6)
    ensures Median(s, c - 1, c, c + 1, 6) == (c, 9) && Median(s, a, b, c, 9) == (b, 12)
  {
    MedianInOrder(s, a - 1, a, a + 1, 0);
    MedianInOrder(s, b - 1, b, b + 1, 3);
    MedianInOrder(s, c - 1, c, c + 1, 6);
    MedianInOrder(s, a, b, c, 9);
  }

  lemma RisingMedians(s: seq<Row>, a: nat, b: nat, c: nat)
    requires 0 < a < b < c && c + 1 < |s| && Climbs(s, a) && Climbs(s, b) && Climbs(s, c) && s[a].0 <= s[b].0 <= s[c].0
    ensures Median(s, a - 1, a, a + 1, 0) == (a, 0) && Median(s, b - 1, b, b + 1, 0) == (b, 0)
    ensures Median(s, c - 1, c, c + 1, 0) == (c, 0) && Median(s, a, b, c, 0) == (b, 0)
  {
    MedianInOrder(s, a - 1, a, a + 1, 0);
    MedianInOrder(s, b - 1, b, b + 1, 0);
    MedianInOrder(s, c - 1, c, c + 1, 0);
    MedianInOrder(s, a, b, c, 0);
  }

  lemma Quarters(lo: nat, hi: nat) returns (a: nat, b: nat, c: nat)
    requires lo + 50 <= hi
    ensures a == lo + (hi - lo) / 4 && b == lo + (hi - lo) / 4 * 2 && c == lo + (hi - lo) / 4 * 3
    ensures lo < a && a + 1 < b && b + 1 < c && c + 1 < hi
  {
    a, b, c := lo + (hi - lo) / 4, lo + (hi - lo) / 4 * 2, lo + (hi - lo) / 4 * 3;
  }

  lemma LongDescending(s: seq<Row>, lo: nat, hi: nat)
    requires lo + 50 <= hi && Descending(s, lo, hi)
    ensures MedianIndex(s, lo, hi) == (lo + (hi - lo) / 4 * 2, 12)
  {
    var a, b, c := Quarters(lo, hi);
    DescendingMedians(s, a, b, c);
    MiddleOfLong(s, lo, hi, a, b, c, 3);
  }

  lemma LongRising(s: seq<Row>, lo: nat, hi: nat)
    requires lo + 50 <= hi && Rising(s, lo, hi)
    ensures MedianIndex(s, lo, hi) == (lo + (hi - lo) / 4 * 2, 0)
  {
    var a, b, c := Quarters(lo, hi);
    RisingMedians(s, a, b, c);
    MiddleOfLong(s, lo, hi, a, b, c, 0);
  }

  /** A long range that descends is reversed before it is partitioned; a range that rises, and any
      short one, stays. */
  lemma ReversedExactlyWhen(s: seq<Row>, lo: nat, hi: nat)
    requires lo < hi <= |s|
    ensures Descending(s, lo, hi) && hi - lo >= 50 ==> PivotChoice(s, lo, hi).0 == Reversed(s, lo, hi)
    ensures Rising(s, lo, hi) || hi - lo < 50 ==> PivotChoice(s, lo, hi).0 == s
  {
    if hi - lo >= 50 && Descending(s, lo, hi) {
      LongDescending(s, lo, hi);
    }
    if hi - lo >= 50 && Rising(s, lo, hi) {
      LongRising(s, lo, hi);
    }
  }
}

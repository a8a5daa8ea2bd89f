/** The passes of a split over rows whose lowest value comes first, followed round by round. */
module SplitPasses {
  import opened Options
  import opened MirroredRows
  import opened MirrorSelect

  /** From `lo` up to `mid` the value `v`, and from there up to `hi` larger ones. */
  ghost predicate LowRun(s: seq<Row>, lo: nat, mid: nat, hi: nat, v: real) {
    && lo < mid <= hi <= |s|
    && (forall i :: lo <= i < mid ==> s[i].0 == v) && forall i :: mid <= i < hi ==> s[i].0 > v
  }

  /** Where the pivot of a range is looked for first. */
  function Middle(lo: nat, hi: nat): (p: nat)
    requires lo < hi
    ensures lo <= p < hi
  {
    lo + (hi - lo) / 4 * 2
  }

  /** If the run reaches that far, past its neighbour in a long range, the pivot is taken from
      there and nothing is reversed. */
  ghost predicate ReachesPivot(lo: nat, mid: nat, hi: nat)
    requires lo < hi
  {
    Middle(lo, hi) + (if hi - lo < 50 then 0 else 1) < mid
  }

  lemma PivotInRun(s: seq<Row>, lo: nat, mid: nat, hi: nat, v: real)
    requires LowRun(s, lo, mid, hi, v) && ReachesPivot(lo, mid, hi)
    ensures PivotChoice(s, lo, hi) == (s, Middle(lo, hi))
  {
    if 8 <= hi - lo < 50 {
      var quarter := (hi - lo) / 4;
      assert s[lo + quarter].0 == s[lo + quarter * 2].0 == v <= s[lo + quarter * 3].0;
    } else if hi - lo >= 50 {
      MedianInRun(s, lo, mid, hi, v);
    }
  }

  lemma MedianInRun(s: seq<Row>, lo: nat, mid: nat, hi: nat, v: real)
    requires LowRun(s, lo, mid, hi, v) && ReachesPivot(lo, mid, hi) && hi - lo >= 50
    ensures MedianIndex(s, lo, hi).0 == Middle(lo, hi) && MedianIndex(s, lo, hi).1 < 12
  {
    var quarter := (hi - lo) / 4;
    var a, b, c := lo + quarter, lo + quarter * 2, lo + quarter * 3;
    assert s[a - 1].0 == s[a].0 == s[a + 1].0 == s[b - 1].0 == s[b].0 == s[b + 1].0 == v;
    var median := Median(s, c - 1, c, c + 1, 0);
    assert s[median.0].0 >= v;
    MedianOfMedians(s, lo, hi, a, b, c, median.0, median.1);
  }

  lemma MedianOfMedians(s: seq<Row>, lo: nat, hi: nat, a: nat, b: nat, c: nat, c2: nat, n: nat)
    requires lo + 50 <= hi <= |s| && a == lo + (hi - lo) / 4 && b == lo + (hi - lo) / 4 * 2 && c == lo + (hi - lo) / 4 * 3
    requires s[a - 1].0 == s[a].0 == s[a + 1].0 == s[b - 1].0 == s[b].0 == s[b + 1].0
    requires Median(s, c - 1, c, c + 1, 0) == (c2, n) && c2 < |s| && s[b].0 <= s[c2].0
    ensures MedianIndex(s, lo, hi) == (b, n)
  {
    assert Median(s, a - 1, a, a + 1, 0) == (a, 0) && Median(s, b - 1, b, b + 1, 0) == (b, 0);
  }

  lemma PivotOfShort(s: seq<Row>, lo: nat, hi: nat)
    requires lo < hi <= |s| && hi - lo < 8
    ensures PivotChoice(s, lo, hi) == (s, Middle(lo, hi))
  {
  }

  /** Selecting goes on in a range, as one statement about the rows before and after. */
  ghost predicate SelectsWithin(s: seq<Row>, t: seq<Row>, lo: nat, hi: nat, index: nat, pred: Option<real>) {
    lo <= index < hi <= |s| && forall p: Option<real> :: p == pred ==> SelectsFrom(s, t, lo, hi, index, p)
  }

  /** One round in which only the pivot moves. */
  lemma PivotMoves(s: seq<Row>, t: seq<Row>, lo: nat, hi: nat, index: nat, pred: Option<real>, p: nat, m: nat)
    requires lo <= index < hi <= |s| && SelectsWithin(s, t, lo, hi, index, pred) && PivotChoice(s, lo, hi) == (s, p)
    requires !(pred.Some? && s[p].0 <= pred.value)
    requires lo <= m < hi && Parted(Exchanged(s, lo, p), lo + 1, m + 1, hi, s[p].0)
    ensures GoesOn(Exchanged(Exchanged(s, lo, p), lo, m), t, lo, m, hi, index, pred)
  {
    assert SelectsFrom(s, t, lo, hi, index, pred);
    var w: seq<Row>, mid: nat :| PartitionsTo(s, w, lo, hi, p, mid) && GoesOn(w, t, lo, mid, hi, index, pred);
    AlreadyParted(s, w, lo, hi, p, mid, m);
  }

  lemma RunKept(s: seq<Row>, t: seq<Row>, lo: nat, mid: nat, hi: nat, v: real, i: nat, j: nat)
    requires LowRun(s, lo, mid, hi, v) && lo <= i < mid && lo <= j < mid && t == Exchanged(s, i, j)
    ensures LowRun(t, lo, mid, hi, v) && t[mid..] == s[mid..]
  {
  }

  /** One round in which nothing moves. */
  lemma PivotStays(s: seq<Row>, t: seq<Row>, lo: nat, hi: nat, index: nat, pred: Option<real>, p: nat)
    requires lo <= index < hi <= |s| && SelectsWithin(s, t, lo, hi, index, pred) && PivotChoice(s, lo, hi) == (s, p)
    requires !(pred.Some? && s[p].0 <= pred.value) && Parted(Exchanged(s, lo, p), lo + 1, p + 1, hi, s[p].0)
    ensures GoesOn(s, t, lo, p, hi, index, pred)
  {
    ExchangedTwice(s, lo, p);
    PivotMoves(s, t, lo, hi, index, pred, p, p);
  }

  /** A pivot from the run goes first. */
  lemma RunGoesOn(s: seq<Row>, t: seq<Row>, lo: nat, mid: nat, hi: nat, index: nat, v: real) returns (u: seq<Row>)
    requires lo < index < hi && LowRun(s, lo, mid, hi, v) && ReachesPivot(lo, mid, hi) && SelectsWithin(s, t, lo, hi, index, None)
    ensures u == Exchanged(s, lo, Middle(lo, hi)) && SelectsWithin(u, t, lo + 1, hi, index, Some(v))
  {
    var p := Middle(lo, hi);
    u := Exchanged(s, lo, p);
    PivotInRun(s, lo, mid, hi, v);
    RunIsPivot(s, u, lo, mid, hi, v, p);
    PivotMoves(s, t, lo, hi, index, None, p, lo);
    RightOfRunGoesOn(u, t, lo, hi, index, v);
  }

  lemma RunIsPivot(s: seq<Row>, u: seq<Row>, lo: nat, mid: nat, hi: nat, v: real, p: nat)
    requires LowRun(s, lo, mid, hi, v) && lo <= p < mid && u == Exchanged(s, lo, p)
    ensures s[p].0 == v == u[lo].0 && Exchanged(u, lo, lo) == u && Parted(u, lo + 1, lo + 1, hi, v)
  {
  }

  lemma RightOfRunGoesOn(u: seq<Row>, t: seq<Row>, lo: nat, hi: nat, index: nat, v: real)
    requires lo < index < hi <= |u| && u[lo].0 == v && GoesOn(u, t, lo, lo, hi, index, None)
    ensures SelectsWithin(u, t, lo + 1, hi, index, Some(v))
  {
  }

  /** After that, the run is set apart as a whole. */
  lemma RunIsSetApart(s: seq<Row>, t: seq<Row>, lo: nat, mid: nat, hi: nat, index: nat, v: real) returns (w: seq<Row>)
    requires lo <= index < hi && LowRun(s, lo, mid, hi, v) && ReachesPivot(lo, mid, hi) && SelectsWithin(s, t, lo, hi, index, Some(v))
    ensures w == Exchanged(s, lo, Middle(lo, hi))
    ensures if mid > index then t == w else SelectsWithin(w, t, mid, hi, index, None)
  {
    w := Exchanged(s, lo, Middle(lo, hi));
    assert SelectsFrom(s, t, lo, hi, index, Some(v));
    PivotInRun(s, lo, mid, hi, v);
    AlreadyEqualParted(s, lo, hi, Middle(lo, hi), mid);
  }

  /** The rows after the first two rounds. */
  function AfterTwo(s: seq<Row>): (t: seq<Row>)
    requires |s| >= 2
    ensures |t| == |s|
  {
    Exchanged(Exchanged(s, 0, Middle(0, |s|)), 1, Middle(1, |s|))
  }

  lemma TwoRounds(s: seq<Row>, t: seq<Row>, mid: nat, index: nat, v: real) returns (w: seq<Row>)
    requires 0 < index < |s| && mid > 1 && LowRun(s, 0, mid, |s|, v) && Selects(s, t, index)
    requires ReachesPivot(0, mid, |s|) && ReachesPivot(1, mid, |s|)
    ensures w == AfterTwo(s) && if index < mid then t == w else SelectsWithin(w, t, mid, |s|, index, None)
  {
    var u := FirstRound(s, t, mid, index, v);
    w := RunIsSetApart(u, t, 1, mid, |s|, index, v);
  }

  lemma FirstRound(s: seq<Row>, t: seq<Row>, mid: nat, index: nat, v: real) returns (u: seq<Row>)
    requires 0 < index < |s| && mid > 1 && LowRun(s, 0, mid, |s|, v) && Selects(s, t, index) && ReachesPivot(0, mid, |s|)
    ensures u == Exchanged(s, 0, Middle(0, |s|)) && LowRun(u, 1, mid, |s|, v) && SelectsWithin(u, t, 1, |s|, index, Some(v))
  {
    u := RunGoesOn(s, t, 0, mid, |s|, index, v);
    RunKept(s, u, 0, mid, |s|, v, 0, Middle(0, |s|));
  }

  lemma AfterTwoKeepsRun(s: seq<Row>, mid: nat, v: real)
    requires mid > 1 && |s| > 1 && LowRun(s, 0, mid, |s|, v)
    requires ReachesPivot(0, mid, |s|) && ReachesPivot(1, mid, |s|)
    ensures LowRun(AfterTwo(s), 0, mid, |s|, v) && AfterTwo(s)[mid..] == s[mid..]
  {
    var u := Exchanged(s, 0, Middle(0, |s|));
    RunKept(s, u, 0, mid, |s|, v, 0, Middle(0, |s|));
    RunKept(u, AfterTwo(s), 0, mid, |s|, v, 1, Middle(1, |s|));
  }

  // ---------------------------------------------------------------- seven and more

  /** The lowest value all over, but for three entries at the end, the largest of them first. */
  ghost predicate LateRest(s: seq<Row>, v: real) {
    && |s| >= 7 && LowRun(s, 0, |s| - 3, |s|, v)
    && s[|s| - 2].0 < s[|s| - 1].0 < s[|s| - 3].0
  }

  lemma RunReaches(n: nat)
    requires n >= 7
    ensures ReachesPivot(0, n - 3, n) && ReachesPivot(1, n - 3, n) && n / 2 < n - 3
    ensures 1 < Middle(0, n) && 1 < Middle(1, n) && Middle(0, n) != Middle(1, n)
  {
    assert Middle(0, n) % 2 == 0 && Middle(1, n) % 2 == 1;
  }

  /** Selecting the middle of such rows only moves rows of the run. */
  lemma LateFirstPass(s: seq<Row>, first: seq<Row>, v: real)
    requires LateRest(s, v) && Selects(s, first, |s| / 2)
    ensures first == AfterTwo(s) && LateRest(first, v)
  {
    var n := |s|;
    RunReaches(n);
    var u := TwoRounds(s, first, n - 3, n / 2, v);
    AfterTwoKeepsRun(s, n - 3, v);
    TailKept(s, first, v);
  }

  /** Selecting the largest then exchanges the last three around. */
  lemma LateSecondPass(s: seq<Row>, last: seq<Row>, v: real)
    requires LateRest(s, v) && Selects(s, last, |s| - 1)
    ensures last == Exchanged(AfterTwo(s), |s| - 3, |s| - 1)
  {
    var n := |s|;
    RunReaches(n);
    var w := TwoRounds(s, last, n - 3, n - 1, v);
    AfterTwoKeepsRun(s, n - 3, v);
    TailKept(s, w, v);
    LastThree(w, last);
  }

  lemma SameTail(s: seq<Row>, t: seq<Row>, mid: nat, i: nat)
    requires mid <= i < |s| == |t| && t[mid..] == s[mid..]
    ensures t[i] == s[i]
  {
    assert t[i] == t[mid..][i - mid] == s[mid..][i - mid];
  }

  lemma TailKept(s: seq<Row>, t: seq<Row>, v: real)
    requires LateRest(s, v) && |t| == |s| && LowRun(t, 0, |s| - 3, |s|, v) && t[|s| - 3..] == s[|s| - 3..]
    ensures LateRest(t, v)
  {
    var n := |s|;
    SameTail(s, t, n - 3, n - 3);
    SameTail(s, t, n - 3, n - 2);
    SameTail(s, t, n - 3, n - 1);
  }

  /** The exchanges of the first pass are undone by the second. */
  lemma TwiceIsNothing(s: seq<Row>)
    requires |s| >= 7
    ensures AfterTwo(AfterTwo(s)) == s
  {
    RunReaches(|s|);
  }

  lemma LastThree(s: seq<Row>, t: seq<Row>)
    requires |s| >= 7 && s[|s| - 2].0 < s[|s| - 1].0 < s[|s| - 3].0
    requires SelectsWithin(s, t, |s| - 3, |s|, |s| - 1, None)
    ensures t == Exchanged(s, |s| - 3, |s| - 1)
  {
    var n := |s|;
    PivotOfShort(s, n - 3, n);
    PivotMoves(s, t, n - 3, n, n - 1, None, n - 3, n - 1);
    assert Exchanged(s, n - 3, n - 3) == s;
  }

  // ---------------------------------------------------------------- five and six

  /** Five rows of which the second-largest value may have come to the front, but not behind the
      lowest. */
  ghost predicate FivePassed(t: seq<Row>, v: real) {
    && |t| == 5 && t[0].0 == t[2].0 == v < t[4].0
    && ((t[1].0 == v < t[3].0 < t[4].0) || t[4].0 > t[1].0 > v == t[3].0)
  }

  lemma PassOfFive(s: seq<Row>, t: seq<Row>, v: real)
    requires |s| == 5 && LowRun(s, 0, 3, |s|, v) && s[3].0 != s[4].0 && Selects(s, t, |s| - 1)
    ensures FivePassed(t, v)
  {
    var u := FirstRoundOfFive(s, t, v);
    SecondRoundOfFive(u, t, v);
  }

  lemma FirstRoundOfFive(s: seq<Row>, t: seq<Row>, v: real) returns (u: seq<Row>)
    requires |s| == 5 && LowRun(s, 0, 3, |s|, v) && s[3].0 != s[4].0 && Selects(s, t, |s| - 1)
    ensures |u| == 5 && LowRun(u, 0, 3, |u|, v) && u[3].0 != u[4].0 && SelectsWithin(u, t, 1, |u|, |u| - 1, Some(v))
  {
    u := FirstRound(s, t, 3, |s| - 1, v);
    RunKept(s, u, 0, 3, |s|, v, 0, Middle(0, |s|));
    TailsDiffer(s, u, 3, v);
  }

  lemma TailsDiffer(s: seq<Row>, u: seq<Row>, mid: nat, v: real)
    requires |u| == |s| == mid + 2 && s[mid].0 != s[mid + 1].0 && u[mid..] == s[mid..]
    ensures u[mid].0 != u[mid + 1].0
  {
    SameTail(s, u, mid, mid);
    SameTail(s, u, mid, mid + 1);
  }

  lemma SecondRoundOfFive(u: seq<Row>, t: seq<Row>, v: real)
    requires |u| == 5 && LowRun(u, 0, 3, |u|, v) && u[3].0 != u[4].0 && SelectsWithin(u, t, 1, |u|, |u| - 1, Some(v))
    ensures FivePassed(t, v)
  {
    if u[3].0 < u[4].0 {
      RisingFive(u, t, v);
    } else {
      FallingFive(u, t, v);
    }
  }

  lemma RisingFive(u: seq<Row>, t: seq<Row>, v: real)
    requires |u| == 5 && LowRun(u, 0, 3, |u|, v) && u[3].0 < u[4].0
    requires SelectsWithin(u, t, 1, |u|, |u| - 1, Some(v))
    ensures t == u
  {
    PivotOfShort(u, 1, |u|);
    PivotStays(u, t, 1, |u|, |u| - 1, Some(v), 3);
    LastOne(u, t, 4, Some(u[3].0));
  }

  lemma FallingFive(u: seq<Row>, t: seq<Row>, v: real)
    requires |u| == 5 && LowRun(u, 0, 3, |u|, v) && u[3].0 > u[4].0
    requires SelectsWithin(u, t, 1, |u|, |u| - 1, Some(v))
    ensures t == [u[0], u[4], u[2], u[1], u[3]]
  {
    PivotOfShort(u, 1, |u|);
    PivotMoves(u, t, 1, |u|, |u| - 1, Some(v), 3, 4);
    assert Exchanged(Exchanged(u, 1, 3), 1, 4) == [u[0], u[4], u[2], u[1], u[3]];
  }

  /** A range of one row stays. */
  lemma LastOne(s: seq<Row>, t: seq<Row>, index: nat, pred: Option<real>)
    requires index < |s| && (pred.Some? ==> pred.value < s[index].0) && SelectsWithin(s, t, index, index + 1, index, pred)
    ensures t == s
  {
    PivotStays(s, t, index, index + 1, index, pred, index);
  }

  /** A second pass over six rows sorts them. */
  lemma PassOfSix(s: seq<Row>, t: seq<Row>, v: real)
    requires |s| == 6 && LowRun(s, 0, 4, |s|, v) && s[4].0 != s[5].0 && Selects(s, t, |s| - 1)
    ensures |t| == 6 && LowRun(t, 0, 4, |t|, v) && t[4].0 < t[5].0
  {
    var u := TwoRoundsOfSix(s, t, v);
    LastRoundsOfSix(u, t, v);
  }

  lemma TwoRoundsOfSix(s: seq<Row>, t: seq<Row>, v: real) returns (u: seq<Row>)
    requires |s| == 6 && LowRun(s, 0, 4, |s|, v) && s[4].0 != s[5].0 && Selects(s, t, |s| - 1)
    ensures |u| == 6 && LowRun(u, 0, 4, |u|, v) && u[4].0 != u[5].0 && SelectsWithin(u, t, 4, |u|, |u| - 1, None)
  {
    AfterTwoKeepsRun(s, 4, v);
    u := TwoRounds(s, t, 4, |s| - 1, v);
    TailsDiffer(s, u, 4, v);
  }

  lemma LastRoundsOfSix(u: seq<Row>, t: seq<Row>, v: real)
    requires |u| == 6 && LowRun(u, 0, 4, |u|, v) && u[4].0 != u[5].0 && SelectsWithin(u, t, 4, |u|, |u| - 1, None)
    ensures |t| == 6 && LowRun(t, 0, 4, |t|, v) && t[4].0 < t[5].0
  {
    if u[4].0 < u[5].0 {
      RisingSix(u, t);
    } else {
      FallingSix(u, t);
    }
  }

  lemma RisingSix(u: seq<Row>, t: seq<Row>)
    requires |u| == 6 && u[4].0 < u[5].0 && SelectsWithin(u, t, 4, |u|, |u| - 1, None)
    ensures t == u
  {
    PivotOfShort(u, 4, |u|);
    PivotStays(u, t, 4, |u|, |u| - 1, None, 4);
    LastOne(u, t, 5, Some(u[4].0));
  }

  lemma FallingSix(u: seq<Row>, t: seq<Row>)
    requires |u| == 6 && u[4].0 > u[5].0 && SelectsWithin(u, t, 4, |u|, |u| - 1, None)
    ensures t == Exchanged(u, 4, 5)
  {
    PivotOfShort(u, 4, |u|);
    PivotMoves(u, t, 4, |u|, |u| - 1, None, 4, 5);
    assert Exchanged(u, 4, 4) == u;
  }
}

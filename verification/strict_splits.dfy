/** When a full bucket splits strictly, whatever it holds: exactly up to six entries. */
module StrictSplits {
  import opened KdTree
  import opened Sorting
  import opened Construction
  import opened MirroredRows
  import opened MirrorSelect
  import opened SplitPasses
  import opened BucketSplit

  /** A bucket whose split may be out of order. */
  ghost predicate AtRisk(s: seq<Entry>, key: Entry -> real)
    requires |s| >= 2
  {
    |s| > 6 && LowRunWithRest(s, key)
  }

  lemma StrictWithoutRisk(s: seq<Entry>, key: Entry -> real, r: seq<Entry>, cut: nat)
    requires |s| >= 2 && Outcome(s, key, r, cut) && cut < |s| && !AtRisk(s, key)
    ensures |r| == |s| && Apart(r, key, cut)
  {
    if |s| > 6 {
      StrictWithoutLowRun(s, key, r, cut);
    } else {
      StrictUpToSix(s, key, r, cut);
    }
  }

  // ---------------------------------------------------------------- up to six

  lemma StrictUpToSix(s: seq<Entry>, key: Entry -> real, r: seq<Entry>, cut: nat)
    requires 2 <= |s| <= 6 && Outcome(s, key, r, cut) && cut < |s|
    ensures |r| == |s| && Apart(r, key, cut)
  {
    var mid := |s| / 2;
    var rows := FirstPass(s, key, r, cut);
    SelectedColumn(s, key, Column(s, key), rows, mid);
    AfterFirstIsStrict(s, key, rows, Arranged(s, rows), r, key(Arranged(s, rows)[mid]), cut);
  }

  lemma AfterFirstIsStrict(s: seq<Entry>, key: Entry -> real, rows: seq<Row>, a: seq<Entry>, r: seq<Entry>, v: real, cut: nat)
    requires 2 <= |s| <= 6 && multiset(rows) == multiset(Column(s, key)) && IsColumn(s, key, rows) && a == Arranged(s, rows)
    requires Permuted(a, s) && Picked(a, key, |s| / 2) && v == key(a[|s| / 2]) && OutcomeAfter(s, key, rows, r, cut) && cut < |s|
    ensures |r| == |s| && Apart(r, key, cut)
  {
    if LeftOfRun(a, key, v, |s| / 2) > 0 {
      LeftCutIsStrict(a, key, |s| / 2, cut);
    } else {
      var last := SecondPass(s, key, rows, r, cut, v);
      SecondPassIsStrict(s, key, rows, last, a, r, v, cut);
    }
  }

  /** The second pass, with at most two rows behind the run of the lowest value. */
  lemma SecondPassIsStrict(s: seq<Entry>, key: Entry -> real, rows: seq<Row>, last: seq<Row>, a: seq<Entry>, r: seq<Entry>,
                           v: real, cut: nat)
    requires 2 <= |s| <= 6 && multiset(rows) == multiset(Column(s, key)) && IsColumn(s, key, rows) && a == Arranged(s, rows)
    requires Permuted(a, s) && Picked(a, key, |s| / 2) && v == key(a[|s| / 2]) && LeftOfRun(a, key, v, |s| / 2) == 0
    requires |rows| == |s| && Selects(rows, last, |rows| - 1) && IsColumn(s, key, last) && r == Arranged(s, last)
    requires cut == RightOfRun(r, key, v, |s| / 2) < |s|
    ensures Apart(r, key, cut)
  {
    var n := |s|;
    if n >= 5 && rows[n - 2].0 != rows[n - 1].0 && rows[n - 2].0 != v && rows[n - 1].0 != v {
      FrontIsRun(a, key, v, |s| / 2);
      RunIsLow(s, key, rows, a, v);
      LongPassIsStrict(s, key, rows, last, r, v, cut);
    } else {
      LastIsPicked(s, key, rows, last, r);
      TwoKeysAreStrict(s, key, rows, a, r, v, cut);
    }
  }

  /** The rows carry the keys of the entries in their order. */
  lemma KeysOfRows(s: seq<Entry>, key: Entry -> real, rows: seq<Row>, a: seq<Entry>)
    requires IsColumn(s, key, rows) && a == Arranged(s, rows)
    ensures |a| == |rows| && forall i :: 0 <= i < |a| ==> key(a[i]) == rows[i].0
  {
  }

  lemma TwoKeysAreStrict(s: seq<Entry>, key: Entry -> real, rows: seq<Row>, a: seq<Entry>, r: seq<Entry>, v: real, cut: nat)
    requires 2 <= |s| <= 6 && IsColumn(s, key, rows) && a == Arranged(s, rows)
    requires Picked(a, key, |s| / 2) && v == key(a[|s| / 2]) && LeftOfRun(a, key, v, |s| / 2) == 0
    requires |s| < 5 || rows[|s| - 2].0 == rows[|s| - 1].0 || rows[|s| - 2].0 == v || rows[|s| - 1].0 == v
    requires Permuted(a, s) && Permuted(r, s) && Picked(r, key, |r| - 1) && cut == RightOfRun(r, key, v, |s| / 2) < |s|
    ensures Apart(r, key, cut)
  {
    TwoKeys(s, key, rows, a, r, v);
    RightCutIsStrict(a, r, key, |s| / 2, v, cut);
  }

  lemma FrontIsRun(a: seq<Entry>, key: Entry -> real, v: real, p: nat)
    requires p <= |a| && LeftOfRun(a, key, v, p) == 0
    ensures forall i :: 0 <= i < p ==> key(a[i]) == v
  {
  }

  lemma RunIsLow(s: seq<Entry>, key: Entry -> real, rows: seq<Row>, a: seq<Entry>, v: real)
    requires 5 <= |s| <= 6 && IsColumn(s, key, rows) && a == Arranged(s, rows)
    requires Selected(a, key, |s| / 2) && v == key(a[|s| / 2]) && forall i :: 0 <= i < |s| / 2 ==> key(a[i]) == v
    requires rows[|s| - 2].0 != v && rows[|s| - 1].0 != v
    ensures LowRun(rows, 0, |s| - 2, |s|, v)
  {
    KeysOfRows(s, key, rows, a);
    KeysAreLow(a, key, rows, v, |s|);
  }

  lemma KeysAreLow(a: seq<Entry>, key: Entry -> real, rows: seq<Row>, v: real, n: nat)
    requires 5 <= n <= 6 && |rows| == |a| == n && forall i :: 0 <= i < n ==> key(a[i]) == rows[i].0
    requires Selected(a, key, n / 2) && v == key(a[n / 2]) && forall i :: 0 <= i < n / 2 ==> key(a[i]) == v
    requires rows[n - 2].0 != v && rows[n - 1].0 != v
    ensures LowRun(rows, 0, n - 2, n, v)
  {
    assert key(a[n - 2]) > v && key(a[n - 1]) > v;
  }

  lemma LongPassIsStrict(s: seq<Entry>, key: Entry -> real, rows: seq<Row>, last: seq<Row>, r: seq<Entry>, v: real, cut: nat)
    requires 5 <= |s| <= 6 && |rows| == |s| && LowRun(rows, 0, |s| - 2, |s|, v) && rows[|s| - 2].0 != rows[|s| - 1].0
    requires Selects(rows, last, |rows| - 1) && IsColumn(s, key, last) && r == Arranged(s, last)
    requires cut == RightOfRun(r, key, v, |s| / 2) < |s|
    ensures Apart(r, key, cut)
  {
    KeysOfRows(s, key, last, r);
    if |s| == 5 {
      PassOfFive(rows, last, v);
      FiveIsStrict(last, r, key, v, |s| / 2, cut);
    } else {
      PassOfSix(rows, last, v);
      SixIsStrict(last, r, key, v, |s| / 2, cut);
    }
  }

  lemma FiveIsStrict(last: seq<Row>, r: seq<Entry>, key: Entry -> real, v: real, p: nat, cut: nat)
    requires FivePassed(last, v) && |r| == 5 && forall i :: 0 <= i < |r| ==> key(r[i]) == last[i].0
    requires p == 2 && cut == RightOfRun(r, key, v, p) < 5
    ensures Apart(r, key, cut)
  {
    assert key(r[0]) == key(r[2]) == v;
  }

  lemma SixIsStrict(last: seq<Row>, r: seq<Entry>, key: Entry -> real, v: real, p: nat, cut: nat)
    requires |last| == |r| == 6 && LowRun(last, 0, 4, |last|, v) && last[4].0 < last[5].0
    requires (forall i :: 0 <= i < |r| ==> key(r[i]) == last[i].0) && p == 3 && cut == RightOfRun(r, key, v, p) < 6
    ensures Apart(r, key, cut)
  {
    assert key(r[3]) == v && key(r[4]) > v;
  }

  /** Otherwise there is only one value besides the lowest. */
  lemma TwoKeys(s: seq<Entry>, key: Entry -> real, rows: seq<Row>, a: seq<Entry>, r: seq<Entry>, v: real)
    requires 2 <= |s| <= 6 && IsColumn(s, key, rows) && a == Arranged(s, rows)
    requires Picked(a, key, |s| / 2) && v == key(a[|s| / 2]) && LeftOfRun(a, key, v, |s| / 2) == 0
    requires |s| < 5 || rows[|s| - 2].0 == rows[|s| - 1].0 || rows[|s| - 2].0 == v || rows[|s| - 1].0 == v
    requires Permuted(a, s) && Permuted(r, s) && Picked(r, key, |s| - 1)
    ensures forall i :: 0 <= i < |r| ==> key(r[i]) >= v && (key(r[i]) == v || key(r[i]) == key(r[|r| - 1]))
    ensures Permuted(r, a) && forall i :: 0 <= i <= |s| / 2 ==> key(a[i]) == v
  {
    KeysOfRows(s, key, rows, a);
    var w := SecondKey(a, key, v);
    SameElements(r, a);
    forall i | 0 <= i < |s| ensures key(r[i]) >= v && (key(r[i]) == v || key(r[i]) == w) {
      var j :| 0 <= j < |s| && a[j] == r[i];
    }
  }

  lemma SecondKey(a: seq<Entry>, key: Entry -> real, v: real) returns (w: real)
    requires 2 <= |a| <= 6 && Selected(a, key, |a| / 2) && v == key(a[|a| / 2]) && LeftOfRun(a, key, v, |a| / 2) == 0
    requires |a| < 5 || key(a[|a| - 2]) == key(a[|a| - 1]) || key(a[|a| - 2]) == v || key(a[|a| - 1]) == v
    ensures forall i :: 0 <= i < |a| ==> key(a[i]) >= v && (key(a[i]) == v || key(a[i]) == w)
    ensures forall i :: 0 <= i <= |a| / 2 ==> key(a[i]) == v
  {
    var n := |a|;
    w := if n < 5 || key(a[n - 1]) != v then key(a[n - 1]) else key(a[n - 2]);
    assert forall i :: 0 <= i <= n / 2 ==> key(a[i]) == v;
  }

  // ---------------------------------------------------------------- seven and more

  /** The lowest value all over, but for three entries at the end, the largest of them first. */
  ghost predicate EndsInThree(s: seq<Entry>, key: Entry -> real) {
    && |s| >= 7
    && (forall i :: 0 <= i < |s| - 3 ==> key(s[i]) == key(s[0]))
    && key(s[0]) < key(s[|s| - 2]) < key(s[|s| - 1]) < key(s[|s| - 3])
  }

  /** What becomes of such a bucket: the last three are exchanged around, and the cut falls
      before them, out of order. */
  lemma EndsInThreeSplits(s: seq<Entry>, key: Entry -> real, r: seq<Entry>, cut: nat)
    requires EndsInThree(s, key) && Outcome(s, key, r, cut)
    ensures r == Exchanged(s, |s| - 3, |s| - 1) && cut == |s| - 3 && !Apart(r, key, cut) && !Selected(r, key, cut)
  {
    var rows := FirstPass(s, key, r, cut);
    var column := ColumnEndsInThree(s, key);
    var last := SecondPassFollows(s, key, column, rows, r, key(s[0]), cut);
    CutBeforeThree(s, key, column, last, r, key(s[0]), cut);
  }

  lemma ColumnEndsInThree(s: seq<Entry>, key: Entry -> real) returns (column: seq<Row>)
    requires EndsInThree(s, key)
    ensures column == Column(s, key) && LateRest(column, key(s[0]))
  {
    column := Column(s, key);
  }

  lemma SecondPassFollows(s: seq<Entry>, key: Entry -> real, column: seq<Row>, rows: seq<Row>, r: seq<Entry>, v: real, cut: nat)
    returns (last: seq<Row>)
    requires |s| >= 7 && LateRest(column, v) && |column| == |s| && Selects(column, rows, |s| / 2) && IsColumn(s, key, rows)
    requires OutcomeAfter(s, key, rows, r, cut)
    ensures last == Exchanged(column, |s| - 3, |s| - 1) && IsColumn(s, key, last)
    ensures r == Arranged(s, last) && cut == RightOfRun(r, key, v, |s| / 2)
  {
    LateFirstPass(column, rows, v);
    RunReachesFront(s, key, rows, v);
    last := SecondPass(s, key, rows, r, cut, v);
    LateSecondPass(rows, last, v);
    TwiceIsNothing(column);
  }

  lemma RunReachesFront(s: seq<Entry>, key: Entry -> real, rows: seq<Row>, v: real)
    requires |s| >= 7 && IsColumn(s, key, rows) && LateRest(rows, v)
    ensures var a := Arranged(s, rows); key(a[|s| / 2]) == v && LeftOfRun(a, key, v, |s| / 2) == 0
  {
    KeysOfRows(s, key, rows, Arranged(s, rows));
  }

  lemma CutBeforeThree(s: seq<Entry>, key: Entry -> real, column: seq<Row>, last: seq<Row>, r: seq<Entry>, v: real, cut: nat)
    requires EndsInThree(s, key) && v == key(s[0]) && column == Column(s, key) && last == Exchanged(column, |s| - 3, |s| - 1)
    requires IsColumn(s, key, last) && r == Arranged(s, last) && cut == RightOfRun(r, key, v, |s| / 2)
    ensures r == Exchanged(s, |s| - 3, |s| - 1) && cut == |s| - 3 && !Apart(r, key, cut) && !Selected(r, key, cut)
  {
    assert r == Exchanged(s, |s| - 3, |s| - 1);
    ThreeAreLeft(s, key, r, v, cut);
  }

  lemma ThreeAreLeft(s: seq<Entry>, key: Entry -> real, r: seq<Entry>, v: real, cut: nat)
    requires EndsInThree(s, key) && v == key(s[0]) && r == Exchanged(s, |s| - 3, |s| - 1)
    requires cut == RightOfRun(r, key, v, |s| / 2)
    ensures cut == |s| - 3 && !Apart(r, key, cut) && !Selected(r, key, cut)
  {
    var n := |s|;
    assert r[n - 3] == s[n - 1] && r[n - 2] == s[n - 2];
    assert forall i :: 0 <= i < n - 3 ==> r[i] == s[i];
  }

  // ---------------------------------------------------------------- copies of two entries

  function Repeat(e: Entry, n: nat): (s: seq<Entry>)
    ensures |s| == n && forall i :: 0 <= i < n ==> s[i] == e
  {
    seq(n, _ => e)
  }

  lemma {:induction false} CountRepeat(e: Entry, n: nat)
    ensures multiset(Repeat(e, n))[e] == n && forall x :: x != e ==> multiset(Repeat(e, n))[x] == 0
  {
    if n > 0 {
      CountRepeat(e, n - 1);
      assert Repeat(e, n) == Repeat(e, n - 1) + [e];
    }
  }

  ghost predicate OnlyThese(s: seq<Entry>, low: Entry, high: Entry, c: nat) {
    && c <= |s| && (forall x :: x in s ==> x == low || x == high) && multiset(s)[low] == c
  }

  /** A bucket that holds copies of two entries splits between them, and in no other way. */
  lemma CopiesSplitBetween(s: seq<Entry>, key: Entry -> real, low: Entry, high: Entry, c: nat, r: seq<Entry>, cut: nat)
    requires OnlyThese(s, low, high, c) && 0 < c < |s| && key(low) < key(high) && Outcome(s, key, r, cut)
    ensures r == Repeat(low, c) + Repeat(high, |s| - c) && cut == c && Permuted(r, s)
  {
    BothOccur(s, low, high, c);
    OutcomeIsProper(s, key, r, cut);
    NothingBetween(s, key, low, high);
    StrictWithoutLowRun(s, key, r, cut);
    CopiesInOrder(s, r, key, low, high, c, cut);
  }

  lemma CopiesSplit(s: seq<Entry>, key: Entry -> real, low: Entry, high: Entry, c: nat) returns (r: seq<Entry>)
    requires OnlyThese(s, low, high, c) && 0 < c < |s| && key(low) < key(high)
    ensures r == Repeat(low, c) + Repeat(high, |s| - c) && Outcome(s, key, r, c) && Permuted(r, s)
  {
    var cut;
    r, cut := SomeOutcome(s, key);
    CopiesSplitBetween(s, key, low, high, c, r, cut);
  }

  lemma CopiesInOrder(s: seq<Entry>, r: seq<Entry>, key: Entry -> real, low: Entry, high: Entry, c: nat, cut: nat)
    requires OnlyThese(s, low, high, c) && 0 < cut < |s| && key(low) < key(high) && Permuted(r, s) && Apart(r, key, cut)
    ensures cut == c && r == Repeat(low, c) + Repeat(high, |s| - c)
  {
    SameElements(r, s);
    LowOnesFirst(r, key, low, high, cut);
    CountRepeat(low, cut);
    CountRepeat(high, |s| - cut);
    assert multiset(s)[low] == multiset(r)[low] == cut;
  }

  lemma BothOccur(s: seq<Entry>, low: Entry, high: Entry, c: nat)
    requires OnlyThese(s, low, high, c) && 0 < c < |s|
    ensures low in s && high in s
  {
    assert multiset(s)[low] > 0;
    if high !in s {
      AllTheSame(s, low);
    }
  }

  lemma {:induction false} AllTheSame(s: seq<Entry>, low: Entry)
    requires forall x :: x in s ==> x == low
    ensures multiset(s)[low] == |s|
  {
    if s != [] {
      var front, last := s[..|s| - 1], s[|s| - 1];
      assert forall x :: x in front ==> x in s;
      AllTheSame(front, low);
      assert s == front + [last] && last in s;
    }
  }

  lemma NothingBetween(s: seq<Entry>, key: Entry -> real, low: Entry, high: Entry)
    requires |s| >= 2 && forall x :: x in s ==> x == low || x == high
    ensures !LowRunWithRest(s, key)
  {
    SortSorts(s, key);
    SameElements(Sort(s, key), s);
    TwoValues(Sort(s, key), key, low, high);
  }

  lemma TwoValues(t: seq<Entry>, key: Entry -> real, low: Entry, high: Entry)
    requires t != [] && forall i :: 0 <= i < |t| ==> t[i] == low || t[i] == high
    ensures !exists i :: 0 <= i < |t| && key(t[0]) < key(t[i]) < key(t[|t| - 1])
  {
  }

  lemma LowOnesFirst(r: seq<Entry>, key: Entry -> real, low: Entry, high: Entry, cut: nat)
    requires (forall x :: x in r ==> x == low || x == high) && 0 < cut < |r| && Apart(r, key, cut) && key(low) < key(high)
    ensures r == Repeat(low, cut) + Repeat(high, |r| - cut)
  {
    assert r[0] in r && r[cut] in r;
    assert key(r[0]) < key(r[cut]);
    forall i | 0 <= i < |r| ensures r[i] == if i < cut then low else high {
      assert r[i] in r;
    }
  }

  // ---------------------------------------------------------------- exactly

  /** Whatever a bucket of `b` entries holds, and on whatever axis, if its split succeeds, it is
      strict. */
  ghost predicate SplitsStrictly(b: nat)
    requires b > 0
  {
    forall s: seq<Entry>, dim: nat, r: seq<Entry>, cut: nat ::
      |s| == b && Outcome(s, AxisKey(dim), r, cut) && cut < b ==> |r| == b && Apart(r, AxisKey(dim), cut)
  }

  lemma StrictExactlyUpToSix(b: nat)
    requires b >= 2
    ensures SplitsStrictly(b) <==> b <= 6
  {
    if b <= 6 {
      forall s: seq<Entry>, dim: nat, r: seq<Entry>, cut: nat | |s| == b && Outcome(s, AxisKey(dim), r, cut) && cut < b
        ensures |r| == b && Apart(r, AxisKey(dim), cut)
      {
        StrictUpToSix(s, AxisKey(dim), r, cut);
      }
    } else {
      var s, r, cut := UnorderedSplit(b);
    }
  }

  lemma UnorderedSplit(b: nat) returns (s: seq<Entry>, r: seq<Entry>, cut: nat)
    requires b >= 7
    ensures |s| == b == |r| && Outcome(s, AxisKey(0), r, cut) && cut < b && !Apart(r, AxisKey(0), cut)
  {
    s := seq(b, i => Entry([if i < b - 3 then 0.0 else if i == b - 3 then 3.0 else if i == b - 2 then 1.0 else 2.0], 0));
    var key := AxisKey(0);
    assert EndsInThree(s, key);
    r, cut := SomeOutcome(s, key);
    EndsInThreeSplits(s, key, r, cut);
  }
}

/** A bucket that splits out of order, for every bucket size above six, and what comes of it: a
    run of additions leads to a tree that is not ordered, and loses an answer under every metric. */
module MisplacedSplit {
  import opened Metrics
  import opened KdTree
  import opened Eytzinger
  import opened QueryContext
  import opened Search
  import opened Construction
  import opened MirroredRows
  import BucketSplit
  import opened StrictSplits
  import opened MappedQuery
  import opened MutableShape
  import opened MutableSteps
  import opened MutableTree
  import opened MutableRuns
  import opened StaleOffsets
  import opened ReachedTrees

  /** An entry on the first axis. */
  function On(k: nat, x: real, item: nat): (e: Entry)
    requires k >= 1
    ensures |e.point| == k && e.point[0] == x && forall d :: 1 <= d < k ==> e.point[d] == 0.0
  {
    Entry(Zeros(k)[0 := x], item)
  }

  /** Entries at 0, and three above at the end, the largest of them first. */
  function Bucket(k: nat, b: nat): (s: seq<Entry>)
    requires k >= 1 && b >= 7
    ensures |s| == b
  {
    Repeat(On(k, 0.0, 0), b - 3) + [On(k, 3.0, 3), On(k, 1.0, 1), On(k, 2.0, 2)]
  }

  /** After both selections. */
  function SecondPass(k: nat, b: nat): (s: seq<Entry>)
    requires k >= 1 && b >= 7
    ensures |s| == b
  {
    Repeat(On(k, 0.0, 0), b - 3) + [On(k, 2.0, 2), On(k, 1.0, 1), On(k, 3.0, 3)]
  }

  lemma BucketEndsInThree(k: nat, b: nat, key: Entry -> real)
    requires k >= 1 && b >= 7 && key == AxisKey(0)
    ensures EndsInThree(Bucket(k, b), key) && Exchanged(Bucket(k, b), b - 3, b - 1) == SecondPass(k, b)
  {
    var s := Bucket(k, b);
    assert s[b - 3] == On(k, 3.0, 3) && s[b - 2] == On(k, 1.0, 1) && s[b - 1] == On(k, 2.0, 2);
    assert forall i :: 0 <= i < b - 3 ==> s[i] == On(k, 0.0, 0);
  }

  /** The cut falls before the 2, so the 1 ends up on the wrong side of the pivot. */
  method SplitBucket(k: nat, b: nat) returns (r: seq<Entry>, cut: nat)
    requires k >= 1 && b >= 7
    ensures r == SecondPass(k, b) && cut == b - 3 && !Selected(r, AxisKey(0), cut)
  {
    r, cut := BucketSplit.Split(Bucket(k, b), AxisKey(0));
    BucketEndsInThree(k, b, AxisKey(0));
    EndsInThreeSplits(Bucket(k, b), AxisKey(0), r, cut);
  }

  lemma BucketSplits(k: nat, b: nat)
    requires k >= 1 && b >= 7
    ensures BucketSplit.Outcome(Bucket(k, b), AxisKey(0), SecondPass(k, b), b - 3) && BucketSplit.Permuted(SecondPass(k, b), Bucket(k, b))
  {
    var r, cut := SplitsAs(k, b, Bucket(k, b), AxisKey(0));
    BucketSplit.OutcomeIsProper(Bucket(k, b), AxisKey(0), r, cut);
  }

  lemma SplitsAs(k: nat, b: nat, s: seq<Entry>, key: Entry -> real) returns (r: seq<Entry>, cut: nat)
    requires k >= 1 && b >= 7 && s == Bucket(k, b) && key == AxisKey(0)
    ensures BucketSplit.Outcome(s, key, r, cut) && r == SecondPass(k, b) && cut == b - 3
  {
    r, cut := BucketSplit.SomeOutcome(s, key);
    BucketEndsInThree(k, b, key);
    EndsInThreeSplits(s, key, r, cut);
  }

  // ---------------------------------------------------------------- the tree

  /** The tree after one more addition, of an entry at 5. */
  function Unordered(k: nat, b: nat): Tree
    requires k >= 1 && b >= 7
  {
    Tree(k, [Inf, Fin(2.0)], map[2 := 0, 3 := 1], Halves(k, b), 0)
  }

  function Halves(k: nat, b: nat): seq<Leaf>
    requires k >= 1 && b >= 7
  {
    [Repeat(On(k, 0.0, 0), b - 3), [On(k, 2.0, 2), On(k, 1.0, 1), On(k, 3.0, 3)] + [On(k, 5.0, 5)]]
  }

  lemma UnorderedIsReached(k: nat, b: nat)
    requires k >= 1 && b >= 7
    ensures Sound(Unordered(k, b), b, false)
    ensures ReachedBy(EmptyTree(k), Unordered(k, b), b, Adds(Bucket(k, b)) + [Op.Add(On(k, 5.0, 5))])
  {
    BucketFits(k, Bucket(k, b));
    BucketFits(k, SecondPass(k, b));
    var t := FirstLeaf(k, b, Bucket(k, b));
    RootIsLeaf(t, On(k, 5.0, 5).point);
    BucketSplits(k, b);
    HalvesOfBucket(k, b, t);
    SplitOff(EmptyTree(k), t, Unordered(k, b), b, Adds(Bucket(k, b)), On(k, 5.0, 5), ROOT, SecondPass(k, b), b - 3,
             SecondPass(k, b)[..b - 3], SecondPass(k, b)[b - 3..], 2.0);
  }

  lemma BucketFits(k: nat, s: seq<Entry>)
    requires k >= 1 && exists b: nat :: b >= 7 && (s == Bucket(k, b) || s == SecondPass(k, b))
    ensures Fits(s, k)
  {
  }

  lemma HalvesOfBucket(k: nat, b: nat, t: Tree)
    requires k >= 1 && b >= 7 && t == EmptyTree(k).(leaves := [Bucket(k, b)])
    ensures var r := SecondPass(k, b);
            HalvesOf(t, ROOT, r[..b - 3], r[b - 3..], r[b - 3].point[0], On(k, 5.0, 5)) == Unordered(k, b)
  {
    var r := SecondPass(k, b);
    assert r[..b - 3] == Repeat(On(k, 0.0, 0), b - 3);
    assert r[b - 3..] == [On(k, 2.0, 2), On(k, 1.0, 1), On(k, 3.0, 3)];
    var u := WithSplit(t, ROOT, r[..b - 3], r[b - 3..] + [On(k, 5.0, 5)], 2.0);
    assert u.stems == [Inf, Fin(2.0)];
    assert u.leafIdxMap == map[2 := 0, 3 := 1];
    assert u.leaves == Halves(k, b);
  }

  function Root(): Node {
    Stem(Fin(2.0), Tip(0), Tip(1))
  }

  lemma UnorderedShape(k: nat, b: nat)
    requires k >= 1 && b >= 7
    ensures Unordered(k, b).Shape() == Root()
  {
    var t := Unordered(k, b);
    assert ShapeAt(t, ROOT.Child(k, false)) == Tip(0) && ShapeAt(t, ROOT.Child(k, true)) == Tip(1);
  }

  /** The entry at 1 lies outside the cell of its leaf. */
  lemma UnorderedIsNotValid(k: nat, b: nat)
    requires k >= 1 && b >= 7
    ensures !Unordered(k, b).Valid()
  {
    UnorderedShape(k, b);
    var cell := Narrow(Everywhere(k), 0, 2.0, true);
    assert !cell[0].Contains(1.0);
    assert On(k, 1.0, 1) in Halves(k, b)[1] && !InCell(On(k, 1.0, 1), cell);
    assert !Splits(Tip(1), Halves(k, b), 1, cell);
  }

  // ---------------------------------------------------------------- the lost answer

  lemma {:induction false} PowerOfOne(p: nat)
    ensures Power(1.0, p) == 1.0 && (p > 0 ==> Power(0.0, p) == 0.0)
  {
    if p > 0 {
      PowerOfOne(p - 1);
    }
  }

  lemma UnitContribution(m: Metric, a: real, b: real)
    requires m.Minkowski? ==> m.power > 0
    ensures (a - b == 1.0 || b - a == 1.0) ==> Dist1(m, a, b) == 1.0
    ensures a == b ==> Dist1(m, a, b) == 0.0
  {
    if m.Minkowski? {
      PowerOfOne(m.power);
    }
  }

  lemma {:induction false} TotalOfFirst(m: Metric, s: seq<real>, x: real)
    requires s != [] && s[0] == x >= 0.0 && forall d :: 1 <= d < |s| ==> s[d] == 0.0
    ensures Total(m, s) == x
  {
    if |s| > 1 {
      TotalOfFirst(m, s[..|s| - 1], x);
    } else {
      assert s[..0] == [];
    }
  }

  /** Entries one apart on the first axis are at distance 1 under every metric. */
  lemma DistOnAxis(m: Metric, k: nat, x: real, y: real, item: nat)
    requires k >= 1 && (m.Minkowski? ==> m.power > 0)
    ensures y - x == 1.0 ==> Dist(m, On(k, x, item).point, On(k, y, 0).point) == 1.0
    ensures x == y ==> Dist(m, On(k, x, item).point, On(k, y, 0).point) == 0.0
  {
    var p, q := On(k, x, item).point, On(k, y, 0).point;
    var c := Contributions(m, p, q);
    UnitContribution(m, x, y);
    forall d | 1 <= d < k ensures c[d] == 0.0 {
      UnitContribution(m, p[d], q[d]);
    }
    if y - x == 1.0 {
      TotalOfFirst(m, c, 1.0);
    } else if x == y {
      TotalOfFirst(m, c, 0.0);
    }
  }

  /** A query within half around the misplaced entry. */
  const HALF := Within(Fin(0.5), false, [])

  function Around(k: nat): (q: seq<real>)
    requires k >= 1
    ensures |q| == k && q[0] == 1.0
  {
    On(k, 1.0, 0).point
  }

  lemma LowLeafHasNothing(m: Metric, k: nat, b: nat)
    requires k >= 1 && b >= 7 && (m.Minkowski? ==> m.power > 0)
    ensures Fits(Halves(k, b)[0], k) && ProcessLeaf(m, Around(k), Halves(k, b)[0], HALF) == HALF
  {
    DistOnAxis(m, k, 0.0, 1.0, 0);
    NothingOffered(HALF, Fin(0.5), Hits(m, Around(k), Halves(k, b)[0]));
  }

  lemma {:induction false} NothingOffered(c: Context, bound: Ext, hits: seq<Hit>)
    requires c.Within? && forall i :: 0 <= i < |hits| ==> !Admits(hits[i], bound, c.exclusive)
    ensures OfferAll(c, bound, hits) == c
  {
    if hits != [] {
      NothingOffered(c, bound, hits[..|hits| - 1]);
    }
  }

  /** The other side of the pivot is one away from the query. */
  lemma FarSide(m: Metric, k: nat)
    requires k >= 1 && (m.Minkowski? ==> m.power > 0)
    ensures RectDistAfterUpdate(m, 0.0, Zeros(k), 0, 1.0) == 1.0
  {
    UnitContribution(m, 1.0, 0.0);
    UnitContribution(m, 0.0, 0.0);
    TotalOfFirst(m, Zeros(k)[0 := 1.0], 1.0);
  }

  lemma UnorderedUsable(k: nat, b: nat)
    requires k >= 1 && b >= 7
    ensures Usable(Root(), Halves(k, b), k) && On(k, 1.0, 1) in Entries(Root(), Halves(k, b))
  {
    var low, high := Halves(k, b)[0], Halves(k, b)[1];
    assert Entries(Root(), Halves(k, b)) == low + high;
    assert On(k, 1.0, 1) == high[1] == (low + high)[|low| + 1];
    assert forall i :: 0 <= i < |high| ==> |high[i].point| == k;
  }

  lemma QueryFindsNothing(m: Metric, k: nat, b: nat)
    requires k >= 1 && b >= 7 && (m.Minkowski? ==> m.power > 0)
    ensures Usable(Root(), Halves(k, b), k) && Returned(m, Around(k), Root(), Halves(k, b), HALF) == HALF
  {
    UnorderedUsable(k, b);
    LowLeafHasNothing(m, k, b);
    FarSide(m, k);
    VisitStaleStem(m, Around(k), Root(), Halves(k, b), 0, Zeros(k), 0.0, HALF, 0, Tip(0), Tip(1), 1.0, 1.0);
  }

  lemma MissesStored(m: Metric, k: nat, es: seq<Entry>)
    requires k >= 1 && (m.Minkowski? ==> m.power > 0) && Fits(es, k) && On(k, 1.0, 1) in es
    ensures !Answers(HALF, multiset(Hits(m, Around(k), es)))
  {
    DistOnAxis(m, k, 1.0, 1.0, 1);
    HitOfStored(m, Around(k), es, On(k, 1.0, 1));
    var hits := multiset(Hits(m, Around(k), es));
    assert InRadius(0.0, Fin(0.5), false);
    assert Candidates(HALF, hits)[Hit(0.0, 1)] > 0;
  }

  /** The query misses the entry at its own centre. */
  lemma MisplacedIsMissed(m: Metric, k: nat, b: nat)
    requires k >= 1 && b >= 7 && (m.Minkowski? ==> m.power > 0)
    ensures var t := Unordered(k, b);
            && On(k, 1.0, 1) in t.Contents() && Dist(m, On(k, 1.0, 1).point, Around(k)) == 0.0
            && Fresh(HALF) && HALF.WellFormed() && !RightAnswer(t, m, Around(k), HALF)
  {
    UnorderedShape(k, b);
    UnorderedUsable(k, b);
    QueryFindsNothing(m, k, b);
    DistOnAxis(m, k, 1.0, 1.0, 1);
    MissesStored(m, k, Entries(Root(), Halves(k, b)));
  }
}

/** The tree of `StaleOffsets` is one that a mutable tree comes to hold, whatever its bucket size:
    by additions that split four buckets, and three removals. */
module CulpritRun {
  import opened Metrics
  import opened KdTree
  import opened Eytzinger
  import opened QueryContext
  import opened MappedQuery
  import opened MutableShape
  import opened MutableConstruction
  import opened MutableSteps
  import opened StrictSplits
  import opened Routing
  import opened MutableTree
  import opened MutableRuns
  import opened StaleOffsets
  import opened ReachedTrees
  import BucketEdit

  lemma Down(t: Tree, p: seq<real>, at: Cursor)
    requires |p| == t.k && at.Valid(t.k) && CompleteAt(t, at) && at.stemIdx !in t.leafIdxMap
    ensures Locate(t, p, at) == Locate(t, p, at.Child(t.k, GoesRight(t.stems[at.stemIdx], p[at.dim])))
  {
  }

  /** Entries that are only there to fill buckets and place the pivots. */
  function Low(k: nat): Entry
    requires k >= 2
  {
    Entry(At(k, 2.0, -3.0, 0.0), 10)
  }

  function Middle(k: nat): Entry
    requires k >= 2
  {
    Entry(At(k, 5.0, 10.0, 0.0), 11)
  }

  function Lowest(k: nat): Entry
    requires k >= 2
  {
    Entry(At(k, 0.0, -4.0, 0.0), 12)
  }

  function Below(k: nat): Entry
    requires k >= 2
  {
    Entry(At(k, 6.0, -50.0, 0.0), 1)
  }

  function Above(k: nat): Entry
    requires k >= 2
  {
    Entry(At(k, 6.0, 30.0, 0.0), 2)
  }

  // ---------------------------------------------------------------- the first split

  function Fillers(k: nat, b: nat): (s: seq<Entry>)
    requires k >= 2 && b >= 2
    ensures |s| == b
  {
    [Low(k)] + Repeat(Middle(k), b - 1)
  }

  function AfterFirst(k: nat, b: nat): Tree
    requires k >= 2 && b >= 2
  {
    Tree(k, [Inf, Fin(5.0)], map[2 := 0, 3 := 1], [[Low(k), Lowest(k)], Repeat(Middle(k), b - 1)], 0)
  }

  function OpsToFirst(k: nat, b: nat): seq<Op>
    requires k >= 2 && b >= 2
  {
    Adds(Fillers(k, b)) + [Op.Add(Lowest(k))]
  }

  lemma FirstSplit(k: nat, b: nat)
    requires k >= 2 && b >= 2
    ensures Sound(AfterFirst(k, b), b, false) && ReachedBy(EmptyTree(k), AfterFirst(k, b), b, OpsToFirst(k, b))
  {
    FirstHalves(k, b);
    FirstPair(k, b);
    RootSplitOff(k, AfterFirst(k, b), b, Fillers(k, b), Lowest(k), Low(k), Middle(k), 1, 5.0);
  }

  lemma FirstPair(k: nat, b: nat)
    requires k >= 2 && b >= 2
    ensures OnlyThese(Fillers(k, b), Low(k), Middle(k), 1)
    ensures |Low(k).point| == |Middle(k).point| == |Lowest(k).point| == k
    ensures Low(k).point[0] < Middle(k).point[0] == 5.0 && Lowest(k).point[0] < 5.0
  {
    CountedFirst(Low(k), Middle(k), b - 1);
  }

  lemma FirstHalves(k: nat, b: nat)
    requires k >= 2 && b >= 2
    ensures WithSplit(EmptyTree(k).(leaves := [Fillers(k, b)]), ROOT, Repeat(Low(k), 1) + [Lowest(k)], Repeat(Middle(k), b - 1), 5.0)
         == AfterFirst(k, b)
  {
    var u := WithSplit(EmptyTree(k).(leaves := [Fillers(k, b)]), ROOT, Repeat(Low(k), 1) + [Lowest(k)], Repeat(Middle(k), b - 1), 5.0);
    assert u.stems == [Inf, Fin(5.0)];
    assert u.leafIdxMap == map[2 := 0, 3 := 1];
    OneCopy(Low(k), Lowest(k));
    assert u.leaves == [[Low(k), Lowest(k)], Repeat(Middle(k), b - 1)];
  }

  lemma OneCopy(x: Entry, y: Entry)
    ensures Repeat(x, 1) == [x] && Repeat(x, 1) + [y] == [x, y]
  {
  }

  lemma CountedFirst(x: Entry, y: Entry, n: nat)
    requires x != y
    ensures OnlyThese([x] + Repeat(y, n), x, y, 1) && OnlyThese([x] + Repeat(y, n), y, x, n)
  {
    CountRepeat(y, n);
    forall e | e in [x] + Repeat(y, n) ensures e == x || e == y {
    }
  }

  lemma CountedLast(x: Entry, y: Entry, n: nat)
    requires x != y
    ensures OnlyThese(Repeat(y, n) + [x], x, y, 1)
  {
    CountRepeat(y, n);
    forall e | e in Repeat(y, n) + [x] ensures e == x || e == y {
    }
  }

  lemma CountedBetween(x: Entry, y: Entry, n: nat)
    requires x != y
    ensures OnlyThese([x, y] + Repeat(x, n), y, x, 1) && OnlyThese([x, y] + Repeat(x, n), x, y, n + 1)
  {
    CountRepeat(x, n);
    forall e | e in [x, y] + Repeat(x, n) ensures e == x || e == y {
    }
  }

  // ---------------------------------------------------------------- the second split

  function LeftFilled(k: nat, b: nat): Tree
    requires k >= 2 && b >= 2
  {
    AfterFirst(k, b).(leaves := [[Low(k)] + Repeat(Lowest(k), b - 1), Repeat(Middle(k), b - 1)])
  }

  function AfterSecond(k: nat, b: nat): Tree
    requires k >= 2 && b >= 2
  {
    Tree(k, [Inf, Fin(5.0), Fin(-3.0)], map[3 := 1, 4 := 0, 5 := 2],
         [Repeat(Lowest(k), b - 1), Repeat(Middle(k), b - 1), [Low(k), Nearest(k)]], 1)
  }

  function OpsToSecond(k: nat, b: nat): seq<Op>
    requires k >= 2 && b >= 2
  {
    OpsToFirst(k, b) + Adds(Repeat(Lowest(k), b - 2)) + [Op.Add(Nearest(k))]
  }

  lemma LeftIsFilled(k: nat, b: nat)
    requires k >= 2 && b >= 2
    ensures Sound(LeftFilled(k, b), b, false)
    ensures ReachedBy(EmptyTree(k), LeftFilled(k, b), b, OpsToFirst(k, b) + Adds(Repeat(Lowest(k), b - 2)))
  {
    var t := AfterFirst(k, b);
    FirstSplit(k, b);
    LowestGoesLeft(k, b);
    var u := JoinedAll(EmptyTree(k), t, b, OpsToFirst(k, b), Repeat(Lowest(k), b - 2), 0);
    LeftBecomes(k, b, u);
  }

  lemma LowestGoesLeft(k: nat, b: nat)
    requires k >= 2 && b >= 2 && CompleteAt(AfterFirst(k, b), ROOT)
    ensures LeafOf(AfterFirst(k, b), Lowest(k).point) == 0
  {
    Down(AfterFirst(k, b), Lowest(k).point, ROOT);
  }

  lemma LeftBecomes(k: nat, b: nat, u: Tree)
    requires k >= 2 && b >= 2 && u == WithLeaf(AfterFirst(k, b), 0, [Low(k), Lowest(k)] + Repeat(Lowest(k), b - 2))
    ensures u == LeftFilled(k, b)
  {
    assert [Low(k), Lowest(k)] + Repeat(Lowest(k), b - 2) == [Low(k)] + Repeat(Lowest(k), b - 1);
    assert u.leaves == LeftFilled(k, b).leaves;
  }

  lemma SecondSplit(k: nat, b: nat)
    requires k >= 2 && b >= 2
    ensures Sound(AfterSecond(k, b), b, false) && ReachedBy(EmptyTree(k), AfterSecond(k, b), b, OpsToSecond(k, b))
  {
    var t, e, z := LeftFilled(k, b), Nearest(k), ROOT.Child(k, false);
    LeftIsFilled(k, b);
    Down(t, e.point, ROOT);
    CountedFirst(Low(k), Lowest(k), b - 1);
    SecondHalves(k, b);
    PairSplitOff(EmptyTree(k), t, AfterSecond(k, b), b, OpsToFirst(k, b) + Adds(Repeat(Lowest(k), b - 2)), e, z, Lowest(k), Low(k), b - 1);
  }

  lemma SecondHalves(k: nat, b: nat)
    requires k >= 2 && b >= 2
    ensures WithSplit(LeftFilled(k, b), ROOT.Child(k, false), Repeat(Lowest(k), b - 1), Repeat(Low(k), 1) + [Nearest(k)], -3.0)
         == AfterSecond(k, b)
  {
    var u := WithSplit(LeftFilled(k, b), ROOT.Child(k, false), Repeat(Lowest(k), b - 1), Repeat(Low(k), 1) + [Nearest(k)], -3.0);
    assert u.stems == [Inf, Fin(5.0), Fin(-3.0)];
    assert u.leafIdxMap == map[3 := 1, 4 := 0, 5 := 2];
    OneCopy(Low(k), Nearest(k));
    assert u.leaves == AfterSecond(k, b).leaves;
  }

  // ---------------------------------------------------------------- the third split

  function RightFilled(k: nat, b: nat): Tree
    requires k >= 2 && b >= 2
  {
    AfterSecond(k, b).(leaves := [Repeat(Lowest(k), b - 1), Repeat(Middle(k), b - 1) + [Below(k)], [Low(k), Nearest(k)]])
  }

  function AfterThird(k: nat, b: nat): Tree
    requires k >= 2 && b >= 2
  {
    Tree(k, [Inf, Fin(5.0), Fin(-3.0), Fin(10.0)], map[4 := 0, 5 := 2, 6 := 1, 7 := 3],
         [Repeat(Lowest(k), b - 1), [Below(k)], [Low(k), Nearest(k)], Repeat(Middle(k), b - 1) + [Above(k)]], 1)
  }

  function OpsToThird(k: nat, b: nat): seq<Op>
    requires k >= 2 && b >= 2
  {
    OpsToSecond(k, b) + [Op.Add(Below(k))] + [Op.Add(Above(k))]
  }

  lemma RightIsFilled(k: nat, b: nat)
    requires k >= 2 && b >= 2
    ensures Sound(RightFilled(k, b), b, false)
    ensures ReachedBy(EmptyTree(k), RightFilled(k, b), b, OpsToSecond(k, b) + [Op.Add(Below(k))])
  {
    var t, e := AfterSecond(k, b), Below(k);
    SecondSplit(k, b);
    Down(t, e.point, ROOT);
    JoinedOne(EmptyTree(k), t, RightFilled(k, b), b, OpsToSecond(k, b), e, 1);
  }

  lemma ThirdSplit(k: nat, b: nat)
    requires k >= 2 && b >= 2
    ensures Sound(AfterThird(k, b), b, false) && ReachedBy(EmptyTree(k), AfterThird(k, b), b, OpsToThird(k, b))
  {
    var t, e, z := RightFilled(k, b), Above(k), ROOT.Child(k, true);
    RightIsFilled(k, b);
    AboveGoesRight(k, b);
    ThirdPair(k, b);
    ThirdHalves(k, b);
    PairSplitOff(EmptyTree(k), t, AfterThird(k, b), b, OpsToSecond(k, b) + [Op.Add(Below(k))], e, z, Below(k), Middle(k), 1);
  }

  lemma AboveGoesRight(k: nat, b: nat)
    requires k >= 2 && b >= 2 && CompleteAt(RightFilled(k, b), ROOT)
    ensures Locate(RightFilled(k, b), Above(k).point, ROOT) == ROOT.Child(k, true)
  {
    Down(RightFilled(k, b), Above(k).point, ROOT);
  }

  lemma ThirdPair(k: nat, b: nat)
    requires k >= 2 && b >= 2
    ensures var t, z := RightFilled(k, b), ROOT.Child(k, true);
            && z.stemIdx == 3 && z.dim == 1 && t.leafIdxMap[3] == 1
            && |t.leaves[1]| == b && OnlyThese(t.leaves[1], Below(k), Middle(k), 1)
    ensures |Below(k).point| == |Middle(k).point| == |Above(k).point| == k
    ensures Below(k).point[1] < Middle(k).point[1] == 10.0 <= Above(k).point[1]
  {
    CountedLast(Below(k), Middle(k), b - 1);
  }

  lemma ThirdHalves(k: nat, b: nat)
    requires k >= 2 && b >= 2
    ensures WithSplit(RightFilled(k, b), ROOT.Child(k, true), Repeat(Below(k), 1), Repeat(Middle(k), b - 1) + [Above(k)], 10.0)
         == AfterThird(k, b)
  {
    var u := WithSplit(RightFilled(k, b), ROOT.Child(k, true), Repeat(Below(k), 1), Repeat(Middle(k), b - 1) + [Above(k)], 10.0);
    assert u.stems == [Inf, Fin(5.0), Fin(-3.0), Fin(10.0)];
    assert u.leafIdxMap == map[4 := 0, 5 := 2, 6 := 1, 7 := 3];
    OneCopy(Below(k), Below(k));
    assert u.leaves == AfterThird(k, b).leaves;
  }

  // ---------------------------------------------------------------- the fourth split

  /** Where the core is: right below the left stem of the root. */
  function CoreCursor(k: nat): Cursor
    requires k >= 2
  {
    ROOT.Child(k, false).Child(k, true)
  }

  function CoreFilled(k: nat, b: nat): Tree
    requires k >= 2 && b >= 2
  {
    AfterThird(k, b).(leaves := AfterThird(k, b).leaves[2 := [Low(k), Nearest(k)] + Repeat(Low(k), b - 2)])
  }

  /** The copies in the core, with the point that hides the nearest one. */
  function Crowd(k: nat, b: nat): seq<Entry>
    requires k >= 2 && b >= 2
  {
    Repeat(Low(k), b - 1) + [Hiding(k)]
  }

  function AfterFourth(k: nat, b: nat): Tree
    requires k >= 2 && b >= 2
  {
    Tree(k, [Inf, Fin(5.0), Fin(-3.0), Fin(10.0), Inf, Fin(CorePivot(k))],
         map[4 := 0, 6 := 1, 7 := 3, 10 := 2, 11 := 4],
         [Repeat(Lowest(k), b - 1), [Below(k)], if k == 2 then [Nearest(k)] else Crowd(k, b),
          Repeat(Middle(k), b - 1) + [Above(k)], if k == 2 then Crowd(k, b) else [Nearest(k)]], 2)
  }

  function OpsToFourth(k: nat, b: nat): seq<Op>
    requires k >= 2 && b >= 2
  {
    OpsToThird(k, b) + Adds(Repeat(Low(k), b - 2)) + [Op.Add(Hiding(k))]
  }

  lemma GoesToCore(k: nat, t: Tree, p: seq<real>)
    requires k >= 2 && t.k == k == |p| && t.stems == [Inf, Fin(5.0), Fin(-3.0), Fin(10.0)] && CompleteAt(t, ROOT)
    requires t.leafIdxMap == map[4 := 0, 5 := 2, 6 := 1, 7 := 3] && p[0] < 5.0 && p[1] >= -3.0
    ensures Locate(t, p, ROOT) == CoreCursor(k) && LeafOf(t, p) == 2
  {
    Down(t, p, ROOT);
    Down(t, p, ROOT.Child(k, false));
  }

  lemma CoreIsFilled(k: nat, b: nat)
    requires k >= 2 && b >= 2
    ensures Sound(CoreFilled(k, b), b, false)
    ensures ReachedBy(EmptyTree(k), CoreFilled(k, b), b, OpsToThird(k, b) + Adds(Repeat(Low(k), b - 2)))
  {
    var t := AfterThird(k, b);
    ThirdSplit(k, b);
    GoesToCore(k, t, Low(k).point);
    var u := JoinedAll(EmptyTree(k), t, b, OpsToThird(k, b), Repeat(Low(k), b - 2), 2);
  }

  lemma FourthSplit(k: nat, b: nat)
    requires k >= 2 && b >= 2
    ensures Sound(AfterFourth(k, b), b, false) && ReachedBy(EmptyTree(k), AfterFourth(k, b), b, OpsToFourth(k, b))
  {
    var t, z := CoreFilled(k, b), CoreCursor(k);
    CoreIsFilled(k, b);
    GoesToCore(k, t, Hiding(k).point);
    CountedBetween(Low(k), Nearest(k), b - 2);
    FourthHalves(k, b);
    var ops := OpsToThird(k, b) + Adds(Repeat(Low(k), b - 2));
    if k == 2 {
      PairSplitOff(EmptyTree(k), t, AfterFourth(k, b), b, ops, Hiding(k), z, Nearest(k), Low(k), 1);
    } else {
      PairSplitOff(EmptyTree(k), t, AfterFourth(k, b), b, ops, Hiding(k), z, Low(k), Nearest(k), b - 1);
    }
  }

  lemma FourthHalves(k: nat, b: nat)
    requires k >= 2 && b >= 2
    ensures CoreCursor(k).stemIdx == 5 && CoreCursor(k).dim == (if k == 2 then 0 else 2)
    ensures k == 2 ==> WithSplit(CoreFilled(k, b), CoreCursor(k), Repeat(Nearest(k), 1), Crowd(k, b), 2.0) == AfterFourth(k, b)
    ensures k > 2 ==> WithSplit(CoreFilled(k, b), CoreCursor(k), Crowd(k, b), Repeat(Nearest(k), 1), 4.0) == AfterFourth(k, b)
  {
    var z := CoreCursor(k);
    assert z.stemIdx == 5 && z.level == 2 && z.dim == if k == 2 then 0 else 2;
    var l, h := if k == 2 then Repeat(Nearest(k), 1) else Crowd(k, b), if k == 2 then Crowd(k, b) else Repeat(Nearest(k), 1);
    var u := WithSplit(CoreFilled(k, b), z, l, h, CorePivot(k));
    assert u.stems == [Inf, Fin(5.0), Fin(-3.0), Fin(10.0), Inf, Fin(CorePivot(k))];
    assert u.leafIdxMap == map[4 := 0, 6 := 1, 7 := 3, 10 := 2, 11 := 4];
    OneCopy(Nearest(k), Nearest(k));
    assert u.leaves == AfterFourth(k, b).leaves;
  }

  // ---------------------------------------------------------------- the removals

  function WithoutLow(k: nat, b: nat): Tree
    requires k >= 2 && b >= 2
  {
    AfterFourth(k, b).(leaves := [Repeat(Lowest(k), b - 1), [Below(k)], [if k == 2 then Nearest(k) else Hiding(k)],
                                  Repeat(Middle(k), b - 1) + [Above(k)], [if k == 2 then Hiding(k) else Nearest(k)]])
  }

  function WithoutMiddle(k: nat, b: nat): Tree
    requires k >= 2 && b >= 2
  {
    WithoutLow(k, b).(leaves := [Repeat(Lowest(k), b - 1), [Below(k)], [if k == 2 then Nearest(k) else Hiding(k)],
                                 [Above(k)], [if k == 2 then Hiding(k) else Nearest(k)]])
  }

  lemma LowTaken(k: nat, b: nat)
    requires k >= 2 && b >= 2
    ensures var t, i := AfterFourth(k, b), if k == 2 then 4 else 2;
            WithLeaf(t, i, BucketEdit.Without(t.leaves[i], Low(k))) == WithoutLow(k, b)
  {
    WithoutCopies(Low(k), b - 1, [Hiding(k)]);
    CrowdReplaced(k, b, if k == 2 then 4 else 2);
  }

  lemma CrowdReplaced(k: nat, b: nat, i: nat)
    requires k >= 2 && b >= 2 && i == if k == 2 then 4 else 2
    ensures AfterFourth(k, b).leaves[i] == Crowd(k, b) && WithLeaf(AfterFourth(k, b), i, [Hiding(k)]) == WithoutLow(k, b)
  {
    assert AfterFourth(k, b).leaves[i := [Hiding(k)]] == WithoutLow(k, b).leaves;
  }

  lemma MiddleTaken(k: nat, b: nat)
    requires k >= 2 && b >= 2
    ensures WithLeaf(WithoutLow(k, b), 3, BucketEdit.Without(WithoutLow(k, b).leaves[3], Middle(k))) == WithoutMiddle(k, b)
  {
    WithoutCopies(Middle(k), b - 1, [Above(k)]);
    assert WithoutLow(k, b).leaves[3 := [Above(k)]] == WithoutMiddle(k, b).leaves;
  }

  lemma LowestTaken(k: nat, b: nat)
    requires k >= 2 && b >= 2
    ensures WithLeaf(WithoutMiddle(k, b), 0, BucketEdit.Without(WithoutMiddle(k, b).leaves[0], Lowest(k))) == CulpritTree(k)
  {
    assert Repeat(Lowest(k), b - 1) + [] == Repeat(Lowest(k), b - 1);
    WithoutCopies(Lowest(k), b - 1, []);
    assert WithoutMiddle(k, b).leaves[0 := []] == CulpritTree(k).leaves;
  }

  lemma LowRemoved(k: nat, b: nat)
    requires k >= 2 && b >= 2
    ensures Sound(WithoutLow(k, b), b, false)
    ensures ReachedBy(EmptyTree(k), WithoutLow(k, b), b, OpsToFourth(k, b) + [Op.Remove(Low(k))])
  {
    FourthSplit(k, b);
    LowIsFound(k, b);
    LowTaken(k, b);
    TakenOut(EmptyTree(k), AfterFourth(k, b), WithoutLow(k, b), b, OpsToFourth(k, b), Low(k), if k == 2 then 4 else 2);
  }

  lemma LowIsFound(k: nat, b: nat)
    requires k >= 2 && b >= 2 && CompleteAt(AfterFourth(k, b), ROOT)
    ensures LeafOf(AfterFourth(k, b), Low(k).point) == if k == 2 then 4 else 2
  {
    var t, p := AfterFourth(k, b), Low(k).point;
    assert CoreCursor(k).dim == if k == 2 then 0 else 2;
    Down(t, p, ROOT);
    Down(t, p, ROOT.Child(k, false));
    Down(t, p, CoreCursor(k));
  }

  lemma MiddleRemoved(k: nat, b: nat)
    requires k >= 2 && b >= 2
    ensures Sound(WithoutMiddle(k, b), b, false)
    ensures ReachedBy(EmptyTree(k), WithoutMiddle(k, b), b, OpsToFourth(k, b) + [Op.Remove(Low(k))] + [Op.Remove(Middle(k))])
  {
    LowRemoved(k, b);
    MiddleIsFound(k, b);
    MiddleTaken(k, b);
    TakenOut(EmptyTree(k), WithoutLow(k, b), WithoutMiddle(k, b), b, OpsToFourth(k, b) + [Op.Remove(Low(k))], Middle(k), 3);
  }

  lemma MiddleIsFound(k: nat, b: nat)
    requires k >= 2 && b >= 2 && CompleteAt(WithoutLow(k, b), ROOT)
    ensures LeafOf(WithoutLow(k, b), Middle(k).point) == 3
  {
    Down(WithoutLow(k, b), Middle(k).point, ROOT);
    Down(WithoutLow(k, b), Middle(k).point, ROOT.Child(k, true));
  }

  lemma LowestIsFound(k: nat, b: nat)
    requires k >= 2 && b >= 2 && CompleteAt(WithoutMiddle(k, b), ROOT)
    ensures LeafOf(WithoutMiddle(k, b), Lowest(k).point) == 0
  {
    Down(WithoutMiddle(k, b), Lowest(k).point, ROOT);
    Down(WithoutMiddle(k, b), Lowest(k).point, ROOT.Child(k, false));
  }

  /** The whole run. */
  function Ops(k: nat, b: nat): seq<Op>
    requires k >= 2 && b >= 2
  {
    OpsToFourth(k, b) + [Op.Remove(Low(k))] + [Op.Remove(Middle(k))] + [Op.Remove(Lowest(k))]
  }

  /** Starting from the empty tree, the run leads to the tree that loses an answer. */
  lemma CulpritIsReached(k: nat, b: nat)
    requires k >= 2 && b >= 2
    ensures Sound(CulpritTree(k), b, true) && ReachedBy(EmptyTree(k), CulpritTree(k), b, Ops(k, b))
  {
    MiddleRemoved(k, b);
    LowestIsFound(k, b);
    LowestTaken(k, b);
    TakenOut(EmptyTree(k), WithoutMiddle(k, b), CulpritTree(k), b,
             OpsToFourth(k, b) + [Op.Remove(Low(k))] + [Op.Remove(Middle(k))], Lowest(k), 0);
    CulpritIsATree(k, b);
  }
}

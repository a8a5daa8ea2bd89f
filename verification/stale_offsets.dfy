/** The shared offsets of the mutable-tree traversal lose answers for the Chebyshev metric as
    soon as there are two axes: its rectangle distance is recomputed from every offset, so one
    left over from another branch raises it and a subtree that holds the nearest point is
    pruned. This module exhibits such a mutable tree for every axis count and states exactly
    when the traversal is exact. */
module StaleOffsets {
  import opened Metrics
  import opened KdTree
  import opened Options
  import opened QueryContext
  import opened Search
  import opened Eytzinger
  import opened MappedQuery
  import opened MutableShape
  import opened MutableConstruction

  /** A point or query that is zero on every axis but the first three. */
  function At(k: nat, x: real, y: real, z: real): (p: seq<real>)
    requires k >= 2
    ensures |p| == k && p[0] == x && p[1] == y && (k > 2 ==> p[2] == z)
    ensures forall d :: 3 <= d < k ==> p[d] == 0.0
  {
    seq(k, d => if d == 0 then x else if d == 1 then y else if d == 2 then z else 0.0)
  }

  function Larger(a: real, b: real): real {
    if a >= b then a else b
  }

  lemma {:induction false} ChebyshevOfThree(s: seq<real>)
    requires |s| >= 2 && forall d :: 0 <= d < |s| ==> s[d] >= 0.0 && (d >= 3 ==> s[d] == 0.0)
    ensures Total(Chebyshev, s) == Larger(Larger(s[0], s[1]), if |s| > 2 then s[2] else 0.0)
  {
    if |s| == 2 {
      assert s[..1][..0] == [];
      assert Total(Chebyshev, s[..1]) == s[0];
    } else {
      ChebyshevOfThree(s[..|s| - 1]);
    }
  }

  lemma DistOfThree(k: nat, x: real, y: real, z: real)
    requires k >= 2
    ensures Dist(Chebyshev, At(k, x, y, z), At(k, 6.0, 0.0, 0.0))
         == Larger(Larger(Abs(x - 6.0), Abs(y)), if k > 2 then Abs(z) else 0.0)
  {
    ChebyshevOfThree(Contributions(Chebyshev, At(k, x, y, z), At(k, 6.0, 0.0, 0.0)));
  }

  // ---------------------------------------------------------------- the tree

  /** The point nearest to the query, and the one that hides it. */
  function Nearest(k: nat): Entry
    requires k >= 2
  {
    Entry(At(k, 1.5, 0.0, 4.0), 3)
  }

  function Hiding(k: nat): Entry
    requires k >= 2
  {
    Entry(At(k, 4.0, 9.0, 0.0), 4)
  }

  function Leaves(k: nat): seq<Leaf>
    requires k >= 2
  {
    [[], [Entry(At(k, 6.0, -50.0, 0.0), 1)], [if k == 2 then Nearest(k) else Hiding(k)],
     [Entry(At(k, 6.0, 30.0, 0.0), 2)], [if k == 2 then Hiding(k) else Nearest(k)]]
  }

  /** The stem whose far leaf holds the nearest point: on axis 0 again if there are only two
      axes, else on axis 2. */
  function CorePivot(k: nat): real {
    if k == 2 then 2.0 else 4.0
  }

  function Core(k: nat): Node {
    Stem(Fin(CorePivot(k)), Tip(2), Tip(4))
  }

  function Culprit(k: nat): Node {
    Stem(Fin(5.0),
         Stem(Fin(-3.0), Tip(0), Core(k)),
         Stem(Fin(10.0), Tip(1), Tip(3)))
  }

  /** The mutable tree of this shape. */
  function CulpritTree(k: nat): Tree
    requires k >= 2
  {
    Tree(k, [Inf, Fin(5.0), Fin(-3.0), Fin(10.0), Inf, Fin(CorePivot(k))],
         map[4 := 0, 6 := 1, 7 := 3, 10 := 2, 11 := 4], Leaves(k), 2)
  }

  lemma DimsOfLevels(k: nat)
    requires k >= 2
    ensures DimAt(0, k) == 0 && DimAt(1, k) == 1 && DimAt(2, k) == if k == 2 then 0 else 2
  {
    assert DimAt(1, k) == 1;
  }

  lemma CulpritShape(k: nat)
    requires k >= 2
    ensures CulpritTree(k).Shape() == Culprit(k) && CompleteAt(CulpritTree(k), ROOT)
  {
    var t := CulpritTree(k);
    var core := Cursor(5, 2, DimAt(2, k));
    assert ShapeAt(t, core) == Core(k) && CompleteAt(t, core);
    var left, right := Cursor(2, 1, DimAt(1, k)), Cursor(3, 1, DimAt(1, k));
    assert ShapeAt(t, left) == Stem(Fin(-3.0), Tip(0), Core(k)) && CompleteAt(t, left);
    assert ShapeAt(t, right) == Stem(Fin(10.0), Tip(1), Tip(3)) && CompleteAt(t, right);
  }

  lemma CoreSplits(k: nat, cell: Cell)
    requires |cell| == k >= 2
    requires cell[0] == Interval(None, Some(5.0)) && cell[1] == Interval(Some(-3.0), None)
    requires forall d :: 2 <= d < k ==> cell[d] == Interval(None, None)
    ensures Splits(Core(k), Leaves(k), 2, cell)
  {
    DimsOfLevels(k);
    var dim, p := DimAt(2, k), CorePivot(k);
    InsideCore(Narrow(cell, dim, p, k == 2), Hiding(k).point, 4);
    InsideCore(Narrow(cell, dim, p, k > 2), Nearest(k).point, 3);
  }

  lemma InsideCore(cell: Cell, p: seq<real>, item: nat)
    requires |p| == |cell| && forall d :: 0 <= d < |cell| ==> cell[d].Contains(p[d])
    ensures forall e :: e in [Entry(p, item)] ==> InCell(e, cell)
  {
  }

  lemma CulpritSplits(k: nat)
    requires k >= 2
    ensures Splits(Culprit(k), Leaves(k), 0, Everywhere(k))
  {
    var cell := Everywhere(k);
    DimsOfLevels(k);
    var left, right := Narrow(cell, 0, 5.0, false), Narrow(cell, 0, 5.0, true);
    CoreSplits(k, Narrow(left, 1, -3.0, true));
    assert forall d :: 0 <= d < k ==> Narrow(right, 1, 10.0, false)[d].Contains(At(k, 6.0, -50.0, 0.0)[d]);
    assert forall d :: 0 <= d < k ==> Narrow(right, 1, 10.0, true)[d].Contains(At(k, 6.0, 30.0, 0.0)[d]);
  }

  /** It is a tree the mutable tree object can hold, whatever its bucket size. */
  lemma CulpritIsATree(k: nat, b: nat)
    requires k >= 2 && b > 0
    ensures CulpritTree(k).Valid() && WellFormed(CulpritTree(k), b)
  {
    CulpritShape(k);
    CulpritSplits(k);
  }

  // ---------------------------------------------------------------- the lost answer

  lemma SingleEntryLeaf(k: nat, i: nat, x: real, y: real, z: real, item: nat, c: Context)
    requires k >= 2 && i < 5 && Leaves(k)[i] == [Entry(At(k, x, y, z), item)] && c.NearestOne?
    ensures Fits(Leaves(k)[i], k)
    ensures var d := Larger(Larger(Abs(x - 6.0), Abs(y)), if k > 2 then Abs(z) else 0.0);
            ProcessLeaf(Chebyshev, At(k, 6.0, 0.0, 0.0), Leaves(k)[i], c)
            == if Fin(d).Lt(c.best) then NearestOne(Fin(d), item) else c
  {
    DistOfThree(k, x, y, z);
    var hits := Hits(Chebyshev, At(k, 6.0, 0.0, 0.0), Leaves(k)[i]);
    assert hits[..0] == [] && OfferAll(c, c.MaxDist(), hits[..0]) == c;
    assert hits[0].item == item;
  }

  /** With offset 10 left over on axis 1, the far leaf of the core looks 10 away and is pruned
      by the 9 its sibling gives; its point is 4.5 away. */
  lemma CoreIsLost(k: nat, rd: real)
    requires k >= 2
    ensures Usable(Core(k), Leaves(k), k)
    ensures VisitStale(Chebyshev, At(k, 6.0, 0.0, 0.0), Core(k), Leaves(k), 2, At(k, 1.0, 10.0, 0.0), rd,
                       NearestOne(Fin(30.0), 2)).0
         == NearestOne(Fin(9.0), 4)
  {
    var q, off, c := At(k, 6.0, 0.0, 0.0), At(k, 1.0, 10.0, 0.0), NearestOne(Fin(30.0), 2);
    DimsOfLevels(k);
    CoreUsable(k);
    var near := if k == 2 then 4 else 2;
    SingleEntryLeaf(k, near, 4.0, 9.0, 0.0, 4, c);
    CoreBound(k, rd);
    VisitStaleStem(Chebyshev, q, Core(k), Leaves(k), 2, off, rd, c, DimAt(2, k), Tip(near), Tip(6 - near), 4.0, 10.0);
  }

  lemma CoreUsable(k: nat)
    requires k >= 2
    ensures Usable(Core(k), Leaves(k), k)
  {
    assert Entries(Core(k), Leaves(k)) == Leaves(k)[2] + Leaves(k)[4];
  }

  lemma CoreBound(k: nat, rd: real)
    requires k >= 2
    ensures RectDistAfterUpdate(Chebyshev, rd, At(k, 1.0, 10.0, 0.0), DimAt(2, k), 4.0) == 10.0
  {
    DimsOfLevels(k);
    ChebyshevOfThree(At(k, 1.0, 10.0, 0.0)[DimAt(2, k) := 4.0]);
  }

  lemma CulpritUsable(k: nat)
    requires k >= 2
    ensures Usable(Culprit(k), Leaves(k), k)
    ensures Usable(Culprit(k).left, Leaves(k), k) && Usable(Culprit(k).right, Leaves(k), k)
  {
    CulpritSplits(k);
    SplitsContains(Culprit(k), Leaves(k), 0, Everywhere(k));
    HitsOfStem(Chebyshev, At(k, 6.0, 0.0, 0.0), Culprit(k), Leaves(k));
  }

  /** The left branch goes through the core; the empty leaf beside it changes nothing. */
  lemma LeftBranch(k: nat, rd: real)
    requires k >= 2
    ensures Usable(Culprit(k).left, Leaves(k), k)
    ensures VisitStale(Chebyshev, At(k, 6.0, 0.0, 0.0), Culprit(k).left, Leaves(k), 1, At(k, 1.0, 10.0, 0.0), rd,
                       NearestOne(Fin(30.0), 2)).0
         == NearestOne(Fin(9.0), 4)
  {
    CulpritUsable(k);
    DimsOfLevels(k);
    CoreIsLost(k, rd);
    var q, off := At(k, 6.0, 0.0, 0.0), At(k, 1.0, 10.0, 0.0);
    VisitStaleStem(Chebyshev, q, Culprit(k).left, Leaves(k), 1, off, rd, NearestOne(Fin(30.0), 2), 1, Core(k), Tip(0), 3.0,
                   RectDistAfterUpdate(Chebyshev, rd, off, 1, 3.0));
  }

  /** The right branch leaves the offset of axis 1 at 10. */
  lemma RightBranch(k: nat)
    requires k >= 2
    ensures Usable(Culprit(k).right, Leaves(k), k)
    ensures VisitStale(Chebyshev, At(k, 6.0, 0.0, 0.0), Culprit(k).right, Leaves(k), 1, Zeros(k), 0.0, NearestOne(Inf, 0))
         == (NearestOne(Fin(30.0), 2), At(k, 0.0, 10.0, 0.0))
  {
    CulpritUsable(k);
    DimsOfLevels(k);
    var c1 := NearestOne(Fin(50.0), 1);
    SingleEntryLeaf(k, 1, 6.0, -50.0, 0.0, 1, NearestOne(Inf, 0));
    SingleEntryLeaf(k, 3, 6.0, 30.0, 0.0, 2, c1);
    assert Zeros(k)[1 := 10.0] == At(k, 0.0, 10.0, 0.0);
    ChebyshevOfThree(At(k, 0.0, 10.0, 0.0));
    VisitStaleStem(Chebyshev, At(k, 6.0, 0.0, 0.0), Culprit(k).right, Leaves(k), 1, Zeros(k), 0.0, NearestOne(Inf, 0),
                   1, Tip(1), Tip(3), 10.0, 10.0);
  }

  lemma RootVisit(k: nat)
    requires k >= 2
    ensures Usable(Culprit(k), Leaves(k), k)
    ensures VisitStale(Chebyshev, At(k, 6.0, 0.0, 0.0), Culprit(k), Leaves(k), 0, Zeros(k), 0.0, NearestOne(Inf, 0)).0
         == NearestOne(Fin(9.0), 4)
  {
    CulpritUsable(k);
    RightBranch(k);
    LeftBranch(k, 1.0);
    assert At(k, 0.0, 10.0, 0.0)[0 := 1.0] == At(k, 1.0, 10.0, 0.0);
    RootBound(k);
    VisitStaleStem(Chebyshev, At(k, 6.0, 0.0, 0.0), Culprit(k), Leaves(k), 0, Zeros(k), 0.0, NearestOne(Inf, 0), 0,
                   Culprit(k).right, Culprit(k).left, 1.0, 1.0);
  }

  lemma RootBound(k: nat)
    requires k >= 2
    ensures DimAt(0, k) == 0 && RectDistAfterUpdate(Chebyshev, 0.0, Zeros(k), 0, 1.0) == 1.0
  {
    ChebyshevOfThree(Zeros(k)[0 := 1.0]);
  }

  /** The query returns the point at distance 9 although one at distance 4.5 is stored. */
  lemma CulpritIsLost(k: nat)
    requires k >= 2
    ensures Usable(Culprit(k), Leaves(k), k)
    ensures Returned(Chebyshev, At(k, 6.0, 0.0, 0.0), Culprit(k), Leaves(k), NearestOne(Inf, 0)) == NearestOne(Fin(9.0), 4)
    ensures Hit(4.5, 3) in HitsBelow(Chebyshev, At(k, 6.0, 0.0, 0.0), Culprit(k), Leaves(k))
  {
    RootVisit(k);
    NearestIsStored(k);
  }

  lemma HitOfStored(m: Metric, q: seq<real>, es: seq<Entry>, e: Entry)
    requires Fits(es, |q|) && e in es
    ensures HitOf(m, q, e) in multiset(Hits(m, q, es))
  {
    var i :| 0 <= i < |es| && es[i] == e;
    assert Hits(m, q, es)[i] == HitOf(m, q, e);
  }

  lemma NearestIsStored(k: nat)
    requires k >= 2 && Usable(Culprit(k), Leaves(k), k)
    ensures Hit(4.5, 3) in HitsBelow(Chebyshev, At(k, 6.0, 0.0, 0.0), Culprit(k), Leaves(k))
  {
    var e, n := Nearest(k), Culprit(k);
    assert e in Entries(Core(k), Leaves(k));
    assert e in Entries(n.left, Leaves(k));
    assert e in Entries(n, Leaves(k));
    DistOfThree(k, 1.5, 0.0, 4.0);
    HitOfStored(Chebyshev, At(k, 6.0, 0.0, 0.0), Entries(n, Leaves(k)), e);
  }

  /** The query asked of this tree gets a right answer to just that query. */
  ghost predicate RightAnswer(t: Tree, m: Metric, q: seq<real>, c0: Context)
    requires |q| == t.k && c0.WellFormed()
  {
    && Usable(t.Shape(), t.leaves, t.k)
    && var c := Returned(m, q, t.Shape(), t.leaves, c0);
       SameQuery(c0, c) && Answers(c, HitsBelow(m, q, t.Shape(), t.leaves))
  }

  /** The traversal with shared offsets is exact on every mutable tree over `k` axes with
      buckets of `b`. */
  ghost predicate ExactOn(m: Metric, k: nat, b: nat) {
    forall t: Tree, q: seq<real>, c0: Context ::
      t.Valid() && WellFormed(t, b) && |q| == t.k == k && Fresh(c0) && c0.WellFormed() ==> RightAnswer(t, m, q, c0)
  }

  lemma AdditiveIsExact(t: Tree, m: Metric, q: seq<real>, c0: Context)
    requires t.Valid() && |q| == t.k && Fresh(c0) && c0.WellFormed() && (m.Minkowski? ==> m.power > 0)
    requires Additive(m) || t.k == 1
    ensures RightAnswer(t, m, q, c0)
  {
    SplitsContains(t.Shape(), t.leaves, 0, Everywhere(t.k));
    if c0.ShouldPrune(0.0) {
      NothingWithin(m, q, t.Shape(), t.leaves, c0);
    } else {
      VisitStaleIsExact(m, q, t.Shape(), t.leaves, c0);
    }
  }

  /** When queries of mutable trees are exact: for every additive metric, and for Chebyshev
      only on a single axis. */
  lemma ExactExactlyWhen(m: Metric, k: nat, b: nat)
    requires k > 0 && b > 0 && (m.Minkowski? ==> m.power > 0)
    ensures ExactOn(m, k, b) <==> (Additive(m) || k == 1)
  {
    if Additive(m) || k == 1 {
      forall t: Tree, q: seq<real>, c0: Context
        | t.Valid() && WellFormed(t, b) && |q| == t.k == k && Fresh(c0) && c0.WellFormed()
        ensures RightAnswer(t, m, q, c0)
      {
        AdditiveIsExact(t, m, q, c0);
      }
    } else {
      var t, q, c0 := CulpritTree(k), At(k, 6.0, 0.0, 0.0), NearestOne(Inf, 0);
      CulpritIsATree(k, b);
      CulpritShape(k);
      CulpritIsLost(k);
      assert !RightAnswer(t, m, q, c0);
    }
  }
}

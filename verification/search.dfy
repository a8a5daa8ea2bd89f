/** The two backtracking traversals of src/kd_tree/orchestrator, as recursions over the tree
    shape, and what they answer.

    `Visit` restores the offsets when it backtracks, `VisitStale` does not: the mapped-leaf
    traversal shares one offset array between all its stack entries and a pop overwrites a
    single axis of it. */
module Search {
  import opened Metrics
  import opened KdTree
  import opened QueryContext

  ghost predicate Usable(n: Node, leaves: seq<Leaf>, k: nat) {
    k > 0 && Fits(Entries(n, leaves), k)
  }

  /** The number of nodes, which bounds the work left to a traversal. */
  ghost function Weight(n: Node): (w: nat)
    ensures w > 0
  {
    match n
    case Tip(_) => 1
    case Stem(_, l, r) => 1 + Weight(l) + Weight(r)
  }

  /** The child on the query's side of the pivot; a query on the pivot goes right. */
  function Near(n: Node, x: real): Node
    requires n.Stem? && n.pivot.Fin?
  {
    if x >= n.pivot.v then n.right else n.left
  }

  function Far(n: Node, x: real): Node
    requires n.Stem? && n.pivot.Fin?
  {
    if x >= n.pivot.v then n.left else n.right
  }

  /** Traversal with restored offsets: the near child first; the far child only if its
      rectangle distance was within the bound on the way down (tested when `check`) and is
      not pruned by the bound that holds afterwards. */
  function Visit(m: Metric, q: seq<real>, n: Node, leaves: seq<Leaf>, level: nat,
                 off: seq<real>, rd: real, check: bool, c: Context): (r: Context)
    requires |off| == |q| && Usable(n, leaves, |q|) && c.WellFormed()
    ensures r.WellFormed() && SameQuery(c, r)
    decreases n
  {
    match n
    case Tip(i) => ProcessLeaf(m, q, Entries(n, leaves), c)
    case Stem(Inf, l, _) =>
      assert forall e :: e in Entries(l, leaves) ==> e in Entries(n, leaves);
      Visit(m, q, l, leaves, level + 1, off, rd, check, c)
    case Stem(Fin(p), l, r) =>
      assert forall e :: e in Entries(l, leaves) || e in Entries(r, leaves) ==> e in Entries(n, leaves);
      var dim := DimAt(level, |q|);
      var near, far := Near(n, q[dim]), Far(n, q[dim]);
      var newOff := Abs(q[dim] - p);
      var rdFar := RectDistAfterUpdate(m, rd, off, dim, newOff);
      var candidate := check ==> Fin(rdFar).Le(c.MaxDist());
      var c1 := Visit(m, q, near, leaves, level + 1, off, rd, check, c);
      if candidate && !c1.ShouldPrune(rdFar)
      then Visit(m, q, far, leaves, level + 1, off[dim := newOff], rdFar, true, c1)
      else c1
  }

  /** Traversal with shared offsets: whatever the near subtree left in `off` is what the far
      subtree starts from, except on the split axis. */
  function VisitStale(m: Metric, q: seq<real>, n: Node, leaves: seq<Leaf>, level: nat,
                      off: seq<real>, rd: real, c: Context): (r: (Context, seq<real>))
    requires |off| == |q| && Usable(n, leaves, |q|) && c.WellFormed()
    ensures r.0.WellFormed() && SameQuery(c, r.0) && |r.1| == |q|
    decreases n
  {
    match n
    case Tip(i) => (ProcessLeaf(m, q, Entries(n, leaves), c), off)
    case Stem(Inf, l, _) =>
      assert forall e :: e in Entries(l, leaves) ==> e in Entries(n, leaves);
      VisitStale(m, q, l, leaves, level + 1, off, rd, c)
    case Stem(Fin(p), l, r) =>
      assert forall e :: e in Entries(l, leaves) || e in Entries(r, leaves) ==> e in Entries(n, leaves);
      var dim := DimAt(level, |q|);
      var near, far := Near(n, q[dim]), Far(n, q[dim]);
      var newOff := Abs(q[dim] - p);
      var rdFar := RectDistAfterUpdate(m, rd, off, dim, newOff);
      var (c1, off1) := VisitStale(m, q, near, leaves, level + 1, off, rd, c);
      if Fin(rdFar).Le(c.MaxDist()) && !c1.ShouldPrune(rdFar)
      then VisitStale(m, q, far, leaves, level + 1, off1[dim := newOff], rdFar, c1)
      else (c1, off1)
  }

  /** The quantities one stem computes. */
  ghost predicate Crossing(m: Metric, q: seq<real>, n: Node, level: nat, off: seq<real>, rd: real,
                           dim: nat, near: Node, far: Node, newOff: real, rdFar: real)
    requires |q| == |off| > 0
  {
    && n.Stem? && n.pivot.Fin? && dim == DimAt(level, |q|)
    && near == Near(n, q[dim]) && far == Far(n, q[dim])
    && newOff == Abs(q[dim] - n.pivot.v)
    && rdFar == RectDistAfterUpdate(m, rd, off, dim, newOff)
  }

  lemma VisitStem(m: Metric, q: seq<real>, n: Node, leaves: seq<Leaf>, level: nat,
                  off: seq<real>, rd: real, check: bool, c: Context,
                  dim: nat, near: Node, far: Node, newOff: real, rdFar: real)
    requires |off| == |q| && Usable(n, leaves, |q|) && c.WellFormed()
    requires Crossing(m, q, n, level, off, rd, dim, near, far, newOff, rdFar)
    ensures Usable(near, leaves, |q|) && Usable(far, leaves, |q|)
    ensures var c1 := Visit(m, q, near, leaves, level + 1, off, rd, check, c);
            Visit(m, q, n, leaves, level, off, rd, check, c)
            == if (check ==> Fin(rdFar).Le(c.MaxDist())) && !c1.ShouldPrune(rdFar)
               then Visit(m, q, far, leaves, level + 1, off[dim := newOff], rdFar, true, c1)
               else c1
  {
    HitsOfStem(m, q, n, leaves);
  }

  lemma VisitStaleStem(m: Metric, q: seq<real>, n: Node, leaves: seq<Leaf>, level: nat,
                       off: seq<real>, rd: real, c: Context,
                       dim: nat, near: Node, far: Node, newOff: real, rdFar: real)
    requires |off| == |q| && Usable(n, leaves, |q|) && c.WellFormed()
    requires Crossing(m, q, n, level, off, rd, dim, near, far, newOff, rdFar)
    ensures Usable(near, leaves, |q|) && Usable(far, leaves, |q|)
    ensures var s1 := VisitStale(m, q, near, leaves, level + 1, off, rd, c);
            VisitStale(m, q, n, leaves, level, off, rd, c)
            == if Fin(rdFar).Le(c.MaxDist()) && !s1.0.ShouldPrune(rdFar)
               then VisitStale(m, q, far, leaves, level + 1, s1.1[dim := newOff], rdFar, s1.0)
               else s1
  {
    HitsOfStem(m, q, n, leaves);
  }

  // ---------------------------------------------------------------- what a traversal keeps

  /** A relation between a context and the hits it has accounted for. */
  type Relation = (Context, multiset<Hit>) -> bool

  ghost predicate KeptByLeaves(m: Metric, q: seq<real>, ok: Relation) {
    forall leaf: Leaf, c: Context, seen {:trigger ProcessLeaf(m, q, leaf, c), ok(c, seen)} ::
      Fits(leaf, |q|) && c.WellFormed() && ok(c, seen)
      ==> ok(ProcessLeaf(m, q, leaf, c), seen + multiset(Hits(m, q, leaf)))
          && ProcessLeaf(m, q, leaf, c).MaxDist().Le(c.MaxDist())
  }

  ghost predicate KeptBySkips(ok: Relation) {
    forall c: Context, seen, hits: seq<Hit> {:trigger ok(c, seen + multiset(hits))} ::
      c.WellFormed() && ok(c, seen) && (forall h :: h in hits ==> c.ShouldPrune(h.dist))
      ==> ok(c, seen + multiset(hits))
  }

  lemma HitsOfBoth(m: Metric, q: seq<real>, a: seq<Entry>, b: seq<Entry>)
    requires Fits(a, |q|) && Fits(b, |q|)
    ensures Fits(a + b, |q|)
    ensures multiset(Hits(m, q, a + b)) == multiset(Hits(m, q, a)) + multiset(Hits(m, q, b))
  {
    assert Fits(a + b, |q|);
    assert Hits(m, q, a + b) == Hits(m, q, a) + Hits(m, q, b);
  }

  /** Every hit of a subtree is at least its cell's rectangle distance away. */
  lemma CellIsLowerBound(m: Metric, q: seq<real>, n: Node, leaves: seq<Leaf>, level: nat, cell: Cell)
    requires |cell| == |q| > 0 && Splits(n, leaves, level, cell)
    ensures Usable(n, leaves, |q|)
    ensures forall h :: h in Hits(m, q, Entries(n, leaves)) ==> RectDist(m, Gaps(q, cell)) <= h.dist
  {
    SplitsContains(n, leaves, level, cell);
    var es := Entries(n, leaves);
    forall i | 0 <= i < |es| ensures RectDist(m, Gaps(q, cell)) <= Hits(m, q, es)[i].dist {
      assert es[i] in es;
      GapsAreLowerBounds(q, cell, es[i]);
      RectDistIsLowerBound(m, Gaps(q, cell), es[i].point, q);
    }
  }

  ghost function HitsBelow(m: Metric, q: seq<real>, n: Node, leaves: seq<Leaf>): multiset<Hit>
    requires Usable(n, leaves, |q|)
  {
    multiset(Hits(m, q, Entries(n, leaves)))
  }

  lemma HitsOfStem(m: Metric, q: seq<real>, n: Node, leaves: seq<Leaf>)
    requires n.Stem? && Usable(n, leaves, |q|)
    ensures Usable(n.left, leaves, |q|) && Usable(n.right, leaves, |q|)
    ensures HitsBelow(m, q, n, leaves) == HitsBelow(m, q, n.left, leaves) + HitsBelow(m, q, n.right, leaves)
  {
    assert forall e :: e in Entries(n.left, leaves) || e in Entries(n.right, leaves) ==> e in Entries(n, leaves);
    HitsOfBoth(m, q, Entries(n.left, leaves), Entries(n.right, leaves));
  }

  /** `after` accounts for the hits below `n` too, and its bound is no looser. */
  ghost predicate Extends(m: Metric, q: seq<real>, n: Node, leaves: seq<Leaf>, ok: Relation,
                          seen: multiset<Hit>, before: Context, after: Context)
    requires Usable(n, leaves, |q|) && before.WellFormed() && after.WellFormed()
  {
    ok(after, seen + HitsBelow(m, q, n, leaves)) && after.MaxDist().Le(before.MaxDist())
  }

  lemma TipVisited(m: Metric, q: seq<real>, n: Node, leaves: seq<Leaf>, ok: Relation,
                   seen: multiset<Hit>, c: Context)
    requires n.Tip? && Usable(n, leaves, |q|) && c.WellFormed()
    requires KeptByLeaves(m, q, ok) && ok(c, seen)
    ensures Extends(m, q, n, leaves, ok, seen, c, ProcessLeaf(m, q, Entries(n, leaves), c))
  {
  }

  /** A stem with the sentinel pivot: only its left child holds anything. */
  lemma StemLeftOnly(m: Metric, q: seq<real>, n: Node, leaves: seq<Leaf>, ok: Relation,
                     seen: multiset<Hit>, c: Context, c1: Context)
    requires n.Stem? && Entries(n.right, leaves) == [] && c.WellFormed() && c1.WellFormed()
    requires Usable(n.left, leaves, |q|) && Extends(m, q, n.left, leaves, ok, seen, c, c1)
    ensures Usable(n, leaves, |q|) && Extends(m, q, n, leaves, ok, seen, c, c1)
  {
    assert Entries(n, leaves) == Entries(n.left, leaves);
  }

  /** One stem whose far child is followed after its near child. */
  lemma StemFollowed(m: Metric, q: seq<real>, n: Node, x: real, leaves: seq<Leaf>, ok: Relation,
                     seen: multiset<Hit>, c: Context, c1: Context, c2: Context)
    requires n.Stem? && n.pivot.Fin? && c.WellFormed() && c1.WellFormed() && c2.WellFormed()
    requires Usable(n, leaves, |q|) && Usable(Near(n, x), leaves, |q|) && Usable(Far(n, x), leaves, |q|)
    requires Extends(m, q, Near(n, x), leaves, ok, seen, c, c1)
    requires Extends(m, q, Far(n, x), leaves, ok, seen + HitsBelow(m, q, Near(n, x), leaves), c1, c2)
    ensures Extends(m, q, n, leaves, ok, seen, c, c2)
  {
    HitsOfStem(m, q, n, leaves);
    assert seen + HitsBelow(m, q, n, leaves)
        == seen + HitsBelow(m, q, Near(n, x), leaves) + HitsBelow(m, q, Far(n, x), leaves);
  }

  /** A far child is not followed when it failed the check on the way down or the bound its
      sibling left: nothing is lost. */
  lemma FarSkipped(m: Metric, q: seq<real>, far: Node, leaves: seq<Leaf>, level: nat, cell: Cell,
                   rdFar: real, ok: Relation, seen: multiset<Hit>, c: Context, c1: Context)
    requires c.WellFormed() && c1.WellFormed() && |cell| == |q| > 0
    requires KeptBySkips(ok) && ok(c1, seen) && c1.MaxDist().Le(c.MaxDist())
    requires Splits(far, leaves, level, cell)
    requires rdFar <= RectDist(m, Gaps(q, cell))
    requires !Fin(rdFar).Le(c.MaxDist()) || c1.ShouldPrune(rdFar)
    ensures Usable(far, leaves, |q|) && Extends(m, q, far, leaves, ok, seen, c1, c1)
  {
    CellIsLowerBound(m, q, far, leaves, level, cell);
    assert ok(c1, seen + multiset(Hits(m, q, Entries(far, leaves))));
  }

  // ---------------------------------------------------------------- exactness, restored offsets

  /** The traversal with restored offsets accounts for everything below `n`, for every metric
      and every relation that leaf visits and safe skips keep. */
  lemma {:induction false} VisitAccounts(m: Metric, q: seq<real>, n: Node, leaves: seq<Leaf>, level: nat, cell: Cell,
      off: seq<real>, rd: real, check: bool, c: Context, ok: Relation, seen: multiset<Hit>)
    returns (r: Context)
    requires KeptByLeaves(m, q, ok) && KeptBySkips(ok)
    requires |cell| == |q| > 0 && Splits(n, leaves, level, cell)
    requires off == Gaps(q, cell) && rd == RectDist(m, off)
    requires c.WellFormed() && ok(c, seen)
    ensures Usable(n, leaves, |q|) && r == Visit(m, q, n, leaves, level, off, rd, check, c)
    ensures Extends(m, q, n, leaves, ok, seen, c, r)
    decreases n, 1
  {
    CellIsLowerBound(m, q, n, leaves, level, cell);
    match n
    case Tip(i) =>
      r := ProcessLeaf(m, q, Entries(n, leaves), c);
      TipVisited(m, q, n, leaves, ok, seen, c);
    case Stem(Inf, _, _) =>
      r := VisitAccounts(m, q, n.left, leaves, level + 1, cell, off, rd, check, c, ok, seen);
      StemLeftOnly(m, q, n, leaves, ok, seen, c, r);
    case Stem(Fin(p), _, _) =>
      r := VisitStemAccounts(m, q, n, leaves, level, cell, off, rd, check, c, ok, seen);
  }

  /** What a stem with a split means for its cell, seen from the query. */
  lemma CrossedCells(m: Metric, q: seq<real>, n: Node, leaves: seq<Leaf>, level: nat, cell: Cell)
    returns (dim: nat, p: real, near: Node, far: Node, nearCell: Cell, farCell: Cell, newOff: real)
    requires |cell| == |q| > 0 && Splits(n, leaves, level, cell) && n.Stem? && n.pivot.Fin?
    ensures Usable(n, leaves, |q|) && Usable(near, leaves, |q|) && Usable(far, leaves, |q|)
    ensures p == n.pivot.v && dim == DimAt(level, |q|) && cell[dim].Contains(p) && newOff == Abs(q[dim] - p)
    ensures near == Near(n, q[dim]) && far == Far(n, q[dim]) && |nearCell| == |farCell| == |q|
    ensures farCell == Narrow(cell, dim, p, !(q[dim] >= p))
    ensures Splits(near, leaves, level + 1, nearCell) && Splits(far, leaves, level + 1, farCell)
    ensures Gaps(q, nearCell) == Gaps(q, cell) && Gaps(q, farCell) == Gaps(q, cell)[dim := newOff]
  {
    CellIsLowerBound(m, q, n, leaves, level, cell);
    HitsOfStem(m, q, n, leaves);
    dim, p := DimAt(level, |q|), n.pivot.v;
    near, far, newOff := Near(n, q[dim]), Far(n, q[dim]), Abs(q[dim] - p);
    nearCell, farCell := Narrow(cell, dim, p, q[dim] >= p), Narrow(cell, dim, p, !(q[dim] >= p));
    GapsOfChildren(q, cell, dim, p);
  }

  lemma {:induction false} VisitStemAccounts(m: Metric, q: seq<real>, n: Node, leaves: seq<Leaf>, level: nat, cell: Cell,
      off: seq<real>, rd: real, check: bool, c: Context, ok: Relation, seen: multiset<Hit>)
    returns (r: Context)
    requires KeptByLeaves(m, q, ok) && KeptBySkips(ok)
    requires |cell| == |q| > 0 && Splits(n, leaves, level, cell) && n.Stem? && n.pivot.Fin?
    requires off == Gaps(q, cell) && rd == RectDist(m, off)
    requires c.WellFormed() && ok(c, seen)
    ensures Usable(n, leaves, |q|) && r == Visit(m, q, n, leaves, level, off, rd, check, c)
    ensures Extends(m, q, n, leaves, ok, seen, c, r)
    decreases n, 0
  {
    var dim, p, near, far, nearCell, farCell, newOff := CrossedCells(m, q, n, leaves, level, cell);
    UpdateIsExact(m, rd, off, dim, newOff);
    var rdFar := RectDistAfterUpdate(m, rd, off, dim, newOff);
    var c1 := VisitAccounts(m, q, near, leaves, level + 1, nearCell, off, rd, check, c, ok, seen);
    r := VisitFarAccounts(m, q, far, leaves, level + 1, farCell, off[dim := newOff], rdFar,
                          check, c, c1, ok, seen + HitsBelow(m, q, near, leaves));
    VisitStem(m, q, n, leaves, level, off, rd, check, c, dim, near, far, newOff, rdFar);
    StemFollowed(m, q, n, q[dim], leaves, ok, seen, c, c1, r);
  }

  lemma {:induction false} VisitFarAccounts(m: Metric, q: seq<real>, far: Node, leaves: seq<Leaf>, level: nat, cell: Cell,
      off: seq<real>, rdFar: real, check: bool, c: Context, c1: Context, ok: Relation, seen: multiset<Hit>)
    returns (r: Context)
    requires KeptByLeaves(m, q, ok) && KeptBySkips(ok)
    requires |cell| == |q| > 0 && Splits(far, leaves, level, cell)
    requires off == Gaps(q, cell) && rdFar == RectDist(m, off)
    requires c.WellFormed() && c1.WellFormed() && ok(c1, seen) && c1.MaxDist().Le(c.MaxDist())
    ensures Usable(far, leaves, |q|)
    ensures r == if (check ==> Fin(rdFar).Le(c.MaxDist())) && !c1.ShouldPrune(rdFar)
                 then Visit(m, q, far, leaves, level, off, rdFar, true, c1) else c1
    ensures Extends(m, q, far, leaves, ok, seen, c1, r)
    decreases far, 2
  {
    if (check ==> Fin(rdFar).Le(c.MaxDist())) && !c1.ShouldPrune(rdFar) {
      r := VisitAccounts(m, q, far, leaves, level, cell, off, rdFar, true, c1, ok, seen);
    } else {
      r := c1;
      FarSkipped(m, q, far, leaves, level, cell, rdFar, ok, seen, c, c1);
    }
  }

  // ---------------------------------------------------------------- exactness, shared offsets

  /** Offsets that dominate the gaps of a cell dominate those of its far part once the split
      axis is overwritten, and offsets that dominate the far part dominate the whole. */
  lemma StaleOffsetsDominate(q: seq<real>, cell: Cell, dim: nat, p: real, off: seq<real>, after: seq<real>)
    requires |q| == |cell| && dim < |cell| && cell[dim].Contains(p)
    requires Below(Gaps(q, cell), off)
    ensures var farCell := Narrow(cell, dim, p, !(q[dim] >= p));
            && Below(Gaps(q, farCell), off[dim := Abs(q[dim] - p)])
            && (Below(Gaps(q, farCell), after) ==> Below(Gaps(q, cell), after))
  {
    GapsOfChildren(q, cell, dim, p);
  }

  /** With one axis nothing can be stale: the only offset is the one being replaced. */
  lemma StaleFarBound(m: Metric, rd: real, cell: seq<real>, off: seq<real>, dim: nat, newOff: real)
    requires Additive(m) || |off| == 1
    requires dim < |off| && newOff >= 0.0 && Below(cell, off) && rd <= RectDist(m, cell)
    ensures RectDistAfterUpdate(m, rd, off, dim, newOff) <= RectDist(m, cell[dim := newOff])
  {
    if Additive(m) {
      StaleUpdateIsLowerBound(m, rd, cell, off, dim, newOff);
    } else {
      UpdateIsExact(m, RectDist(m, cell), cell, dim, newOff);
      assert off[dim := newOff] == cell[dim := newOff];
    }
  }

  /** For additive metrics the shared offsets never fall below the true gaps, so every
      rectangle distance computed from them is still a lower bound and nothing is lost. */
  lemma {:induction false} VisitStaleAccounts(m: Metric, q: seq<real>, n: Node, leaves: seq<Leaf>, level: nat, cell: Cell,
      off: seq<real>, rd: real, c: Context, ok: Relation, seen: multiset<Hit>)
    returns (r: Context, after: seq<real>)
    requires Additive(m) || |q| == 1
    requires KeptByLeaves(m, q, ok) && KeptBySkips(ok)
    requires |cell| == |q| > 0 && Splits(n, leaves, level, cell)
    requires Below(Gaps(q, cell), off)
    requires rd <= RectDist(m, Gaps(q, cell))
    requires c.WellFormed() && ok(c, seen)
    ensures Usable(n, leaves, |q|) && (r, after) == VisitStale(m, q, n, leaves, level, off, rd, c)
    ensures Extends(m, q, n, leaves, ok, seen, c, r)
    ensures Below(Gaps(q, cell), after)
    decreases n, 1
  {
    CellIsLowerBound(m, q, n, leaves, level, cell);
    match n
    case Tip(i) =>
      r, after := ProcessLeaf(m, q, Entries(n, leaves), c), off;
      TipVisited(m, q, n, leaves, ok, seen, c);
    case Stem(Inf, _, _) =>
      r, after := VisitStaleAccounts(m, q, n.left, leaves, level + 1, cell, off, rd, c, ok, seen);
      StemLeftOnly(m, q, n, leaves, ok, seen, c, r);
    case Stem(Fin(p), _, _) =>
      r, after := VisitStaleStemAccounts(m, q, n, leaves, level, cell, off, rd, c, ok, seen);
  }

  lemma {:induction false} VisitStaleStemAccounts(m: Metric, q: seq<real>, n: Node, leaves: seq<Leaf>, level: nat, cell: Cell,
      off: seq<real>, rd: real, c: Context, ok: Relation, seen: multiset<Hit>)
    returns (r: Context, after: seq<real>)
    requires Additive(m) || |q| == 1
    requires KeptByLeaves(m, q, ok) && KeptBySkips(ok)
    requires |cell| == |q| > 0 && Splits(n, leaves, level, cell) && n.Stem? && n.pivot.Fin?
    requires Below(Gaps(q, cell), off)
    requires rd <= RectDist(m, Gaps(q, cell))
    requires c.WellFormed() && ok(c, seen)
    ensures Usable(n, leaves, |q|) && (r, after) == VisitStale(m, q, n, leaves, level, off, rd, c)
    ensures Extends(m, q, n, leaves, ok, seen, c, r)
    ensures Below(Gaps(q, cell), after)
    decreases n, 0
  {
    var dim, p, near, far, nearCell, farCell, newOff := CrossedCells(m, q, n, leaves, level, cell);
    StaleFarBound(m, rd, Gaps(q, cell), off, dim, newOff);
    var rdFar := RectDistAfterUpdate(m, rd, off, dim, newOff);
    var c1, off1 :=
      VisitStaleAccounts(m, q, near, leaves, level + 1, nearCell, off, rd, c, ok, seen);
    r, after := VisitStaleFarAccounts(m, q, far, leaves, level + 1, cell, dim, p, off1, rdFar, c, c1, ok,
                                      seen + HitsBelow(m, q, near, leaves));
    VisitStaleStem(m, q, n, leaves, level, off, rd, c, dim, near, far, newOff, rdFar);
    StemFollowed(m, q, n, q[dim], leaves, ok, seen, c, c1, r);
  }

  lemma {:induction false} VisitStaleFarAccounts(m: Metric, q: seq<real>, far: Node, leaves: seq<Leaf>, level: nat, cell: Cell,
      dim: nat, p: real, off1: seq<real>, rdFar: real, c: Context, c1: Context, ok: Relation, seen: multiset<Hit>)
    returns (r: Context, after: seq<real>)
    requires Additive(m) || |q| == 1
    requires KeptByLeaves(m, q, ok) && KeptBySkips(ok)
    requires |cell| == |q| > 0 && dim < |q| && cell[dim].Contains(p)
    requires Splits(far, leaves, level, Narrow(cell, dim, p, !(q[dim] >= p)))
    requires Below(Gaps(q, cell), off1)
    requires rdFar <= RectDist(m, Gaps(q, Narrow(cell, dim, p, !(q[dim] >= p))))
    requires c.WellFormed() && c1.WellFormed() && ok(c1, seen) && c1.MaxDist().Le(c.MaxDist())
    ensures Usable(far, leaves, |q|)
    ensures (r, after) == if Fin(rdFar).Le(c.MaxDist()) && !c1.ShouldPrune(rdFar)
                          then VisitStale(m, q, far, leaves, level, off1[dim := Abs(q[dim] - p)], rdFar, c1)
                          else (c1, off1)
    ensures Extends(m, q, far, leaves, ok, seen, c1, r)
    ensures Below(Gaps(q, cell), after)
    decreases far, 2
  {
    var farCell := Narrow(cell, dim, p, !(q[dim] >= p));
    if Fin(rdFar).Le(c.MaxDist()) && !c1.ShouldPrune(rdFar) {
      StaleOffsetsDominate(q, cell, dim, p, off1, off1);
      r, after := VisitStaleAccounts(m, q, far, leaves, level, farCell, off1[dim := Abs(q[dim] - p)], rdFar, c1, ok, seen);
      StaleOffsetsDominate(q, cell, dim, p, off1, after);
    } else {
      r, after := c1, off1;
      FarSkipped(m, q, far, leaves, level, farCell, rdFar, ok, seen, c, c1);
    }
  }

  // ---------------------------------------------------------------- the answers

  lemma AnswersAreKept(m: Metric, q: seq<real>)
    ensures KeptByLeaves(m, q, (c, seen) => Answers(c, seen))
    ensures KeptBySkips((c, seen) => Answers(c, seen))
  {
    forall leaf: Leaf, c: Context, seen | Fits(leaf, |q|) && c.WellFormed() && Answers(c, seen)
      ensures Answers(ProcessLeaf(m, q, leaf, c), seen + multiset(Hits(m, q, leaf)))
      ensures ProcessLeaf(m, q, leaf, c).MaxDist().Le(c.MaxDist())
    {
      ProcessLeafKeepsAnswer(m, q, leaf, c, seen);
    }
    forall c: Context, seen, hits: seq<Hit>
      | c.WellFormed() && Answers(c, seen) && (forall h :: h in hits ==> c.ShouldPrune(h.dist))
      ensures Answers(c, seen + multiset(hits))
    {
      SkippingAllIsSafe(c, seen, hits);
    }
  }

  /** Any query of any metric is answered exactly by the traversal with restored offsets. */
  lemma VisitIsExact(m: Metric, q: seq<real>, n: Node, leaves: seq<Leaf>, c: Context, check: bool)
    requires |q| > 0 && Splits(n, leaves, 0, Everywhere(|q|)) && Fresh(c)
    requires m.Minkowski? ==> m.power > 0
    ensures Usable(n, leaves, |q|) && c.WellFormed()
    ensures var r := Visit(m, q, n, leaves, 0, Zeros(|q|), 0.0, check, c);
            SameQuery(c, r) && Answers(r, HitsBelow(m, q, n, leaves))
  {
    var ok: Relation := (c, seen) => Answers(c, seen);
    AnswersAreKept(m, q);
    FreshAnswersNothing(c);
    RectDistZero(m, |q|);
    assert Gaps(q, Everywhere(|q|)) == Zeros(|q|);
    var r := VisitAccounts(m, q, n, leaves, 0, Everywhere(|q|), Zeros(|q|), 0.0, check, c, ok, multiset{});
    assert multiset{} + HitsBelow(m, q, n, leaves) == HitsBelow(m, q, n, leaves);
    assert ok(r, HitsBelow(m, q, n, leaves));
  }

  /** The traversal with shared offsets answers any query exactly when the metric is additive
      or there is a single axis. */
  lemma VisitStaleIsExact(m: Metric, q: seq<real>, n: Node, leaves: seq<Leaf>, c: Context)
    requires Additive(m) || |q| == 1
    requires |q| > 0 && Splits(n, leaves, 0, Everywhere(|q|)) && Fresh(c)
    requires m.Minkowski? ==> m.power > 0
    ensures Usable(n, leaves, |q|) && c.WellFormed()
    ensures var r := VisitStale(m, q, n, leaves, 0, Zeros(|q|), 0.0, c).0;
            SameQuery(c, r) && Answers(r, HitsBelow(m, q, n, leaves))
  {
    var ok: Relation := (c, seen) => Answers(c, seen);
    AnswersAreKept(m, q);
    FreshAnswersNothing(c);
    RectDistZero(m, |q|);
    assert Gaps(q, Everywhere(|q|)) == Zeros(|q|);
    var r, _ := VisitStaleAccounts(m, q, n, leaves, 0, Everywhere(|q|), Zeros(|q|), 0.0, c, ok, multiset{});
    assert multiset{} + HitsBelow(m, q, n, leaves) == HitsBelow(m, q, n, leaves);
    assert ok(r, HitsBelow(m, q, n, leaves));
  }
}

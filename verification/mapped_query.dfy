/** The stack traversal of mutable trees, whose leaves may sit at any level
    (src/kd_tree/orchestrator/mod.rs, `backtracking_query_with_scratch_impl`,
    `traverse_to_leaf`; src/traits/stem_strategy.rs, `backtracking_traverse_step`). */
module MappedQuery {
  import opened Metrics
  import opened KdTree
  import opened Options
  import opened QueryContext
  import opened Search
  import opened Eytzinger

  /** A tree whose terminal stem indices are listed in a map to leaf indices. */
  datatype Tree = Tree(k: nat, stems: seq<Ext>, leafIdxMap: map<nat, nat>, leaves: seq<Leaf>, maxStemLevel: int) {
    ghost function Shape(): Node {
      MappedShape(stems, leafIdxMap, maxStemLevel, 1, 0)
    }

    ghost function Contents(): seq<Entry> {
      Entries(Shape(), leaves)
    }

    ghost predicate Valid() {
      && k > 0 && maxStemLevel >= -1
      && Complete(stems, leafIdxMap, maxStemLevel, |leaves|, 1, 0)
      && Splits(Shape(), leaves, 0, Everywhere(k))
    }
  }

  ghost function MappedShape(stems: seq<Ext>, leafIdxMap: map<nat, nat>, maxStemLevel: int, idx: nat, level: nat): Node
    decreases maxStemLevel + 1 - level
  {
    if idx in leafIdxMap then Tip(leafIdxMap[idx])
    else if level > maxStemLevel then Tip(0)
    else Stem(if idx < |stems| then stems[idx] else Inf,
              MappedShape(stems, leafIdxMap, maxStemLevel, 2 * idx, level + 1),
              MappedShape(stems, leafIdxMap, maxStemLevel, 2 * idx + 1, level + 1))
  }

  /** Every walk down meets a stored pivot or a mapped leaf, and never runs off the map. */
  ghost predicate Complete(stems: seq<Ext>, leafIdxMap: map<nat, nat>, maxStemLevel: int, leafCount: nat, idx: nat, level: nat)
    decreases maxStemLevel + 1 - level
  {
    if idx in leafIdxMap then leafIdxMap[idx] < leafCount
    else
      && level <= maxStemLevel && idx < |stems|
      && Complete(stems, leafIdxMap, maxStemLevel, leafCount, 2 * idx, level + 1)
      && Complete(stems, leafIdxMap, maxStemLevel, leafCount, 2 * idx + 1, level + 1)
  }

  /** A deferred branch: where it starts, the axis and offset to set on arrival, its bound. */
  datatype Deferred = Deferred(state: Cursor, restoreDim: Option<nat>, oldOff: real, rd: real)

  ghost function ShapeAt(t: Tree, c: Cursor): Node {
    MappedShape(t.stems, t.leafIdxMap, t.maxStemLevel, c.stemIdx, c.level)
  }

  datatype Job = Job(t: Tree, m: Metric, q: seq<real>) {
    ghost predicate CanVisit(at: Cursor) {
      && t.k > 0 && |q| == t.k && at.Valid(t.k)
      && Complete(t.stems, t.leafIdxMap, t.maxStemLevel, |t.leaves|, at.stemIdx, at.level)
      && Usable(ShapeAt(t, at), t.leaves, t.k)
    }

    ghost function VisitAt(at: Cursor, off: seq<real>, rd: real, c: Context): (r: (Context, seq<real>))
      requires c.WellFormed()
      ensures r.0.WellFormed() && |r.1| == |off|
    {
      if CanVisit(at) && |off| == t.k then VisitStale(m, q, ShapeAt(t, at), t.leaves, at.level, off, rd, c) else (c, off)
    }

    ghost predicate DeferredOk(d: Deferred) {
      CanVisit(d.state) && (d.restoreDim.Some? ==> d.restoreDim.value < t.k)
    }

    ghost function RestoreAxis(d: Deferred): nat {
      if d.restoreDim.Some? then d.restoreDim.value else d.state.dim
    }

    ghost function ResumeOne(d: Deferred, c: Context, off: seq<real>): (r: (Context, seq<real>))
      requires c.WellFormed()
      ensures r.0.WellFormed() && |r.1| == |off|
    {
      if !c.ShouldPrune(d.rd) && RestoreAxis(d) < |off|
      then VisitAt(d.state, off[RestoreAxis(d) := d.oldOff], d.rd, c)
      else (c, off)
    }

    /** What popping the whole stack does, starting from the last entry. */
    ghost function Resume(stack: seq<Deferred>, c: Context, off: seq<real>): (r: (Context, seq<real>))
      requires c.WellFormed()
      ensures r.0.WellFormed()
      decreases |stack|
    {
      if stack == [] then (c, off)
      else
        var (c1, off1) := ResumeOne(stack[|stack| - 1], c, off);
        Resume(stack[..|stack| - 1], c1, off1)
    }

    ghost function Work(stack: seq<Deferred>): nat
      decreases |stack|
    {
      if stack == [] then 0
      else Work(stack[..|stack| - 1]) + Weight(ShapeAt(t, stack[|stack| - 1].state))
    }

    ghost predicate StackOk(stack: seq<Deferred>) {
      forall i :: 0 <= i < |stack| ==> DeferredOk(stack[i])
    }

    /** The state of a walk that has reached `at`: finishing it and then the stack gives
        `goal`. */
    ghost predicate Walking(at: Cursor, off: seq<real>, rd: real, c: Context, stack: seq<Deferred>, goal: Context)
      requires c.WellFormed()
    {
      && CanVisit(at) && StackOk(stack) && |off| == t.k
      && var s := VisitAt(at, off, rd, c);
         Resume(stack, s.0, s.1).0 == goal
    }

    ghost predicate StepsTo(at: Cursor, off: seq<real>, rd: real, c: Context, far: Option<Deferred>, next: Cursor)
      requires CanVisit(at) && |off| == t.k && at.stemIdx < |t.stems| && c.WellFormed()
    {
      match t.stems[at.stemIdx]
      case Inf => next == at.Child(t.k, false) && far == None
      case Fin(p) =>
        var right := q[at.dim] >= p;
        var newOff := Abs(q[at.dim] - p);
        var rdFar := RectDistAfterUpdate(m, rd, off, at.dim, newOff);
        && next == at.Child(t.k, right)
        && far == if Fin(rdFar).Le(c.MaxDist())
                  then Some(Deferred(at.Child(t.k, !right), Some(at.dim), newOff, rdFar)) else None
    }
  }

  lemma StepShapes(j: Job, at: Cursor, off: seq<real>, rd: real, c: Context, far: Option<Deferred>, next: Cursor)
    requires j.CanVisit(at) && |off| == j.t.k && at.stemIdx !in j.t.leafIdxMap
    requires c.WellFormed() && at.stemIdx < |j.t.stems| && j.StepsTo(at, off, rd, c, far, next)
    ensures j.CanVisit(next) && (far.Some? ==> j.DeferredOk(far.value))
    ensures Weight(ShapeAt(j.t, next)) + (if far.Some? then Weight(ShapeAt(j.t, far.value.state)) else 0)
          < Weight(ShapeAt(j.t, at))
  {
    HitsOfStem(j.m, j.q, ShapeAt(j.t, at), j.t.leaves);
  }

  /** One step down agrees with one stem of the recursive traversal. */
  lemma StepVisits(j: Job, at: Cursor, off: seq<real>, rd: real, c: Context, far: Option<Deferred>, next: Cursor)
    requires j.CanVisit(at) && |off| == j.t.k && at.stemIdx !in j.t.leafIdxMap
    requires c.WellFormed() && at.stemIdx < |j.t.stems| && j.StepsTo(at, off, rd, c, far, next)
    ensures var s := j.VisitAt(next, off, rd, c);
            j.VisitAt(at, off, rd, c) == if far.Some? then j.ResumeOne(far.value, s.0, s.1) else s
  {
    StepShapes(j, at, off, rd, c, far, next);
    match j.t.stems[at.stemIdx]
    case Inf => assert ShapeAt(j.t, at).pivot == Inf && ShapeAt(j.t, at).left == ShapeAt(j.t, next);
    case Fin(p) => StepVisitsFin(j, at, off, rd, c, p);
  }

  lemma StepVisitsFin(j: Job, at: Cursor, off: seq<real>, rd: real, c: Context, p: real)
    requires j.CanVisit(at) && |off| == j.t.k && at.stemIdx !in j.t.leafIdxMap
    requires c.WellFormed() && at.stemIdx < |j.t.stems| && j.t.stems[at.stemIdx] == Fin(p)
    ensures var right, newOff := j.q[at.dim] >= p, Abs(j.q[at.dim] - p);
            var rdFar := RectDistAfterUpdate(j.m, rd, off, at.dim, newOff);
            var s := j.VisitAt(at.Child(j.t.k, right), off, rd, c);
            j.VisitAt(at, off, rd, c)
            == if Fin(rdFar).Le(c.MaxDist()) && !s.0.ShouldPrune(rdFar)
               then j.VisitAt(at.Child(j.t.k, !right), s.1[at.dim := newOff], rdFar, s.0)
               else s
  {
    var n := ShapeAt(j.t, at);
    var right, newOff := j.q[at.dim] >= p, Abs(j.q[at.dim] - p);
    VisitStaleStem(j.m, j.q, n, j.t.leaves, at.level, off, rd, c, at.dim,
                   ShapeAt(j.t, at.Child(j.t.k, right)), ShapeAt(j.t, at.Child(j.t.k, !right)),
                   newOff, RectDistAfterUpdate(j.m, rd, off, at.dim, newOff));
  }

  lemma WalkStep(j: Job, at: Cursor, off: seq<real>, rd: real, c: Context, stack: seq<Deferred>, goal: Context,
                 far: Option<Deferred>, next: Cursor)
    requires c.WellFormed() && at.stemIdx !in j.t.leafIdxMap && at.stemIdx < |j.t.stems|
    requires j.Walking(at, off, rd, c, stack, goal)
    requires j.StepsTo(at, off, rd, c, far, next)
    ensures var after := if far.Some? then stack + [far.value] else stack;
            && j.Walking(next, off, rd, c, after, goal)
            && j.Work(after) + Weight(ShapeAt(j.t, next)) < j.Work(stack) + Weight(ShapeAt(j.t, at))
  {
    StepShapes(j, at, off, rd, c, far, next);
    StepVisits(j, at, off, rd, c, far, next);
    if far.Some? {
      assert (stack + [far.value])[..|stack|] == stack;
    }
  }

  /** Default traversal step: the child on the query's side, deferring the other one if its
      rectangle distance is within the bound. */
  method StepDown(j: Job, c: Context, at: Cursor, off: seq<real>, rd: real, bestDist: Ext)
    returns (next: Cursor, far: Option<Deferred>)
    requires j.CanVisit(at) && |off| == j.t.k && at.stemIdx < |j.t.stems| && c.WellFormed()
    requires bestDist == c.MaxDist()
    ensures j.StepsTo(at, off, rd, c, far, next)
  {
    next, far := at.Child(j.t.k, false), None;
    var pivot := j.t.stems[at.stemIdx];
    if pivot.Fin? {
      var right := j.q[at.dim] >= pivot.v;
      next := at.Child(j.t.k, right);
      var newOff := Abs(j.q[at.dim] - pivot.v);
      var rdFar := RectDistAfterUpdate(j.m, rd, off, at.dim, newOff);
      if Fin(rdFar).Le(bestDist) {
        far := Some(Deferred(at.Child(j.t.k, !right), Some(at.dim), newOff, rdFar));
      }
    }
  }

  method TraverseToLeaf(j: Job, c: Context, start: Cursor, off: seq<real>, rd: real, bestDist: Ext,
                        stack0: seq<Deferred>, ghost goal: Context)
    returns (leafIdx: nat, stack: seq<Deferred>)
    requires c.WellFormed() && bestDist == c.MaxDist()
    requires j.Walking(start, off, rd, c, stack0, goal)
    ensures leafIdx < |j.t.leaves| && Fits(j.t.leaves[leafIdx], |j.q|)
    ensures j.StackOk(stack)
    ensures j.Resume(stack, ProcessLeaf(j.m, j.q, j.t.leaves[leafIdx], c), off).0 == goal
    ensures j.Work(stack) < j.Work(stack0) + Weight(ShapeAt(j.t, start))
  {
    var at := start;
    stack := stack0;
    while at.stemIdx !in j.t.leafIdxMap
      invariant j.Walking(at, off, rd, c, stack, goal)
      invariant j.Work(stack) + Weight(ShapeAt(j.t, at)) <= j.Work(stack0) + Weight(ShapeAt(j.t, start))
      decreases Weight(ShapeAt(j.t, at))
    {
      var next, far := StepDown(j, c, at, off, rd, bestDist);
      WalkStep(j, at, off, rd, c, stack, goal, far, next);
      StepShapes(j, at, off, rd, c, far, next);
      if far.Some? {
        stack := stack + [far.value];
      }
      at := next;
    }
    leafIdx := j.t.leafIdxMap[at.stemIdx];
    assert ShapeAt(j.t, at) == Tip(leafIdx) && Entries(Tip(leafIdx), j.t.leaves) == j.t.leaves[leafIdx];
  }

  /** The traversal of a mutable tree computes exactly the recursive traversal with shared
      offsets. */
  method Query(t: Tree, m: Metric, q: seq<real>, c0: Context) returns (c: Context)
    requires t.Valid() && |q| == t.k && c0.WellFormed()
    ensures Usable(t.Shape(), t.leaves, t.k)
    ensures !c0.ShouldPrune(0.0) ==> c == VisitStale(m, q, t.Shape(), t.leaves, 0, Zeros(t.k), 0.0, c0).0
    ensures c0.ShouldPrune(0.0) ==> c == c0
  {
    var j := Job(t, m, q);
    SplitsContains(t.Shape(), t.leaves, 0, Everywhere(t.k));
    c := c0;
    var off := Zeros(t.k);
    var stack := [Deferred(ROOT, None, 0.0, 0.0)];
    ghost var goal := j.Resume(stack, c, off).0;
    assert off[0 := 0.0] == off;
    assert stack[..0] == [];
    while stack != []
      invariant c.WellFormed() && |off| == t.k && j.StackOk(stack)
      invariant j.Resume(stack, c, off).0 == goal
      decreases j.Work(stack)
    {
      var d := stack[|stack| - 1];
      stack := stack[..|stack| - 1];
      var restoreDim := if d.restoreDim.Some? then d.restoreDim.value else d.state.dim;
      if !c.ShouldPrune(d.rd) {
        off := off[restoreDim := d.oldOff];
        var leafIdx;
        leafIdx, stack := TraverseToLeaf(j, c, d.state, off, d.rd, c.MaxDist(), stack, goal);
        c := ProcessLeaf(m, q, t.leaves[leafIdx], c);
      }
    }
  }

  /** What a query of a mutable tree returns. */
  ghost function Returned(m: Metric, q: seq<real>, n: Node, leaves: seq<Leaf>, c0: Context): Context
    requires Usable(n, leaves, |q|) && c0.WellFormed()
  {
    if c0.ShouldPrune(0.0) then c0 else VisitStale(m, q, n, leaves, 0, Zeros(|q|), 0.0, c0).0
  }

  /** A bound that excludes distance zero excludes everything. */
  lemma NothingWithin(m: Metric, q: seq<real>, n: Node, leaves: seq<Leaf>, c: Context)
    requires |q| > 0 && Splits(n, leaves, 0, Everywhere(|q|)) && Fresh(c) && c.WellFormed()
    requires c.ShouldPrune(0.0)
    ensures Usable(n, leaves, |q|) && Answers(c, HitsBelow(m, q, n, leaves))
  {
    CellIsLowerBound(m, q, n, leaves, 0, Everywhere(|q|));
    RectDistMonotone(m, Gaps(q, Everywhere(|q|)), Gaps(q, Everywhere(|q|)));
    FreshAnswersNothing(c);
    SkippingAllIsSafe(c, multiset{}, Hits(m, q, Entries(n, leaves)));
    assert multiset{} + HitsBelow(m, q, n, leaves) == HitsBelow(m, q, n, leaves);
  }

  /** With an additive metric, or a single axis, a query of a mutable tree is exact for every
      kind of query and every query point. */
  method Answer(t: Tree, m: Metric, q: seq<real>, c0: Context) returns (c: Context)
    requires t.Valid() && |q| == t.k && Fresh(c0)
    requires Additive(m) || t.k == 1
    requires m.Minkowski? ==> m.power > 0
    ensures Fits(t.Contents(), t.k)
    ensures SameQuery(c0, c) && Answers(c, multiset(Hits(m, q, t.Contents())))
  {
    FreshAnswersNothing(c0);
    c := Query(t, m, q, c0);
    if c0.ShouldPrune(0.0) {
      NothingWithin(m, q, t.Shape(), t.leaves, c0);
    } else {
      VisitStaleIsExact(m, q, t.Shape(), t.leaves, c0);
    }
  }
}

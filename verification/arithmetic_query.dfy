/** The continuation-stack traversal of immutable trees
    (src/kd_tree/orchestrator/mod.rs, `arithmetic_query_with_scratch_impl`). */
module ArithmeticQuery {
  import opened Metrics
  import opened KdTree
  import opened Options
  import opened QueryContext
  import opened Search
  import opened Eytzinger

  /** A tree whose leaves are all at one depth. */
  datatype Tree = Tree(k: nat, stems: seq<Ext>, leaves: seq<Leaf>, size: nat, maxStemLevel: int) {
    ghost function Shape(): Node {
      ArithmeticShape(stems, maxStemLevel, 1, 0)
    }

    ghost function Contents(): seq<Entry> {
      Entries(Shape(), leaves)
    }

    ghost predicate Valid() {
      && k > 0 && maxStemLevel >= -1
      && size == |Contents()|
      && (size > 0 ==> |leaves| == Pow2(maxStemLevel + 1))
      && (size > 0 && maxStemLevel >= 0 ==> |stems| >= Pow2(maxStemLevel + 1))
      && (size > 0 ==> Splits(Shape(), leaves, 0, Everywhere(k)))
    }
  }

  datatype Restore = Restore(oldOff: real, hasFar: bool)
  datatype FarFrame = FarFrame(state: Cursor, farOff: real, rd: real)

  /** One level of the current root-to-leaf path: the offsets on arrival at its stem and the
      far child still to be considered. */
  datatype Frame = Frame(offAt: seq<real>, far: Option<FarFrame>)

  ghost function ShapeAt(t: Tree, c: Cursor): Node {
    ArithmeticShape(t.stems, t.maxStemLevel, c.stemIdx, c.level)
  }

  /** A query in progress: the tree, the metric and the query point. */
  datatype Job = Job(t: Tree, m: Metric, q: seq<real>) {
    ghost predicate Valid() {
      t.Valid() && t.size > 0 && |q| == t.k
    }

    ghost predicate CanVisit(at: Cursor, off: seq<real>) {
      t.k > 0 && |q| == |off| == t.k && at.Valid(t.k) && Usable(ShapeAt(t, at), t.leaves, t.k)
    }

    /** The recursive traversal from a position. */
    ghost function VisitAt(at: Cursor, off: seq<real>, rd: real, check: bool, c: Context): (r: Context)
      requires c.WellFormed()
      ensures r.WellFormed()
    {
      if CanVisit(at, off) then Visit(m, q, ShapeAt(t, at), t.leaves, at.level, off, rd, check, c) else c
    }

    ghost predicate FrameOk(level: nat, f: Frame) {
      && t.k > 0 && |q| == |f.offAt| == t.k
      && (f.far.Some? ==>
            && f.far.value.state.level == level + 1 && level <= t.maxStemLevel
            && CanVisit(f.far.value.state, f.offAt))
    }

    /** What a frame still has to do once its near child is done. */
    ghost function ResumeFrame(level: nat, f: Frame, c: Context): (r: Context)
      requires c.WellFormed()
      ensures r.WellFormed()
    {
      if f.far.Some? && !c.ShouldPrune(f.far.value.rd) && t.k > 0 && |f.offAt| == t.k
      then VisitAt(f.far.value.state, f.offAt[DimAt(level, t.k) := f.far.value.farOff], f.far.value.rd, true, c)
      else c
    }

    /** What remains to be done after the current leaf: unwind the frames from the last one,
        entering each far child that the bound does not prune by then. */
    ghost function Resume(frames: seq<Frame>, c: Context): (r: Context)
      requires c.WellFormed()
      ensures r.WellFormed()
      decreases |frames|
    {
      if frames == [] then c
      else
        var level := |frames| - 1;
        Resume(frames[..level], ResumeFrame(level, frames[level], c))
    }

    /** `restore` and `fars` are the two stacks that encode `frames`. Each frame's offsets
        differ from those of the next level only on the axis split between them; `off` are
        the offsets after the last frame. */
    ghost predicate Encodes(frames: seq<Frame>, restore: seq<Restore>, fars: seq<FarFrame>, off: seq<real>)
      decreases |frames|
    {
      t.k > 0 && |off| == t.k && |restore| == |frames| &&
      if frames == [] then fars == []
      else
        var level := |frames| - 1;
        var top := frames[level];
        var dim := DimAt(level, t.k);
        && FrameOk(level, top)
        && restore[level] == Restore(top.offAt[dim], top.far.Some?)
        && off[dim := top.offAt[dim]] == top.offAt
        && (top.far.Some? ==> fars != [] && fars[|fars| - 1] == top.far.value)
        && Encodes(frames[..level], restore[..level],
                   if top.far.Some? then fars[..|fars| - 1] else fars, top.offAt)
    }

    ghost function FrameWork(f: Frame): nat {
      1 + if f.far.Some? then Weight(ShapeAt(t, f.far.value.state)) else 0
    }

    ghost function Work(frames: seq<Frame>): nat
      decreases |frames|
    {
      if frames == [] then 0
      else Work(frames[..|frames| - 1]) + FrameWork(frames[|frames| - 1])
    }

    /** The state of a descent that has walked to `at`. */
    ghost predicate Descending(at: Cursor, off: seq<real>, rd: real, check: bool, c: Context,
                               frames: seq<Frame>, restore: seq<Restore>, fars: seq<FarFrame>, goal: Context)
      requires c.WellFormed()
    {
      && at.level == |frames| <= t.maxStemLevel + 1
      && CanVisit(at, off)
      && Encodes(frames, restore, fars, off)
      && Resume(frames, VisitAt(at, off, rd, check, c)) == goal
    }

    /** The state between leaf visits: unwinding `frames` from `c` gives `goal`. */
    ghost predicate Unwinding(frames: seq<Frame>, restore: seq<Restore>, fars: seq<FarFrame>,
                              off: seq<real>, c: Context, goal: Context)
      requires c.WellFormed()
    {
      Encodes(frames, restore, fars, off) && Resume(frames, c) == goal
    }

    /** The far child and the next position that one stem of the descent produces. */
    ghost predicate StepsTo(at: Cursor, off: seq<real>, rd: real, check: bool, c: Context,
                            far: Option<FarFrame>, next: Cursor)
      requires CanVisit(at, off) && at.stemIdx < |t.stems| && c.WellFormed()
    {
      match t.stems[at.stemIdx]
      case Inf => next == at.Child(t.k, false) && far == None
      case Fin(p) =>
        var right := q[at.dim] >= p;
        var newOff := Abs(q[at.dim] - p);
        var rdFar := RectDistAfterUpdate(m, rd, off, at.dim, newOff);
        && next == at.Child(t.k, right)
        && far == if check ==> Fin(rdFar).Le(c.MaxDist())
                  then Some(FarFrame(at.Child(t.k, !right), newOff, rdFar)) else None
    }
  }

  // ---------------------------------------------------------------- the descent

  lemma StepShapes(j: Job, at: Cursor, off: seq<real>, rd: real, check: bool, c: Context,
                   far: Option<FarFrame>, next: Cursor)
    requires j.CanVisit(at, off) && at.level <= j.t.maxStemLevel && at.stemIdx < |j.t.stems|
    requires c.WellFormed() && j.StepsTo(at, off, rd, check, c, far, next)
    ensures j.FrameOk(at.level, Frame(off, far)) && j.CanVisit(next, off) && next.level == at.level + 1
    ensures j.FrameWork(Frame(off, far)) + Weight(ShapeAt(j.t, next)) <= Weight(ShapeAt(j.t, at))
  {
    HitsOfStem(j.m, j.q, ShapeAt(j.t, at), j.t.leaves);
  }

  /** One level of the descent agrees with one stem of the recursive traversal: the frame
      pushed is the far child the traversal would consider after the near child. */
  lemma StepVisits(j: Job, at: Cursor, off: seq<real>, rd: real, check: bool, c: Context,
                   far: Option<FarFrame>, next: Cursor)
    requires j.CanVisit(at, off) && at.level <= j.t.maxStemLevel && at.stemIdx < |j.t.stems|
    requires c.WellFormed() && j.StepsTo(at, off, rd, check, c, far, next)
    ensures j.VisitAt(at, off, rd, check, c)
         == j.ResumeFrame(at.level, Frame(off, far), j.VisitAt(next, off, rd, check, c))
  {
    StepShapes(j, at, off, rd, check, c, far, next);
    match j.t.stems[at.stemIdx]
    case Inf => assert ShapeAt(j.t, at).pivot == Inf && ShapeAt(j.t, at).left == ShapeAt(j.t, next);
    case Fin(p) => StepVisitsFin(j, at, off, rd, check, c, p);
  }

  lemma StepVisitsFin(j: Job, at: Cursor, off: seq<real>, rd: real, check: bool, c: Context, p: real)
    requires j.CanVisit(at, off) && at.level <= j.t.maxStemLevel && at.stemIdx < |j.t.stems|
    requires c.WellFormed() && j.t.stems[at.stemIdx] == Fin(p)
    ensures var right := j.q[at.dim] >= p;
            var newOff := Abs(j.q[at.dim] - p);
            var rdFar := RectDistAfterUpdate(j.m, rd, off, at.dim, newOff);
            var c1 := j.VisitAt(at.Child(j.t.k, right), off, rd, check, c);
            j.VisitAt(at, off, rd, check, c)
            == if (check ==> Fin(rdFar).Le(c.MaxDist())) && !c1.ShouldPrune(rdFar)
               then j.VisitAt(at.Child(j.t.k, !right), off[at.dim := newOff], rdFar, true, c1)
               else c1
  {
    var n := ShapeAt(j.t, at);
    var right, newOff := j.q[at.dim] >= p, Abs(j.q[at.dim] - p);
    VisitStem(j.m, j.q, n, j.t.leaves, at.level, off, rd, check, c, at.dim,
              ShapeAt(j.t, at.Child(j.t.k, right)), ShapeAt(j.t, at.Child(j.t.k, !right)),
              newOff, RectDistAfterUpdate(j.m, rd, off, at.dim, newOff));
  }

  lemma Push(j: Job, frames: seq<Frame>, restore: seq<Restore>, fars: seq<FarFrame>, off: seq<real>,
             f: Frame, after: seq<real>)
    requires j.Encodes(frames, restore, fars, off)
    requires j.FrameOk(|frames|, f) && f.offAt == off && |after| == j.t.k
    requires after[DimAt(|frames|, j.t.k) := off[DimAt(|frames|, j.t.k)]] == off
    ensures j.Encodes(frames + [f], restore + [Restore(off[DimAt(|frames|, j.t.k)], f.far.Some?)],
                      if f.far.Some? then fars + [f.far.value] else fars, after)
    ensures j.Work(frames + [f]) == j.Work(frames) + j.FrameWork(f)
  {
    var r := restore + [Restore(off[DimAt(|frames|, j.t.k)], f.far.Some?)];
    assert (frames + [f])[..|frames|] == frames && r[..|frames|] == restore;
    if f.far.Some? {
      assert (fars + [f.far.value])[..|fars|] == fars;
    }
  }

  lemma ResumePushed(j: Job, frames: seq<Frame>, f: Frame, c: Context)
    requires c.WellFormed()
    ensures j.Resume(frames + [f], c) == j.Resume(frames, j.ResumeFrame(|frames|, f, c))
  {
    assert (frames + [f])[..|frames|] == frames;
  }

  lemma DescendStep(j: Job, at: Cursor, off: seq<real>, rd: real, check: bool, c: Context,
                    frames: seq<Frame>, restore: seq<Restore>, fars: seq<FarFrame>, goal: Context,
                    far: Option<FarFrame>, next: Cursor)
    requires c.WellFormed() && at.level <= j.t.maxStemLevel && at.stemIdx < |j.t.stems|
    requires j.Descending(at, off, rd, check, c, frames, restore, fars, goal)
    requires j.StepsTo(at, off, rd, check, c, far, next)
    ensures j.Descending(next, off, rd, check, c, frames + [Frame(off, far)],
                         restore + [Restore(off[at.dim], far.Some?)],
                         if far.Some? then fars + [far.value] else fars, goal)
    ensures j.Work(frames + [Frame(off, far)]) + Weight(ShapeAt(j.t, next))
         <= j.Work(frames) + Weight(ShapeAt(j.t, at))
  {
    StepShapes(j, at, off, rd, check, c, far, next);
    StepVisits(j, at, off, rd, check, c, far, next);
    ResumePushed(j, frames, Frame(off, far), j.VisitAt(next, off, rd, check, c));
    Push(j, frames, restore, fars, off, Frame(off, far), off);
  }

  lemma DescentEnds(j: Job, end: Cursor, off: seq<real>, rd: real, check: bool, c: Context,
                    frames: seq<Frame>, restore: seq<Restore>, fars: seq<FarFrame>, goal: Context)
    requires j.Valid() && c.WellFormed() && end.level == j.t.maxStemLevel + 1
    requires j.Descending(end, off, rd, check, c, frames, restore, fars, goal)
    ensures var i := end.LeafIdx();
            && i < |j.t.leaves| && Fits(j.t.leaves[i], |j.q|)
            && j.Unwinding(frames, restore, fars, off, ProcessLeaf(j.m, j.q, j.t.leaves[i], c), goal)
            && Weight(ShapeAt(j.t, end)) == 1
  {
    LeafIdxIsOffset(end, j.t.k);
    assert ShapeAt(j.t, end) == Tip(end.LeafIdx());
    assert Entries(Tip(end.LeafIdx()), j.t.leaves) == j.t.leaves[end.LeafIdx()];
  }

  /** One level of the descent: the child on the query's side, and the other child unless its
      rectangle distance already exceeds the bound. */
  method DescendOne(j: Job, c: Context, at: Cursor, off: seq<real>, rd: real, check: bool)
    returns (next: Cursor, far: Option<FarFrame>)
    requires j.CanVisit(at, off) && at.stemIdx < |j.t.stems| && c.WellFormed()
    ensures j.StepsTo(at, off, rd, check, c, far, next)
    ensures next.level == at.level + 1
  {
    next, far := at.Child(j.t.k, false), None;
    var pivot := j.t.stems[at.stemIdx];
    if pivot.Fin? {
      var right := j.q[at.dim] >= pivot.v;
      next := at.Child(j.t.k, right);
      var newOff := Abs(j.q[at.dim] - pivot.v);
      var rdFar := RectDistAfterUpdate(j.m, rd, off, at.dim, newOff);
      if !check || Fin(rdFar).Le(c.MaxDist()) {
        far := Some(FarFrame(at.Child(j.t.k, !right), newOff, rdFar));
      }
    }
  }

  lemma StemInBounds(j: Job, at: Cursor)
    requires j.Valid() && at.Valid(j.t.k) && at.level <= j.t.maxStemLevel
    ensures at.stemIdx < |j.t.stems|
  {
    Pow2Monotone(at.level + 1, j.t.maxStemLevel + 1);
  }

  /** `arithmetic_descend_to_leaf`: walk to the leaf on the query's side, recording at every
      level the offset to restore and the far child if it is within the bound. */
  method DescendToLeaf(j: Job, c: Context, start: Cursor, off: seq<real>, rd: real, check: bool,
                       restore0: seq<Restore>, fars0: seq<FarFrame>,
                       ghost frames0: seq<Frame>, ghost goal: Context)
    returns (leafIdx: nat, end: Cursor, restore: seq<Restore>, fars: seq<FarFrame>, ghost frames: seq<Frame>)
    requires j.Valid() && c.WellFormed()
    requires j.Descending(start, off, rd, check, c, frames0, restore0, fars0, goal)
    ensures leafIdx < |j.t.leaves| && Fits(j.t.leaves[leafIdx], |j.q|)
    ensures j.Unwinding(frames, restore, fars, off, ProcessLeaf(j.m, j.q, j.t.leaves[leafIdx], c), goal)
    ensures end.dim == DimAt(|frames|, j.t.k)
    ensures j.Work(frames) < j.Work(frames0) + Weight(ShapeAt(j.t, start))
  {
    end, restore, fars, frames := start, restore0, fars0, frames0;
    while end.level <= j.t.maxStemLevel
      invariant end.level <= j.t.maxStemLevel + 1
      invariant j.Descending(end, off, rd, check, c, frames, restore, fars, goal)
      invariant j.Work(frames) + Weight(ShapeAt(j.t, end)) <= j.Work(frames0) + Weight(ShapeAt(j.t, start))
      decreases j.t.maxStemLevel + 1 - end.level
    {
      StemInBounds(j, end);
      var next, far := DescendOne(j, c, end, off, rd, check);
      DescendStep(j, end, off, rd, check, c, frames, restore, fars, goal, far, next);
      restore := restore + [Restore(off[end.dim], far.Some?)];
      if far.Some? {
        fars := fars + [far.value];
      }
      frames := frames + [Frame(off, far)];
      end := next;
    }
    leafIdx := end.LeafIdx();
    DescentEnds(j, end, off, rd, check, c, frames, restore, fars, goal);
  }

  // ---------------------------------------------------------------- the unwinding

  /** Entering a far child: its frame stays on the path, now without a far child. */
  lemma EnterFar(j: Job, frames: seq<Frame>, restore: seq<Restore>, fars: seq<FarFrame>,
                 f: Frame, far: FarFrame, c: Context)
    requires c.WellFormed()
    requires j.Encodes(frames, restore, fars, f.offAt) && j.FrameOk(|frames|, f)
    requires f.far == Some(far) && !c.ShouldPrune(far.rd)
    ensures var dim := DimAt(|frames|, j.t.k);
            var kept := frames + [Frame(f.offAt, None)];
            && j.Descending(far.state, f.offAt[dim := far.farOff], far.rd, true, c, kept,
                            restore + [Restore(f.offAt[dim], false)], fars,
                            j.Resume(frames, j.ResumeFrame(|frames|, f, c)))
            && j.Work(kept) == j.Work(frames) + 1
  {
    var dim := DimAt(|frames|, j.t.k);
    var off := f.offAt[dim := far.farOff];
    assert off[dim := f.offAt[dim]] == f.offAt;
    Push(j, frames, restore, fars, f.offAt, Frame(f.offAt, None), off);
    ResumePushed(j, frames, Frame(f.offAt, None), j.VisitAt(far.state, off, far.rd, true, c));
  }

  /** One iteration of the unwinding loop. */
  lemma UnwindStep(j: Job, frames: seq<Frame>, restore: seq<Restore>, fars: seq<FarFrame>,
                   off: seq<real>, c: Context, goal: Context)
    requires frames != [] && c.WellFormed()
    requires j.Unwinding(frames, restore, fars, off, c, goal)
    ensures var level := |frames| - 1;
            var top := frames[level];
            var dim := DimAt(level, j.t.k);
            && |restore| == |frames| && |top.offAt| == |off| == j.t.k
            && restore[level] == Restore(top.offAt[dim], top.far.Some?)
            && off[dim := top.offAt[dim]] == top.offAt
            && (top.far.Some? ==> fars != [] && fars[|fars| - 1] == top.far.value)
            && (top.far.None? ==>
                  j.Unwinding(frames[..level], restore[..level], fars, top.offAt, c, goal))
            && (top.far.Some? && c.ShouldPrune(top.far.value.rd) ==>
                  j.Unwinding(frames[..level], restore[..level], fars[..|fars| - 1], top.offAt, c, goal))
            && (top.far.Some? && !c.ShouldPrune(top.far.value.rd) ==>
                  var far := top.far.value;
                  j.Descending(far.state, top.offAt[dim := far.farOff], far.rd, true, c,
                               frames[..level] + [Frame(top.offAt, None)],
                               restore[..level] + [Restore(top.offAt[dim], false)], fars[..|fars| - 1], goal))
  {
    var level := |frames| - 1;
    var top := frames[level];
    if top.far.Some? && !c.ShouldPrune(top.far.value.rd) {
      EnterFar(j, frames[..level], restore[..level], fars[..|fars| - 1], top, top.far.value, c);
    }
  }

  lemma UnwindDecreases(j: Job, frames: seq<Frame>)
    requires frames != []
    ensures var level := |frames| - 1;
            && j.Work(frames[..level]) < j.Work(frames)
            && (frames[level].far.Some? ==>
                  j.Work(frames[..level] + [Frame(frames[level].offAt, None)])
                  + Weight(ShapeAt(j.t, frames[level].far.value.state)) <= j.Work(frames))
  {
    var level := |frames| - 1;
    assert (frames[..level] + [Frame(frames[level].offAt, None)])[..level] == frames[..level];
  }

  /** The main loop: pop a frame, restore its axis, and enter its far child unless the bound
      by now prunes it. */
  method Unwind(j: Job, c0: Context, off0: seq<real>, dim0: nat, restore0: seq<Restore>, fars0: seq<FarFrame>,
                ghost frames0: seq<Frame>, ghost goal: Context)
    returns (c: Context)
    requires j.Valid() && c0.WellFormed()
    requires j.Unwinding(frames0, restore0, fars0, off0, c0, goal)
    requires dim0 == DimAt(|frames0|, j.t.k)
    ensures c == goal
  {
    c := c0;
    var off, dim, restore, fars := off0, dim0, restore0, fars0;
    ghost var frames := frames0;
    while restore != []
      invariant c.WellFormed() && |restore| == |frames| && |off| == j.t.k
      invariant j.Unwinding(frames, restore, fars, off, c, goal)
      invariant dim == DimAt(|frames|, j.t.k)
      decreases j.Work(frames)
    {
      UnwindStep(j, frames, restore, fars, off, c, goal);
      UnwindDecreases(j, frames);
      ghost var top := frames[|frames| - 1];
      frames := frames[..|frames| - 1];
      var frame := restore[|restore| - 1];
      restore := restore[..|restore| - 1];
      dim := if dim == 0 then j.t.k - 1 else dim - 1;
      off := off[dim := frame.oldOff];
      if frame.hasFar {
        var far := fars[|fars| - 1];
        fars := fars[..|fars| - 1];
        if !c.ShouldPrune(far.rd) {
          restore := restore + [Restore(frame.oldOff, false)];
          off := off[dim := far.farOff];
          var leafIdx, state;
          leafIdx, state, restore, fars, frames :=
            DescendToLeaf(j, c, far.state, off, far.rd, true, restore, fars, frames + [Frame(top.offAt, None)], goal);
          c := ProcessLeaf(j.m, j.q, j.t.leaves[leafIdx], c);
          dim := state.dim;
        }
      }
    }
  }

  /** The traversal of an immutable tree, on its two continuation stacks, computes exactly the
      recursive traversal from the root. Every leaf index it resolves is in bounds. */
  method Query(t: Tree, m: Metric, q: seq<real>, c0: Context) returns (c: Context)
    requires t.Valid() && |q| == t.k && c0.WellFormed()
    ensures t.size == 0 ==> c == c0
    ensures t.size > 0 ==>
              && Usable(t.Shape(), t.leaves, t.k)
              && c == Visit(m, q, t.Shape(), t.leaves, 0, Zeros(t.k), 0.0, !c0.InitialBoundIsUnbounded(), c0)
  {
    if t.size == 0 {
      return c0;
    }
    var j, off, check := Job(t, m, q), Zeros(t.k), !c0.InitialBoundIsUnbounded();
    SplitsContains(t.Shape(), t.leaves, 0, Everywhere(t.k));
    ghost var goal := j.VisitAt(ROOT, off, 0.0, check, c0);
    var leafIdx, state, restore, fars, frames := DescendToLeaf(j, c0, ROOT, off, 0.0, check, [], [], [], goal);
    c := Unwind(j, ProcessLeaf(m, q, t.leaves[leafIdx], c0), off, state.dim, restore, fars, frames, goal);
  }

  /** A query of an immutable tree is exact: for every metric, every kind of query and every
      query point the answer is the right one over everything stored. */
  method Answer(t: Tree, m: Metric, q: seq<real>, c0: Context) returns (c: Context)
    requires t.Valid() && |q| == t.k && Fresh(c0)
    requires m.Minkowski? ==> m.power > 0
    ensures Fits(t.Contents(), t.k)
    ensures SameQuery(c0, c) && Answers(c, multiset(Hits(m, q, t.Contents())))
  {
    FreshAnswersNothing(c0);
    c := Query(t, m, q, c0);
    if t.size == 0 {
      assert Hits(m, q, t.Contents()) == [];
    } else {
      VisitIsExact(m, q, t.Shape(), t.leaves, c0, !c0.InitialBoundIsUnbounded());
    }
  }
}

/** Whole runs of a mutable tree. */
module MutableRuns {
  import opened KdTree
  import opened Sorting
  import opened Eytzinger
  import opened Construction
  import opened MappedQuery
  import opened MutableShape
  import opened MutableConstruction
  import opened MutableSteps
  import opened MutableTree
  import opened Iteration
  import opened Routing
  import BucketEdit
  import BucketSplit
  import StrictSplits

  datatype Op = Add(entry: Entry) | Remove(entry: Entry)

  datatype Outcome = Added | Refused | Removed(copies: nat)

  // ---------------------------------------------------------------- runs as traces of trees

  /** What one operation does to the tree, and what comes of it. */
  ghost predicate StepTo(t: Tree, u: Tree, b: nat, op: Op, outcome: Outcome)
    requires Sound(t, b, false) && b > 0
  {
    && |op.entry.point| == t.k
    && match op
       case Add(e) =>
         && (outcome == Added || outcome == Refused)
         && exists r: Result<()> :: AddStep(t, u, b, e, r) && (r.Ok? <==> outcome == Added)
       case Remove(e) =>
         var leaf := t.leaves[LeafOf(t, e.point)];
         outcome == Removed(multiset(leaf)[e]) && u == WithLeaf(t, LeafOf(t, e.point), BucketEdit.Without(leaf, e))
  }

  /** The trees before the first operation and after each one. */
  ghost predicate IsTrace(trace: seq<Tree>, b: nat, ops: seq<Op>, outcomes: seq<Outcome>)
    requires b > 0
    decreases |ops|
  {
    && |trace| == |ops| + 1 && |outcomes| == |ops|
    && Sound(trace[|ops|], b, false)
    && (ops != [] ==>
          var n := |ops| - 1;
          && IsTrace(trace[..n + 1], b, ops[..n], outcomes[..n])
          && Sound(trace[n], b, false) && StepTo(trace[n], trace[n + 1], b, ops[n], outcomes[n]))
  }

  lemma TraceGrows(trace: seq<Tree>, b: nat, ops: seq<Op>, outcomes: seq<Outcome>, u: Tree, op: Op, outcome: Outcome)
    requires b > 0 && IsTrace(trace, b, ops, outcomes) && Sound(u, b, false)
    requires StepTo(trace[|ops|], u, b, op, outcome)
    ensures IsTrace(trace + [u], b, ops + [op], outcomes + [outcome])
    ensures Refusals(outcomes + [outcome]) == Refusals(outcomes) + if outcome == Refused then 1 else 0
  {
    assert (trace + [u])[..|ops| + 1] == trace;
    assert (ops + [op])[..|ops|] == ops;
    assert (outcomes + [outcome])[..|ops|] == outcomes;
  }

  // ---------------------------------------------------------------- the account

  /** The entries after one operation with the given outcome. */
  ghost function After(c: multiset<Entry>, op: Op, outcome: Outcome): multiset<Entry> {
    match op
    case Add(e) => if outcome == Added then c + multiset{e} else c
    case Remove(e) => if outcome.Removed? then c[e := if outcome.copies <= c[e] then c[e] - outcome.copies else 0] else c
  }

  ghost function Balance(c: multiset<Entry>, ops: seq<Op>, outcomes: seq<Outcome>): multiset<Entry>
    requires |ops| == |outcomes|
  {
    if ops == [] then c
    else
      var n := |ops| - 1;
      After(Balance(c, ops[..n], outcomes[..n]), ops[n], outcomes[n])
  }

  ghost function Refusals(outcomes: seq<Outcome>): nat {
    if outcomes == [] then 0
    else Refusals(outcomes[..|outcomes| - 1]) + if outcomes[|outcomes| - 1] == Refused then 1 else 0
  }

  /** The entries after an operation that does what it says: an addition adds the entry, a
      removal takes every copy. */
  ghost function Next(c: multiset<Entry>, op: Op): multiset<Entry> {
    match op
    case Add(e) => c + multiset{e}
    case Remove(e) => c[e := 0]
  }

  ghost function Expected(c: multiset<Entry>, ops: seq<Op>): multiset<Entry> {
    if ops == [] then c else Next(Expected(c, ops[..|ops| - 1]), ops[|ops| - 1])
  }

  ghost function Offer(op: Op): multiset<Entry> {
    if op.Add? then multiset{op.entry} else multiset{}
  }

  /** Everything a run tries to add. */
  ghost function Offered(ops: seq<Op>): multiset<Entry> {
    if ops == [] then multiset{} else Offered(ops[..|ops| - 1]) + Offer(ops[|ops| - 1])
  }

  /** Fewer than `crowd` of the entries share a coordinate, whatever the axis. */
  ghost predicate Spread(entries: multiset<Entry>, crowd: nat, k: nat) {
    forall dim :: 0 <= dim < k ==> !FillsBucket(entries, crowd, dim)
  }

  /** No two of the entries share a coordinate. */
  ghost predicate Untied(entries: multiset<Entry>, k: nat) {
    forall s: seq<Entry> :: multiset(s) <= entries ==> TieFree(s, k)
  }

  lemma UntiedIsSpread(entries: multiset<Entry>, crowd: nat, k: nat)
    requires Untied(entries, k) && crowd >= 2
    ensures Spread(entries, crowd, k)
  {
    forall dim | 0 <= dim < k ensures !FillsBucket(entries, crowd, dim) {
      if FillsBucket(entries, crowd, dim) {
        var group: seq<Entry> :| |group| >= crowd && multiset(group) <= entries && AllEqual(group, AxisKey(dim));
        assert NoTies(group, AxisKey(dim));
        NoTiesApart(group, AxisKey(dim), 0, 1);
        assert false;
      }
    }
  }

  lemma FillsMore(part: multiset<Entry>, all: multiset<Entry>, b: nat, fewer: nat, dim: nat)
    requires FillsBucket(part, b, dim) && part <= all && fewer <= b
    ensures FillsBucket(all, fewer, dim)
  {
  }

  /** A bad split needs more than half a bucket of equal coordinates. */
  lemma BadSplitIsCrowded(t: Tree, b: nat, p: seq<real>, all: multiset<Entry>) returns (dim: nat)
    requires Sound(t, b, false) && b >= 2 && |p| == t.k && multiset(t.Contents()) <= all && SplitsOutOfOrder(t, b, p)
    ensures dim < t.k && FillsBucket(all, b / 2 + 1, dim)
  {
    var z := Locate(t, p, ROOT);
    var leaf := StoredLeaf(t, z, all);
    LowRunFills(leaf, z.dim, all);
    dim := z.dim;
  }

  lemma StoredLeaf(t: Tree, z: Cursor, all: multiset<Entry>) returns (leaf: seq<Entry>)
    requires t.k > 0 && CompleteAt(t, ROOT) && z.stemIdx in t.leafIdxMap && t.leafIdxMap[z.stemIdx] in TipSet(t.Shape())
    requires multiset(t.Contents()) <= all
    ensures t.leafIdxMap[z.stemIdx] < |t.leaves| && leaf == t.leaves[t.leafIdxMap[z.stemIdx]] && multiset(leaf) <= all
  {
    TipsInBounds(t, ROOT);
    leaf := t.leaves[t.leafIdxMap[z.stemIdx]];
    LeafIsPart(t.Shape(), t.leaves, t.leafIdxMap[z.stemIdx]);
  }

  lemma LowRunFills(leaf: seq<Entry>, dim: nat, all: multiset<Entry>)
    requires |leaf| >= 2 && StrictSplits.AtRisk(leaf, AxisKey(dim)) && multiset(leaf) <= all
    ensures FillsBucket(all, |leaf| / 2 + 1, dim)
  {
    var run := LowRun(leaf, AxisKey(dim));
  }

  lemma LowRun(leaf: seq<Entry>, key: Entry -> real) returns (run: seq<Entry>)
    requires |leaf| >= 2 && StrictSplits.AtRisk(leaf, key)
    ensures |run| == |leaf| / 2 + 1 && multiset(run) <= multiset(leaf) && AllEqual(run, key)
  {
    var s := Sort(leaf, key);
    SortSorts(leaf, key);
    run := FirstOf(s, |leaf| / 2 + 1);
    LowRunIsEqual(s, key, |leaf| / 2);
  }

  lemma FirstOf(s: seq<Entry>, n: nat) returns (r: seq<Entry>)
    requires n <= |s|
    ensures r == s[..n] && multiset(r) <= multiset(s)
  {
    r := s[..n];
    assert s == r + s[n..];
  }

  lemma LowRunIsEqual(s: seq<Entry>, key: Entry -> real, mid: nat)
    requires mid < |s| && Sorted(s, key) && key(s[mid]) == key(s[0])
    ensures AllEqual(s[..mid + 1], key)
  {
    forall x, y | x in s[..mid + 1] && y in s[..mid + 1] ensures key(x) == key(y) {
      var i :| 0 <= i <= mid && s[i] == x;
      var j :| 0 <= j <= mid && s[j] == y;
      assert key(s[0]) <= key(s[i]) <= key(s[mid]) && key(s[0]) <= key(s[j]) <= key(s[mid]);
    }
  }

  /** At no time of the run do two of the expected entries share a coordinate. */
  ghost predicate Quiet(c: multiset<Entry>, ops: seq<Op>, k: nat) {
    Untied(Expected(c, ops), k) && (ops != [] ==> Quiet(c, ops[..|ops| - 1], k))
  }

  // ---------------------------------------------------------------- what one step keeps

  lemma RemovedCopies(before: multiset<Entry>, after: multiset<Entry>, e: Entry, n: nat)
    requires after + Copies(e, n) == before
    ensures after == After(before, Op.Remove(e), Removed(n))
  {
    forall x ensures after[x] == After(before, Op.Remove(e), Removed(n))[x] {
      assert (after + Copies(e, n))[x] == before[x];
    }
  }

  lemma RemoveStepKeeps(t: Tree, u: Tree, b: nat, e: Entry)
    requires Sound(t, b, false) && |e.point| == t.k
    requires u == WithLeaf(t, LeafOf(t, e.point), BucketEdit.Without(t.leaves[LeafOf(t, e.point)], e))
    ensures Sound(u, b, false) && (t.Valid() ==> u.Valid()) && (WithinSparseLimit(t) ==> WithinSparseLimit(u))
    ensures multiset(u.Contents()) + Copies(e, multiset(t.leaves[LeafOf(t, e.point)])[e]) == multiset(t.Contents())
    ensures Routed(t) ==> Routed(u) && multiset(u.Contents()) == multiset(t.Contents())[e := 0]
  {
    var leaf := t.leaves[LeafOf(t, e.point)];
    var v := LeafRemoved(t, b, e, BucketEdit.Without(leaf, e), multiset(leaf)[e], t.Valid());
    RemovedRoutes(t, b, e);
    RemovedAll(t, u, e, multiset(leaf)[e]);
  }

  /** A step keeps the tree sound and keeps account of the entries. */
  lemma StepAccounts(t: Tree, u: Tree, b: nat, op: Op, outcome: Outcome)
    requires Sound(t, b, false) && b >= 2 && StepTo(t, u, b, op, outcome)
    ensures Sound(u, b, false) && u.k == t.k
    ensures multiset(u.Contents()) == After(multiset(t.Contents()), op, outcome)
  {
    match op
    case Add(e) =>
      var r: Result<()> :| AddStep(t, u, b, e, r) && (r.Ok? <==> outcome == Added);
      AddStepKeeps(t, u, b, e, r);
    case Remove(e) =>
      RemoveStepKeeps(t, u, b, e);
      RemovedCopies(multiset(t.Contents()), multiset(u.Contents()), e, outcome.copies);
  }

  /** With entries spread out no bucket splits out of order, and none is unsplittable. */
  lemma SpreadSplitsWell(t: Tree, b: nat, p: seq<real>, all: multiset<Entry>)
    requires Sound(t, b, false) && b >= 2 && |p| == t.k && multiset(t.Contents()) <= all && Spread(all, b / 2 + 1, t.k)
    ensures !SplitsOutOfOrder(t, b, p)
  {
    if SplitsOutOfOrder(t, b, p) {
      var dim := BadSplitIsCrowded(t, b, p, all);
      assert false;
    }
  }

  lemma SpreadIsNotFilled(part: multiset<Entry>, all: multiset<Entry>, b: nat, k: nat, dim: nat)
    requires b >= 2 && part <= all && dim < k && Spread(all, b / 2 + 1, k)
    ensures !FillsBucket(part, b, dim)
  {
    if FillsBucket(part, b, dim) {
      FillsMore(part, all, b, b / 2 + 1, dim);
    }
  }

  /** While entries are spread out a step refuses nothing and keeps order. */
  lemma StepIsCalm(t: Tree, u: Tree, b: nat, op: Op, outcome: Outcome, all: multiset<Entry>)
    requires Sound(t, b, false) && b >= 2 && StepTo(t, u, b, op, outcome)
    requires multiset(t.Contents()) + Offer(op) <= all && Spread(all, b / 2 + 1, t.k)
    ensures outcome != Refused && (t.Valid() ==> u.Valid())
  {
    match op
    case Add(e) =>
      var r: Result<()> :| AddStep(t, u, b, e, r) && (r.Ok? <==> outcome == Added);
      AddStepKeeps(t, u, b, e, r);
      SpreadSplitsWell(t, b, e.point, all);
      if r.UnsplittableBucket? {
        SpreadIsNotFilled(multiset(t.Contents()) + multiset{e}, all, b, t.k, r.splitDim);
      }
    case Remove(e) =>
      RemoveStepKeeps(t, u, b, e);
  }

  lemma UntiedIsTame(t: Tree, b: nat, e: Entry)
    requires Sound(t, b, false) && b >= 2 && |e.point| == t.k && Untied(multiset(t.Contents()) + multiset{e}, t.k)
    ensures TieFree(t.Contents() + [e], t.k) && !SplitsOutOfOrder(t, b, e.point)
    ensures forall dim: nat :: dim < t.k ==> !FillsBucket(multiset(t.Contents()) + multiset{e}, b, dim)
  {
    var all := multiset(t.Contents()) + multiset{e};
    UntiedIsSpread(all, b / 2 + 1, t.k);
    SpreadSplitsWell(t, b, e.point, all);
    UntiedListing(t.Contents() + [e], all, t.k);
    UntiedIsSpread(all, b, t.k);
  }

  lemma AddIsQuiet(t: Tree, u: Tree, b: nat, e: Entry, r: Result<()>)
    requires Sound(t, b, false) && b >= 2 && |e.point| == t.k && AddStep(t, u, b, e, r) && Routed(t)
    requires Untied(multiset(t.Contents()) + multiset{e}, t.k)
    ensures r.Ok? && Sound(u, b, false) && u.k == t.k && Routed(u) && (t.Valid() ==> u.Valid())
    ensures multiset(u.Contents()) == multiset(t.Contents()) + multiset{e}
    ensures WithinSparseLimit(t) ==> WithinSparseLimit(u)
  {
    UntiedIsTame(t, b, e);
    AddStepKeeps(t, u, b, e, r);
  }

  /** While no two entries share a coordinate a step does what it says. */
  lemma StepIsQuiet(t: Tree, u: Tree, b: nat, op: Op, outcome: Outcome)
    requires Sound(t, b, false) && b >= 2 && StepTo(t, u, b, op, outcome) && Routed(t)
    requires Untied(multiset(t.Contents()) + Offer(op), t.k)
    ensures outcome != Refused && (t.Valid() ==> u.Valid()) && Sound(u, b, false) && u.k == t.k && Routed(u)
    ensures multiset(u.Contents()) == Next(multiset(t.Contents()), op)
    ensures WithinSparseLimit(t) ==> WithinSparseLimit(u)
  {
    match op
    case Add(e) =>
      var r: Result<()> :| AddStep(t, u, b, e, r) && (r.Ok? <==> outcome == Added);
      AddIsQuiet(t, u, b, e, r);
    case Remove(e) =>
      RemoveStepKeeps(t, u, b, e);
  }

  lemma UntiedListing(s: seq<Entry>, all: multiset<Entry>, k: nat)
    requires multiset(s) == all && Untied(all, k)
    ensures TieFree(s, k)
  {
  }

  // ---------------------------------------------------------------- whole runs

  /** A trace keeps account of every entry. */
  lemma {:induction false} TraceAccounts(trace: seq<Tree>, b: nat, ops: seq<Op>, outcomes: seq<Outcome>)
    requires b >= 2 && IsTrace(trace, b, ops, outcomes)
    ensures multiset(trace[|ops|].Contents()) == Balance(multiset(trace[0].Contents()), ops, outcomes)
    ensures multiset(trace[|ops|].Contents()) <= multiset(trace[0].Contents()) + Offered(ops)
    ensures trace[|ops|].k == trace[0].k
    decreases |ops|
  {
    if ops != [] {
      var n := |ops| - 1;
      TraceAccounts(trace[..n + 1], b, ops[..n], outcomes[..n]);
      StepAccounts(trace[n], trace[n + 1], b, ops[n], outcomes[n]);
      AtMostOffered(multiset(trace[n].Contents()), ops[n], outcomes[n]);
    }
  }

  lemma AtMostOffered(c: multiset<Entry>, op: Op, outcome: Outcome)
    ensures After(c, op, outcome) <= c + Offer(op)
  {
  }

  /** If no more than half a bucket of what a run offers shares a coordinate on any axis, it
      refuses nothing and keeps order, so every query afterwards is exact. */
  lemma {:induction false} TraceIsCalm(trace: seq<Tree>, b: nat, ops: seq<Op>, outcomes: seq<Outcome>, all: multiset<Entry>)
    requires b >= 2 && IsTrace(trace, b, ops, outcomes)
    requires multiset(trace[0].Contents()) + Offered(ops) <= all && Spread(all, b / 2 + 1, trace[0].k)
    ensures Refusals(outcomes) == 0 && (trace[0].Valid() ==> trace[|ops|].Valid())
    decreases |ops|
  {
    if ops != [] {
      var n := |ops| - 1;
      TraceAccounts(trace[..n + 1], b, ops[..n], outcomes[..n]);
      TraceIsCalm(trace[..n + 1], b, ops[..n], outcomes[..n], all);
      StepIsCalm(trace[n], trace[n + 1], b, ops[n], outcomes[n], all);
    }
  }

  /** With buckets of at most six, every run keeps order. */
  lemma {:induction false} SmallBucketsKeepOrder(trace: seq<Tree>, b: nat, ops: seq<Op>, outcomes: seq<Outcome>)
    requires 2 <= b <= 6 && IsTrace(trace, b, ops, outcomes) && trace[0].Valid()
    ensures trace[|ops|].Valid()
    decreases |ops|
  {
    if ops != [] {
      var n := |ops| - 1;
      SmallBucketsKeepOrder(trace[..n + 1], b, ops[..n], outcomes[..n]);
      SmallStepKeepsOrder(trace[n], trace[n + 1], b, ops[n], outcomes[n]);
    }
  }

  lemma SmallStepKeepsOrder(t: Tree, u: Tree, b: nat, op: Op, outcome: Outcome)
    requires 2 <= b <= 6 && Sound(t, b, false) && t.Valid() && StepTo(t, u, b, op, outcome)
    ensures u.Valid()
  {
    match op
    case Add(e) =>
      var r: Result<()> :| AddStep(t, u, b, e, r) && (r.Ok? <==> outcome == Added);
      AddStepKeeps(t, u, b, e, r);
    case Remove(e) =>
      RemoveStepKeeps(t, u, b, e);
  }

  /** If entries are stored where their points lead and at no time two of them share a
      coordinate, a run does exactly what its operations say. */
  lemma {:induction false} TraceIsQuiet(trace: seq<Tree>, b: nat, ops: seq<Op>, outcomes: seq<Outcome>)
    requires b >= 2 && IsTrace(trace, b, ops, outcomes) && Sound(trace[0], b, false) && Routed(trace[0])
    requires Quiet(multiset(trace[0].Contents()), ops, trace[0].k)
    ensures multiset(trace[|ops|].Contents()) == Expected(multiset(trace[0].Contents()), ops)
    ensures Refusals(outcomes) == 0 && (trace[0].Valid() ==> trace[|ops|].Valid()) && Routed(trace[|ops|])
    ensures trace[|ops|].k == trace[0].k && (WithinSparseLimit(trace[0]) ==> WithinSparseLimit(trace[|ops|]))
    decreases |ops|
  {
    if ops != [] {
      var n := |ops| - 1;
      TraceIsQuiet(trace[..n + 1], b, ops[..n], outcomes[..n]);
      QuietStep(multiset(trace[0].Contents()), ops, trace[0].k);
      StepIsQuiet(trace[n], trace[n + 1], b, ops[n], outcomes[n]);
    }
  }

  lemma QuietStep(c: multiset<Entry>, ops: seq<Op>, k: nat)
    requires Quiet(c, ops, k) && ops != []
    ensures Untied(Expected(c, ops[..|ops| - 1]) + Offer(ops[|ops| - 1]), k)
  {
    var c1 := Expected(c, ops[..|ops| - 1]);
    assert Quiet(c, ops[..|ops| - 1], k);
    assert c1 + multiset{} == c1;
  }

  lemma IsAddStep(t: Tree, u: Tree, b: nat, e: Entry, r: Result<()>)
    requires Sound(t, b, false) && b > 0 && |e.point| == t.k && AddStep(t, u, b, e, r)
    ensures StepTo(t, u, b, Op.Add(e), if r.Ok? then Added else Refused)
  {
  }

  /** The step, as one fact about the tree it leads to. */
  ghost predicate Steps(t: Tree, u: Tree, b: nat, op: Op, outcome: Outcome) {
    Sound(t, b, false) && b > 0 && forall v: Tree :: v == u ==> StepTo(t, v, b, op, outcome)
  }

  method Apply(tree: MutableKdTree, op: Op) returns (ok: bool, ghost outcome: Outcome)
    requires tree.Valid() && |op.entry.point| == tree.k
    modifies tree
    ensures tree.Valid() && Steps(old(tree.View()), tree.View(), tree.b, op, outcome) && (ok <==> outcome != Refused)
  {
    match op
    case Add(e) =>
      ghost var t := tree.View();
      var r := tree.Add(e);
      IsAddStep(t, tree.View(), tree.b, e, r);
      ok, outcome := r.Ok?, if r.Ok? then Added else Refused;
    case Remove(e) =>
      outcome := Removed(tree.CopiesAtLeaf(e));
      tree.Remove(e);
      ok := true;
  }

  /** A run goes through the trees of a trace, and counts what it refuses. */
  method Run(tree: MutableKdTree, ops: seq<Op>)
    returns (refused: nat, ghost outcomes: seq<Outcome>, ghost trace: seq<Tree>)
    requires tree.Valid() && forall i :: 0 <= i < |ops| ==> |ops[i].entry.point| == tree.k
    modifies tree
    ensures tree.Valid() && IsTrace(trace, tree.b, ops, outcomes) && refused == Refusals(outcomes)
    ensures trace[0] == old(tree.View()) && trace[|ops|] == tree.View()
    decreases |ops|
  {
    if ops == [] {
      return 0, [], [tree.View()];
    }
    var front := ops[..|ops| - 1];
    refused, outcomes, trace := Run(tree, front);
    ghost var t := tree.View();
    var ok;
    ghost var outcome;
    ok, outcome := Apply(tree, ops[|ops| - 1]);
    refused := refused + if ok then 0 else 1;
    trace, outcomes := LastStep(trace, tree.b, ops, front, outcomes, t, tree.View(), outcome);
  }

  lemma LastStep(trace: seq<Tree>, b: nat, ops: seq<Op>, front: seq<Op>, outcomes: seq<Outcome>, t: Tree, u: Tree, outcome: Outcome)
    returns (trace2: seq<Tree>, outcomes2: seq<Outcome>)
    requires b > 0 && ops != [] && front == ops[..|ops| - 1] && IsTrace(trace, b, front, outcomes) && Sound(u, b, false)
    requires t == trace[|ops| - 1] && Steps(t, u, b, ops[|ops| - 1], outcome)
    ensures IsTrace(trace2, b, ops, outcomes2) && trace2[0] == trace[0] && trace2[|ops|] == u
    ensures Refusals(outcomes2) == Refusals(outcomes) + if outcome == Refused then 1 else 0
  {
    assert StepTo(t, u, b, ops[|ops| - 1], outcome);
    trace2, outcomes2 := trace + [u], outcomes + [outcome];
    assert trace2[..|ops|] == trace;
    assert outcomes2[..|ops| - 1] == outcomes;
  }

  // ---------------------------------------------------------------- adding and removing

  /** Removing undoes adding an entry that was not stored, exactly if the entry can be found
      where it was put: always, unless a rebuild meets ties. */
  method AddThenRemove(tree: MutableKdTree, e: Entry) returns (r: Result<()>, ghost between: Tree)
    requires tree.Valid() && |e.point| == tree.k && e !in tree.Contents()
    modifies tree
    ensures tree.Valid() && Sound(between, tree.b, false) && between.k == tree.k
    ensures AddStep(old(tree.View()), between, tree.b, e, r)
    ensures tree.Contents() == old(tree.Contents()) + if r.Ok? && !Reachable(between, e) then multiset{e} else multiset{}
    ensures old(!tree.Rebuilds(e.point)) || old(TieFree(tree.View().Contents() + [e], tree.k)) ==>
              tree.Contents() == old(tree.Contents())
  {
    ghost var before := tree.Contents();
    r := tree.Add(e);
    between := tree.View();
    ghost var stored := tree.Contents();
    if r.Ok? {
      CopiesOfOne(between, tree.b, e);
    }
    ghost var copies := tree.CopiesAtLeaf(e);
    tree.Remove(e);
    CopiesUndone(before, stored, tree.Contents(), e, copies);
  }

  /** A single copy is in the leaf its point leads to, or it is not. */
  lemma CopiesOfOne(t: Tree, b: nat, e: Entry)
    requires WellFormed(t, b) && |e.point| == t.k && LeafOf(t, e.point) < |t.leaves| && multiset(t.Contents())[e] == 1
    ensures multiset(t.leaves[LeafOf(t, e.point)])[e] == if Reachable(t, e) then 1 else 0
  {
    var i := LeafOf(t, e.point);
    LeafIsPart(t.Shape(), t.leaves, i);
    assert e in t.leaves[i] <==> e in multiset(t.leaves[i]);
  }

  lemma CopiesUndone(before: multiset<Entry>, stored: multiset<Entry>, after: multiset<Entry>, e: Entry, n: nat)
    requires after + Copies(e, n) == stored
    ensures n == 0 ==> after == stored
    ensures n == 1 && stored == before + multiset{e} ==> after == before
    ensures e !in stored ==> n == 0
  {
    forall x ensures after[x] == stored[x] - Copies(e, n)[x] {
      assert (after + Copies(e, n))[x] == stored[x];
    }
  }
}

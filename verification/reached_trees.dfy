/** The trees that a run of operations reaches, one operation or several at a time. */
module ReachedTrees {
  import opened Metrics
  import opened KdTree
  import opened QueryContext
  import opened Eytzinger
  import opened Construction
  import opened MappedQuery
  import opened MutableShape
  import opened MutableConstruction
  import opened MutableSteps
  import opened Routing
  import opened MutableTree
  import opened MutableRuns
  import BucketEdit
  import BucketSplit
  import opened StrictSplits

  /** The empty tree. */
  function EmptyTree(k: nat): Tree {
    Tree(k, [Inf, Inf], map[1 := 0], [[]], 0)
  }

  lemma EmptyIsSound(k: nat, b: nat)
    requires k >= 1 && b > 0
    ensures Sound(EmptyTree(k), b, true) && ReachedBy(EmptyTree(k), EmptyTree(k), b, [])
    ensures forall p: seq<real> :: |p| == k ==> Locate(EmptyTree(k), p, ROOT) == ROOT
  {
    assert EmptyTree(k).Shape() == Tip(0) && CompleteAt(EmptyTree(k), ROOT);
    ReachedAtOnce(EmptyTree(k), b);
  }

  /** The tree comes about from the other by these operations. */
  ghost predicate ReachedBy(t: Tree, u: Tree, b: nat, ops: seq<Op>)
    requires b > 0
  {
    exists trace, outcomes :: IsTrace(trace, b, ops, outcomes) && trace[0] == t && trace[|ops|] == u
  }

  lemma ReachedAtOnce(t: Tree, b: nat)
    requires b > 0 && Sound(t, b, false)
    ensures ReachedBy(t, t, b, [])
  {
    assert IsTrace([t], b, [], []);
  }

  lemma ReachedLonger(t: Tree, u: Tree, v: Tree, b: nat, ops: seq<Op>, op: Op, outcome: Outcome)
    requires b > 0 && ReachedBy(t, u, b, ops) && Sound(v, b, false) && StepTo(u, v, b, op, outcome)
    ensures ReachedBy(t, v, b, ops + [op])
  {
    var trace: seq<Tree>, outcomes: seq<Outcome> :|
      IsTrace(trace, b, ops, outcomes) && trace[0] == t && trace[|ops|] == u;
    TraceGrows(trace, b, ops, outcomes, v, op, outcome);
    ReachedWith(trace + [v], outcomes + [outcome], t, v, b, ops + [op]);
  }

  lemma ReachedWith(trace: seq<Tree>, outcomes: seq<Outcome>, t: Tree, u: Tree, b: nat, ops: seq<Op>)
    requires b > 0 && IsTrace(trace, b, ops, outcomes) && trace[0] == t && trace[|ops|] == u
    ensures ReachedBy(t, u, b, ops)
  {
  }

  lemma ReachedNext(t: Tree, u: Tree, v: Tree, b: nat, ops: seq<Op>, op: Op, outcome: Outcome)
    requires b >= 2 && ReachedBy(t, u, b, ops) && Sound(u, b, false) && StepTo(u, v, b, op, outcome)
    ensures ReachedBy(t, v, b, ops + [op]) && Sound(v, b, false)
  {
    StepAccounts(u, v, b, op, outcome);
    ReachedLonger(t, u, v, b, ops, op, outcome);
  }

  lemma JoinedOne(start: Tree, t: Tree, u: Tree, b: nat, ops: seq<Op>, e: Entry, i: nat)
    requires b >= 2 && Sound(t, b, false) && ReachedBy(start, t, b, ops)
    requires |e.point| == t.k && LeafOf(t, e.point) == i && |t.leaves[i]| < b && u == WithLeaf(t, i, t.leaves[i] + [e])
    ensures Sound(u, b, false) && ReachedBy(start, u, b, ops + [Op.Add(e)])
  {
    IsAddStep(t, u, b, e, Ok(()));
    ReachedNext(start, t, u, b, ops, Op.Add(e), Added);
  }

  function Adds(s: seq<Entry>): (ops: seq<Op>)
    ensures |ops| == |s|
  {
    seq(|s|, i requires 0 <= i < |s| => Op.Add(s[i]))
  }

  lemma AddsOfLonger(s: seq<Entry>)
    requires s != []
    ensures Adds(s[..|s| - 1]) + [Op.Add(s[|s| - 1])] == Adds(s)
  {
  }

  /** Entries that all lead to the same leaf, while it has room. */
  lemma {:induction false} JoinedAll(start: Tree, t: Tree, b: nat, ops: seq<Op>, s: seq<Entry>, i: nat) returns (u: Tree)
    requires b >= 2 && Sound(t, b, false) && ReachedBy(start, t, b, ops) && i < |t.leaves| && |t.leaves[i]| + |s| <= b
    requires forall e :: e in s ==> |e.point| == t.k && LeafOf(t, e.point) == i
    ensures u == WithLeaf(t, i, t.leaves[i] + s) && Sound(u, b, false) && ReachedBy(start, u, b, ops + Adds(s))
  {
    if s == [] {
      u := t;
      assert t.leaves[i] + s == t.leaves[i] && t.leaves[i := t.leaves[i]] == t.leaves && ops + Adds(s) == ops;
    } else {
      var front, last := s[..|s| - 1], s[|s| - 1];
      var v := JoinedAll(start, t, b, ops, front, i);
      LocateIgnoresLeaves(t, v, last.point, ROOT);
      u := WithLeaf(v, i, v.leaves[i] + [last]);
      LastJoins(t, v, u, i, s);
      JoinedOne(start, v, u, b, ops + Adds(front), last, i);
      AddsOfLonger(s);
      assert ops + Adds(front) + [Op.Add(last)] == ops + Adds(s);
    }
  }

  lemma LastJoins(t: Tree, v: Tree, u: Tree, i: nat, s: seq<Entry>)
    requires s != [] && i < |t.leaves| && v == WithLeaf(t, i, t.leaves[i] + s[..|s| - 1])
    requires u == WithLeaf(v, i, v.leaves[i] + [s[|s| - 1]])
    ensures u == WithLeaf(t, i, t.leaves[i] + s)
  {
    assert t.leaves[i] + s[..|s| - 1] + [s[|s| - 1]] == t.leaves[i] + s;
    assert u.leaves == t.leaves[i := t.leaves[i] + s];
  }

  /** A bucketful in the only leaf. */
  lemma FirstLeaf(k: nat, b: nat, s: seq<Entry>) returns (t: Tree)
    requires k >= 1 && b >= 2 && |s| <= b && forall e :: e in s ==> |e.point| == k
    ensures t == EmptyTree(k).(leaves := [s]) && Sound(t, b, false) && ReachedBy(EmptyTree(k), t, b, Adds(s))
  {
    EmptyIsSound(k, b);
    t := JoinedAll(EmptyTree(k), EmptyTree(k), b, [], s, 0);
    OnlyLeaf(k, s);
    assert [] + Adds(s) == Adds(s);
  }

  lemma OnlyLeaf(k: nat, s: seq<Entry>)
    ensures WithLeaf(EmptyTree(k), 0, EmptyTree(k).leaves[0] + s) == EmptyTree(k).(leaves := [s])
  {
    assert [] + s == s;
    assert EmptyTree(k).leaves[0 := s] == [s];
  }

  lemma RootIsLeaf(t: Tree, p: seq<real>)
    requires t.k > 0 && |p| == t.k && CompleteAt(t, ROOT) && 1 in t.leafIdxMap
    ensures Locate(t, p, ROOT) == ROOT
  {
  }

  /** The tree with a leaf split into these halves, and the entry in the one on its side. */
  function HalvesOf(t: Tree, z: Cursor, low: seq<Entry>, high: seq<Entry>, p: real, e: Entry): Tree
    requires z.stemIdx in t.leafIdxMap && t.leafIdxMap[z.stemIdx] < |t.leaves| && z.dim < |e.point|
  {
    if e.point[z.dim] >= p then WithSplit(t, z, low, high + [e], p) else WithSplit(t, z, low + [e], high, p)
  }

  /** An addition that splits the bucket of its leaf in that way. */
  lemma SplitOff(start: Tree, t: Tree, u: Tree, b: nat, ops: seq<Op>, e: Entry, z: Cursor, bucket: seq<Entry>, cut: nat,
                 low: seq<Entry>, high: seq<Entry>, p: real)
    requires b >= 2 && Sound(t, b, false) && ReachedBy(start, t, b, ops)
    requires |e.point| == t.k && Locate(t, e.point, ROOT) == z && z.stemIdx <= 5
    requires cut < |bucket| && Fits(bucket, t.k) && low == bucket[..cut] && high == bucket[cut..] && p == bucket[cut].point[z.dim]
    requires u == HalvesOf(t, z, low, high, p, e)
    requires var leaf := t.leaves[t.leafIdxMap[z.stemIdx]];
             |leaf| == b && MaySplit(leaf, AxisKey(z.dim), bucket, cut)
    ensures Sound(u, b, false) && ReachedBy(start, u, b, ops + [Op.Add(e)])
  {
    assert BucketSplit.Outcome(t.leaves[t.leafIdxMap[z.stemIdx]], AxisKey(z.dim), bucket, cut);
    AddAfterSplit(t, z, low, high, p, e);
    IsSplitStep(t, u, b, e, true, bucket, cut);
    SplitIsAddition(t, u, b, e, z);
    ReachedNext(start, t, u, b, ops, Op.Add(e), Added);
  }

  lemma CopiesMaySplit(s: seq<Entry>, key: Entry -> real, low: Entry, high: Entry, c: nat, k: nat) returns (r: seq<Entry>)
    requires OnlyThese(s, low, high, c) && 0 < c < |s| && key(low) < key(high) && |low.point| == |high.point| == k
    ensures MaySplit(s, key, r, c) && |r| == |s| && r[..c] == Repeat(low, c) && r[c..] == Repeat(high, |s| - c) && r[c] == high
    ensures Fits(r, k)
  {
    r := CopiesSplit(s, key, low, high, c);
  }

  /** An addition that splits a bucket of copies of two entries. */
  lemma PairSplitOff(start: Tree, t: Tree, u: Tree, b: nat, ops: seq<Op>, e: Entry, z: Cursor, low: Entry, high: Entry, c: nat)
    requires b >= 2 && Sound(t, b, false) && ReachedBy(start, t, b, ops)
    requires |e.point| == |low.point| == |high.point| == t.k && Locate(t, e.point, ROOT) == z && z.stemIdx <= 5
    requires var leaf := t.leaves[t.leafIdxMap[z.stemIdx]]; |leaf| == b && OnlyThese(leaf, low, high, c)
    requires 0 < c < b && low.point[z.dim] < high.point[z.dim]
    requires u == HalvesOf(t, z, Repeat(low, c), Repeat(high, b - c), high.point[z.dim], e)
    ensures Sound(u, b, false) && ReachedBy(start, u, b, ops + [Op.Add(e)])
  {
    var bucket := CopiesMaySplit(t.leaves[t.leafIdxMap[z.stemIdx]], AxisKey(z.dim), low, high, c, t.k);
    SplitOff(start, t, u, b, ops, e, z, bucket, c, Repeat(low, c), Repeat(high, b - c), high.point[z.dim]);
  }

  /** The same, for an entry that goes to the left. */
  lemma LowPairSplitOff(start: Tree, t: Tree, u: Tree, b: nat, ops: seq<Op>, e: Entry, z: Cursor, low: Entry, high: Entry, c: nat,
                        p: real)
    requires b >= 2 && Sound(t, b, false) && ReachedBy(start, t, b, ops)
    requires |e.point| == |low.point| == |high.point| == t.k && Locate(t, e.point, ROOT) == z && z.stemIdx <= 5
    requires var leaf := t.leaves[t.leafIdxMap[z.stemIdx]]; |leaf| == b && OnlyThese(leaf, low, high, c)
    requires 0 < c < b && low.point[z.dim] < high.point[z.dim] == p && e.point[z.dim] < p
    requires u == WithSplit(t, z, Repeat(low, c) + [e], Repeat(high, b - c), p)
    ensures Sound(u, b, false) && ReachedBy(start, u, b, ops + [Op.Add(e)])
  {
    PairSplitOff(start, t, u, b, ops, e, z, low, high, c);
  }

  /** The same, for the first bucket. */
  lemma RootSplitOff(k: nat, u: Tree, b: nat, s: seq<Entry>, e: Entry, low: Entry, high: Entry, c: nat, p: real)
    requires k >= 1 && b >= 2 && |s| == b && OnlyThese(s, low, high, c) && 0 < c < b
    requires |e.point| == |low.point| == |high.point| == k && low.point[0] < high.point[0] == p && e.point[0] < p
    requires u == WithSplit(EmptyTree(k).(leaves := [s]), ROOT, Repeat(low, c) + [e], Repeat(high, b - c), p)
    ensures Sound(u, b, false) && ReachedBy(EmptyTree(k), u, b, Adds(s) + [Op.Add(e)])
  {
    var t := FirstLeaf(k, b, s);
    RootIsLeaf(t, e.point);
    LowPairSplitOff(EmptyTree(k), t, u, b, Adds(s), e, ROOT, low, high, c, p);
  }

  lemma SplitIsAddition(t: Tree, u: Tree, b: nat, e: Entry, z: Cursor)
    requires b >= 2 && Sound(t, b, false) && |e.point| == t.k && Locate(t, e.point, ROOT) == z && z.stemIdx <= 5
    requires |t.leaves[t.leafIdxMap[z.stemIdx]]| == b && SplitStep(t, u, b, e, true)
    ensures StepTo(t, u, b, Op.Add(e), Added)
  {
    LimitIsFar(|t.leaves| + 1);
    IsAddStep(t, u, b, e, Ok(()));
  }

  lemma LimitIsFar(leafCount: nat)
    ensures SparseLimit(leafCount) >= 32
  {
  }

  lemma TakenOut(start: Tree, t: Tree, u: Tree, b: nat, ops: seq<Op>, e: Entry, i: nat)
    requires b >= 2 && Sound(t, b, false) && ReachedBy(start, t, b, ops)
    requires |e.point| == t.k && LeafOf(t, e.point) == i && u == WithLeaf(t, i, BucketEdit.Without(t.leaves[i], e))
    ensures Sound(u, b, false) && ReachedBy(start, u, b, ops + [Op.Remove(e)])
  {
    ReachedNext(start, t, u, b, ops, Op.Remove(e), Removed(multiset(t.leaves[i])[e]));
  }

  // ---------------------------------------------------------------- copies

  /** Removing an entry takes all its copies out. */
  lemma {:induction false} WithoutCopies(e: Entry, n: nat, s: seq<Entry>)
    requires e !in s
    ensures BucketEdit.Without(Repeat(e, n) + s, e) == s
    decreases n, |s|
  {
    var all := Repeat(e, n) + s;
    if s != [] {
      assert all[..|all| - 1] == Repeat(e, n) + s[..|s| - 1];
      WithoutCopies(e, n, s[..|s| - 1]);
    } else if n > 0 {
      assert all[..n - 1] == Repeat(e, n - 1) + [];
      WithoutCopies(e, n - 1, []);
    }
  }
}

/** The mutable tree object (src/kd_tree/construction/mod.rs, `add`, `split_leaf`,
    `rebuild_with_added_entry`, `remove`, `replace_item`). */
module MutableTree {
  import opened Metrics
  import opened KdTree
  import opened Sorting
  import opened QueryContext
  import opened HitPermutation
  import opened Eytzinger
  import opened Construction
  import opened MappedQuery
  import opened MutableShape
  import opened MutableConstruction
  import opened MutableSteps
  import opened Iteration
  import opened Routing
  import BucketEdit
  import BucketSplit
  import StrictSplits
  import IC = ImmutableConstruction

  // ---------------------------------------------------------------- the split step

  /** Enough of the entries agree on an axis to fill a bucket. */
  ghost predicate FillsBucket(entries: multiset<Entry>, b: nat, dim: nat) {
    exists group: seq<Entry> :: |group| >= b && multiset(group) <= entries && AllEqual(group, AxisKey(dim))
  }

  /** The two halves of a split bucket, with the new entry on its side of the pivot. */
  lemma HalvesWithEntry(r: seq<Entry>, cut: nat, e: Entry, z: Cursor, cell: Cell, ordered: bool)
    requires z.dim < |cell| && 0 < cut < |r| && |e.point| == |r[cut].point| == |cell|
    requires ordered ==> LeafIn(r, cell) && InCell(e, cell) && Selected(r, AxisKey(z.dim), cut)
    ensures var p := r[cut].point[z.dim];
            var toHigh := e.point[z.dim] >= p;
            var low, high := if toHigh then r[..cut] else r[..cut] + [e], if toHigh then r[cut..] + [e] else r[cut..];
            && multiset(low) + multiset(high) == multiset(r) + multiset{e}
            && (ordered ==>
                  && cell[z.dim].Contains(p)
                  && LeafIn(low, Narrow(cell, z.dim, p, false)) && LeafIn(high, Narrow(cell, z.dim, p, true)))
  {
    assert r == r[..cut] + r[cut..];
    if ordered {
      CellHasPoint(e, cell);
      IC.SplitPartitions(r, cell, z.dim, cut);
      EntryNarrowed(e, cell, z.dim, r[cut].point[z.dim]);
    }
  }

  lemma CellHasPoint(e: Entry, cell: Cell)
    requires InCell(e, cell)
    ensures IC.NonEmptyCell(cell)
  {
    forall d | 0 <= d < |cell| && cell[d].lo.Some? && cell[d].hi.Some? ensures cell[d].lo.value <= cell[d].hi.value {
      assert cell[d].Contains(e.point[d]);
    }
  }

  lemma EntryNarrowed(e: Entry, cell: Cell, dim: nat, p: real)
    requires dim < |cell| && InCell(e, cell)
    ensures InCell(e, Narrow(cell, dim, p, e.point[dim] >= p))
  {
    var c := Narrow(cell, dim, p, e.point[dim] >= p);
    forall d | 0 <= d < |cell| ensures c[d].Contains(e.point[d]) {
      assert cell[d].Contains(e.point[d]);
    }
  }

  ghost predicate Sound(t: Tree, b: nat, ordered: bool) {
    WellFormed(t, b) && Dimensioned(t) && (ordered ==> t.Valid())
  }

  /** Rewriting the located leaf with entries at its old points or at the located point. */
  lemma LeafRewritten(t: Tree, b: nat, p: seq<real>, entries: seq<Entry>, ordered: bool,
                      removed: multiset<Entry>, added: multiset<Entry>) returns (u: Tree)
    requires Sound(t, b, ordered) && |p| == t.k && |entries| <= b
    requires var leaf := t.leaves[t.leafIdxMap[Locate(t, p, ROOT).stemIdx]];
             && multiset(entries) + removed == multiset(leaf) + added
             && forall e :: e in entries ==> e.point == p || exists x :: x in leaf && x.point == e.point
    ensures u == WithLeaf(t, t.leafIdxMap[Locate(t, p, ROOT).stemIdx], entries)
    ensures Sound(u, b, ordered)
    ensures multiset(u.Contents()) + removed == multiset(t.Contents()) + added
  {
    var z, cell := Locate(t, p, ROOT), LocateCell(t, p, ROOT, Everywhere(t.k));
    u := WithLeaf(t, t.leafIdxMap[z.stemIdx], entries);
    if ordered {
      LocatedLeaf(t, p);
      forall e | e in entries ensures InCell(e, cell) {
        if e.point != p {
          var x :| x in t.leaves[t.leafIdxMap[z.stemIdx]] && x.point == e.point;
          SamePlace(x, e, cell);
        } else {
          SamePlace(Entry(p, 0), e, cell);
        }
      }
    }
    LeafReplaced(t, z, entries, cell, ordered, removed, added);
    StepKeeps(t, u, p, b, ordered, removed, added);
  }

  lemma SamePlace(x: Entry, e: Entry, cell: Cell)
    requires InCell(x, cell) && x.point == e.point
    ensures InCell(e, cell)
  {
  }

  lemma LocatedLeaf(t: Tree, p: seq<real>)
    requires t.Valid() && |p| == t.k
    ensures var cell := LocateCell(t, p, ROOT, Everywhere(t.k));
            InCell(Entry(p, 0), cell) && LeafIn(t.leaves[t.leafIdxMap[Locate(t, p, ROOT).stemIdx]], cell)
  {
    LocatedCell(t, Entry(p, 0), ROOT, Everywhere(t.k));
  }

  lemma SplitBucketsFit(t: Tree, b: nat, z: Cursor, low: seq<Entry>, high: seq<Entry>, p: real)
    requires Terminal(t, z) && forall i :: 0 <= i < |t.leaves| ==> |t.leaves[i]| <= b && Fits(t.leaves[i], t.k)
    requires |low| <= b && |high| <= b && Fits(low, t.k) && Fits(high, t.k)
    ensures var u := WithSplit(t, z, low, high, p);
            forall i :: 0 <= i < |u.leaves| ==> |u.leaves[i]| <= b && Fits(u.leaves[i], t.k)
  {
  }

  lemma HalvesStored(t: Tree, b: nat, e: Entry, z: Cursor, cell: Cell, low: seq<Entry>, high: seq<Entry>, p: real, ordered: bool)
    requires Sound(t, b, ordered) && |e.point| == t.k && Terminal(t, z) && |cell| == t.k
    requires z == Locate(t, e.point, ROOT) && cell == LocateCell(t, e.point, ROOT, Everywhere(t.k))
    requires |low| <= b && |high| <= b && Fits(low, t.k) && Fits(high, t.k)
    requires multiset(low) + multiset(high) == multiset(t.leaves[t.leafIdxMap[z.stemIdx]]) + multiset{e}
    requires ordered ==>
               && cell[z.dim].Contains(p)
               && LeafIn(low, Narrow(cell, z.dim, p, false)) && LeafIn(high, Narrow(cell, z.dim, p, true))
    ensures Sound(WithSplit(t, z, low, high, p), b, ordered)
    ensures multiset(WithSplit(t, z, low, high, p).Contents()) == multiset(t.Contents()) + multiset{e}
  {
    SplitBucketsFit(t, b, z, low, high, p);
    LeafSplit(t, z, low, high, p, cell, ordered, multiset{}, multiset{e});
    StepKeeps(t, WithSplit(t, z, low, high, p), e.point, b, ordered, multiset{}, multiset{e});
  }

  /** Splitting the located leaf and storing a new entry in one of the halves. */
  lemma LeafSplitWith(t: Tree, b: nat, e: Entry, r: seq<Entry>, cut: nat, ordered: bool) returns (u: Tree)
    requires Sound(t, b, ordered) && |e.point| == t.k
    requires var z := Locate(t, e.point, ROOT);
             && BucketSplit.Permuted(r, t.leaves[t.leafIdxMap[z.stemIdx]]) && 0 < cut < |r| && Fits(r, t.k)
             && (ordered ==> Selected(r, AxisKey(z.dim), cut))
    ensures var z := Locate(t, e.point, ROOT);
            var p := r[cut].point[z.dim];
            u == if e.point[z.dim] >= p then WithSplit(t, z, r[..cut], r[cut..] + [e], p)
                 else WithSplit(t, z, r[..cut] + [e], r[cut..], p)
    ensures Sound(u, b, ordered)
    ensures multiset(u.Contents()) == multiset(t.Contents()) + multiset{e}
  {
    var z, cell := Locate(t, e.point, ROOT), LocateCell(t, e.point, ROOT, Everywhere(t.k));
    var leaf := t.leaves[t.leafIdxMap[z.stemIdx]];
    if ordered {
      LocatedLeaf(t, e.point);
      SamePlace(Entry(e.point, 0), e, cell);
      SameElements(r, leaf);
    }
    HalvesWithEntry(r, cut, e, z, cell, ordered);
    var p := r[cut].point[z.dim];
    var toHigh := e.point[z.dim] >= p;
    var low, high := if toHigh then r[..cut] else r[..cut] + [e], if toHigh then r[cut..] + [e] else r[cut..];
    HalvesStored(t, b, e, z, cell, low, high, p, ordered);
    u := WithSplit(t, z, low, high, p);
  }

  // ---------------------------------------------------------------- finding entries again

  /** Going down from the root by the entry's own point ends in a leaf that holds it. */
  ghost predicate Reachable(t: Tree, e: Entry)
    requires t.k > 0 && CompleteAt(t, ROOT)
  {
    |e.point| == t.k && e in t.leaves[t.leafIdxMap[Locate(t, e.point, ROOT).stemIdx]]
  }

  lemma RewrittenIsReachable(t: Tree, b: nat, e: Entry, entries: seq<Entry>)
    requires WellFormed(t, b) && |e.point| == t.k && e in entries
    requires CompleteAt(WithLeaf(t, t.leafIdxMap[Locate(t, e.point, ROOT).stemIdx], entries), ROOT)
    ensures Reachable(WithLeaf(t, t.leafIdxMap[Locate(t, e.point, ROOT).stemIdx], entries), e)
  {
    var z := Locate(t, e.point, ROOT);
    var i := t.leafIdxMap[z.stemIdx];
    var u := WithLeaf(t, i, entries);
    LeafReplaced(t, z, entries, Everywhere(t.k), false, multiset(t.leaves[i]), multiset(entries));
    LocateAfter(t, u, e.point, ROOT);
  }

  lemma SplitIsReachable(t: Tree, b: nat, e: Entry, low: seq<Entry>, high: seq<Entry>, p: real)
    requires WellFormed(t, b) && |e.point| == t.k
    requires var z := Locate(t, e.point, ROOT);
             && e in (if e.point[z.dim] >= p then high else low)
             && CompleteAt(WithSplit(t, z, low, high, p), ROOT)
    ensures Reachable(WithSplit(t, Locate(t, e.point, ROOT), low, high, p), e)
  {
    var z := Locate(t, e.point, ROOT);
    var u := WithSplit(t, z, low, high, p);
    SplitFrame(t, z, low, high, p);
    LocateAfter(t, u, e.point, ROOT);
    SplitShape(t, z, low, high, p);
  }

  // ---------------------------------------------------------------- the object

  const MAX_MUTABLE_STEM_SPARSITY_FACTOR := 16

  lemma {:induction false} StemsDepthMonotone(a: nat, b: nat)
    requires a <= b
    ensures IC.StemsDepth(a) <= IC.StemsDepth(b)
  {
    if a > 1 {
      StemsDepthMonotone((a + 1) / 2, (b + 1) / 2);
    }
  }

  function SparseLimit(leafCount: nat): nat {
    CompactLimit(leafCount) * MAX_MUTABLE_STEM_SPARSITY_FACTOR
  }

  lemma CompactIsBounded(m: map<nat, nat>, leafCount: nat)
    ensures KeysBelow(m, CompactLimit(leafCount)) ==> KeysBelow(m, SparseLimit(leafCount))
  {
  }

  /** Stems may reach five levels below those of a perfect tree. */
  lemma SparseLimitIsFiveLevels(depth: nat)
    ensures SparseLimit(Pow2(depth)) == Pow2(depth + 5)
  {
    var d := IC.StemsDepth(Pow2(depth));
    if d > depth {
      Pow2Monotone(depth, d - 1);
    } else if d < depth {
      Pow2Monotone(d + 1, depth);
    }
    assert Pow2(depth + 2) == 4 * Pow2(depth) && Pow2(depth + 4) == 4 * Pow2(depth + 2);
  }

  lemma SparseLimitGrows(leafCount: nat)
    ensures SparseLimit(leafCount) <= SparseLimit(leafCount + 1)
  {
    StemsDepthMonotone(leafCount, leafCount + 1);
    Pow2Monotone(IC.StemsDepth(leafCount), IC.StemsDepth(leafCount + 1));
  }

  ghost predicate WithinSparseLimit(t: Tree) {
    KeysBelow(t.leafIdxMap, SparseLimit(|t.leaves|))
  }

  lemma SplitIsBounded(t: Tree, z: Cursor, low: seq<Entry>, high: seq<Entry>, p: real, limit: nat, newLimit: nat)
    requires Terminal(t, z) && KeysBelow(t.leafIdxMap, limit) && limit <= newLimit && 2 * z.stemIdx + 1 < newLimit
    ensures KeysBelow(WithSplit(t, z, low, high, p).leafIdxMap, newLimit)
    ensures |WithSplit(t, z, low, high, p).leaves| == |t.leaves| + 1
  {
    var u := WithSplit(t, z, low, high, p);
    forall key | key in u.leafIdxMap ensures key < newLimit {
      assert key == 2 * z.stemIdx || key == 2 * z.stemIdx + 1 || key in t.leafIdxMap;
    }
  }

  lemma AfterSplitIsBounded(t: Tree, b: nat, e: Entry, bucket: seq<Entry>, cut: nat, limit: nat, newLimit: nat)
    requires Sound(t, b, false) && |e.point| == t.k && CanSplitAs(t, b, e, bucket, cut) && cut < |bucket|
    requires KeysBelow(t.leafIdxMap, limit) && limit <= newLimit && 2 * Locate(t, e.point, ROOT).stemIdx + 1 < newLimit
    ensures KeysBelow(AfterSplit(t, b, e, bucket, cut).leafIdxMap, newLimit)
    ensures |AfterSplit(t, b, e, bucket, cut).leaves| == |t.leaves| + 1
  {
    var z := Locate(t, e.point, ROOT);
    assert bucket[cut] in bucket;
    SplitIsBounded(t, z, bucket[..cut], bucket[cut..], bucket[cut].point[z.dim], limit, newLimit);
  }

  lemma SplitStepByIsBounded(t: Tree, u: Tree, b: nat, e: Entry, ok: bool, bucket: seq<Entry>, cut: nat, limit: nat, newLimit: nat)
    requires Sound(t, b, false) && |e.point| == t.k && SplitStepBy(t, u, b, e, ok, bucket, cut)
    requires KeysBelow(t.leafIdxMap, limit) && limit <= newLimit && 2 * Locate(t, e.point, ROOT).stemIdx + 1 < newLimit
    ensures KeysBelow(u.leafIdxMap, if ok then newLimit else limit) && |u.leaves| == |t.leaves| + if ok then 1 else 0
  {
    if ok {
      AfterSplitIsBounded(t, b, e, bucket, cut, limit, newLimit);
    }
  }

  lemma SplitStepIsBounded(t: Tree, u: Tree, b: nat, e: Entry, ok: bool)
    requires Sound(t, b, false) && |e.point| == t.k && SplitStep(t, u, b, e, ok)
    requires !RebuildNeeded(|t.leaves|, Locate(t, e.point, ROOT).stemIdx) && WithinSparseLimit(t)
    ensures WithinSparseLimit(u)
  {
    var limit, newLimit := Limits(t, u, ok, Locate(t, e.point, ROOT).stemIdx);
    StaysBelow(t, u, b, e, ok, limit, newLimit);
  }

  lemma Limits(t: Tree, u: Tree, grown: bool, stemIdx: nat) returns (limit: nat, newLimit: nat)
    requires WithinSparseLimit(t) && 2 * stemIdx + 1 < SparseLimit(|t.leaves| + 1)
    ensures KeysBelow(t.leafIdxMap, limit) && limit <= newLimit && 2 * stemIdx + 1 < newLimit
    ensures |u.leaves| == |t.leaves| + (if grown then 1 else 0) && KeysBelow(u.leafIdxMap, if grown then newLimit else limit)
            ==> WithinSparseLimit(u)
  {
    limit, newLimit := SparseLimit(|t.leaves|), SparseLimit(|t.leaves| + 1);
    SparseLimitGrows(|t.leaves|);
  }

  lemma StaysBelow(t: Tree, u: Tree, b: nat, e: Entry, ok: bool, limit: nat, newLimit: nat)
    requires Sound(t, b, false) && |e.point| == t.k && SplitStep(t, u, b, e, ok)
    requires KeysBelow(t.leafIdxMap, limit) && limit <= newLimit && 2 * Locate(t, e.point, ROOT).stemIdx + 1 < newLimit
    ensures KeysBelow(u.leafIdxMap, if ok then newLimit else limit) && |u.leaves| == |t.leaves| + if ok then 1 else 0
  {
    var bucket: seq<Entry>, cut: nat :| SplitStepBy(t, u, b, e, ok, bucket, cut);
    SplitStepByIsBounded(t, u, b, e, ok, bucket, cut, limit, newLimit);
  }

  lemma TieFreeListing(a: seq<Entry>, s: seq<Entry>, e: Entry, k: nat)
    requires multiset(a) == multiset(s)
    ensures TieFree(a + [e], k) ==> TieFree(s + [e], k)
  {
    if TieFree(a + [e], k) {
      TieFreePart(s + [e], a + [e], k);
    }
  }

  ghost predicate RebuildNeeded(leafCount: nat, stemIdx: nat) {
    2 * stemIdx + 1 >= SparseLimit(leafCount + 1) || 2 * stemIdx + 1 > 0xFFFF_FFFF
  }

  // ---------------------------------------------------------------- what one call does to the tree

  /** A split that the full bucket of the entry's leaf allows. */
  ghost predicate CanSplitAs(t: Tree, b: nat, e: Entry, bucket: seq<Entry>, cut: nat)
    requires Sound(t, b, false) && |e.point| == t.k
  {
    var z := Locate(t, e.point, ROOT);
    var leaf := t.leaves[t.leafIdxMap[z.stemIdx]];
    && |leaf| == b >= 2 && cut <= |bucket| && Fits(bucket, t.k)
    && BucketSplit.Outcome(leaf, AxisKey(z.dim), bucket, cut) && BucketSplit.Permuted(bucket, leaf)
  }

  /** A split of that bucket may come out so. */
  ghost predicate MaySplit(s: seq<Entry>, key: Entry -> real, r: seq<Entry>, cut: nat) {
    |s| > 0 && BucketSplit.Permuted(r, s) && forall x: seq<Entry> :: x == r ==> BucketSplit.Outcome(s, key, x, cut)
  }

  /** The tree with that split stored and the entry added to the half on its side. */
  ghost function AfterSplit(t: Tree, b: nat, e: Entry, bucket: seq<Entry>, cut: nat): Tree
    requires Sound(t, b, false) && |e.point| == t.k && CanSplitAs(t, b, e, bucket, cut) && cut < |bucket|
  {
    var z := Locate(t, e.point, ROOT);
    var p := bucket[cut].point[z.dim];
    var s := WithSplit(t, z, bucket[..cut], bucket[cut..], p);
    var target := if e.point[z.dim] >= p then |t.leaves| else t.leafIdxMap[z.stemIdx];
    WithLeaf(s, target, s.leaves[target] + [e])
  }

  ghost predicate SplitStepBy(t: Tree, u: Tree, b: nat, e: Entry, ok: bool, bucket: seq<Entry>, cut: nat)
    requires Sound(t, b, false) && |e.point| == t.k
  {
    && CanSplitAs(t, b, e, bucket, cut)
    && if cut < |bucket| then ok && u == AfterSplit(t, b, e, bucket, cut) else !ok && u == WithLeaf(t, LeafOf(t, e.point), bucket)
  }

  ghost predicate SplitStep(t: Tree, u: Tree, b: nat, e: Entry, ok: bool)
    requires Sound(t, b, false) && |e.point| == t.k
  {
    exists bucket, cut :: SplitStepBy(t, u, b, e, ok, bucket, cut)
  }

  lemma IsSplitStep(t: Tree, u: Tree, b: nat, e: Entry, ok: bool, bucket: seq<Entry>, cut: nat)
    requires Sound(t, b, false) && |e.point| == t.k && SplitStepBy(t, u, b, e, ok, bucket, cut)
    ensures SplitStep(t, u, b, e, ok)
  {
  }

  lemma SplitIsStep(t: Tree, u: Tree, b: nat, e: Entry, z: Cursor, ok: bool, bucket: seq<Entry>, cut: nat)
    requires Sound(t, b, false) && |e.point| == t.k && z == Locate(t, e.point, ROOT) && |t.leaves[t.leafIdxMap[z.stemIdx]]| == b >= 2
    requires MaySplit(t.leaves[t.leafIdxMap[z.stemIdx]], AxisKey(z.dim), bucket, cut) && cut <= |bucket| && Fits(bucket, t.k)
    requires if ok then
               && cut < |bucket|
               && var p := bucket[cut].point[z.dim];
                  var s := WithSplit(t, z, bucket[..cut], bucket[cut..], p);
                  var target := if e.point[z.dim] >= p then |t.leaves| else t.leafIdxMap[z.stemIdx];
                  u == WithLeaf(s, target, s.leaves[target] + [e])
             else cut == |bucket| && u == WithLeaf(t, t.leafIdxMap[z.stemIdx], bucket)
    ensures SplitStep(t, u, b, e, ok)
  {
    assert BucketSplit.Outcome(t.leaves[t.leafIdxMap[z.stemIdx]], AxisKey(z.dim), bucket, cut);
    IsSplitStep(t, u, b, e, ok, bucket, cut);
  }

  /** What an addition does: the entry joins its leaf, or a split half of it, or the tree is
      built anew from everything; a refusal leaves the entries as they were. */
  ghost predicate AddStep(t: Tree, u: Tree, b: nat, e: Entry, r: Result<()>)
    requires Sound(t, b, false) && b > 0 && |e.point| == t.k
  {
    var z := Locate(t, e.point, ROOT);
    var i := t.leafIdxMap[z.stemIdx];
    if |t.leaves[i]| < b then r.Ok? && u == WithLeaf(t, i, t.leaves[i] + [e])
    else if RebuildNeeded(|t.leaves|, z.stemIdx) then RebuildStep(t, u, b, e, r)
    else SplitStep(t, u, b, e, r.Ok?) && (r.UnsplittableBucket? ==> r.splitDim == z.dim)
  }

  ghost predicate RebuildStep(t: Tree, u: Tree, b: nat, e: Entry, r: Result<()>)
    requires Sound(t, b, false) && b > 0
  {
    if r.Ok? then
      && u.k == t.k && Sound(u, b, true) && multiset(u.Contents()) == multiset(t.Contents()) + multiset{e}
      && (TieFree(t.Contents() + [e], t.k) ==>
            Balanced(u, |t.Contents()| + 1, b) && Strict(u.Shape(), u.leaves, 0, u.k))
    else u == t && r.splitDim < t.k && FillsBucket(multiset(t.Contents()) + multiset{e}, b, r.splitDim)
  }

  /** Adding an entry at `p` splits a full bucket of the kind that may split out of order. */
  ghost predicate SplitsOutOfOrder(t: Tree, b: nat, p: seq<real>)
    requires Sound(t, b, false) && b >= 2 && |p| == t.k
  {
    var z := Locate(t, p, ROOT);
    var leaf := t.leaves[t.leafIdxMap[z.stemIdx]];
    |leaf| == b && !RebuildNeeded(|t.leaves|, z.stemIdx) && StrictSplits.AtRisk(leaf, AxisKey(z.dim))
  }

  ghost predicate RebuildsFor(t: Tree, b: nat, p: seq<real>)
    requires Sound(t, b, false) && |p| == t.k
  {
    var z := Locate(t, p, ROOT);
    |t.leaves[t.leafIdxMap[z.stemIdx]]| == b && RebuildNeeded(|t.leaves|, z.stemIdx)
  }

  /** An addition accounts for the entry, keeps order unless the bucket splits out of it, and
      keeps every entry findable unless moreover a rebuild meets ties. */
  lemma AddStepKeeps(t: Tree, u: Tree, b: nat, e: Entry, r: Result<()>)
    requires Sound(t, b, false) && b >= 2 && |e.point| == t.k && AddStep(t, u, b, e, r)
    ensures Sound(u, b, false) && |u.Contents()| == |t.Contents()| + if r.Ok? then 1 else 0
    ensures multiset(u.Contents()) == multiset(t.Contents()) + if r.Ok? then multiset{e} else multiset{}
    ensures r.UnsplittableBucket? ==> r.splitDim < t.k && FillsBucket(multiset(t.Contents()) + multiset{e}, b, r.splitDim)
    ensures t.Valid() && !SplitsOutOfOrder(t, b, e.point) ==> u.Valid()
    ensures !RebuildsFor(t, b, e.point) || TieFree(t.Contents() + [e], t.k) ==>
              && (r.Ok? ==> Reachable(u, e))
              && (WithinSparseLimit(t) ==> WithinSparseLimit(u))
              && (Routed(t) && !SplitsOutOfOrder(t, b, e.point) ==> Routed(u))
  {
    AddStepAccounts(t, u, b, e, r);
    if !RebuildsFor(t, b, e.point) || TieFree(t.Contents() + [e], t.k) {
      AddStepRoutes(t, u, b, e, r);
      if WithinSparseLimit(t) {
        AddStepIsBounded(t, u, b, e, r);
      }
    }
  }

  lemma AddStepAccounts(t: Tree, u: Tree, b: nat, e: Entry, r: Result<()>)
    requires Sound(t, b, false) && b >= 2 && |e.point| == t.k && AddStep(t, u, b, e, r)
    ensures Sound(u, b, false) && |u.Contents()| == |t.Contents()| + if r.Ok? then 1 else 0
    ensures multiset(u.Contents()) == multiset(t.Contents()) + if r.Ok? then multiset{e} else multiset{}
    ensures r.UnsplittableBucket? ==> r.splitDim < t.k && FillsBucket(multiset(t.Contents()) + multiset{e}, b, r.splitDim)
    ensures t.Valid() && !SplitsOutOfOrder(t, b, e.point) ==> u.Valid()
  {
    var z := Locate(t, e.point, ROOT);
    if |t.leaves[t.leafIdxMap[z.stemIdx]]| < b {
      JoinKeeps(t, u, b, e);
    } else if RebuildNeeded(|t.leaves|, z.stemIdx) {
      RebuildKeeps(t, u, b, e, r);
    } else {
      SplitStepKeeps(t, u, b, e, r.Ok?);
    }
  }

  lemma AddStepRoutes(t: Tree, u: Tree, b: nat, e: Entry, r: Result<()>)
    requires Sound(t, b, false) && b >= 2 && |e.point| == t.k && AddStep(t, u, b, e, r)
    requires !RebuildsFor(t, b, e.point) || TieFree(t.Contents() + [e], t.k)
    ensures Sound(u, b, false) && (r.Ok? ==> Reachable(u, e))
    ensures Routed(t) && !SplitsOutOfOrder(t, b, e.point) ==> Routed(u)
  {
    var z := Locate(t, e.point, ROOT);
    if |t.leaves[t.leafIdxMap[z.stemIdx]]| < b {
      JoinKeeps(t, u, b, e);
    } else if RebuildNeeded(|t.leaves|, z.stemIdx) {
      RebuildKeeps(t, u, b, e, r);
    } else {
      SplitStepKeeps(t, u, b, e, r.Ok?);
    }
  }

  lemma AddStepIsBounded(t: Tree, u: Tree, b: nat, e: Entry, r: Result<()>)
    requires Sound(t, b, false) && b >= 2 && |e.point| == t.k && AddStep(t, u, b, e, r) && WithinSparseLimit(t)
    requires !RebuildsFor(t, b, e.point) || TieFree(t.Contents() + [e], t.k)
    ensures WithinSparseLimit(u)
  {
    var z := Locate(t, e.point, ROOT);
    if |t.leaves[t.leafIdxMap[z.stemIdx]]| == b {
      if RebuildNeeded(|t.leaves|, z.stemIdx) {
        RebuildKeeps(t, u, b, e, r);
      } else {
        SplitStepIsBounded(t, u, b, e, r.Ok?);
      }
    }
  }

  lemma JoinKeeps(t: Tree, u: Tree, b: nat, e: Entry)
    requires Sound(t, b, false) && |e.point| == t.k
    requires var i := LeafOf(t, e.point); |t.leaves[i]| < b && u == WithLeaf(t, i, t.leaves[i] + [e])
    ensures Sound(u, b, false) && (t.Valid() ==> u.Valid()) && |u.Contents()| == |t.Contents()| + 1
    ensures multiset(u.Contents()) == multiset(t.Contents()) + multiset{e}
    ensures Reachable(u, e) && (Routed(t) ==> Routed(u))
  {
    var entries := t.leaves[LeafOf(t, e.point)] + [e];
    var v := LeafRewritten(t, b, e.point, entries, t.Valid(), multiset{}, multiset{e});
    RewrittenIsReachable(t, b, e, entries);
    if Routed(t) {
      RoutedAfterRewrite(t, e.point, entries);
    }
    CountAfter(multiset(u.Contents()), multiset(t.Contents()), multiset{}, multiset{e});
  }

  lemma RebuildKeeps(t: Tree, u: Tree, b: nat, e: Entry, r: Result<()>)
    requires Sound(t, b, false) && b > 0 && |e.point| == t.k && RebuildStep(t, u, b, e, r)
    ensures |u.Contents()| == |t.Contents()| + if r.Ok? then 1 else 0
    ensures TieFree(t.Contents() + [e], t.k) ==>
              && (r.Ok? ==> Reachable(u, e)) && (Routed(t) ==> Routed(u)) && (WithinSparseLimit(t) ==> WithinSparseLimit(u))
  {
    CompactIsBounded(u.leafIdxMap, |u.leaves|);
    if r.Ok? {
      CountAfter(multiset(u.Contents()), multiset(t.Contents()), multiset{}, multiset{e});
      StrictIsReachable(u, b, e);
    }
  }

  lemma SplitStepKeeps(t: Tree, u: Tree, b: nat, e: Entry, ok: bool)
    requires Sound(t, b, false) && |e.point| == t.k && SplitStep(t, u, b, e, ok)
    ensures Sound(u, b, false) && |u.Contents()| == |t.Contents()| + if ok then 1 else 0
    ensures multiset(u.Contents()) == multiset(t.Contents()) + if ok then multiset{e} else multiset{}
    ensures ok ==> Reachable(u, e)
    ensures !ok ==> FillsBucket(multiset(t.Contents()) + multiset{e}, b, Locate(t, e.point, ROOT).dim)
    ensures var z := Locate(t, e.point, ROOT);
            !StrictSplits.AtRisk(t.leaves[t.leafIdxMap[z.stemIdx]], AxisKey(z.dim)) ==>
              (t.Valid() ==> u.Valid()) && (Routed(t) ==> Routed(u))
  {
    var bucket: seq<Entry>, cut: nat :| SplitStepBy(t, u, b, e, ok, bucket, cut);
    if ok {
      StoredSplitKeeps(t, u, b, e, bucket, cut);
    } else {
      UnsplitKeeps(t, b, e, bucket, cut, t.Valid(), u);
      UnsplitRoutes(t, e, bucket, u);
    }
  }

  lemma StoredSplitKeeps(t: Tree, u: Tree, b: nat, e: Entry, bucket: seq<Entry>, cut: nat)
    requires Sound(t, b, false) && |e.point| == t.k && SplitStepBy(t, u, b, e, true, bucket, cut)
    ensures Sound(u, b, false) && |u.Contents()| == |t.Contents()| + 1 && Reachable(u, e)
    ensures multiset(u.Contents()) == multiset(t.Contents()) + multiset{e}
    ensures var z := Locate(t, e.point, ROOT);
            !StrictSplits.AtRisk(t.leaves[t.leafIdxMap[z.stemIdx]], AxisKey(z.dim)) ==>
              (t.Valid() ==> u.Valid()) && (Routed(t) ==> Routed(u))
  {
    var z := Locate(t, e.point, ROOT);
    var v := SplitKeeps(t, b, e, bucket, cut,
                        t.Valid() && !StrictSplits.AtRisk(t.leaves[t.leafIdxMap[z.stemIdx]], AxisKey(z.dim)));
    SplitRoutes(t, b, e, bucket, cut, u);
  }

  class MutableKdTree {
    const k: nat
    const b: nat
    var stems: seq<Ext>
    var leafIdxMap: map<nat, nat>
    var leaves: seq<Leaf>
    var size: nat
    var maxStemLevel: int

    function View(): Tree
      reads this
    {
      Tree(k, stems, leafIdxMap, leaves, maxStemLevel)
    }

    /** Kept by every operation. */
    ghost predicate Valid()
      reads this
    {
      b >= 2 && Sound(View(), b, false) && size == |View().Contents()|
    }

    /** Every pivot separates the leaves below it: what exact queries need. */
    ghost predicate Ordered()
      reads this
    {
      View().Valid()
    }

    ghost function Contents(): multiset<Entry>
      reads this
    {
      multiset(View().Contents())
    }

    /** `default`: one empty leaf mapped from the root. */
    constructor (k: nat, b: nat)
      requires k > 0 && b >= 2
      ensures Valid() && Ordered() && Findable() && Bounded() && Contents() == multiset{} && this.k == k && this.b == b
    {
      this.k, this.b := k, b;
      stems, leafIdxMap, leaves, size, maxStemLevel := [Inf, Inf], map[1 := 0], [[]], 0, 0;
    }

    /** `find_leaf_with_context`. */
    method FindLeaf(p: seq<real>) returns (at: Cursor)
      requires Valid() && |p| == k
      ensures at == Locate(View(), p, ROOT)
    {
      at := ROOT;
      while at.level <= maxStemLevel && at.stemIdx !in leafIdxMap
        invariant at.Valid(k) && CompleteAt(View(), at)
        invariant Locate(View(), p, at) == Locate(View(), p, ROOT)
        decreases maxStemLevel + 1 - at.level
      {
        at := at.Child(k, GoesRight(stems[at.stemIdx], p[at.dim]));
      }
    }

    /** `mutable_split_requires_rebuild`: the new right child would be too far out. */
    predicate SplitRequiresRebuild(stemIdx: nat)
      reads this
      ensures SplitRequiresRebuild(stemIdx) == RebuildNeeded(|leaves|, stemIdx)
    {
      2 * stemIdx + 1 >= SparseLimit(|leaves| + 1) || 2 * stemIdx + 1 > 0xFFFF_FFFF
    }

    /** No leaf is mapped further out than splits may go. */
    ghost predicate Bounded()
      reads this
    {
      WithinSparseLimit(View())
    }

    /** Every entry is stored where its own point leads. */
    ghost predicate Findable()
      requires Valid()
      reads this
    {
      Routed(View())
    }

    ghost predicate Rebuilds(p: seq<real>)
      requires Valid() && |p| == k
      reads this
    {
      RebuildsFor(View(), b, p)
    }

    ghost predicate SplitsBadly(p: seq<real>)
      requires Valid() && |p| == k
      reads this
    {
      SplitsOutOfOrder(View(), b, p)
    }

    /** `add`: on success the tree holds one more entry; it fails only if a bucketful of entries
        agree on an axis, and then holds what it held. It stays ordered unless the bucket
        splits badly. */
    method Add(e: Entry) returns (r: Result<()>)
      requires Valid() && |e.point| == k
      modifies this
      ensures Valid() && AddStep(old(View()), View(), b, e, r)
      ensures r.Ok? ==> Contents() == old(Contents()) + multiset{e}
      ensures r.UnsplittableBucket? ==>
                && Contents() == old(Contents())
                && r.splitDim < k && FillsBucket(old(Contents()) + multiset{e}, b, r.splitDim)
      ensures old(Ordered() && !SplitsBadly(e.point)) ==> Ordered()
      ensures r.Ok? && (old(!Rebuilds(e.point)) || old(TieFree(View().Contents() + [e], k))) ==> Reachable(View(), e)
      ensures old(Findable() && !SplitsBadly(e.point)) && (old(!Rebuilds(e.point)) || old(TieFree(View().Contents() + [e], k)))
              ==> Findable()
      ensures old(Bounded()) && (old(!Rebuilds(e.point)) || old(TieFree(View().Contents() + [e], k))) ==> Bounded()
    {
      ghost var t := View();
      var z := FindLeaf(e.point);
      var leafIdx := leafIdxMap[z.stemIdx];
      if |leaves[leafIdx]| < b {
        AddToLeaf(leafIdx, e);
        r := Ok(());
      } else if SplitRequiresRebuild(z.stemIdx) {
        r := RebuildWith(e);
      } else {
        r := SplitAndAdd(z, e);
      }
      AddStepKeeps(t, View(), b, e, r);
    }

    method AddToLeaf(leafIdx: nat, e: Entry)
      requires leafIdx < |leaves|
      modifies this`leaves, this`size
      ensures View() == WithLeaf(old(View()), leafIdx, old(leaves)[leafIdx] + [e]) && size == old(size) + 1
    {
      leaves, size := leaves[leafIdx := leaves[leafIdx] + [e]], size + 1;
    }

    /** Every stored entry, leaf by leaf, and the new one. */
    method Gather(e: Entry) returns (entries: seq<Entry>)
      requires Valid() && |e.point| == k
      ensures multiset(entries) == Contents() + multiset{e} && Fits(entries, k) && |entries| == size + 1
      ensures TieFree(View().Contents() + [e], k) ==> TieFree(entries, k)
    {
      entries := Concat(leaves) + [e];
      IterationIsComplete(View(), b);
      EntriesFit(leaves, k);
      TieFreeListing(View().Contents(), Concat(leaves), e, k);
      assert |multiset(Concat(leaves))| == |Contents()|;
    }

    /** `rebuild_with_added_entry`. Ties apart, the tree is balanced again. */
    method RebuildWith(e: Entry) returns (r: Result<()>)
      requires Valid() && |e.point| == k
      modifies this
      ensures RebuildStep(old(View()), View(), b, e, r) && size == old(size) + if r.Ok? then 1 else 0
    {
      var entries := Gather(e);
      var rebuilt := NewFromEntries(entries, k, b);
      if rebuilt.UnsplittableBucket? {
        UnsplittableFills(entries, Contents() + multiset{e}, b, rebuilt.splitDim);
        return UnsplittableBucket(rebuilt.splitDim);
      }
      var t := rebuilt.value;
      stems, leafIdxMap, leaves, size, maxStemLevel := t.stems, t.leafIdxMap, t.leaves, size + 1, t.maxStemLevel;
      assert View() == t;
      ValidIsDimensioned(t, b);
      r := Ok(());
    }

    /** `split_leaf`: the pivot and the new leaf, or the axis on which the bucket is constant. */
    method SplitLeaf(z: Cursor) returns (r: Result<(real, int)>, ghost bucket: seq<Entry>, ghost cut: nat)
      requires Terminal(View(), z) && |leaves[leafIdxMap[z.stemIdx]]| >= 2
      requires Fits(leaves[leafIdxMap[z.stemIdx]], k)
      modifies this`stems, this`leafIdxMap, this`leaves, this`maxStemLevel
      ensures var leafIdx := old(leafIdxMap[z.stemIdx]);
              && MaySplit(old(leaves)[leafIdx], AxisKey(z.dim), bucket, cut) && cut <= |bucket| && Fits(bucket, k)
              && if cut == |bucket|
                 then r == UnsplittableBucket(z.dim) && View() == WithLeaf(old(View()), leafIdx, bucket)
                 else
                   && r == Ok((bucket[cut].point[z.dim], |old(leaves)|))
                   && View() == WithSplit(old(View()), z, bucket[..cut], bucket[cut..], bucket[cut].point[z.dim])
    {
      var leafIdx := leafIdxMap[z.stemIdx];
      var leaf := leaves[leafIdx];
      var permuted, at := BucketSplit.Split(leaf, AxisKey(z.dim));
      bucket, cut := permuted, at;
      BucketSplit.OutcomeIsProper(leaf, AxisKey(z.dim), bucket, cut);
      SameElements(bucket, leaf);
      if at == |permuted| {
        leaves := leaves[leafIdx := permuted];
        return UnsplittableBucket(z.dim), bucket, cut;
      }
      assert permuted[at] in leaf;
      var pivot := permuted[at].point[z.dim];
      var newLeafIdx := BecomeStem(z, permuted[..at], permuted[at..], pivot);
      r := Ok((pivot, newLeafIdx));
    }

    /** The stem array grows to hold the pivot. */
    method StorePivot(stemIdx: nat, pivot: real)
      modifies this`stems
      ensures stems == (if |old(stems)| < stemIdx + 1 then old(stems) + seq(stemIdx + 1 - |old(stems)|, _ => Inf)
                        else old(stems))[stemIdx := Fin(pivot)]
    {
      if |stems| < stemIdx + 1 {
        stems := stems + seq(stemIdx + 1 - |stems|, _ => Inf);
      }
      stems := stems[stemIdx := Fin(pivot)];
    }

    /** The children of a split stem are mapped in its place. */
    method MapChildren(stemIdx: nat, leafIdx: nat, newLeafIdx: nat)
      modifies this`leafIdxMap
      ensures leafIdxMap == (old(leafIdxMap) - {stemIdx})[2 * stemIdx := leafIdx][2 * stemIdx + 1 := newLeafIdx]
    {
      leafIdxMap := leafIdxMap - {stemIdx};
      leafIdxMap := leafIdxMap[2 * stemIdx := leafIdx];
      leafIdxMap := leafIdxMap[2 * stemIdx + 1 := newLeafIdx];
    }

    /** The stores of `split_leaf`: the two leaves, the pivot, and the map to them. */
    method BecomeStem(z: Cursor, low: seq<Entry>, high: seq<Entry>, pivot: real) returns (newLeafIdx: nat)
      requires Terminal(View(), z)
      modifies this`stems, this`leafIdxMap, this`leaves, this`maxStemLevel
      ensures newLeafIdx == |old(leaves)| && View() == WithSplit(old(View()), z, low, high, pivot)
    {
      var leafIdx, stemIdx := leafIdxMap[z.stemIdx], z.stemIdx;
      newLeafIdx := |leaves|;
      leaves := leaves[leafIdx := low] + [high];
      StorePivot(stemIdx, pivot);
      MapChildren(stemIdx, leafIdx, newLeafIdx);
      maxStemLevel := if maxStemLevel < z.level then z.level else maxStemLevel;
    }

    /** The rest of `add` for a full bucket: split it, and give the entry to the half on its side
        of the pivot. */
    method SplitAndAdd(z: Cursor, e: Entry) returns (r: Result<()>)
      requires Valid() && |e.point| == k && z == Locate(View(), e.point, ROOT)
      requires |leaves[leafIdxMap[z.stemIdx]]| == b
      modifies this
      ensures SplitStep(old(View()), View(), b, e, r.Ok?) && size == old(size) + if r.Ok? then 1 else 0
      ensures r.UnsplittableBucket? ==> r.splitDim == z.dim
    {
      ghost var t := View();
      var leafIdx := leafIdxMap[z.stemIdx];
      var split;
      ghost var bucket, cut;
      split, bucket, cut := SplitLeaf(z);
      if split.UnsplittableBucket? {
        SplitIsStep(t, View(), b, e, z, false, bucket, cut);
        return UnsplittableBucket(split.splitDim);
      }
      AddToLeaf(if e.point[z.dim] >= split.value.0 then split.value.1 else leafIdx, e);
      SplitIsStep(t, View(), b, e, z, true, bucket, cut);
      r := Ok(());
    }

    /** Copies of `e` in the leaf its point leads to. */
    ghost function CopiesAtLeaf(e: Entry): nat
      requires Valid() && |e.point| == k
      reads this
    {
      multiset(leaves[leafIdxMap[Locate(View(), e.point, ROOT).stemIdx]])[e]
    }

    /** `remove`: every copy in the reached leaf goes, everything else stays. These are all the
        copies if entries are stored where their points lead. */
    method Remove(e: Entry)
      requires Valid() && |e.point| == k
      modifies this
      ensures Valid() && (old(Ordered()) ==> Ordered()) && (old(Bounded()) ==> Bounded())
      ensures View() == WithLeaf(old(View()), old(LeafOf(View(), e.point)),
                                 BucketEdit.Without(old(leaves[LeafOf(View(), e.point)]), e))
      ensures old(Found(View(), e)) <==> Contents() == old(Contents())[e := 0]
      ensures old(Findable()) ==> Findable() && Contents() == old(Contents())[e := 0]
      ensures Contents() + Copies(e, old(CopiesAtLeaf(e))) == old(Contents())
      ensures size == old(size) - old(CopiesAtLeaf(e))
    {
      var at := FindLeaf(e.point);
      var leafIdx := leafIdxMap[at.stemIdx];
      ghost var t, copies := View(), CopiesAtLeaf(e);
      var oldLen := |leaves[leafIdx]|;
      var kept := BucketEdit.RemoveAll(leaves[leafIdx], e);
      BucketEdit.WithoutContents(leaves[leafIdx], e);
      ghost var u := LeafRemoved(t, b, e, kept, copies, Ordered());
      RemovedRoutes(t, b, e);
      RemovedAll(t, u, e, copies);
      leaves := leaves[leafIdx := kept];
      size := size - (oldLen - |leaves[leafIdx]|);
      assert View() == u;
    }

    /** `replace_item`: exchanges the item of one copy, if the reached leaf holds one. */
    method ReplaceItem(point: seq<real>, oldItem: nat, newItem: nat) returns (found: bool)
      requires Valid() && |point| == k
      modifies this`leaves
      ensures Valid() && (old(Ordered()) ==> Ordered()) && (old(Bounded()) ==> Bounded())
      ensures old(Findable()) ==> Findable()
      ensures found <==> old(Reachable(View(), Entry(point, oldItem)))
      ensures found ==> Contents() + multiset{Entry(point, oldItem)} == old(Contents()) + multiset{Entry(point, newItem)}
      ensures !found ==> View() == old(View())
    {
      var at := FindLeaf(point);
      var leafIdx := leafIdxMap[at.stemIdx];
      ghost var was := leaves[leafIdx];
      var leaf;
      leaf, found := BucketEdit.ReplaceItem(leaves[leafIdx], point, oldItem, newItem);
      if found {
        ghost var u := ItemReplaced(View(), b, point, oldItem, newItem, leaf, Ordered());
        leaves := leaves[leafIdx := leaf];
        assert View() == u;
      } else {
        assert leaves[leafIdx := leaf] == leaves;
      }
    }

    /** Queries of an ordered tree answer as a scan of its contents, in any order, would. */
    method Query(m: Metric, q: seq<real>, c0: Context) returns (c: Context)
      requires Valid() && Ordered() && |q| == k && Fresh(c0)
      requires Additive(m) || k == 1
      requires m.Minkowski? ==> m.power > 0
      ensures SameQuery(c0, c)
      ensures forall s: seq<Entry> :: multiset(s) == Contents() && Fits(s, k) ==> Answers(c, multiset(Hits(m, q, s)))
    {
      c := Answer(View(), m, q, c0);
      forall s: seq<Entry> | multiset(s) == Contents() && Fits(s, k) ensures Answers(c, multiset(Hits(m, q, s))) {
        HitsOfPermutation(m, q, View().Contents(), s);
      }
    }
  }

  lemma StrictIsReachable(t: Tree, b: nat, e: Entry)
    requires WellFormed(t, b) && t.Valid() && |e.point| == t.k && e in multiset(t.Contents())
    ensures Strict(t.Shape(), t.leaves, 0, t.k) ==> Routed(t) && Reachable(t, e)
  {
    FoundExactlyWhenStrict(t, b);
    if Routed(t) {
      RoutedIsFound(t, b, e);
    }
  }

  lemma UnsplitRoutes(t: Tree, e: Entry, bucket: seq<Entry>, u: Tree)
    requires |e.point| == t.k > 0 && CompleteAt(t, ROOT) && LeafOf(t, e.point) < |t.leaves|
    requires BucketSplit.Permuted(bucket, t.leaves[LeafOf(t, e.point)]) && u == WithLeaf(t, LeafOf(t, e.point), bucket)
    requires CompleteAt(u, ROOT)
    ensures Routed(t) ==> Routed(u)
  {
    SameElements(bucket, t.leaves[LeafOf(t, e.point)]);
    if Routed(t) {
      RoutedAfterRewrite(t, e.point, bucket);
    }
  }

  lemma SplitRoutes(t: Tree, b: nat, e: Entry, bucket: seq<Entry>, cut: nat, u: Tree)
    requires Sound(t, b, false) && |e.point| == t.k
    requires var z := Locate(t, e.point, ROOT);
             var leaf := t.leaves[t.leafIdxMap[z.stemIdx]];
             && |leaf| == b >= 2 && cut < |bucket| && Fits(bucket, t.k)
             && BucketSplit.Outcome(leaf, AxisKey(z.dim), bucket, cut) && BucketSplit.Permuted(bucket, leaf)
             && var p := bucket[cut].point[z.dim];
             && var s := WithSplit(t, z, bucket[..cut], bucket[cut..], p);
                var target := if e.point[z.dim] >= p then |t.leaves| else t.leafIdxMap[z.stemIdx];
                u == WithLeaf(s, target, s.leaves[target] + [e]) && CompleteAt(u, ROOT)
    ensures Routed(t) && !StrictSplits.AtRisk(t.leaves[LeafOf(t, e.point)], AxisKey(Locate(t, e.point, ROOT).dim)) ==> Routed(u)
  {
    var z := Locate(t, e.point, ROOT);
    var leaf := t.leaves[t.leafIdxMap[z.stemIdx]];
    if Routed(t) && !StrictSplits.AtRisk(leaf, AxisKey(z.dim)) {
      StrictSplits.StrictWithoutRisk(leaf, AxisKey(z.dim), bucket, cut);
      var p := bucket[cut].point[z.dim];
      AddAfterSplit(t, z, bucket[..cut], bucket[cut..], p, e);
      var toHigh := e.point[z.dim] >= p;
      var low, high := if toHigh then bucket[..cut] else bucket[..cut] + [e], if toHigh then bucket[cut..] + [e] else bucket[cut..];
      HalvesAreApart(t, e, bucket, cut, z.dim, p, low, high);
      RoutedAfterSplit(t, b, e.point, low, high, p);
    }
  }

  lemma HalvesAreApart(t: Tree, e: Entry, bucket: seq<Entry>, cut: nat, dim: nat, p: real, low: seq<Entry>, high: seq<Entry>)
    requires |e.point| == t.k > dim && CompleteAt(t, ROOT) && LeafOf(t, e.point) < |t.leaves|
    requires BucketSplit.Permuted(bucket, t.leaves[LeafOf(t, e.point)]) && Fits(bucket, t.k)
    requires cut < |bucket| && Apart(bucket, AxisKey(dim), cut) && p == bucket[cut].point[dim]
    requires low == (if e.point[dim] >= p then bucket[..cut] else bucket[..cut] + [e])
    requires high == (if e.point[dim] >= p then bucket[cut..] + [e] else bucket[cut..])
    ensures AtLeaf(t, e.point, low) && (forall x :: x in low ==> |x.point| == t.k && x.point[dim] < p)
    ensures AtLeaf(t, e.point, high) && (forall x :: x in high ==> |x.point| == t.k && x.point[dim] >= p)
  {
    ApartSides(bucket, cut, dim, t.k);
    HalfIsAtLeaf(t, e, bucket, low);
    HalfIsAtLeaf(t, e, bucket, high);
  }

  lemma HalfIsAtLeaf(t: Tree, e: Entry, bucket: seq<Entry>, half: seq<Entry>)
    requires |e.point| == t.k > 0 && CompleteAt(t, ROOT) && LeafOf(t, e.point) < |t.leaves|
    requires BucketSplit.Permuted(bucket, t.leaves[LeafOf(t, e.point)])
    requires forall x :: x in half ==> x in bucket || x == e
    ensures AtLeaf(t, e.point, half)
  {
    SameElements(bucket, t.leaves[LeafOf(t, e.point)]);
    forall x | x in half && x.point != e.point ensures x in t.leaves[LeafOf(t, e.point)] {
    }
  }

  lemma ApartSides(bucket: seq<Entry>, cut: nat, dim: nat, k: nat)
    requires dim < k && Fits(bucket, k) && cut < |bucket| && Apart(bucket, AxisKey(dim), cut)
    ensures |bucket[cut].point| == k
    ensures forall x :: x in bucket[..cut] ==> x in bucket && |x.point| == k && x.point[dim] < bucket[cut].point[dim]
    ensures forall x :: x in bucket[cut..] ==> x in bucket && |x.point| == k && x.point[dim] >= bucket[cut].point[dim]
  {
    assert bucket[cut] in bucket;
    forall x | x in bucket[..cut] ensures x in bucket && |x.point| == k && x.point[dim] < bucket[cut].point[dim] {
      var i :| 0 <= i < cut && bucket[i] == x;
      assert AxisKey(dim)(bucket[i]) < AxisKey(dim)(bucket[cut]);
    }
    forall x | x in bucket[cut..] ensures x in bucket && |x.point| == k && x.point[dim] >= bucket[cut].point[dim] {
      var i :| cut <= i < |bucket| && bucket[i] == x;
      assert AxisKey(dim)(bucket[i]) >= AxisKey(dim)(bucket[cut]);
    }
  }

  lemma RemovedRoutes(t: Tree, b: nat, e: Entry)
    requires WellFormed(t, b) && |e.point| == t.k && LeafOf(t, e.point) < |t.leaves|
    ensures var u := WithLeaf(t, LeafOf(t, e.point), BucketEdit.Without(t.leaves[LeafOf(t, e.point)], e));
            Routed(t) ==> Found(t, e) && CompleteAt(u, ROOT) && Routed(u)
  {
    BucketEdit.WithoutContents(t.leaves[LeafOf(t, e.point)], e);
    if Routed(t) {
      RoutedIsFound(t, b, e);
      forall x | x in BucketEdit.Without(t.leaves[LeafOf(t, e.point)], e) ensures x in t.leaves[LeafOf(t, e.point)] {
        assert x in multiset(BucketEdit.Without(t.leaves[LeafOf(t, e.point)], e));
      }
      RoutedAfterRewrite(t, e.point, BucketEdit.Without(t.leaves[LeafOf(t, e.point)], e));
    }
  }

  /** Taking away copies takes away all of them exactly when they are as many. */
  lemma RemovedAll(t: Tree, u: Tree, e: Entry, copies: nat)
    requires multiset(u.Contents()) + Copies(e, copies) == multiset(t.Contents())
    ensures copies == multiset(t.Contents())[e] <==> multiset(u.Contents()) == multiset(t.Contents())[e := 0]
  {
    var after, before := multiset(u.Contents()), multiset(t.Contents());
    forall x ensures after[x] == before[x] - Copies(e, copies)[x] {
      assert (after + Copies(e, copies))[x] == before[x];
    }
  }

  lemma LeafRemoved(t: Tree, b: nat, e: Entry, kept: seq<Entry>, copies: nat, ordered: bool) returns (u: Tree)
    requires Sound(t, b, ordered) && |e.point| == t.k
    requires var leaf := t.leaves[t.leafIdxMap[Locate(t, e.point, ROOT).stemIdx]];
             && kept == BucketEdit.Without(leaf, e) && copies == multiset(leaf)[e]
    ensures u == WithLeaf(t, t.leafIdxMap[Locate(t, e.point, ROOT).stemIdx], kept)
    ensures Sound(u, b, ordered) && multiset(u.Contents()) + Copies(e, copies) == multiset(t.Contents())
    ensures |u.Contents()| == |t.Contents()| - copies
  {
    var leaf := t.leaves[t.leafIdxMap[Locate(t, e.point, ROOT).stemIdx]];
    BucketEdit.WithoutContents(leaf, e);
    assert multiset(kept) + Copies(e, copies) == multiset(leaf) + multiset{};
    u := LeafRewritten(t, b, e.point, kept, ordered, Copies(e, copies), multiset{});
    var was := multiset(t.Contents());
    assert was + multiset{} == was;
    CountAfter(multiset(u.Contents()), was, Copies(e, copies), multiset{});
  }

  ghost function Copies(e: Entry, n: nat): (c: multiset<Entry>)
    ensures |c| == n && c[e] == n && forall x :: x in c ==> x == e
  {
    if n == 0 then multiset{} else Copies(e, n - 1) + multiset{e}
  }

  lemma ItemReplaced(t: Tree, b: nat, p: seq<real>, oldItem: nat, newItem: nat, leaf: seq<Entry>, ordered: bool) returns (u: Tree)
    requires Sound(t, b, ordered) && |p| == t.k
    requires var was := t.leaves[t.leafIdxMap[Locate(t, p, ROOT).stemIdx]];
             var i := BucketEdit.FirstCopy(was, Entry(p, oldItem));
             i < |was| && leaf == was[i := Entry(p, newItem)]
    ensures u == WithLeaf(t, t.leafIdxMap[Locate(t, p, ROOT).stemIdx], leaf)
    ensures Sound(u, b, ordered) && |u.Contents()| == |t.Contents()| && (Routed(t) ==> Routed(u))
    ensures multiset(u.Contents()) + multiset{Entry(p, oldItem)} == multiset(t.Contents()) + multiset{Entry(p, newItem)}
  {
    var was := t.leaves[t.leafIdxMap[Locate(t, p, ROOT).stemIdx]];
    var removed, added := multiset{Entry(p, oldItem)}, multiset{Entry(p, newItem)};
    u := LeafRewritten(t, b, p, leaf, ordered, removed, added);
    if Routed(t) {
      RoutedAfterRewrite(t, p, leaf);
    }
    CountAfter(multiset(u.Contents()), multiset(t.Contents()), removed, added);
  }

  lemma UnsplitKeeps(t: Tree, b: nat, e: Entry, bucket: seq<Entry>, cut: nat, ordered: bool, u: Tree)
    requires Sound(t, b, ordered) && |e.point| == t.k
    requires var z := Locate(t, e.point, ROOT);
             var leafIdx := t.leafIdxMap[z.stemIdx];
             && |t.leaves[leafIdx]| == b >= 2 && cut == |bucket|
             && BucketSplit.Outcome(t.leaves[leafIdx], AxisKey(z.dim), bucket, cut)
             && BucketSplit.Permuted(bucket, t.leaves[leafIdx]) && u == WithLeaf(t, leafIdx, bucket)
    ensures Sound(u, b, false) && (ordered ==> u.Valid()) && multiset(u.Contents()) == multiset(t.Contents())
    ensures |u.Contents()| == |t.Contents()|
    ensures FillsBucket(multiset(t.Contents()) + multiset{e}, b, Locate(t, e.point, ROOT).dim)
  {
    var z := Locate(t, e.point, ROOT);
    var leaf := t.leaves[t.leafIdxMap[z.stemIdx]];
    BucketSplit.OutcomeIsProper(leaf, AxisKey(z.dim), bucket, cut);
    LeafFills(t, t.leafIdxMap[z.stemIdx], b, z.dim, e);
    var w := LeafPermuted(t, b, e.point, bucket, ordered);
  }

  lemma LeafPermuted(t: Tree, b: nat, p: seq<real>, bucket: seq<Entry>, ordered: bool) returns (u: Tree)
    requires Sound(t, b, ordered) && |p| == t.k
    requires BucketSplit.Permuted(bucket, t.leaves[t.leafIdxMap[Locate(t, p, ROOT).stemIdx]])
    ensures u == WithLeaf(t, t.leafIdxMap[Locate(t, p, ROOT).stemIdx], bucket)
    ensures Sound(u, b, ordered) && multiset(u.Contents()) == multiset(t.Contents())
    ensures |u.Contents()| == |t.Contents()|
  {
    SameElements(bucket, t.leaves[t.leafIdxMap[Locate(t, p, ROOT).stemIdx]]);
    u := LeafRewritten(t, b, p, bucket, ordered, multiset{}, multiset{});
    assert multiset(u.Contents()) + multiset{} == multiset(u.Contents());
    assert multiset(t.Contents()) + multiset{} == multiset(t.Contents());
    CountAfter(multiset(u.Contents()), multiset(t.Contents()), multiset{}, multiset{});
  }

  lemma SplitKeeps(t: Tree, b: nat, e: Entry, bucket: seq<Entry>, cut: nat, ordered: bool) returns (u: Tree)
    requires Sound(t, b, ordered) && |e.point| == t.k
    requires var z := Locate(t, e.point, ROOT);
             var leaf := t.leaves[t.leafIdxMap[z.stemIdx]];
             && |leaf| == b >= 2 && cut < |bucket| && Fits(bucket, t.k)
             && BucketSplit.Outcome(leaf, AxisKey(z.dim), bucket, cut) && BucketSplit.Permuted(bucket, leaf)
             && (ordered ==> !StrictSplits.AtRisk(leaf, AxisKey(z.dim)))
    ensures Sound(u, b, false) && (ordered ==> u.Valid())
    ensures multiset(u.Contents()) == multiset(t.Contents()) + multiset{e}
    ensures |u.Contents()| == |t.Contents()| + 1 && Reachable(u, e)
    ensures var z := Locate(t, e.point, ROOT);
            var p := bucket[cut].point[z.dim];
            var s := WithSplit(t, z, bucket[..cut], bucket[cut..], p);
            var target := if e.point[z.dim] >= p then |t.leaves| else t.leafIdxMap[z.stemIdx];
            u == WithLeaf(s, target, s.leaves[target] + [e])
  {
    var z := Locate(t, e.point, ROOT);
    var leaf := t.leaves[t.leafIdxMap[z.stemIdx]];
    BucketSplit.OutcomeIsProper(leaf, AxisKey(z.dim), bucket, cut);
    if ordered {
      StrictSplits.StrictWithoutRisk(leaf, AxisKey(z.dim), bucket, cut);
    }
    u := LeafSplitWith(t, b, e, bucket, cut, ordered);
    SplitIsReachable(t, b, e, if e.point[z.dim] >= bucket[cut].point[z.dim] then bucket[..cut] else bucket[..cut] + [e],
                     if e.point[z.dim] >= bucket[cut].point[z.dim] then bucket[cut..] + [e] else bucket[cut..],
                     bucket[cut].point[z.dim]);
    CountAfter(multiset(u.Contents()), multiset(t.Contents()), multiset{}, multiset{e});
    AddAfterSplit(t, z, bucket[..cut], bucket[cut..], bucket[cut].point[z.dim], e);
  }

  lemma AddAfterSplit(t: Tree, z: Cursor, low: seq<Entry>, high: seq<Entry>, p: real, e: Entry)
    requires Terminal(t, z) && |e.point| == t.k
    ensures var s, leafIdx := WithSplit(t, z, low, high, p), t.leafIdxMap[z.stemIdx];
            && WithSplit(t, z, low, high + [e], p) == WithLeaf(s, |t.leaves|, s.leaves[|t.leaves|] + [e])
            && WithSplit(t, z, low + [e], high, p) == WithLeaf(s, leafIdx, s.leaves[leafIdx] + [e])
  {
  }

  lemma CountAfter(after: multiset<Entry>, before: multiset<Entry>, removed: multiset<Entry>, added: multiset<Entry>)
    requires after + removed == before + added
    ensures |after| + |removed| == |before| + |added|
  {
    assert |after + removed| == |before + added|;
  }

  lemma {:induction false} EntriesFit(leaves: seq<Leaf>, k: nat)
    requires forall i :: 0 <= i < |leaves| ==> Fits(leaves[i], k)
    ensures Fits(Concat(leaves), k)
  {
    if leaves != [] {
      EntriesFit(leaves[..|leaves| - 1], k);
    }
  }

  lemma UnsplittableFills(entries: seq<Entry>, all: multiset<Entry>, b: nat, dim: nat)
    requires Unsplittable(entries, b, dim) && multiset(entries) == all
    ensures FillsBucket(all, b, dim)
  {
  }

  lemma LeafFills(t: Tree, leafIdx: nat, b: nat, dim: nat, e: Entry)
    requires WellFormed(t, b) && leafIdx < |t.leaves| && |t.leaves[leafIdx]| == b
    requires AllEqual(t.leaves[leafIdx], AxisKey(dim))
    ensures FillsBucket(multiset(t.Contents()) + multiset{e}, b, dim)
  {
    TipsInBounds(t, ROOT);
    LeafIsPart(t.Shape(), t.leaves, leafIdx);
  }
}

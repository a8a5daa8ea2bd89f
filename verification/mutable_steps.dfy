/** The single-leaf changes of a mutable tree, as functions on trees: replacing the entries of
    a leaf and turning a leaf into a stem with two leaves. */
module MutableSteps {
  import opened Metrics
  import opened KdTree
  import opened Eytzinger
  import opened MappedQuery
  import opened MutableShape
  import opened MutableConstruction

  function WithLeaf(t: Tree, leafIdx: nat, entries: seq<Entry>): Tree
    requires leafIdx < |t.leaves|
  {
    t.(leaves := t.leaves[leafIdx := entries])
  }

  /** The stem becomes a pivot; its leaf moves to the left child and keeps `low`, a new leaf
      under the right child takes `high`. */
  function WithSplit(t: Tree, z: Cursor, low: seq<Entry>, high: seq<Entry>, pivot: real): Tree
    requires z.stemIdx in t.leafIdxMap && t.leafIdxMap[z.stemIdx] < |t.leaves|
  {
    var leafIdx, stemIdx := t.leafIdxMap[z.stemIdx], z.stemIdx;
    var stems := if |t.stems| < stemIdx + 1 then t.stems + seq(stemIdx + 1 - |t.stems|, _ => Inf) else t.stems;
    Tree(t.k, stems[stemIdx := Fin(pivot)],
         (t.leafIdxMap - {stemIdx})[2 * stemIdx := leafIdx][2 * stemIdx + 1 := |t.leaves|],
         t.leaves[leafIdx := low] + [high],
         if t.maxStemLevel < z.level then z.level else t.maxStemLevel)
  }

  /** A terminal position of the tree. */
  ghost predicate Terminal(t: Tree, z: Cursor) {
    z.Valid(t.k) && z.stemIdx in t.leafIdxMap && t.leafIdxMap[z.stemIdx] < |t.leaves|
  }

  ghost predicate LeafIn(entries: seq<Entry>, cell: Cell) {
    forall e :: e in entries ==> InCell(e, cell)
  }

  lemma LeafReplaced(t: Tree, z: Cursor, entries: seq<Entry>, cell: Cell, ordered: bool,
                     removed: multiset<Entry>, added: multiset<Entry>)
    requires Terminal(t, z) && |cell| == t.k
    requires ordered ==> LeafIn(entries, cell)
    requires multiset(entries) + removed == multiset(t.leaves[t.leafIdxMap[z.stemIdx]]) + added
    ensures ReplacedAt(t, WithLeaf(t, t.leafIdxMap[z.stemIdx], entries), z, cell, ordered, removed, added)
  {
    var i := t.leafIdxMap[z.stemIdx];
    var u := WithLeaf(t, i, entries);
    assert ShapeAt(t, z) == ShapeAt(u, z) == Tip(i);
    assert Entries(Tip(i), u.leaves) == entries && Entries(Tip(i), t.leaves) == t.leaves[i];
  }

  lemma SplitShape(t: Tree, z: Cursor, low: seq<Entry>, high: seq<Entry>, pivot: real)
    requires Terminal(t, z)
    ensures var u := WithSplit(t, z, low, high, pivot);
            && ShapeAt(u, z) == Stem(Fin(pivot), Tip(t.leafIdxMap[z.stemIdx]), Tip(|t.leaves|))
            && CompleteAt(u, z)
  {
    var u := WithSplit(t, z, low, high, pivot);
    assert z.stemIdx !in u.leafIdxMap && u.stems[z.stemIdx] == Fin(pivot);
    assert ShapeAt(u, z.Child(t.k, false)) == Tip(t.leafIdxMap[z.stemIdx]);
    assert ShapeAt(u, z.Child(t.k, true)) == Tip(|t.leaves|);
  }

  lemma SplitFrame(t: Tree, z: Cursor, low: seq<Entry>, high: seq<Entry>, pivot: real)
    requires Terminal(t, z)
    ensures FrameAt(t, WithSplit(t, z, low, high, pivot), z)
  {
    var u := WithSplit(t, z, low, high, pivot);
    SplitShape(t, z, low, high, pivot);
    forall i: nat | !Descends(i, z.stemIdx) ensures SameAt(t, u, i) {
      assert Descends(z.stemIdx, z.stemIdx);
      ChildrenAreDisjoint(i, z.stemIdx);
      assert Descends(2 * z.stemIdx, 2 * z.stemIdx) && Descends(2 * z.stemIdx + 1, 2 * z.stemIdx + 1);
    }
  }

  lemma LeafSplit(t: Tree, z: Cursor, low: seq<Entry>, high: seq<Entry>, pivot: real, cell: Cell, ordered: bool,
                  removed: multiset<Entry>, added: multiset<Entry>)
    requires Terminal(t, z) && |cell| == t.k
    requires ordered ==>
               && cell[z.dim].Contains(pivot)
               && LeafIn(low, Narrow(cell, z.dim, pivot, false)) && LeafIn(high, Narrow(cell, z.dim, pivot, true))
    requires multiset(low) + multiset(high) + removed == multiset(t.leaves[t.leafIdxMap[z.stemIdx]]) + added
    ensures ReplacedAt(t, WithSplit(t, z, low, high, pivot), z, cell, ordered, removed, added)
  {
    var u := WithSplit(t, z, low, high, pivot);
    SplitShape(t, z, low, high, pivot);
    SplitFrame(t, z, low, high, pivot);
    assert Entries(ShapeAt(u, z), u.leaves) == low + high;
  }

  /** A change below the located leaf keeps the whole tree well formed and ordered, and changes
      its contents by just that much. */
  lemma StepKeeps(t: Tree, u: Tree, p: seq<real>, b: nat, ordered: bool, removed: multiset<Entry>, added: multiset<Entry>)
    requires WellFormed(t, b) && |p| == t.k
    requires ordered ==> t.Valid()
    requires ReplacedAt(t, u, Locate(t, p, ROOT), LocateCell(t, p, ROOT, Everywhere(t.k)), ordered, removed, added)
    requires forall i :: 0 <= i < |u.leaves| ==> |u.leaves[i]| <= b
    ensures WellFormed(u, b) && (ordered ==> u.Valid())
    ensures multiset(u.Contents()) + removed == multiset(t.Contents()) + added
  {
    ReplacedAbove(t, u, p, ROOT, Everywhere(t.k), ordered, removed, added);
  }

  // ---------------------------------------------------------------- where points go afterwards

  /** The located stem is the start or strictly below it. */
  lemma {:induction false} LocateIsBelow(t: Tree, p: seq<real>, at: Cursor)
    requires |p| == t.k && at.Valid(t.k) && CompleteAt(t, at)
    ensures var z := Locate(t, p, at); z == at || z.stemIdx > at.stemIdx
    decreases t.maxStemLevel + 1 - at.level
  {
    if at.stemIdx !in t.leafIdxMap {
      LocateIsBelow(t, p, at.Child(t.k, GoesRight(t.stems[at.stemIdx], p[at.dim])));
    }
  }

  /** A point whose leaf was replaced is still found through the same stem. */
  lemma {:induction false} LocateAfter(t: Tree, u: Tree, p: seq<real>, at: Cursor)
    requires |p| == t.k && at.Valid(t.k) && CompleteAt(t, at) && CompleteAt(u, at)
    requires FrameAt(t, u, Locate(t, p, at))
    ensures Locate(u, p, at) == Locate(u, p, Locate(t, p, at))
    decreases t.maxStemLevel + 1 - at.level
  {
    if at.stemIdx !in t.leafIdxMap {
      var z := Locate(t, p, at);
      LocateIsBelow(t, p, at);
      if Descends(at.stemIdx, z.stemIdx) { DescendsAtLeast(at.stemIdx, z.stemIdx); }
      assert SameAt(t, u, at.stemIdx);
      LocateAfter(t, u, p, at.Child(t.k, GoesRight(t.stems[at.stemIdx], p[at.dim])));
    }
  }
}

/** A tree that a build may give and in which a stored entry cannot be found or removed by its
    own point. */
module StraddlingTie {
  import opened Metrics
  import opened KdTree
  import opened Eytzinger
  import opened Construction
  import opened MappedQuery
  import opened MutableShape
  import opened MutableConstruction
  import opened MutableSteps
  import opened MutableTree
  import opened Routing
  import opened QueryContext
  import BucketEdit
  import IC = ImmutableConstruction

  function At(x: real, item: nat): Entry {
    Entry([x], item)
  }

  /** Two entries at 5 with a smaller one between: as they were given, and as a selection of the
      last position may leave them. */
  function Entries3(): (s: seq<Entry>)
    ensures |s| == 3
  {
    [At(5.0, 0), At(3.0, 1), At(5.0, 2)]
  }

  /** The tree cut before the last of them. */
  function Straddled(): Tree {
    Tree(1, [Inf, Fin(5.0), Inf, Inf, Inf, Inf, Inf, Inf], map[2 := 0, 3 := 1],
         [[At(5.0, 0), At(3.0, 1)], [At(5.0, 2)]], 0)
  }

  /** The pivot that the root of a build asks for, after the capacity it plans on its right. */
  function RootPivot(n: nat, b: nat): nat
    requires n > b > 0
  {
    var leafCount := LeavesNeeded(n, b);
    CalcPivot(n, SaturatingSub(leafCount * b, Least(Pow2(IC.StemsDepth(leafCount) - 1) * b, leafCount * b)), b)
  }

  /** The tree that is finished with a leaf on each side of the root. */
  function TwoLeaves(k: nat, start: Build, r: seq<Entry>, pivot: nat): Tree
    requires pivot <= |r|
  {
    Tree(k, start.stems, map[2 := 0, 3 := 1], [r[..pivot], r[pivot..]], start.maxStemLevel)
  }

  /** A tree that a build may give when both sides of its root fit a bucket: the selection leaves
      `r`, the pivot it was asked for stays because the values next to it differ, and each side
      becomes a leaf. */
  ghost predicate BuildsTwoLeaves(entries: seq<Entry>, r: seq<Entry>, k: nat, b: nat, pivot: nat, t: Tree)
    requires k > 0 && |entries| > b > 0 && LeavesNeeded(|entries|, b) >= 2
  {
    var key := AxisKey(0);
    && 0 < pivot < |r| == |entries| && multiset(r) == multiset(entries) && Fits(r, k)
    && Selected(r, key, pivot) && key(r[pivot - 1]) != key(r[pivot])
    && pivot <= b && |r| - pivot <= b
    && t == TwoLeaves(k, Start(Build(FirstStems(LeavesNeeded(|entries|, b)), [], [], -1), ROOT, r[pivot].point[0]), r, pivot)
  }

  lemma DepthOfTwo(n: nat)
    requires n == 2
    ensures IC.StemsDepth(n) == 1 && Pow2(IC.StemsDepth(n) - 1) == 1 && FirstStems(n) == [Inf, Inf, Inf, Inf, Inf, Inf, Inf, Inf]
  {
    assert (n + 1) / 2 == 1;
  }

  lemma PivotOfThree(n: nat, leafCount: nat)
    requires n == 3 && leafCount == LeavesNeeded(n, 2)
    ensures leafCount == 2 && RootPivot(n, 2) == CalcPivot(3, 2, 2) == 2
  {
    DepthOfTwo(2);
    assert NextMultipleOf(1, 2) == 2;
  }

  /** With buckets of two the build of the three entries asks for position 2; the selection may
      leave them as they are, and then that tree comes out. */
  lemma BuildMayStraddle(r: seq<Entry>, b: nat, t: Tree)
    requires r == Entries3() && b == 2 && t == Straddled()
    ensures LeavesNeeded(|r|, b) >= 2 && BuildsTwoLeaves(r, r, t.k, b, RootPivot(|r|, b), t)
  {
    BuildsAtTwo(r, b, t);
    PivotOfThree(|r|, LeavesNeeded(|r|, b));
  }

  lemma BuildsAtTwo(r: seq<Entry>, b: nat, t: Tree)
    requires r == Entries3() && b == 2 && t == Straddled()
    ensures LeavesNeeded(|r|, b) >= 2 && BuildsTwoLeaves(r, r, t.k, b, 2, t)
  {
    DepthOfTwo(LeavesNeeded(|r|, b));
    KeysOfThree(r, AxisKey(0));
    var start := StraddledAsBuilt(r, t, FirstStems(LeavesNeeded(|r|, b)));
  }

  lemma StraddledAsBuilt(r: seq<Entry>, t: Tree, stems: seq<Ext>) returns (start: Build)
    requires r == Entries3() && t == Straddled() && stems == [Inf, Inf, Inf, Inf, Inf, Inf, Inf, Inf]
    ensures start == Start(Build(stems, [], [], -1), ROOT, 5.0) && t == TwoLeaves(t.k, start, r, 2)
  {
    start := Start(Build(stems, [], [], -1), ROOT, 5.0);
    assert start.stems == stems[1 := Fin(5.0)] == t.stems;
    assert r[..2] == t.leaves[0] && r[2..] == t.leaves[1];
  }

  lemma KeysOfThree(r: seq<Entry>, key: Entry -> real)
    requires r == Entries3() && key == AxisKey(0)
    ensures |r| == 3 && Fits(r, 1) && r[2].point[0] == 5.0
    ensures Selected(r, key, 2) && key(r[1]) != key(r[2])
  {
    assert key(r[0]) == 5.0 && key(r[1]) == 3.0 && key(r[2]) == 5.0;
    assert |r[0].point| == |r[1].point| == |r[2].point| == 1;
  }

  lemma StraddledIsATree()
    ensures WellFormed(Straddled(), 2) && Straddled().Valid()
    ensures Straddled().Shape() == Stem(Fin(5.0), Tip(0), Tip(1))
  {
    var t := Straddled();
    assert ShapeAt(t, Cursor(2, 1, 0)) == Tip(0) && ShapeAt(t, Cursor(3, 1, 0)) == Tip(1);
    var n, cell := Stem(Fin(5.0), Tip(0), Tip(1)), Everywhere(1);
    assert t.Shape() == n;
    assert DimAt(0, 1) == 0;
    assert forall e :: e in t.leaves[0] ==> InCell(e, Narrow(cell, 0, 5.0, false));
    assert forall e :: e in t.leaves[1] ==> InCell(e, Narrow(cell, 0, 5.0, true));
  }

  /** The entry at 5 on the left is stored, but its point leads to the right. */
  lemma StraddlerIsLost()
    ensures var t, e := Straddled(), At(5.0, 0);
            && WellFormed(t, 2) && t.Valid() && e in t.Contents()
            && !Strict(t.Shape(), t.leaves, 0, 1) && LeafOf(t, e.point) == 1 && !Reachable(t, e) && !Found(t, e)
  {
    var t, e := Straddled(), At(5.0, 0);
    StraddledIsATree();
    assert e in t.leaves[0] && Entries(Tip(0), t.leaves) == t.leaves[0];
    assert t.Contents() == t.leaves[0] + t.leaves[1];
    var right := ROOT.Child(1, true);
    assert Locate(t, e.point, ROOT) == Locate(t, e.point, right) == right;
    assert e !in t.leaves[1];
    assert DimAt(0, 1) == 0;
    assert multiset(t.Contents())[e] > 0;
  }

  /** So removing it changes nothing. */
  lemma StraddlerStays()
    ensures WellFormed(Straddled(), 2) && LeafOf(Straddled(), [5.0]) == 1
    ensures BucketEdit.Without(Straddled().leaves[1], At(5.0, 0)) == Straddled().leaves[1]
    ensures WithLeaf(Straddled(), 1, BucketEdit.Without(Straddled().leaves[1], At(5.0, 0))) == Straddled()
  {
    StraddlerIsLost();
    WithoutOther(At(5.0, 2), At(5.0, 0));
  }

  lemma WithoutOther(x: Entry, e: Entry)
    requires x != e
    ensures BucketEdit.Without([x], e) == [x]
  {
    assert [x][..0] == [];
  }
}

/** Which entries of a mutable tree are found again by their own point
    (src/kd_tree/construction/mod.rs, `find_leaf_with_context`, `remove`). A point equal to a
    pivot is looked for on the right, but may have been left on the left by a selection. */
module Routing {
  import opened Metrics
  import opened KdTree
  import opened QueryContext
  import opened Eytzinger
  import opened MappedQuery
  import opened MutableShape
  import opened MutableConstruction
  import opened MutableSteps
  import opened Iteration

  /** Every stored point has as many coordinates as the tree has axes. */
  ghost predicate Dimensioned(t: Tree) {
    forall i :: 0 <= i < |t.leaves| ==> Fits(t.leaves[i], t.k)
  }

  lemma ValidIsDimensioned(t: Tree, b: nat)
    requires WellFormed(t, b) && t.Valid()
    ensures Dimensioned(t)
  {
    SplitsContains(t.Shape(), t.leaves, 0, Everywhere(t.k));
    forall i | 0 <= i < |t.leaves| ensures Fits(t.leaves[i], t.k) {
      LeafIsPart(t.Shape(), t.leaves, i);
      forall e | e in t.leaves[i] ensures |e.point| == t.k {
        assert e in multiset(t.leaves[i]);
        assert e in t.Contents();
      }
    }
  }

  /** The leaf that a point leads to. */
  ghost function LeafOf(t: Tree, p: seq<real>): nat
    requires |p| == t.k > 0 && CompleteAt(t, ROOT)
  {
    t.leafIdxMap[Locate(t, p, ROOT).stemIdx]
  }

  /** Every entry below `at` is in the leaf that its own point leads to from there. */
  ghost predicate RoutedAt(t: Tree, at: Cursor)
    requires at.Valid(t.k) && CompleteAt(t, at)
  {
    forall i, e :: i in TipSet(ShapeAt(t, at)) && 0 <= i < |t.leaves| && e in t.leaves[i] ==>
      |e.point| == t.k && t.leafIdxMap[Locate(t, e.point, at).stemIdx] == i
  }

  ghost predicate Routed(t: Tree)
    requires t.k > 0 && CompleteAt(t, ROOT)
  {
    forall i, e :: 0 <= i < |t.leaves| && e in t.leaves[i] ==> |e.point| == t.k && LeafOf(t, e.point) == i
  }

  /** Every stored copy of the entry is in the leaf that its point leads to. */
  ghost predicate Found(t: Tree, e: Entry)
    requires t.k > 0 && CompleteAt(t, ROOT)
  {
    && |e.point| == t.k && LeafOf(t, e.point) < |t.leaves|
    && multiset(t.leaves[LeafOf(t, e.point)])[e] == multiset(t.Contents())[e]
  }

  lemma {:induction false} LocateInTips(t: Tree, p: seq<real>, at: Cursor)
    requires |p| == t.k && at.Valid(t.k) && CompleteAt(t, at)
    ensures t.leafIdxMap[Locate(t, p, at).stemIdx] in TipSet(ShapeAt(t, at))
    ensures t.leafIdxMap[Locate(t, p, at).stemIdx] < |t.leaves|
    decreases t.maxStemLevel + 1 - at.level
  {
    if at.stemIdx !in t.leafIdxMap {
      LocateInTips(t, p, at.Child(t.k, GoesRight(t.stems[at.stemIdx], p[at.dim])));
    }
  }

  // ---------------------------------------------------------------- routed exactly when strict

  /** The stem sends every entry below it to the side that holds it. */
  ghost predicate SendsRightly(t: Tree, at: Cursor)
    requires at.Valid(t.k) && CompleteAt(t, at) && at.stemIdx !in t.leafIdxMap
  {
    forall right: bool, e ::
      e in Entries(ShapeAt(t, at.Child(t.k, right)), t.leaves) ==>
        |e.point| == t.k && GoesRight(t.stems[at.stemIdx], e.point[at.dim]) == right
  }

  lemma RoutedStemSends(t: Tree, at: Cursor)
    requires at.Valid(t.k) && CompleteAt(t, at) && at.stemIdx !in t.leafIdxMap && Distinct(ShapeAt(t, at))
    requires RoutedAt(t, at)
    ensures SendsRightly(t, at)
  {
    forall right: bool, e | e in Entries(ShapeAt(t, at.Child(t.k, right)), t.leaves)
      ensures |e.point| == t.k && GoesRight(t.stems[at.stemIdx], e.point[at.dim]) == right
    {
      var i := StoredInTip(ShapeAt(t, at.Child(t.k, right)), t.leaves, e);
      assert i in TipSet(ShapeAt(t, at));
      LocateInTips(t, e.point, at.Child(t.k, GoesRight(t.stems[at.stemIdx], e.point[at.dim])));
    }
  }

  /** A stem routes its entries exactly when its children do and it sends each entry to the
      side that holds it. */
  lemma RoutedStem(t: Tree, at: Cursor)
    requires at.Valid(t.k) && CompleteAt(t, at) && at.stemIdx !in t.leafIdxMap && Distinct(ShapeAt(t, at))
    ensures RoutedAt(t, at) <==>
              SendsRightly(t, at) && RoutedAt(t, at.Child(t.k, false)) && RoutedAt(t, at.Child(t.k, true))
  {
    if RoutedAt(t, at) {
      RoutedStemSends(t, at);
    }
    if SendsRightly(t, at) {
      SentToChild(t, at);
    }
  }

  lemma SentToChild(t: Tree, at: Cursor)
    requires at.Valid(t.k) && CompleteAt(t, at) && at.stemIdx !in t.leafIdxMap && SendsRightly(t, at)
    ensures RoutedAt(t, at) <==> RoutedAt(t, at.Child(t.k, false)) && RoutedAt(t, at.Child(t.k, true))
  {
    forall right: bool, i, e
      | i in TipSet(ShapeAt(t, at.Child(t.k, right))) && 0 <= i < |t.leaves| && e in t.leaves[i]
      ensures |e.point| == t.k && Locate(t, e.point, at) == Locate(t, e.point, at.Child(t.k, right))
    {
      InTipIsStored(ShapeAt(t, at.Child(t.k, right)), t.leaves, i, e);
    }
    assert forall i :: i in TipSet(ShapeAt(t, at)) <==>
      i in TipSet(ShapeAt(t, at.Child(t.k, false))) || i in TipSet(ShapeAt(t, at.Child(t.k, true)));
  }

  /** On an ordered stem the entries on the right always go right. */
  lemma RightGoesRight(t: Tree, at: Cursor, cell: Cell)
    requires at.Valid(t.k) && CompleteAt(t, at) && at.stemIdx !in t.leafIdxMap && |cell| == t.k
    requires Splits(ShapeAt(t, at), t.leaves, at.level, cell)
    ensures forall e :: e in Entries(ShapeAt(t, at), t.leaves) ==> |e.point| == t.k
    ensures forall e :: e in Entries(ShapeAt(t, at.Child(t.k, true)), t.leaves) ==>
              |e.point| == t.k && GoesRight(t.stems[at.stemIdx], e.point[at.dim])
  {
    var p, r := t.stems[at.stemIdx], ShapeAt(t, at.Child(t.k, true));
    SplitsContains(ShapeAt(t, at), t.leaves, at.level, cell);
    if p.Fin? {
      SplitsContains(r, t.leaves, at.level + 1, Narrow(cell, at.dim, p.v, true));
      forall e | e in Entries(r, t.leaves) ensures e.point[at.dim] >= p.v {
        assert Narrow(cell, at.dim, p.v, true)[at.dim].Contains(e.point[at.dim]);
      }
    }
  }

  lemma SendsRightlyWhen(t: Tree, at: Cursor, cell: Cell)
    requires at.Valid(t.k) && CompleteAt(t, at) && at.stemIdx !in t.leafIdxMap && |cell| == t.k
    requires Splits(ShapeAt(t, at), t.leaves, at.level, cell)
    ensures var p := t.stems[at.stemIdx];
            SendsRightly(t, at) <==>
              (p.Fin? ==> BelowSplit(Entries(ShapeAt(t, at.Child(t.k, false)), t.leaves), at.dim, p.v))
  {
    var p, l := t.stems[at.stemIdx], ShapeAt(t, at.Child(t.k, false));
    RightGoesRight(t, at, cell);
    assert ShapeAt(t, at).left == l;
    forall e | e in Entries(l, t.leaves)
      ensures |e.point| == t.k && (GoesRight(p, e.point[at.dim]) == false <==> (p.Fin? ==> e.point[at.dim] < p.v))
    {
      assert e in Entries(ShapeAt(t, at), t.leaves);
    }
    if SendsRightly(t, at) {
      forall e | e in Entries(l, t.leaves) ensures GoesRight(p, e.point[at.dim]) == false {
        assert e in Entries(ShapeAt(t, at.Child(t.k, false)), t.leaves);
      }
    }
  }

  lemma {:induction false} NothingIsStrict(n: Node, leaves: seq<Leaf>, level: nat, k: nat)
    requires k > 0 && Entries(n, leaves) == []
    ensures Strict(n, leaves, level, k)
  {
    if n.Stem? {
      NothingIsStrict(n.left, leaves, level + 1, k);
      NothingIsStrict(n.right, leaves, level + 1, k);
    }
  }

  lemma NothingIsRouted(t: Tree, at: Cursor)
    requires at.Valid(t.k) && CompleteAt(t, at) && Entries(ShapeAt(t, at), t.leaves) == []
    ensures RoutedAt(t, at)
  {
    forall i, e | i in TipSet(ShapeAt(t, at)) && 0 <= i < |t.leaves| && e in t.leaves[i] ensures false {
      InTipIsStored(ShapeAt(t, at), t.leaves, i, e);
    }
  }

  lemma StrictStem(t: Tree, at: Cursor)
    requires at.Valid(t.k) && CompleteAt(t, at) && at.stemIdx !in t.leafIdxMap
    ensures var p, l, r := t.stems[at.stemIdx], ShapeAt(t, at.Child(t.k, false)), ShapeAt(t, at.Child(t.k, true));
            Strict(ShapeAt(t, at), t.leaves, at.level, t.k) <==>
              && (p.Fin? ==> BelowSplit(Entries(l, t.leaves), at.dim, p.v))
              && Strict(l, t.leaves, at.level + 1, t.k) && Strict(r, t.leaves, at.level + 1, t.k)
  {
  }

  lemma {:induction false} RoutedExactlyWhen(t: Tree, at: Cursor, cell: Cell)
    requires at.Valid(t.k) && CompleteAt(t, at) && Distinct(ShapeAt(t, at)) && Dimensioned(t)
    requires |cell| == t.k && Splits(ShapeAt(t, at), t.leaves, at.level, cell)
    ensures RoutedAt(t, at) <==> Strict(ShapeAt(t, at), t.leaves, at.level, t.k)
    decreases t.maxStemLevel + 1 - at.level
  {
    if at.stemIdx !in t.leafIdxMap {
      var p, l, r := t.stems[at.stemIdx], at.Child(t.k, false), at.Child(t.k, true);
      RoutedExactlyWhen(t, l, if p.Fin? then Narrow(cell, at.dim, p.v, false) else cell);
      if p.Fin? {
        RoutedExactlyWhen(t, r, Narrow(cell, at.dim, p.v, true));
      } else {
        NothingIsStrict(ShapeAt(t, r), t.leaves, r.level, t.k);
        NothingIsRouted(t, r);
      }
      StemExactlyWhen(t, at, cell);
    }
  }

  lemma StemExactlyWhen(t: Tree, at: Cursor, cell: Cell)
    requires at.Valid(t.k) && CompleteAt(t, at) && at.stemIdx !in t.leafIdxMap && Distinct(ShapeAt(t, at))
    requires |cell| == t.k && Splits(ShapeAt(t, at), t.leaves, at.level, cell)
    requires forall right: bool :: var at2 := at.Child(t.k, right);
               RoutedAt(t, at2) <==> Strict(ShapeAt(t, at2), t.leaves, at2.level, t.k)
    ensures RoutedAt(t, at) <==> Strict(ShapeAt(t, at), t.leaves, at.level, t.k)
  {
    StrictStem(t, at);
    RoutedStem(t, at);
    SendsRightlyWhen(t, at, cell);
  }

  // ---------------------------------------------------------------- found exactly when strict

  lemma FoundExactlyWhenRouted(t: Tree, b: nat)
    requires WellFormed(t, b) && Dimensioned(t)
    ensures (forall e: Entry :: |e.point| == t.k ==> Found(t, e)) <==> Routed(t)
  {
    IterationIsComplete(t, b);
    if Routed(t) {
      forall e: Entry | |e.point| == t.k ensures Found(t, e) {
        RoutedIsFound(t, b, e);
      }
    }
    if forall e: Entry :: |e.point| == t.k ==> Found(t, e) {
      forall i, e | 0 <= i < |t.leaves| && e in t.leaves[i] ensures |e.point| == t.k && LeafOf(t, e.point) == i {
        assert Found(t, e);
        if LeafOf(t, e.point) != i {
          MoreCopiesThan(t.leaves, i, LeafOf(t, e.point), e);
        }
      }
    }
  }

  lemma RoutedIsFound(t: Tree, b: nat, e: Entry)
    requires WellFormed(t, b) && Routed(t) && |e.point| == t.k
    ensures Found(t, e)
  {
    IterationIsComplete(t, b);
    LocateInTips(t, e.point, ROOT);
    AllCopiesIn(t.leaves, LeafOf(t, e.point), e);
  }

  /** Every entry of an ordered tree is found by its own point exactly when at every stem the
      entries on the left lie strictly below the pivot. */
  lemma FoundExactlyWhenStrict(t: Tree, b: nat)
    requires WellFormed(t, b) && t.Valid()
    ensures (forall e: Entry :: |e.point| == t.k ==> Found(t, e)) <==> Strict(t.Shape(), t.leaves, 0, t.k)
    ensures Routed(t) <==> Strict(t.Shape(), t.leaves, 0, t.k)
  {
    ValidIsDimensioned(t, b);
    FoundExactlyWhenRouted(t, b);
    RoutedExactlyWhen(t, ROOT, Everywhere(t.k));
    assert RoutedAt(t, ROOT) <==> Routed(t) by {
      TipsInBounds(t, ROOT);
    }
  }

  // ---------------------------------------------------------------- what changes keep

  lemma {:induction false} LocateIgnoresLeaves(t: Tree, u: Tree, p: seq<real>, at: Cursor)
    requires |p| == t.k && at.Valid(t.k) && CompleteAt(t, at) && u == t.(leaves := u.leaves) && |u.leaves| == |t.leaves|
    ensures CompleteAt(u, at) && Locate(u, p, at) == Locate(t, p, at)
    decreases t.maxStemLevel + 1 - at.level
  {
    SameComplete(t, u, at);
    if at.stemIdx !in t.leafIdxMap {
      LocateIgnoresLeaves(t, u, p, at.Child(t.k, GoesRight(t.stems[at.stemIdx], p[at.dim])));
    }
  }

  lemma SameComplete(t: Tree, u: Tree, at: Cursor)
    requires CompleteAt(t, at) && u == t.(leaves := u.leaves) && |u.leaves| == |t.leaves|
    ensures CompleteAt(u, at)
  {
  }

  /** Rewriting the located leaf with entries at its old points or at the located point. */
  lemma RoutedAfterRewrite(t: Tree, p: seq<real>, entries: seq<Entry>)
    requires t.k > 0 && CompleteAt(t, ROOT) && Routed(t) && |p| == t.k && LeafOf(t, p) < |t.leaves|
    requires forall e :: e in entries ==> e.point == p || exists x :: x in t.leaves[LeafOf(t, p)] && x.point == e.point
    ensures CompleteAt(WithLeaf(t, LeafOf(t, p), entries), ROOT) && Routed(WithLeaf(t, LeafOf(t, p), entries))
  {
    var u := WithLeaf(t, LeafOf(t, p), entries);
    SameComplete(t, u, ROOT);
    forall i, e | 0 <= i < |u.leaves| && e in u.leaves[i] ensures |e.point| == u.k && LeafOf(u, e.point) == i {
      if i == LeafOf(t, p) && e.point != p {
        var x :| x in t.leaves[i] && x.point == e.point;
        assert LeafOf(t, x.point) == i;
      }
      LocateIgnoresLeaves(t, u, e.point, ROOT);
    }
  }

  /** Points that lead to the same leaf are located at the same stem. */
  lemma {:induction false} LocateInjective(t: Tree, p: seq<real>, q: seq<real>, at: Cursor)
    requires |p| == |q| == t.k && at.Valid(t.k) && CompleteAt(t, at) && Distinct(ShapeAt(t, at))
    requires t.leafIdxMap[Locate(t, p, at).stemIdx] == t.leafIdxMap[Locate(t, q, at).stemIdx]
    ensures Locate(t, p, at) == Locate(t, q, at)
    decreases t.maxStemLevel + 1 - at.level
  {
    if at.stemIdx !in t.leafIdxMap {
      var pivot := t.stems[at.stemIdx];
      var c, d := at.Child(t.k, GoesRight(pivot, p[at.dim])), at.Child(t.k, GoesRight(pivot, q[at.dim]));
      LocateInTips(t, p, c);
      LocateInTips(t, q, d);
      assert c == d;
      LocateInjective(t, p, q, c);
    }
  }

  /** A point that is not located at the changed stem stays where it was. */
  lemma {:induction false} LocateElsewhere(t: Tree, u: Tree, q: seq<real>, at: Cursor, z: Cursor)
    requires |q| == t.k && at.Valid(t.k) && CompleteAt(t, at) && CompleteAt(u, at) && FrameAt(t, u, z)
    requires z.stemIdx in t.leafIdxMap && Locate(t, q, at).stemIdx != z.stemIdx
    requires !Descends(at.stemIdx, z.stemIdx)
    ensures Locate(u, q, at) == Locate(t, q, at) && SameAt(t, u, Locate(t, q, at).stemIdx)
    decreases t.maxStemLevel + 1 - at.level
  {
    assert SameAt(t, u, at.stemIdx);
    if at.stemIdx !in t.leafIdxMap {
      var c := at.Child(t.k, GoesRight(t.stems[at.stemIdx], q[at.dim]));
      assert c.stemIdx / 2 == at.stemIdx;
      LocateElsewhere(t, u, q, c, z);
    }
  }

  /** The entries lie at points that lead to the located leaf. */
  ghost predicate AtLeaf(t: Tree, p: seq<real>, es: seq<Entry>)
    requires |p| == t.k > 0 && CompleteAt(t, ROOT) && LeafOf(t, p) < |t.leaves|
  {
    forall e :: e in es ==> e.point == p || exists x :: x in t.leaves[LeafOf(t, p)] && x.point == e.point
  }

  lemma LocatedAlike(t: Tree, p: seq<real>, es: seq<Entry>, e: Entry)
    requires |p| == t.k > 0 && CompleteAt(t, ROOT) && LeafOf(t, p) < |t.leaves| && Distinct(t.Shape()) && Routed(t)
    requires AtLeaf(t, p, es) && e in es
    ensures |e.point| == t.k && Locate(t, e.point, ROOT) == Locate(t, p, ROOT)
  {
    if e.point != p {
      var x :| x in t.leaves[LeafOf(t, p)] && x.point == e.point;
      assert LeafOf(t, x.point) == LeafOf(t, p);
      LocateInjective(t, x.point, p, ROOT);
    }
  }

  /** Below a stem that was a leaf, a point goes to the side of the pivot it lies on. */
  lemma LocatedInHalf(t: Tree, z: Cursor, low: seq<Entry>, high: seq<Entry>, pivot: real, q: seq<real>)
    requires Terminal(t, z) && |q| == t.k
    ensures var u := WithSplit(t, z, low, high, pivot);
            && CompleteAt(u, z)
            && u.leafIdxMap[Locate(u, q, z).stemIdx] == if q[z.dim] >= pivot then |t.leaves| else t.leafIdxMap[z.stemIdx]
  {
    var u := WithSplit(t, z, low, high, pivot);
    SplitShape(t, z, low, high, pivot);
    var c := z.Child(t.k, q[z.dim] >= pivot);
    assert z.stemIdx !in u.leafIdxMap && u.stems[z.stemIdx] == Fin(pivot) && c.stemIdx in u.leafIdxMap;
    assert Locate(u, q, z) == Locate(u, q, c) == c;
  }

  /** A strict split keeps every entry on its way. */
  lemma RoutedAfterSplit(t: Tree, b: nat, p: seq<real>, low: seq<Entry>, high: seq<Entry>, pivot: real)
    requires WellFormed(t, b) && Routed(t) && |p| == t.k && LeafOf(t, p) < |t.leaves|
    requires AtLeaf(t, p, low) && AtLeaf(t, p, high)
    requires var z := Locate(t, p, ROOT);
             && CompleteAt(WithSplit(t, z, low, high, pivot), ROOT)
             && (forall e :: e in low ==> |e.point| == t.k && e.point[z.dim] < pivot)
             && (forall e :: e in high ==> |e.point| == t.k && e.point[z.dim] >= pivot)
    ensures Routed(WithSplit(t, Locate(t, p, ROOT), low, high, pivot))
  {
    var z := Locate(t, p, ROOT);
    var u := WithSplit(t, z, low, high, pivot);
    SplitFrame(t, z, low, high, pivot);
    forall i, e | 0 <= i < |u.leaves| && e in u.leaves[i] ensures |e.point| == u.k && LeafOf(u, e.point) == i {
      if i == LeafOf(t, p) {
        RoutedToHalf(t, p, low, high, pivot, e, low);
      } else if i == |t.leaves| {
        RoutedToHalf(t, p, low, high, pivot, e, high);
      } else {
        RoutedElsewhere(t, u, e, z);
      }
    }
  }

  lemma RoutedToHalf(t: Tree, p: seq<real>, low: seq<Entry>, high: seq<Entry>, pivot: real, e: Entry, es: seq<Entry>)
    requires |p| == t.k > 0 && CompleteAt(t, ROOT) && LeafOf(t, p) < |t.leaves| && Distinct(t.Shape()) && Routed(t)
    requires AtLeaf(t, p, es) && e in es
    requires CompleteAt(WithSplit(t, Locate(t, p, ROOT), low, high, pivot), ROOT)
    ensures var z := Locate(t, p, ROOT);
            && |e.point| == t.k
            && LeafOf(WithSplit(t, z, low, high, pivot), e.point) == if e.point[z.dim] >= pivot then |t.leaves| else LeafOf(t, p)
  {
    var z := Locate(t, p, ROOT);
    LocatedAlike(t, p, es, e);
    SplitFrame(t, z, low, high, pivot);
    LocateAfter(t, WithSplit(t, z, low, high, pivot), e.point, ROOT);
    LocatedInHalf(t, z, low, high, pivot, e.point);
  }

  lemma RoutedElsewhere(t: Tree, u: Tree, e: Entry, z: Cursor)
    requires t.k > 0 && CompleteAt(t, ROOT) && CompleteAt(u, ROOT) && FrameAt(t, u, z) && z.stemIdx in t.leafIdxMap
    requires |e.point| == t.k && Locate(t, e.point, ROOT).stemIdx != z.stemIdx
    ensures LeafOf(u, e.point) == LeafOf(t, e.point)
  {
    LocateElsewhere(t, u, e.point, ROOT, z);
  }
}

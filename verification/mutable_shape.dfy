/** How the shape of a mutable tree reacts to a change below one of its leaves. */
module MutableShape {
  import opened Metrics
  import opened KdTree
  import opened Eytzinger
  import opened MappedQuery

  ghost function TipSet(n: Node): set<nat> {
    match n
    case Tip(i) => {i}
    case Stem(_, l, r) => TipSet(l) + TipSet(r)
  }

  /** No leaf is reached twice. */
  ghost predicate Distinct(n: Node) {
    match n
    case Tip(_) => true
    case Stem(_, l, r) => Distinct(l) && Distinct(r) && TipSet(l) !! TipSet(r)
  }

  ghost predicate CompleteAt(t: Tree, at: Cursor) {
    Complete(t.stems, t.leafIdxMap, t.maxStemLevel, |t.leaves|, at.stemIdx, at.level)
  }

  lemma {:induction false} TipsInBounds(t: Tree, at: Cursor)
    requires t.k > 0 && CompleteAt(t, at)
    ensures forall i :: i in TipSet(ShapeAt(t, at)) ==> i < |t.leaves|
    decreases t.maxStemLevel + 1 - at.level
  {
    if at.stemIdx !in t.leafIdxMap {
      TipsInBounds(t, at.Child(t.k, false));
      TipsInBounds(t, at.Child(t.k, true));
    }
  }

  /** What is stored below a node depends only on its own leaves. */
  lemma {:induction false} DependsOnTips(n: Node, a: seq<Leaf>, b: seq<Leaf>, level: nat, cell: Cell)
    requires forall i :: i in TipSet(n) ==> i < |a| && i < |b| && a[i] == b[i]
    ensures Entries(n, a) == Entries(n, b)
    ensures |cell| > 0 && Splits(n, a, level, cell) ==> Splits(n, b, level, cell)
    decreases n
  {
    if n.Stem? {
      var c1 := if |cell| > 0 && n.pivot.Fin? then Narrow(cell, DimAt(level, |cell|), n.pivot.v, false) else cell;
      var c2 := if |cell| > 0 && n.pivot.Fin? then Narrow(cell, DimAt(level, |cell|), n.pivot.v, true) else cell;
      assert forall i :: i in TipSet(n.left) || i in TipSet(n.right) ==> i in TipSet(n);
      DependsOnTips(n.left, a, b, level + 1, c1);
      DependsOnTips(n.right, a, b, level + 1, c2);
    }
  }

  ghost predicate BelowSplit(es: seq<Entry>, dim: nat, p: real) {
    forall e :: e in es ==> dim < |e.point| && e.point[dim] < p
  }

  /** At every stem the entries on the left lie strictly below the pivot. */
  ghost predicate Strict(n: Node, leaves: seq<Leaf>, level: nat, k: nat)
    requires k > 0
    decreases n
  {
    match n
    case Tip(_) => true
    case Stem(p, l, r) =>
      && Strict(l, leaves, level + 1, k) && Strict(r, leaves, level + 1, k)
      && (p.Fin? ==> BelowSplit(Entries(l, leaves), DimAt(level, k), p.v))
  }

  lemma {:induction false} StrictDependsOnTips(n: Node, a: seq<Leaf>, b: seq<Leaf>, level: nat, k: nat)
    requires k > 0 && Strict(n, a, level, k)
    requires forall i :: i in TipSet(n) ==> i < |a| && i < |b| && a[i] == b[i]
    ensures Strict(n, b, level, k)
    decreases n
  {
    if n.Stem? {
      assert forall i :: i in TipSet(n.left) || i in TipSet(n.right) ==> i in TipSet(n);
      StrictDependsOnTips(n.left, a, b, level + 1, k);
      StrictDependsOnTips(n.right, a, b, level + 1, k);
      DependsOnTips(n.left, a, b, level + 1, []);
    }
  }

  function StemAt(stems: seq<Ext>, i: nat): Ext {
    if i < |stems| then stems[i] else Inf
  }

  /** Both trees look the same at stem index `i`. */
  ghost predicate SameAt(t: Tree, u: Tree, i: nat) {
    && StemAt(t.stems, i) == StemAt(u.stems, i)
    && (i in t.leafIdxMap <==> i in u.leafIdxMap)
    && (i in t.leafIdxMap ==> t.leafIdxMap[i] == u.leafIdxMap[i])
  }

  ghost predicate Grown(t: Tree, u: Tree) {
    t.k == u.k > 0 && |t.stems| <= |u.stems| && t.maxStemLevel <= u.maxStemLevel && |t.leaves| <= |u.leaves|
  }

  /** A complete subtree keeps its shape when nothing below it changes. */
  lemma {:induction false} ShapeIsStable(t: Tree, u: Tree, at: Cursor)
    requires Grown(t, u) && at.stemIdx > 0 && CompleteAt(t, at)
    requires forall i: nat :: Descends(i, at.stemIdx) ==> SameAt(t, u, i)
    ensures ShapeAt(u, at) == ShapeAt(t, at) && CompleteAt(u, at)
    decreases t.maxStemLevel + 1 - at.level
  {
    assert Descends(at.stemIdx, at.stemIdx);
    if at.stemIdx !in t.leafIdxMap {
      forall i: nat ensures Descends(i, 2 * at.stemIdx) || Descends(i, 2 * at.stemIdx + 1) ==> SameAt(t, u, i) {
        ChildrenAreDisjoint(i, at.stemIdx);
      }
      ShapeIsStable(t, u, at.Child(t.k, false));
      ShapeIsStable(t, u, at.Child(t.k, true));
    }
  }

  // ---------------------------------------------------------------- locating a leaf

  predicate GoesRight(pivot: Ext, x: real) {
    pivot.Fin? && x >= pivot.v
  }

  /** The terminal stem a point is stored under. */
  ghost function Locate(t: Tree, p: seq<real>, at: Cursor): (z: Cursor)
    requires |p| == t.k && at.Valid(t.k) && CompleteAt(t, at)
    ensures z.Valid(t.k) && z.stemIdx in t.leafIdxMap && CompleteAt(t, z)
    decreases t.maxStemLevel + 1 - at.level
  {
    if at.stemIdx in t.leafIdxMap then at
    else Locate(t, p, at.Child(t.k, GoesRight(t.stems[at.stemIdx], p[at.dim])))
  }

  /** The cell of that leaf. */
  ghost function LocateCell(t: Tree, p: seq<real>, at: Cursor, cell: Cell): (c: Cell)
    requires |p| == |cell| == t.k && at.Valid(t.k) && CompleteAt(t, at)
    ensures |c| == t.k
    decreases t.maxStemLevel + 1 - at.level
  {
    if at.stemIdx in t.leafIdxMap then cell
    else
      var pivot := t.stems[at.stemIdx];
      var right := GoesRight(pivot, p[at.dim]);
      LocateCell(t, p, at.Child(t.k, right), if pivot.Fin? then Narrow(cell, at.dim, pivot.v, right) else cell)
  }

  /** The located leaf lies below the start, and its cell contains the point. */
  lemma {:induction false} LocatedCell(t: Tree, e: Entry, at: Cursor, cell: Cell)
    requires |cell| == t.k && at.Valid(t.k) && CompleteAt(t, at)
    requires Splits(ShapeAt(t, at), t.leaves, at.level, cell) && InCell(e, cell)
    ensures var z, c := Locate(t, e.point, at), LocateCell(t, e.point, at, cell);
            Splits(ShapeAt(t, z), t.leaves, z.level, c) && InCell(e, c)
    decreases t.maxStemLevel + 1 - at.level
  {
    if at.stemIdx !in t.leafIdxMap {
      var pivot := t.stems[at.stemIdx];
      var right := GoesRight(pivot, e.point[at.dim]);
      var inner := if pivot.Fin? then Narrow(cell, at.dim, pivot.v, right) else cell;
      forall d | 0 <= d < |cell| ensures inner[d].Contains(e.point[d]) {
        assert cell[d].Contains(e.point[d]);
      }
      LocatedCell(t, e, at.Child(t.k, right), inner);
    }
  }

  lemma {:induction false} DescendsAtLeast(i: nat, idx: nat)
    requires Descends(i, idx)
    ensures i >= idx
  {
  }

  // ---------------------------------------------------------------- replacing one leaf

  /** `u` differs from `t` only below the stem `z`: leaves are appended, or lie below `z`. */
  ghost predicate FrameAt(t: Tree, u: Tree, z: Cursor)
  {
    && Grown(t, u) && z.stemIdx > 0 && CompleteAt(t, z) && CompleteAt(u, z)
    && (forall i: nat :: !Descends(i, z.stemIdx) ==> SameAt(t, u, i))
    && (forall i :: 0 <= i < |t.leaves| && i !in TipSet(ShapeAt(t, z)) ==> u.leaves[i] == t.leaves[i])
  }

  /** The node `now` replaces `was`: it is distinct and, when `ordered`, well split; it uses
      the leaves of `was` and the appended ones, and exchanges `removed` for `added`. */
  ghost predicate NodeReplaced(was: Node, now: Node, before: seq<Leaf>, after: seq<Leaf>, level: nat, cell: Cell,
                               ordered: bool, removed: multiset<Entry>, added: multiset<Entry>)
    requires |cell| > 0
  {
    && (ordered ==> Splits(now, after, level, cell)) && Distinct(now)
    && (forall i :: i in TipSet(now) ==> i in TipSet(was) || i >= |before|)
    && (forall i :: i in TipSet(was) || |before| <= i < |after| ==> i in TipSet(now))
    && multiset(Entries(now, after)) + removed == multiset(Entries(was, before)) + added
  }

  ghost predicate ReplacedAt(t: Tree, u: Tree, z: Cursor, cell: Cell, ordered: bool, removed: multiset<Entry>, added: multiset<Entry>)
    requires |cell| == t.k > 0
  {
    FrameAt(t, u, z) && NodeReplaced(ShapeAt(t, z), ShapeAt(u, z), t.leaves, u.leaves, z.level, cell, ordered, removed, added)
  }

  /** Replacing what lies below the located leaf replaces it in the whole tree. */
  lemma {:induction false} ReplacedAbove(t: Tree, u: Tree, p: seq<real>, at: Cursor, cell: Cell, ordered: bool,
                                         removed: multiset<Entry>, added: multiset<Entry>)
    requires |p| == |cell| == t.k > 0 && at.Valid(t.k) && CompleteAt(t, at)
    requires (ordered ==> Splits(ShapeAt(t, at), t.leaves, at.level, cell)) && Distinct(ShapeAt(t, at))
    requires ReplacedAt(t, u, Locate(t, p, at), LocateCell(t, p, at, cell), ordered, removed, added)
    ensures ReplacedAt(t, u, at, cell, ordered, removed, added)
    decreases t.maxStemLevel + 1 - at.level
  {
    if at.stemIdx !in t.leafIdxMap {
      var pivot := t.stems[at.stemIdx];
      var right := GoesRight(pivot, p[at.dim]);
      var pathCell := if pivot.Fin? then Narrow(cell, at.dim, pivot.v, right) else cell;
      ReplacedAbove(t, u, p, at.Child(t.k, right), pathCell, ordered, removed, added);
      JoinReplaced(t, u, at, right, cell, pathCell, ordered, removed, added);
    }
  }

  /** The other child keeps its shape and contents. */
  lemma SiblingUnchanged(t: Tree, u: Tree, at: Cursor, right: bool, siblingCell: Cell)
    requires |siblingCell| == t.k > 0 && at.Valid(t.k) && CompleteAt(t, at)
    requires at.stemIdx !in t.leafIdxMap && Distinct(ShapeAt(t, at))
    requires FrameAt(t, u, at.Child(t.k, right))
    ensures var s := at.Child(t.k, !right);
            && ShapeAt(u, s) == ShapeAt(t, s) && CompleteAt(u, s)
            && (forall i :: i in TipSet(ShapeAt(t, s)) ==> i < |t.leaves|)
            && Entries(ShapeAt(t, s), u.leaves) == Entries(ShapeAt(t, s), t.leaves)
            && (Splits(ShapeAt(t, s), t.leaves, s.level, siblingCell) ==> Splits(ShapeAt(t, s), u.leaves, s.level, siblingCell))
  {
    var s := at.Child(t.k, !right);
    forall i: nat | Descends(i, s.stemIdx) ensures SameAt(t, u, i) {
      ChildrenAreDisjoint(i, at.stemIdx);
    }
    ShapeIsStable(t, u, s);
    TipsInBounds(t, s);
    DependsOnTips(ShapeAt(t, s), t.leaves, u.leaves, s.level, siblingCell);
  }

  lemma FrameAbove(t: Tree, u: Tree, at: Cursor, right: bool)
    requires t.k > 0 && at.Valid(t.k) && CompleteAt(t, at) && at.stemIdx !in t.leafIdxMap
    requires FrameAt(t, u, at.Child(t.k, right)) && CompleteAt(u, at.Child(t.k, !right))
    ensures FrameAt(t, u, at)
    ensures var pivot, path, s := t.stems[at.stemIdx], at.Child(t.k, right), at.Child(t.k, !right);
            && ShapeAt(t, at) == Joined(pivot, ShapeAt(t, path), ShapeAt(t, s), right)
            && ShapeAt(u, at) == Joined(pivot, ShapeAt(u, path), ShapeAt(u, s), right)
  {
    var path := at.Child(t.k, right);
    assert SameAt(t, u, at.stemIdx) by {
      if Descends(at.stemIdx, path.stemIdx) { DescendsAtLeast(at.stemIdx, path.stemIdx); }
    }
    forall i: nat | !Descends(i, at.stemIdx) ensures SameAt(t, u, i) {
      ChildrenAreDisjoint(i, at.stemIdx);
    }
    StemReplaced(t, u, at, right);
  }

  /** The parent in `u` has the same pivot over the replaced child and the old sibling. */
  lemma StemReplaced(t: Tree, u: Tree, at: Cursor, right: bool)
    requires Grown(t, u) && at.Valid(t.k) && CompleteAt(t, at) && at.stemIdx !in t.leafIdxMap
    requires SameAt(t, u, at.stemIdx) && CompleteAt(u, at.Child(t.k, right)) && CompleteAt(u, at.Child(t.k, !right))
    ensures CompleteAt(u, at)
    ensures ShapeAt(t, at) == Stem(t.stems[at.stemIdx], ShapeAt(t, at.Child(t.k, false)), ShapeAt(t, at.Child(t.k, true)))
    ensures ShapeAt(u, at) == Stem(t.stems[at.stemIdx], ShapeAt(u, at.Child(t.k, false)), ShapeAt(u, at.Child(t.k, true)))
  {
  }

  function Joined(pivot: Ext, path: Node, sibling: Node, right: bool): Node {
    if right then Stem(pivot, sibling, path) else Stem(pivot, path, sibling)
  }

  lemma AddSibling(path: multiset<Entry>, was: multiset<Entry>, sibling: multiset<Entry>,
                   removed: multiset<Entry>, added: multiset<Entry>)
    requires path + removed == was + added
    ensures path + sibling + removed == was + sibling + added
  {
    assert path + sibling + removed == (path + removed) + sibling;
  }

  lemma JoinedContents(pivot: Ext, path: Node, sibling: Node, right: bool, leaves: seq<Leaf>)
    ensures multiset(Entries(Joined(pivot, path, sibling, right), leaves))
         == multiset(Entries(path, leaves)) + multiset(Entries(sibling, leaves))
  {
  }

  /** Replacing one child of a stem replaces the stem. */
  lemma JoinShapes(pivot: Ext, was: Node, now: Node, sibling: Node, before: seq<Leaf>, after: seq<Leaf>, right: bool,
                   level: nat, cell: Cell, pathCell: Cell, siblingCell: Cell, ordered: bool,
                   removed: multiset<Entry>, added: multiset<Entry>, stem: Node, stem2: Node)
    requires stem == Joined(pivot, was, sibling, right) && stem2 == Joined(pivot, now, sibling, right)
    requires |cell| > 0 && |pathCell| == |siblingCell| == |cell|
    requires var dim := DimAt(level, |cell|);
             if pivot.Fin?
             then pathCell == Narrow(cell, dim, pivot.v, right) && siblingCell == Narrow(cell, dim, pivot.v, !right)
             else !right && pathCell == siblingCell == cell
    requires Distinct(stem) && (ordered ==> Splits(stem, before, level, cell))
    requires NodeReplaced(was, now, before, after, level + 1, pathCell, ordered, removed, added)
    requires forall i :: i in TipSet(sibling) ==> i < |before|
    requires Entries(sibling, after) == Entries(sibling, before)
    requires Splits(sibling, before, level + 1, siblingCell) ==> Splits(sibling, after, level + 1, siblingCell)
    ensures NodeReplaced(stem, stem2, before, after, level, cell, ordered, removed, added)
  {
    JoinedContents(pivot, was, sibling, right, before);
    JoinedContents(pivot, now, sibling, right, after);
    AddSibling(multiset(Entries(now, after)), multiset(Entries(was, before)), multiset(Entries(sibling, after)), removed, added);
  }

  lemma JoinReplaced(t: Tree, u: Tree, at: Cursor, right: bool, cell: Cell, pathCell: Cell, ordered: bool,
                     removed: multiset<Entry>, added: multiset<Entry>)
    requires |cell| == |pathCell| == t.k > 0 && at.Valid(t.k) && CompleteAt(t, at)
    requires at.stemIdx !in t.leafIdxMap && Distinct(ShapeAt(t, at))
    requires ordered ==> Splits(ShapeAt(t, at), t.leaves, at.level, cell)
    requires var pivot := t.stems[at.stemIdx];
             if pivot.Fin? then pathCell == Narrow(cell, at.dim, pivot.v, right) else !right && pathCell == cell
    requires FrameAt(t, u, at.Child(t.k, right))
    requires NodeReplaced(ShapeAt(t, at.Child(t.k, right)), ShapeAt(u, at.Child(t.k, right)), t.leaves, u.leaves,
                          at.level + 1, pathCell, ordered, removed, added)
    ensures FrameAt(t, u, at)
    ensures NodeReplaced(ShapeAt(t, at), ShapeAt(u, at), t.leaves, u.leaves, at.level, cell, ordered, removed, added)
  {
    var pivot, path, s := t.stems[at.stemIdx], at.Child(t.k, right), at.Child(t.k, !right);
    var siblingCell := if pivot.Fin? then Narrow(cell, at.dim, pivot.v, !right) else cell;
    SiblingUnchanged(t, u, at, right, siblingCell);
    FrameAbove(t, u, at, right);
    JoinShapes(pivot, ShapeAt(t, path), ShapeAt(u, path), ShapeAt(t, s), t.leaves, u.leaves, right, at.level,
               cell, pathCell, siblingCell, ordered, removed, added, ShapeAt(t, at), ShapeAt(u, at));
  }
}

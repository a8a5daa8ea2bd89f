/** The stored tree: pivots in Eytzinger order, leaves, and the shape they describe. */
module KdTree {
  import opened Metrics
  import opened Options

  datatype Entry = Entry(point: seq<real>, item: nat)

  type Leaf = seq<Entry>

  /** The subtree below a stem index: a leaf, or a pivot with two children. */
  datatype Node = Tip(leaf: nat) | Stem(pivot: Ext, left: Node, right: Node)

  function Entries(n: Node, leaves: seq<Leaf>): seq<Entry> {
    match n
    case Tip(i) => if i < |leaves| then leaves[i] else []
    case Stem(_, l, r) => Entries(l, leaves) + Entries(r, leaves)
  }

  function Concat(leaves: seq<Leaf>): seq<Entry> {
    if leaves == [] then [] else Concat(leaves[..|leaves| - 1]) + leaves[|leaves| - 1]
  }

  // ---------------------------------------------------------------- cells

  /** The closed interval of one axis that the pivots above a node leave to it. */
  datatype Interval = Interval(lo: Option<real>, hi: Option<real>) {
    predicate Contains(x: real) {
      (lo.Some? ==> lo.value <= x) && (hi.Some? ==> x <= hi.value)
    }

    /** Distance from `x` to the interval. */
    function Gap(x: real): real {
      if lo.Some? && x < lo.value then lo.value - x
      else if hi.Some? && x > hi.value then x - hi.value
      else 0.0
    }
  }

  type Cell = seq<Interval>

  function Everywhere(k: nat): (c: Cell)
    ensures |c| == k && forall d :: 0 <= d < k ==> c[d] == Interval(None, None)
  {
    seq(k, _ => Interval(None, None))
  }

  function Narrow(c: Cell, dim: nat, pivot: real, right: bool): (r: Cell)
    requires dim < |c|
    ensures |r| == |c|
  {
    c[dim := if right then Interval(Some(pivot), c[dim].hi) else Interval(c[dim].lo, Some(pivot))]
  }

  predicate InCell(e: Entry, c: Cell) {
    |e.point| == |c| && forall d :: 0 <= d < |c| ==> c[d].Contains(e.point[d])
  }

  function Gaps(q: seq<real>, c: Cell): (off: seq<real>)
    requires |q| == |c|
    ensures |off| == |q|
    ensures forall d :: 0 <= d < |q| ==> off[d] == c[d].Gap(q[d]) && off[d] >= 0.0
  {
    seq(|q|, d requires 0 <= d < |q| => c[d].Gap(q[d]))
  }

  /** The split axis of a level: it starts at 0 and wraps after the last axis. */
  function DimAt(level: nat, k: nat): (d: nat)
    requires k > 0
    ensures d < k
  {
    if level == 0 then 0
    else if DimAt(level - 1, k) == k - 1 then 0
    else DimAt(level - 1, k) + 1
  }

  /** What every query relies on: each pivot lies in the cell of its stem, the leaves below
      it hold only points of their own side (a point equal to the pivot may be on either),
      and a stem with the `max_value` sentinel has nothing on its right. */
  ghost predicate Splits(n: Node, leaves: seq<Leaf>, level: nat, cell: Cell)
    requires |cell| > 0
    decreases n
  {
    match n
    case Tip(i) => i < |leaves| && forall e :: e in leaves[i] ==> InCell(e, cell)
    case Stem(Inf, l, r) =>
      Splits(l, leaves, level + 1, cell) && Entries(r, leaves) == []
    case Stem(Fin(p), l, r) =>
      var dim := DimAt(level, |cell|);
      && cell[dim].Contains(p)
      && Splits(l, leaves, level + 1, Narrow(cell, dim, p, false))
      && Splits(r, leaves, level + 1, Narrow(cell, dim, p, true))
  }

  lemma {:induction false} SplitsContains(n: Node, leaves: seq<Leaf>, level: nat, cell: Cell)
    requires |cell| > 0 && Splits(n, leaves, level, cell)
    ensures forall e :: e in Entries(n, leaves) ==> InCell(e, cell)
    decreases n
  {
    match n
    case Tip(i) =>
    case Stem(Inf, l, r) => SplitsContains(l, leaves, level + 1, cell);
    case Stem(Fin(p), l, r) =>
      var dim := DimAt(level, |cell|);
      SplitsContains(l, leaves, level + 1, Narrow(cell, dim, p, false));
      SplitsContains(r, leaves, level + 1, Narrow(cell, dim, p, true));
      forall e | e in Entries(n, leaves) ensures InCell(e, cell) {
        if e in Entries(l, leaves) {
          NarrowedInCell(e, cell, dim, p, false);
        } else {
          NarrowedInCell(e, cell, dim, p, true);
        }
      }
  }

  lemma NarrowedInCell(e: Entry, cell: Cell, dim: nat, p: real, right: bool)
    requires dim < |cell| && cell[dim].Contains(p) && InCell(e, Narrow(cell, dim, p, right))
    ensures InCell(e, cell)
  {
    var c := Narrow(cell, dim, p, right);
    assert c[dim].Contains(e.point[dim]);
    forall d | 0 <= d < |cell| ensures cell[d].Contains(e.point[d]) {
      assert c[d].Contains(e.point[d]);
    }
  }

  /** The gaps of a cell under-estimate the separation of everything stored in it. */
  lemma GapsAreLowerBounds(q: seq<real>, cell: Cell, e: Entry)
    requires |q| == |cell| && InCell(e, cell)
    ensures forall d :: 0 <= d < |q| ==> 0.0 <= Gaps(q, cell)[d] <= Abs(e.point[d] - q[d])
  {
    forall d | 0 <= d < |q| ensures 0.0 <= Gaps(q, cell)[d] <= Abs(e.point[d] - q[d]) {
      assert cell[d].Contains(e.point[d]);
    }
  }

  /** Crossing a pivot inside the cell: the side of the query keeps the gaps, the other side
      has the distance to the pivot, which is no smaller, on the split axis. */
  lemma GapsOfChildren(q: seq<real>, cell: Cell, dim: nat, p: real)
    requires |q| == |cell| && dim < |cell| && cell[dim].Contains(p)
    ensures var right := q[dim] >= p;
            && Gaps(q, Narrow(cell, dim, p, right)) == Gaps(q, cell)
            && Gaps(q, Narrow(cell, dim, p, !right)) == Gaps(q, cell)[dim := Abs(q[dim] - p)]
            && Gaps(q, cell)[dim] <= Abs(q[dim] - p)
  {
    var right := q[dim] >= p;
    var near, far := Gaps(q, Narrow(cell, dim, p, right)), Gaps(q, Narrow(cell, dim, p, !right));
    assert forall d :: 0 <= d < |q| ==> near[d] == Gaps(q, cell)[d];
    assert forall d :: 0 <= d < |q| ==> far[d] == Gaps(q, cell)[dim := Abs(q[dim] - p)][d];
  }
}

/** Building an immutable tree with soft buckets
    (src/kd_tree/construction/serial.rs, `populate_recursive_soft`, and
    src/kd_tree/construction/mod.rs, `new_from_source_with`). */
module ImmutableConstruction {
  import opened Metrics
  import opened KdTree
  import opened Sorting
  import opened Eytzinger
  import opened Construction
  import opened Division
  import AQ = ArithmeticQuery

  // ---------------------------------------------------------------- index arithmetic

  /** Two stem arrays that agree below `idx`. */
  ghost predicate AgreeBelow(a: seq<Ext>, b: seq<Ext>, idx: nat) {
    |a| == |b| && forall i :: 0 <= i < |a| && Descends(i, idx) ==> a[i] == b[i]
  }

  ghost predicate AgreeOutside(a: seq<Ext>, b: seq<Ext>, idx: nat) {
    |a| == |b| && forall i :: 0 <= i < |a| && !Descends(i, idx) ==> a[i] == b[i]
  }

  lemma {:induction false} ShapeDependsOnBelow(a: seq<Ext>, b: seq<Ext>, maxStemLevel: int, idx: nat, level: nat)
    requires idx > 0 && AgreeBelow(a, b, idx)
    ensures ArithmeticShape(a, maxStemLevel, idx, level) == ArithmeticShape(b, maxStemLevel, idx, level)
    decreases maxStemLevel + 1 - level
  {
    if level <= maxStemLevel {
      forall i | 0 <= i < |a|
        ensures Descends(i, 2 * idx) || Descends(i, 2 * idx + 1) ==> Descends(i, idx)
      {
        ChildrenAreDisjoint(i, idx);
      }
      ShapeDependsOnBelow(a, b, maxStemLevel, 2 * idx, level + 1);
      ShapeDependsOnBelow(a, b, maxStemLevel, 2 * idx + 1, level + 1);
    }
  }

  /** The leaves of `n`, left to right, are numbered from `lo`. */
  ghost predicate NumberedFrom(n: Node, lo: nat, height: nat) {
    match n
    case Tip(i) => height == 0 && i == lo
    case Stem(_, l, r) =>
      height > 0 && NumberedFrom(l, lo, height - 1) && NumberedFrom(r, lo + Pow2(height - 1), height - 1)
  }

  /** The first leaf below a stem of a full tree with `height` levels under it. */
  function FirstLeaf(idx: nat, level: nat, height: nat): int {
    (idx - Pow2(level)) * Pow2(height)
  }

  lemma FirstLeafOfChildren(idx: nat, level: nat, height: nat)
    requires height > 0 && idx >= Pow2(level)
    ensures FirstLeaf(2 * idx, level + 1, height - 1) == FirstLeaf(idx, level, height) >= 0
    ensures FirstLeaf(2 * idx + 1, level + 1, height - 1) == FirstLeaf(idx, level, height) + Pow2(height - 1)
  {
    var a, p := idx - Pow2(level), Pow2(height - 1);
    assert (2 * a) * p == a * (2 * p) >= 0;
    assert (2 * a + 1) * p == (2 * a) * p + p;
  }

  lemma {:induction false} ShapeIsNumbered(stems: seq<Ext>, maxStemLevel: int, idx: nat, level: nat)
    requires level <= maxStemLevel + 1 && idx >= Pow2(level)
    ensures var height := maxStemLevel + 1 - level;
            FirstLeaf(idx, level, height) >= 0
            && NumberedFrom(ArithmeticShape(stems, maxStemLevel, idx, level), FirstLeaf(idx, level, height), height)
    decreases maxStemLevel + 1 - level
  {
    if level <= maxStemLevel {
      FirstLeafOfChildren(idx, level, maxStemLevel + 1 - level);
      ShapeIsNumbered(stems, maxStemLevel, 2 * idx, level + 1);
      ShapeIsNumbered(stems, maxStemLevel, 2 * idx + 1, level + 1);
    }
  }

  /** What is stored below a node depends only on its own leaves. */
  lemma {:induction false} DependsOnOwnLeaves(n: Node, lo: nat, height: nat, a: seq<Leaf>, b: seq<Leaf>, level: nat, cell: Cell)
    requires NumberedFrom(n, lo, height) && lo + Pow2(height) <= |a| && lo + Pow2(height) <= |b|
    requires forall i :: lo <= i < lo + Pow2(height) ==> a[i] == b[i]
    ensures Entries(n, a) == Entries(n, b)
    ensures |cell| > 0 && Splits(n, a, level, cell) ==> Splits(n, b, level, cell)
    decreases n
  {
    if n.Stem? {
      var half := Pow2(height - 1);
      var c1 := if |cell| > 0 && n.pivot.Fin? then Narrow(cell, DimAt(level, |cell|), n.pivot.v, false) else cell;
      var c2 := if |cell| > 0 && n.pivot.Fin? then Narrow(cell, DimAt(level, |cell|), n.pivot.v, true) else cell;
      DependsOnOwnLeaves(n.left, lo, height - 1, a, b, level + 1, c1);
      DependsOnOwnLeaves(n.right, lo + half, height - 1, a, b, level + 1, c2);
    }
  }

  // ---------------------------------------------------------------- budgets

  /** Position of the highest set bit. */
  function HighestBit(n: nat): nat
    requires n > 0
  {
    if n == 1 then 0 else 1 + HighestBit(n / 2)
  }

  lemma {:induction false} HighestBitBelowPower(n: nat, d: nat)
    requires Pow2(d) <= n < Pow2(d + 1)
    ensures HighestBit(n) == d
    decreases d
  {
    if d > 0 {
      HighestBitBelowPower(n / 2, d - 1);
    }
  }

  /** `soft_left_leaf_budget`: the largest power of two below the budget. */
  function SoftLeftLeafBudget(budget: nat): nat
    requires budget > 1
  {
    Pow2(HighestBit(budget - 1))
  }

  lemma {:induction false} HighestBitIsHighest(n: nat)
    requires n > 0
    ensures Pow2(HighestBit(n)) <= n < 2 * Pow2(HighestBit(n))
  {
    if n > 1 {
      HighestBitIsHighest(n / 2);
    }
  }

  /** No power of two lies between the left budget and the whole. */
  lemma SoftBudgetIsLargestPower(budget: nat)
    requires budget > 1
    ensures exists d: nat :: SoftLeftLeafBudget(budget) == Pow2(d)
    ensures SoftLeftLeafBudget(budget) < budget <= 2 * SoftLeftLeafBudget(budget)
    ensures forall d: nat :: Pow2(d) < budget ==> Pow2(d) <= SoftLeftLeafBudget(budget)
  {
    HighestBitIsHighest(budget - 1);
    var top := HighestBit(budget - 1);
    forall d: nat | Pow2(d) < budget ensures Pow2(d) <= Pow2(top) {
      if d > top {
        Pow2Monotone(top + 1, d);
      } else {
        Pow2Monotone(d, top);
      }
    }
  }

  lemma SoftBudgetHalves(height: nat)
    requires height > 0
    ensures SoftLeftLeafBudget(Pow2(height)) == Pow2(height - 1)
  {
    HighestBitBelowPower(Pow2(height) - 1, height - 1);
  }

  /** `soft_ideal_pivot`: the left budget's share of the chunk, rounded up, at least one. */
  function SoftIdealPivot(chunkLength: nat, leftBudget: nat, budget: nat): (p: nat)
    requires budget > 0
    ensures p <= chunkLength && (chunkLength > 0 ==> p > 0)
  {
    if chunkLength == 0 then 0
    else
      var share := (chunkLength * leftBudget + budget - 1) / budget;
      if share < 1 then 1 else if share > chunkLength then chunkLength else share
  }

  /** With an even budget the ideal pivot is the middle, and neither half outgrows its share. */
  lemma SoftPivotIsMiddle(n: nat, half: nat, b: nat)
    requires half > 0 && n <= b * (2 * half)
    ensures SoftIdealPivot(n, half, 2 * half) == (n + 1) / 2
    ensures (n + 1) / 2 <= b * half
  {
    var q := (n + 1) / 2;
    assert b * (2 * half) == 2 * (b * half);
    var surplus := n - 2 * q + 1;
    assert 0 <= surplus <= 1 && surplus * half <= half;
    assert n * half == (2 * q) * half + surplus * half - half;
    assert (2 * q) * half == (2 * half) * q;
    DivUnique(n * half + 2 * half - 1, 2 * half, q, surplus * half + half - 1);
  }

  // ---------------------------------------------------------------- filling the tree

  ghost predicate NonEmptyCell(cell: Cell) {
    forall d :: 0 <= d < |cell| && cell[d].lo.Some? && cell[d].hi.Some? ==> cell[d].lo.value <= cell[d].hi.value
  }

  ghost predicate UpperBoundsOf(upper: seq<Ext>, cell: Cell) {
    |upper| == |cell|
    && forall d :: 0 <= d < |cell| ==> upper[d] == if cell[d].hi.Some? then Fin(cell[d].hi.value) else Inf
  }

  ghost predicate AllIn(s: seq<Entry>, cell: Cell) {
    forall e :: e in s ==> InCell(e, cell)
  }

  /** A chosen split puts both halves in the narrowed cells. */
  lemma SplitPartitions(s: seq<Entry>, cell: Cell, dim: nat, pivot: nat)
    requires dim < |cell| && pivot < |s| && AllIn(s, cell) && NonEmptyCell(cell)
    requires Selected(s, AxisKey(dim), pivot)
    ensures |s[pivot].point| == |cell|
    ensures var p := s[pivot].point[dim];
            && cell[dim].Contains(p)
            && AllIn(s[..pivot], Narrow(cell, dim, p, false)) && NonEmptyCell(Narrow(cell, dim, p, false))
            && AllIn(s[pivot..], Narrow(cell, dim, p, true)) && NonEmptyCell(Narrow(cell, dim, p, true))
  {
    assert s[pivot] in s;
    var p := s[pivot].point[dim];
    assert cell[dim].Contains(p);
    assert AxisKey(dim)(s[pivot]) == p;
    forall i | 0 <= i < |s| ensures InCell(s[i], Narrow(cell, dim, p, i >= pivot)) {
      assert s[i] in s && InCell(s[i], cell);
      assert AxisKey(dim)(s[i]) == s[i].point[dim];
      forall d | 0 <= d < |cell| ensures Narrow(cell, dim, p, i >= pivot)[d].Contains(s[i].point[d]) {
        assert cell[d].Contains(s[i].point[d]);
      }
    }
    forall e | e in s[..pivot] ensures InCell(e, Narrow(cell, dim, p, false)) {
      var i :| 0 <= i < pivot && s[i] == e;
    }
    forall e | e in s[pivot..] ensures InCell(e, Narrow(cell, dim, p, true)) {
      var i :| pivot <= i < |s| && s[i] == e;
    }
  }

  /** A stem that cannot split stores the upper bound of its cell and sends everything left. */
  lemma UpperBoundPartitions(s: seq<Entry>, cell: Cell, dim: nat)
    requires dim < |cell| && AllIn(s, cell) && NonEmptyCell(cell) && cell[dim].hi.Some?
    ensures var p := cell[dim].hi.value;
            && cell[dim].Contains(p)
            && AllIn(s, Narrow(cell, dim, p, false)) && NonEmptyCell(Narrow(cell, dim, p, false))
            && NonEmptyCell(Narrow(cell, dim, p, true))
  {
    assert Narrow(cell, dim, cell[dim].hi.value, false) == cell;
  }

  /** The subtree built from a chunk: well split, holding exactly the chunk, and built from the
      leaves appended last. */
  ghost predicate Built(stems: seq<Ext>, leaves: seq<Leaf>, maxStemLevel: int, at: Cursor, cell: Cell, chunk: seq<Entry>)
    requires |cell| > 0
  {
    var n := ArithmeticShape(stems, maxStemLevel, at.stemIdx, at.level);
    Splits(n, leaves, at.level, cell) && multiset(Entries(n, leaves)) == multiset(chunk)
  }

  /** A built subtree stays built when stems outside it change and leaves are appended. */
  lemma StaysBuilt(a: seq<Ext>, b: seq<Ext>, la: seq<Leaf>, lb: seq<Leaf>, maxStemLevel: int, at: Cursor, k: nat,
                   cell: Cell, chunk: seq<Entry>)
    requires |cell| > 0 && at.Valid(k) && at.level <= maxStemLevel + 1
    requires Built(a, la, maxStemLevel, at, cell, chunk)
    requires AgreeBelow(a, b, at.stemIdx)
    requires FirstLeaf(at.stemIdx, at.level, maxStemLevel + 1 - at.level) + Pow2(maxStemLevel + 1 - at.level) <= |la|
    requires la <= lb
    ensures Built(b, lb, maxStemLevel, at, cell, chunk)
  {
    ShapeDependsOnBelow(a, b, maxStemLevel, at.stemIdx, at.level);
    ShapeIsNumbered(a, maxStemLevel, at.stemIdx, at.level);
    var height := maxStemLevel + 1 - at.level;
    DependsOnOwnLeaves(ArithmeticShape(a, maxStemLevel, at.stemIdx, at.level),
                       FirstLeaf(at.stemIdx, at.level, height), height, la, lb, at.level, cell);
  }

  /** No leaf appended since `lo` outgrows a bucket. */
  ghost predicate Within(leaves: seq<Leaf>, lo: nat, b: nat) {
    forall i :: lo <= i < |leaves| ==> |leaves[i]| <= b
  }

  /** `populate_recursive_soft`: split the chunk by the level's axis, store the pivot, and fill
      both subtrees; at the bottom append the chunk as a leaf. */
  method PopulateSoft(k: nat, stems0: seq<Ext>, chunk: seq<Entry>, at: Cursor, maxStemLevel: int,
                      leafBudget: nat, leaves0: seq<Leaf>, upper: seq<Ext>, ghost cell: Cell, ghost b: nat)
    returns (stems: seq<Ext>, leaves: seq<Leaf>)
    requires at.Valid(k) && |cell| == k && at.level <= maxStemLevel + 1
    requires leafBudget == Pow2(maxStemLevel + 1 - at.level)
    requires |stems0| >= Pow2(maxStemLevel + 1)
    requires |leaves0| == FirstLeaf(at.stemIdx, at.level, maxStemLevel + 1 - at.level)
    requires AllIn(chunk, cell) && NonEmptyCell(cell) && UpperBoundsOf(upper, cell)
    ensures AgreeOutside(stems0, stems, at.stemIdx)
    ensures leaves0 <= leaves && |leaves| == |leaves0| + leafBudget
    ensures Built(stems, leaves, maxStemLevel, at, cell, chunk)
    ensures TieFree(chunk, k) && |chunk| <= b * leafBudget ==> Within(leaves, |leaves0|, b)
    decreases maxStemLevel + 1 - at.level
  {
    if at.level > maxStemLevel {
      stems, leaves := stems0, leaves0 + [chunk];
      return;
    }
    var height := maxStemLevel + 1 - at.level;
    SoftBudgetHalves(height);
    var leftBudget := SoftLeftLeafBudget(leafBudget);
    var rightBudget := leafBudget - leftBudget;
    var pivot := SoftIdealPivot(|chunk|, leftBudget, leafBudget);
    var sorted := chunk;
    ghost var fits := TieFree(chunk, k) && |chunk| <= b * leafBudget;
    if fits {
      SoftPivotIsMiddle(|chunk|, leftBudget, b);
    }
    if pivot < |chunk| {
      sorted, pivot := UpdatePivot(chunk, AxisKey(at.dim), pivot);
      SameElements(sorted, chunk);
    }
    var pivotValue := upper[at.dim];
    if pivot < |chunk| {
      SplitPartitions(sorted, cell, at.dim, pivot);
      pivotValue := Fin(sorted[pivot].point[at.dim]);
    }
    if fits {
      TieFreePart(sorted, chunk, k);
    }
    stems, leaves := FillChildren(k, stems0, sorted, pivot, pivotValue, at, maxStemLevel,
                                  leftBudget, rightBudget, leaves0, upper, cell, b);
  }

  /** The cells of the two children of a stem with the given pivot. */
  ghost function ChildCell(cell: Cell, dim: nat, pivot: Ext, right: bool): (c: Cell)
    requires dim < |cell|
    ensures |c| == |cell|
  {
    if pivot.Fin? then Narrow(cell, dim, pivot.v, right) else cell
  }

  /** A split of a chunk and the pivot stored for it: a value between the halves, or the upper
      bound of the cell when everything goes left. */
  ghost predicate ProperSplit(chunk: seq<Entry>, pivot: nat, pivotValue: Ext, upper: seq<Ext>, cell: Cell, dim: nat) {
    && dim < |cell| && pivot <= |chunk|
    && NonEmptyCell(cell) && UpperBoundsOf(upper, cell) && AllIn(chunk, cell)
    && (pivot == |chunk| ==> pivotValue == upper[dim])
    && (pivot < |chunk| ==>
          && pivotValue.Fin? && cell[dim].Contains(pivotValue.v)
          && AllIn(chunk[..pivot], Narrow(cell, dim, pivotValue.v, false))
          && AllIn(chunk[pivot..], Narrow(cell, dim, pivotValue.v, true))
          && NonEmptyCell(Narrow(cell, dim, pivotValue.v, false))
          && NonEmptyCell(Narrow(cell, dim, pivotValue.v, true)))
  }

  lemma ChildrenReady(chunk: seq<Entry>, pivot: nat, pivotValue: Ext, upper: seq<Ext>, cell: Cell, dim: nat)
    requires ProperSplit(chunk, pivot, pivotValue, upper, cell, dim)
    ensures var l, r := ChildCell(cell, dim, pivotValue, false), ChildCell(cell, dim, pivotValue, true);
            && AllIn(chunk[..pivot], l) && NonEmptyCell(l) && UpperBoundsOf(upper[dim := pivotValue], l)
            && AllIn(chunk[pivot..], r) && NonEmptyCell(r) && UpperBoundsOf(upper, r)
    ensures pivotValue.Fin? ==> cell[dim].Contains(pivotValue.v)
    ensures pivotValue.Inf? ==> pivot == |chunk|
  {
    if pivot == |chunk| {
      assert chunk[..pivot] == chunk && chunk[pivot..] == [];
      if pivotValue.Fin? {
        UpperBoundPartitions(chunk, cell, dim);
      }
    }
  }

  method FillChildren(k: nat, stems0: seq<Ext>, chunk: seq<Entry>, pivot: nat, pivotValue: Ext, at: Cursor,
                      maxStemLevel: int, leftBudget: nat, rightBudget: nat, leaves0: seq<Leaf>, upper: seq<Ext>,
                      ghost cell: Cell, ghost b: nat)
    returns (stems: seq<Ext>, leaves: seq<Leaf>)
    requires at.Valid(k) && |cell| == k && at.level <= maxStemLevel
    requires leftBudget == rightBudget == Pow2(maxStemLevel - at.level)
    requires |stems0| >= Pow2(maxStemLevel + 1)
    requires |leaves0| == FirstLeaf(at.stemIdx, at.level, maxStemLevel + 1 - at.level)
    requires ProperSplit(chunk, pivot, pivotValue, upper, cell, at.dim)
    ensures AgreeOutside(stems0, stems, at.stemIdx)
    ensures leaves0 <= leaves && |leaves| == |leaves0| + leftBudget + rightBudget
    ensures Built(stems, leaves, maxStemLevel, at, cell, chunk)
    ensures TieFree(chunk, k) && pivot <= b * leftBudget && |chunk| - pivot <= b * rightBudget
            ==> Within(leaves, |leaves0|, b)
    decreases maxStemLevel + 1 - at.level, 1
  {
    Pow2Monotone(at.level + 1, maxStemLevel + 1);
    FirstLeafOfChildren(at.stemIdx, at.level, maxStemLevel + 1 - at.level);
    ChildrenReady(chunk, pivot, pivotValue, upper, cell, at.dim);
    TieFreeCut(chunk, pivot, k);
    ghost var leftCell := ChildCell(cell, at.dim, pivotValue, false);
    var stems1 := stems0[at.stemIdx := pivotValue];
    var stems2, leaves2 := PopulateSoft(k, stems1, chunk[..pivot], at.Child(k, false), maxStemLevel, leftBudget, leaves0,
                                        upper[at.dim := pivotValue], leftCell, b);
    stems, leaves := FillRight(k, stems0, stems2, chunk, pivot, pivotValue, at, maxStemLevel, rightBudget, |leaves0|, leaves2,
                               upper, cell, b);
  }

  /** The right child, after the left one is filled. */
  method FillRight(k: nat, ghost stems0: seq<Ext>, stems2: seq<Ext>, chunk: seq<Entry>, pivot: nat, ghost pivotValue: Ext,
                   at: Cursor, maxStemLevel: int, rightBudget: nat, ghost before: nat, leaves2: seq<Leaf>, upper: seq<Ext>,
                   ghost cell: Cell, ghost b: nat)
    returns (stems: seq<Ext>, leaves: seq<Leaf>)
    requires at.Valid(k) && |cell| == k && at.level <= maxStemLevel && rightBudget == Pow2(maxStemLevel - at.level)
    requires at.stemIdx < |stems0| && |stems0| >= Pow2(maxStemLevel + 1)
    requires AgreeOutside(stems0[at.stemIdx := pivotValue], stems2, 2 * at.stemIdx)
    requires ProperSplit(chunk, pivot, pivotValue, upper, cell, at.dim)
    requires before == FirstLeaf(at.stemIdx, at.level, maxStemLevel + 1 - at.level) && |leaves2| == before + rightBudget
    requires Built(stems2, leaves2, maxStemLevel, at.Child(k, false), ChildCell(cell, at.dim, pivotValue, false), chunk[..pivot])
    ensures AgreeOutside(stems0, stems, at.stemIdx)
    ensures leaves2 <= leaves && |leaves| == |leaves2| + rightBudget
    ensures Built(stems, leaves, maxStemLevel, at, cell, chunk)
    ensures TieFree(chunk, k) && |chunk| - pivot <= b * rightBudget && Within(leaves2, before, b) ==> Within(leaves, before, b)
    decreases maxStemLevel + 1 - at.level, 0
  {
    FirstLeafOfChildren(at.stemIdx, at.level, maxStemLevel + 1 - at.level);
    ChildrenReady(chunk, pivot, pivotValue, upper, cell, at.dim);
    TieFreeCut(chunk, pivot, k);
    ghost var rightCell := ChildCell(cell, at.dim, pivotValue, true);
    stems, leaves := PopulateSoft(k, stems2, chunk[pivot..], at.Child(k, true), maxStemLevel, rightBudget, leaves2, upper,
                                  rightCell, b);
    ChildrenBuilt(k, stems0, stems0[at.stemIdx := pivotValue], stems2, stems, leaves2, leaves, maxStemLevel, at, pivotValue, cell,
                  chunk, pivot);
  }

  lemma ChildrenBuilt(k: nat, stems0: seq<Ext>, stems1: seq<Ext>, stems2: seq<Ext>, stems: seq<Ext>,
                      leaves2: seq<Leaf>, leaves: seq<Leaf>, maxStemLevel: int, at: Cursor, pivotValue: Ext,
                      cell: Cell, chunk: seq<Entry>, pivot: nat)
    requires at.Valid(k) && |cell| == k && at.level <= maxStemLevel && pivot <= |chunk|
    requires at.stemIdx < |stems0| && stems1 == stems0[at.stemIdx := pivotValue]
    requires AgreeOutside(stems1, stems2, 2 * at.stemIdx) && AgreeOutside(stems2, stems, 2 * at.stemIdx + 1)
    requires FirstLeaf(at.stemIdx, at.level, maxStemLevel + 1 - at.level) + Pow2(maxStemLevel - at.level) <= |leaves2|
    requires leaves2 <= leaves
    requires Built(stems2, leaves2, maxStemLevel, at.Child(k, false), ChildCell(cell, at.dim, pivotValue, false), chunk[..pivot])
    requires Built(stems, leaves, maxStemLevel, at.Child(k, true), ChildCell(cell, at.dim, pivotValue, true), chunk[pivot..])
    requires pivotValue.Fin? ==> cell[at.dim].Contains(pivotValue.v)
    requires pivotValue.Inf? ==> pivot == |chunk|
    ensures AgreeOutside(stems0, stems, at.stemIdx)
    ensures Built(stems, leaves, maxStemLevel, at, cell, chunk)
  {
    FirstLeafOfChildren(at.stemIdx, at.level, maxStemLevel + 1 - at.level);
    OnlyBelowChanged(stems0, stems1, stems2, stems, at.stemIdx, pivotValue);
    StaysBuilt(stems2, stems, leaves2, leaves, maxStemLevel, at.Child(k, false), k,
               ChildCell(cell, at.dim, pivotValue, false), chunk[..pivot]);
    StemBuilt(stems, leaves, maxStemLevel, at, k, cell, pivotValue, chunk[..pivot], chunk[pivot..]);
    assert chunk == chunk[..pivot] + chunk[pivot..];
  }

  lemma OnlyBelowChanged(stems0: seq<Ext>, stems1: seq<Ext>, stems2: seq<Ext>, stems: seq<Ext>, idx: nat, pivotValue: Ext)
    requires 0 < idx < |stems0| && stems1 == stems0[idx := pivotValue]
    requires AgreeOutside(stems1, stems2, 2 * idx) && AgreeOutside(stems2, stems, 2 * idx + 1)
    ensures AgreeOutside(stems0, stems, idx) && AgreeBelow(stems2, stems, 2 * idx)
    ensures stems[idx] == pivotValue
  {
    forall i | 0 <= i < |stems|
      ensures !Descends(i, idx) ==> stems0[i] == stems[i]
      ensures Descends(i, 2 * idx) ==> stems2[i] == stems[i]
      ensures i == idx ==> stems[i] == pivotValue
    {
      ChildrenAreDisjoint(i, idx);
    }
  }

  lemma StemBuilt(stems: seq<Ext>, leaves: seq<Leaf>, maxStemLevel: int, at: Cursor, k: nat, cell: Cell, pivotValue: Ext,
                  left: seq<Entry>, right: seq<Entry>)
    requires at.Valid(k) && |cell| == k && at.level <= maxStemLevel && at.stemIdx < |stems|
    requires stems[at.stemIdx] == pivotValue
    requires Built(stems, leaves, maxStemLevel, at.Child(k, false), ChildCell(cell, at.dim, pivotValue, false), left)
    requires Built(stems, leaves, maxStemLevel, at.Child(k, true), ChildCell(cell, at.dim, pivotValue, true), right)
    requires if pivotValue.Fin? then cell[at.dim].Contains(pivotValue.v) else right == []
    ensures Built(stems, leaves, maxStemLevel, at, cell, left + right)
  {
    var n := ArithmeticShape(stems, maxStemLevel, at.stemIdx, at.level);
    assert multiset(Entries(n, leaves)) == multiset(Entries(n.left, leaves)) + multiset(Entries(n.right, leaves));
    if pivotValue.Inf? {
      assert |multiset(Entries(n.right, leaves))| == 0;
    }
  }

  // ---------------------------------------------------------------- the whole tree

  /** `next_power_of_two().ilog2()`: the least depth whose leaves are enough. */
  function StemsDepth(leafCount: nat): (d: nat)
    ensures leafCount <= Pow2(d) && (d > 0 ==> Pow2(d - 1) < leafCount)
  {
    if leafCount <= 1 then 0 else 1 + StemsDepth((leafCount + 1) / 2)
  }

  /** `new_from_source`: whatever the entries, the tree is valid and holds exactly them. Ties
      apart, no leaf outgrows its bucket. */
  method NewFromEntries(entries: seq<Entry>, k: nat, b: nat) returns (t: AQ.Tree)
    requires k > 0 && b > 0 && forall e :: e in entries ==> |e.point| == k
    ensures t.Valid() && t.k == k && t.size == |entries|
    ensures multiset(t.Contents()) == multiset(entries)
    ensures TieFree(entries, k) ==> Within(t.leaves, 0, b)
  {
    var leafCount := LeavesNeeded(|entries|, b);
    if |entries| == 0 {
      return AQ.Tree(k, [], [[]], 0, -1);
    }
    if leafCount < 2 {
      return AQ.Tree(k, [], [entries], |entries|, -1);
    }
    var depth := StemsDepth(leafCount);
    BudgetSuffices(|entries|, b, Pow2(depth));
    var maxStemLevel := depth - 1;
    var stemNodeCount := Pow2(depth + 1);
    var stems := seq((stemNodeCount + 7) / 8 * 8, _ => Inf);
    var leaves;
    Pow2Monotone(depth, depth + 1);
    stems, leaves := PopulateSoft(k, stems, entries, ROOT, maxStemLevel, Pow2(depth), [], seq(k, _ => Inf),
                                  Everywhere(k), b);
    t := AQ.Tree(k, stems, leaves, |entries|, maxStemLevel);
    assert |multiset(t.Contents())| == |multiset(entries)|;
  }
}

/** Building a mutable tree with hard buckets
    (src/kd_tree/construction/mod.rs, `populate_recursive_hard`, `calc_pivot`,
    `mapped_stem_leaf_resolution_from_terminals`, `new_from_source_with`). */
module MutableConstruction {
  import opened Metrics
  import opened KdTree
  import opened Sorting
  import opened Eytzinger
  import opened Construction
  import opened MappedQuery
  import opened MutableShape
  import opened Division
  import IC = ImmutableConstruction

  datatype Result<T> = Ok(value: T) | UnsplittableBucket(splitDim: nat)

  // ---------------------------------------------------------------- pivots

  function NextMultipleOf(x: nat, b: nat): (r: nat)
    requires b > 0
    ensures x <= r < x + b && (x == 0 ==> r == 0) && r % b == 0
  {
    var q := (x + b - 1) / b;
    assert x + b - 1 == b * q + (x + b - 1) % b;
    assert x == 0 ==> q == 0;
    ModUnique(q * b, b, q, 0);
    q * b
  }

  function SaturatingSub(x: nat, y: nat): nat {
    if x < y then 0 else x - y
  }

  function Least(x: nat, y: nat): nat {
    if x < y then x else y
  }

  /** `calc_pivot` for hard buckets: whatever capacity is planned for the right, a chunk that
      does not fit a bucket is cut into two non-empty parts, so the recursion ends, and the left
      part fills whole buckets. */
  function CalcPivot(chunkLength: nat, rightCapacity: nat, b: nat): (pivot: nat)
    requires b > 0
    ensures chunkLength > b ==> 0 < pivot < chunkLength && pivot % b == 0
  {
    ModUnique(b, b, 1, 0);
    var planned := Least(NextMultipleOf(SaturatingSub(chunkLength, rightCapacity), b), chunkLength);
    var result := if planned < Least(b, chunkLength) then Least(b, chunkLength) else planned;
    if result >= chunkLength && result > b
    then Least(NextMultipleOf(SaturatingSub(chunkLength, if rightCapacity < b then b else rightCapacity), b), chunkLength)
    else result
  }

  /** `n` entries fit the capacity planned for them in a subtree with `room` leaves. */
  predicate Roomy(n: nat, capacity: nat, room: nat, b: nat)
    requires b > 0
  {
    n <= b || (n <= capacity <= room * b && capacity % b == 0)
  }

  /** A chunk met at `level` fits the levels planned below it. */
  predicate Planned(n: nat, capacity: nat, level: nat, maxStemLevel: int, b: nat)
    requires b > 0
  {
    n <= b || (level <= maxStemLevel && Roomy(n, capacity, Pow2(maxStemLevel + 1 - level), b))
  }

  lemma MultiplesOf(b: nat, x: nat, y: nat)
    requires b > 0 && x % b == 0 && y % b == 0
    ensures x < y + b ==> x <= y
    ensures x >= y ==> (x - y) % b == 0
  {
    var i, j := x / b, y / b;
    assert x == b * i && y == b * j && x - y == b * (i - j);
    if x >= y {
      ModUnique(x - y, b, i - j, 0);
    } else if i > j {
      MulGrows(b, i - j);
    }
    if x > y {
      assert i > j;
      MulGrows(b, i - j);
    }
  }

  /** The planned pivot leaves room for both parts one level down. */
  lemma PivotKeepsRoom(n: nat, capacity: nat, room: nat, b: nat, leftCapacity: nat, rightCapacity: nat)
    requires n > b > 0 && room > 0 && Roomy(n, capacity, 2 * room, b)
    requires leftCapacity == Least(room * b, capacity) && rightCapacity == SaturatingSub(capacity, leftCapacity)
    ensures Roomy(CalcPivot(n, rightCapacity, b), leftCapacity, room, b)
    ensures Roomy(n - CalcPivot(n, rightCapacity, b), rightCapacity, room, b)
  {
    var full := room * b;
    assert (2 * room) * b == 2 * full;
    ModUnique(full, b, room, 0);
    MulGrows(b, room);
    PivotFits(n, capacity, full, b, CalcPivot(n, rightCapacity, b));
  }

  /** The same for capacities, where `full` is that of one side. */
  lemma PivotFits(n: nat, capacity: nat, full: nat, b: nat, pivot: nat)
    requires n > b > 0 && full >= b && full % b == 0 && n <= capacity <= 2 * full && capacity % b == 0
    requires pivot == CalcPivot(n, SaturatingSub(capacity, Least(full, capacity)), b)
    ensures pivot <= Least(full, capacity) && Least(full, capacity) % b == 0
    ensures var right := SaturatingSub(capacity, Least(full, capacity));
            n - pivot <= b || (n - pivot <= right <= full && right % b == 0)
  {
    if capacity > full {
      MultiplesOf(b, capacity, full);
      MultiplesOf(b, pivot, full);
    }
  }

  lemma PivotKeepsPlan(n: nat, capacity: nat, level: nat, maxStemLevel: int, b: nat,
                       leftCapacity: nat, rightCapacity: nat)
    requires n > b > 0
    requires leftCapacity == Least(Pow2(if maxStemLevel < level then 0 else maxStemLevel - level) * b, capacity)
    requires rightCapacity == SaturatingSub(capacity, leftCapacity)
    ensures Planned(n, capacity, level, maxStemLevel, b) ==>
              && Planned(CalcPivot(n, rightCapacity, b), leftCapacity, level + 1, maxStemLevel, b)
              && Planned(n - CalcPivot(n, rightCapacity, b), rightCapacity, level + 1, maxStemLevel, b)
  {
    if Planned(n, capacity, level, maxStemLevel, b) {
      PivotKeepsRoom(n, capacity, Pow2(maxStemLevel - level), b, leftCapacity, rightCapacity);
    }
  }

  lemma RootIsPlanned(n: nat, b: nat)
    requires n > b > 0
    ensures var leafCount := LeavesNeeded(n, b);
            Planned(n, leafCount * b, 0, IC.StemsDepth(leafCount) - 1, b)
  {
    BudgetSuffices(n, b, LeavesNeeded(n, b));
    RoomForLeaves(n, LeavesNeeded(n, b), Pow2(IC.StemsDepth(LeavesNeeded(n, b))), b);
  }

  lemma RoomForLeaves(n: nat, leafCount: nat, room: nat, b: nat)
    requires b > 0 && n <= b * leafCount && leafCount <= room
    ensures Roomy(n, leafCount * b, room, b)
  {
    ModUnique(leafCount * b, b, leafCount, 0);
    assert room * b == leafCount * b + (room - leafCount) * b;
    assert (room - leafCount) * b >= 0;
  }

  // ---------------------------------------------------------------- what a recursion lays out

  ghost function TipCount(n: Node): (c: nat)
    ensures c > 0
  {
    match n
    case Tip(_) => 1
    case Stem(_, l, r) => TipCount(l) + TipCount(r)
  }

  /** `n` is laid out below stem `idx`: pivots in the stem array, leaves numbered from `lo` and
      listed with their stem indices in `terminals`. */
  ghost predicate Laid(stems: seq<Ext>, terminals: seq<nat>, maxStemLevel: int, n: Node, idx: nat, level: nat, lo: nat)
    decreases n
  {
    match n
    case Tip(i) => i == lo < |terminals| && terminals[lo] == idx
    case Stem(p, l, r) =>
      && level <= maxStemLevel && idx < |stems| && stems[idx] == p
      && Laid(stems, terminals, maxStemLevel, l, 2 * idx, level + 1, lo)
      && Laid(stems, terminals, maxStemLevel, r, 2 * idx + 1, level + 1, lo + TipCount(l))
  }

  ghost predicate KeptBelow(a: seq<Ext>, b: seq<Ext>, idx: nat) {
    |a| <= |b| && forall i :: 0 <= i < |a| && Descends(i, idx) ==> a[i] == b[i]
  }

  ghost predicate KeptOutside(a: seq<Ext>, b: seq<Ext>, idx: nat) {
    |a| <= |b| && forall i :: 0 <= i < |a| && !Descends(i, idx) ==> a[i] == b[i]
  }

  lemma {:induction false} StaysLaid(a: seq<Ext>, b: seq<Ext>, ta: seq<nat>, tb: seq<nat>, la: int, lb: int,
                                     n: Node, idx: nat, level: nat, lo: nat)
    requires idx > 0 && Laid(a, ta, la, n, idx, level, lo)
    requires KeptBelow(a, b, idx) && ta <= tb && la <= lb
    ensures Laid(b, tb, lb, n, idx, level, lo)
    decreases n
  {
    if n.Stem? {
      assert Descends(idx, idx);
      forall i | 0 <= i < |a| ensures Descends(i, 2 * idx) || Descends(i, 2 * idx + 1) ==> Descends(i, idx) {
        ChildrenAreDisjoint(i, idx);
      }
      StaysLaid(a, b, ta, tb, la, lb, n.left, 2 * idx, level + 1, lo);
      StaysLaid(a, b, ta, tb, la, lb, n.right, 2 * idx + 1, level + 1, lo + TipCount(n.left));
    }
  }

  lemma {:induction false} LaidTips(stems: seq<Ext>, terminals: seq<nat>, maxStemLevel: int, n: Node, idx: nat, level: nat, lo: nat)
    requires Laid(stems, terminals, maxStemLevel, n, idx, level, lo)
    ensures lo + TipCount(n) <= |terminals| && Distinct(n)
    ensures forall i :: i in TipSet(n) <==> lo <= i < lo + TipCount(n)
    decreases n
  {
    if n.Stem? {
      LaidTips(stems, terminals, maxStemLevel, n.left, 2 * idx, level + 1, lo);
      LaidTips(stems, terminals, maxStemLevel, n.right, 2 * idx + 1, level + 1, lo + TipCount(n.left));
    }
  }

  /** Terminals lie below their stem and never repeat. */
  lemma {:induction false} LaidTerminals(stems: seq<Ext>, terminals: seq<nat>, maxStemLevel: int, n: Node, idx: nat, level: nat, lo: nat)
    requires idx > 0 && Laid(stems, terminals, maxStemLevel, n, idx, level, lo)
    ensures lo + TipCount(n) <= |terminals|
    ensures forall i :: lo <= i < lo + TipCount(n) ==> Descends(terminals[i], idx) && (n.Stem? ==> terminals[i] != idx)
    ensures forall i, j :: lo <= i < j < lo + TipCount(n) ==> terminals[i] != terminals[j]
    decreases n
  {
    if n.Stem? {
      LaidTerminals(stems, terminals, maxStemLevel, n.left, 2 * idx, level + 1, lo);
      LaidTerminals(stems, terminals, maxStemLevel, n.right, 2 * idx + 1, level + 1, lo + TipCount(n.left));
      forall i | lo <= i < lo + TipCount(n)
        ensures Descends(terminals[i], idx) && terminals[i] != idx
        ensures i < lo + TipCount(n.left) ==> !Descends(terminals[i], 2 * idx + 1)
      {
        ChildrenAreDisjoint(terminals[i], idx);
      }
    }
  }

  /** Terminals lie no further out than the last level allows. */
  lemma {:induction false} LaidBelow(stems: seq<Ext>, terminals: seq<nat>, maxStemLevel: int, n: Node, idx: nat, level: nat, lo: nat)
    requires Laid(stems, terminals, maxStemLevel, n, idx, level, lo) && lo + TipCount(n) <= |terminals|
    requires level <= maxStemLevel + 1 && idx < Pow2(level + 1)
    ensures forall i :: lo <= i < lo + TipCount(n) ==> terminals[i] < Pow2(maxStemLevel + 2)
    decreases n
  {
    if n.Tip? {
      Pow2Monotone(level + 1, maxStemLevel + 2);
    } else {
      LaidBelow(stems, terminals, maxStemLevel, n.left, 2 * idx, level + 1, lo);
      LaidBelow(stems, terminals, maxStemLevel, n.right, 2 * idx + 1, level + 1, lo + TipCount(n.left));
    }
  }

  ghost predicate KeysBelow(m: map<nat, nat>, limit: nat) {
    forall key :: key in m ==> key < limit
  }

  /** The stem indices of a perfect tree with enough leaves. */
  function CompactLimit(leafCount: nat): nat {
    Pow2(IC.StemsDepth(leafCount)) * 2
  }

  /** `m` sends each listed terminal to its position. */
  ghost predicate Indexes(m: map<nat, nat>, terminals: seq<nat>) {
    && (forall i :: 0 <= i < |terminals| ==> terminals[i] in m && m[terminals[i]] == i)
    && (forall key :: key in m ==> m[key] < |terminals| && terminals[m[key]] == key)
  }

  /** Following pivots and the map recovers the layout. */
  lemma {:induction false} LaidIsMapped(stems: seq<Ext>, terminals: seq<nat>, m: map<nat, nat>, maxStemLevel: int,
                                        n: Node, idx: nat, level: nat, lo: nat)
    requires idx > 0 && Laid(stems, terminals, maxStemLevel, n, idx, level, lo) && Indexes(m, terminals)
    requires forall key :: key in m && Descends(key, idx) ==> lo <= m[key] < lo + TipCount(n)
    ensures MappedShape(stems, m, maxStemLevel, idx, level) == n
    ensures Complete(stems, m, maxStemLevel, |terminals|, idx, level)
    decreases n
  {
    LaidTerminals(stems, terminals, maxStemLevel, n, idx, level, lo);
    assert Descends(idx, idx);
    if n.Stem? {
      assert idx !in m;
      var mid := lo + TipCount(n.left);
      LaidTerminals(stems, terminals, maxStemLevel, n.left, 2 * idx, level + 1, lo);
      LaidTerminals(stems, terminals, maxStemLevel, n.right, 2 * idx + 1, level + 1, mid);
      forall key | key in m
        ensures Descends(key, 2 * idx) ==> lo <= m[key] < mid
        ensures Descends(key, 2 * idx + 1) ==> mid <= m[key] < lo + TipCount(n)
      {
        ChildrenAreDisjoint(key, idx);
        assert terminals[m[key]] == key;
      }
      LaidIsMapped(stems, terminals, m, maxStemLevel, n.left, 2 * idx, level + 1, lo);
      LaidIsMapped(stems, terminals, m, maxStemLevel, n.right, 2 * idx + 1, level + 1, mid);
    }
  }

  // ---------------------------------------------------------------- the recursion

  /** What a recursion appends to. */
  datatype Build = Build(stems: seq<Ext>, leaves: seq<Leaf>, terminals: seq<nat>, maxStemLevel: int)

  ghost predicate Extends(before: Build, after: Build, idx: nat) {
    && KeptOutside(before.stems, after.stems, idx)
    && before.leaves <= after.leaves && before.terminals <= after.terminals
    && |after.leaves| == |after.terminals| && before.maxStemLevel <= after.maxStemLevel
  }

  /** Leaves appended since `lo` are non-empty and fit their bucket. */
  ghost predicate Bucketed(leaves: seq<Leaf>, lo: nat, b: nat) {
    forall i :: lo <= i < |leaves| ==> 0 < |leaves[i]| <= b
  }

  ghost predicate Holds(after: Build, n: Node, at: Cursor, lo: nat, cell: Cell, chunk: seq<Entry>)
    requires |cell| > 0
  {
    && Laid(after.stems, after.terminals, after.maxStemLevel, n, at.stemIdx, at.level, lo)
    && lo + TipCount(n) <= |after.leaves|
    && Splits(n, after.leaves, at.level, cell) && multiset(Entries(n, after.leaves)) == multiset(chunk)
  }

  /** More than a bucket of the entries share their coordinate on one axis. */
  ghost predicate Unsplittable(entries: seq<Entry>, b: nat, dim: nat) {
    exists group: seq<Entry> :: |group| > b && multiset(group) <= multiset(entries) && AllEqual(group, AxisKey(dim))
  }

  lemma UnsplittablePart(part: seq<Entry>, rest: seq<Entry>, all: seq<Entry>, b: nat, dim: nat)
    requires multiset(part) + multiset(rest) == multiset(all) && Unsplittable(part, b, dim)
    ensures Unsplittable(all, b, dim)
  {
    var group :| |group| > b && multiset(group) <= multiset(part) && AllEqual(group, AxisKey(dim));
    assert multiset(group) <= multiset(all);
  }

  lemma WholeBuckets(low: seq<Entry>, high: seq<Entry>, chunk: seq<Entry>, k: nat, b: nat)
    requires b > 0 && |low| % b == 0 && TieFree(chunk, k)
    requires multiset(low + high) == multiset(chunk) && |low| + |high| == |chunk|
    ensures TieFree(low, k) && TieFree(high, k)
    ensures LeavesNeeded(|low|, b) + LeavesNeeded(|high|, b) == LeavesNeeded(|chunk|, b)
  {
    TieFreePart(low, chunk, k);
    TieFreePart(high, chunk, k);
    LeavesOfParts(|low|, |high|, b);
  }

  /** The cut of a chunk that does not fit a bucket: around the first entry of the right part,
      or nowhere if the axis has only one value. Ties apart, the parts need no more leaves than
      the chunk, and fit the capacities planned for them. */
  method CutHard(k: nat, b: nat, chunk: seq<Entry>, at: Cursor, maxStemLevel: int, capacity: nat, ghost cell: Cell)
    returns (low: seq<Entry>, high: seq<Entry>, leftCapacity: nat, rightCapacity: nat)
    requires |chunk| > b > 0 && at.dim < k == |cell| && IC.AllIn(chunk, cell) && IC.NonEmptyCell(cell)
    ensures multiset(low + high) == multiset(chunk) && |low| + |high| == |chunk| && low != []
    ensures high == [] ==> Unsplittable(chunk, b, at.dim) && !TieFree(chunk, k)
    ensures high != [] ==> |high[0].point| == k && CutAround(low, high, high[0].point[at.dim], at.dim, cell)
    ensures TieFree(chunk, k) ==>
              && TieFree(low, k) && TieFree(high, k)
              && LeavesNeeded(|low|, b) + LeavesNeeded(|high|, b) == LeavesNeeded(|chunk|, b)
              && BelowSplit(low, at.dim, high[0].point[at.dim])
    ensures TieFree(chunk, k) && Planned(|chunk|, capacity, at.level, maxStemLevel, b) ==>
              && Planned(|low|, leftCapacity, at.level + 1, maxStemLevel, b)
              && Planned(|high|, rightCapacity, at.level + 1, maxStemLevel, b)
  {
    var levelsBelow := if maxStemLevel < at.level then 0 else maxStemLevel - at.level;
    leftCapacity := Least(Pow2(levelsBelow) * b, capacity);
    rightCapacity := SaturatingSub(capacity, leftCapacity);
    low, high := CutAt(k, b, chunk, at.dim, CalcPivot(|chunk|, rightCapacity, b), cell);
    PivotKeepsPlan(|chunk|, capacity, at.level, maxStemLevel, b, leftCapacity, rightCapacity);
  }

  lemma LowIsBelow(s: seq<Entry>, pivot: nat, dim: nat, k: nat)
    requires pivot < |s| && Apart(s, AxisKey(dim), pivot) && dim < k && forall e :: e in s ==> |e.point| == k
    ensures BelowSplit(s[..pivot], dim, s[pivot].point[dim])
  {
    forall e | e in s[..pivot] ensures e.point[dim] < s[pivot].point[dim] {
      var i :| 0 <= i < pivot && s[i] == e;
      assert AxisKey(dim)(s[i]) < AxisKey(dim)(s[pivot]);
    }
  }

  method CutAt(k: nat, b: nat, chunk: seq<Entry>, dim: nat, idealPivot: nat, ghost cell: Cell)
    returns (low: seq<Entry>, high: seq<Entry>)
    requires |chunk| > b > 0 && dim < k == |cell| && IC.AllIn(chunk, cell) && IC.NonEmptyCell(cell)
    requires 0 < idealPivot < |chunk| && idealPivot % b == 0
    ensures multiset(low + high) == multiset(chunk) && |low| + |high| == |chunk| && low != []
    ensures high == [] ==> Unsplittable(chunk, b, dim)
    ensures high != [] ==> |high[0].point| == k && CutAround(low, high, high[0].point[dim], dim, cell)
    ensures TieFree(chunk, k) ==>
              && high != [] && TieFree(low, k) && TieFree(high, k) && |low| == idealPivot
              && LeavesNeeded(|low|, b) + LeavesNeeded(|high|, b) == LeavesNeeded(|chunk|, b)
              && BelowSplit(low, dim, high[0].point[dim])
  {
    var sorted, pivot := UpdatePivot(chunk, AxisKey(dim), idealPivot);
    SameElements(sorted, chunk);
    low, high := sorted[..pivot], sorted[pivot..];
    assert low + high == sorted;
    if pivot < |chunk| {
      IC.SplitPartitions(sorted, cell, dim, pivot);
    } else {
      assert AllEqual(chunk, AxisKey(dim));
    }
    if TieFree(chunk, k) {
      assert NoTies(chunk, AxisKey(dim));
      WholeBuckets(low, high, chunk, k, b);
      LowIsBelow(sorted, pivot, dim, k);
    }
  }

  /** Both parts lie in their halves of the cell. */
  ghost predicate CutAround(low: seq<Entry>, high: seq<Entry>, p: real, dim: nat, cell: Cell)
    requires dim < |cell|
  {
    && cell[dim].Contains(p)
    && IC.AllIn(low, Narrow(cell, dim, p, false)) && IC.NonEmptyCell(Narrow(cell, dim, p, false))
    && IC.AllIn(high, Narrow(cell, dim, p, true)) && IC.NonEmptyCell(Narrow(cell, dim, p, true))
  }

  function Greatest(x: int, y: int): int {
    if x < y then y else x
  }

  /** `populate_recursive_hard`. Ties apart it never fails and uses as few leaves as possible, and
      where the planned capacity suffices it stays above the planned level. */
  method PopulateHard(k: nat, b: nat, before: Build, chunk: seq<Entry>, at: Cursor, maxStemLevel: int, capacity: nat,
                      ghost cell: Cell)
    returns (r: Result<Build>, ghost n: Node)
    requires at.Valid(k) && |cell| == k && b > 0 && chunk != []
    requires |before.leaves| == |before.terminals|
    requires IC.AllIn(chunk, cell) && IC.NonEmptyCell(cell)
    ensures r.Ok? ==> Filled(before, r.value, n, b, at, cell, chunk)
    ensures r.UnsplittableBucket? ==> r.splitDim < k && Unsplittable(chunk, b, r.splitDim)
    ensures TieFree(chunk, k) ==> r.Ok? && TipCount(n) == LeavesNeeded(|chunk|, b)
    ensures TieFree(chunk, k) ==> r.Ok? && Strict(n, r.value.leaves, at.level, k)
    ensures TieFree(chunk, k) && Planned(|chunk|, capacity, at.level, maxStemLevel, b) ==>
              r.Ok? && r.value.maxStemLevel <= Greatest(before.maxStemLevel, maxStemLevel)
    decreases |chunk|, 1
  {
    if |chunk| <= b {
      n := Tip(|before.leaves|);
      r := Ok(before.(leaves := before.leaves + [chunk], terminals := before.terminals + [at.stemIdx]));
      return;
    }
    var low, high, leftCapacity, rightCapacity := CutHard(k, b, chunk, at, maxStemLevel, capacity, cell);
    if high == [] {
      return UnsplittableBucket(at.dim), Tip(0);
    }
    var p := high[0].point[at.dim];
    var start := Start(before, at, p);
    r, n := FillBoth(k, b, before, start, low, high, p, at, maxStemLevel, leftCapacity, rightCapacity, cell);
    if r.UnsplittableBucket? {
      UnsplittableSame(low + high, chunk, b, r.splitDim);
    }
  }

  ghost predicate Filled(before: Build, after: Build, n: Node, b: nat, at: Cursor, cell: Cell, chunk: seq<Entry>)
    requires |cell| > 0
  {
    && Extends(before, after, at.stemIdx)
    && |after.leaves| == |before.leaves| + TipCount(n) && Bucketed(after.leaves, |before.leaves|, b)
    && Holds(after, n, at, |before.leaves|, cell, chunk)
  }

  /** `start` is `before` with the pivot of this stem written. */
  ghost predicate Started(before: Build, start: Build, at: Cursor, p: real) {
    && |before.stems| <= |start.stems| && 0 < at.stemIdx < |start.stems| && start.stems[at.stemIdx] == Fin(p)
    && (forall i :: 0 <= i < |before.stems| && i != at.stemIdx ==> start.stems[i] == before.stems[i])
    && start.leaves == before.leaves && start.terminals == before.terminals
    && before.maxStemLevel <= start.maxStemLevel && at.level <= start.maxStemLevel
  }

  /** Write the pivot of this stem, growing the stem array to hold it. */
  function Start(before: Build, at: Cursor, p: real): (start: Build)
    requires at.stemIdx > 0
    ensures Started(before, start, at, p)
  {
    var stems := if at.stemIdx >= |before.stems|
                 then before.stems + seq(at.stemIdx + 1 - |before.stems|, _ => Inf) else before.stems;
    Build(stems[at.stemIdx := Fin(p)], before.leaves, before.terminals,
          if before.maxStemLevel < at.level then at.level else before.maxStemLevel)
  }

  method FillBoth(k: nat, b: nat, ghost before: Build, start: Build, low: seq<Entry>, high: seq<Entry>, p: real, at: Cursor,
                  maxStemLevel: int, leftCapacity: nat, rightCapacity: nat, ghost cell: Cell)
    returns (r: Result<Build>, ghost n: Node)
    requires at.Valid(k) && |cell| == k && b > 0 && low != [] && high != []
    requires |before.leaves| == |before.terminals| && Started(before, start, at, p)
    requires CutAround(low, high, p, at.dim, cell)
    ensures r.Ok? ==> Filled(before, r.value, n, b, at, cell, low + high)
    ensures r.UnsplittableBucket? ==> r.splitDim < k && Unsplittable(low + high, b, r.splitDim)
    ensures TieFree(low, k) && TieFree(high, k) ==>
              r.Ok? && TipCount(n) == LeavesNeeded(|low|, b) + LeavesNeeded(|high|, b)
    ensures TieFree(low, k) && TieFree(high, k) && BelowSplit(low, at.dim, p) ==>
              r.Ok? && Strict(n, r.value.leaves, at.level, k)
    ensures TieFree(low, k) && TieFree(high, k)
            && Planned(|low|, leftCapacity, at.level + 1, maxStemLevel, b)
            && Planned(|high|, rightCapacity, at.level + 1, maxStemLevel, b) ==>
              r.Ok? && r.value.maxStemLevel <= Greatest(start.maxStemLevel, maxStemLevel)
    decreases |low| + |high|, 0
  {
    ghost var nl, nr;
    r, nl := PopulateHard(k, b, start, low, at.Child(k, false), maxStemLevel, leftCapacity, Narrow(cell, at.dim, p, false));
    n := nl;
    if r.UnsplittableBucket? {
      UnsplittablePart(low, high, low + high, b, r.splitDim);
      return;
    }
    var left := r.value;
    r, nr := PopulateHard(k, b, left, high, at.Child(k, true), maxStemLevel, rightCapacity, Narrow(cell, at.dim, p, true));
    if r.UnsplittableBucket? {
      UnsplittablePart(high, low, low + high, b, r.splitDim);
      return;
    }
    n := Stem(Fin(p), nl, nr);
    BothFilled(before, start, left, r.value, nl, nr, b, at, k, cell, p, low, high);
    BothStrict(start, left, r.value, nl, nr, b, at, k, cell, p, low, high);
  }

  lemma BothStrict(start: Build, left: Build, after: Build, nl: Node, nr: Node, b: nat, at: Cursor, k: nat,
                   cell: Cell, p: real, low: seq<Entry>, high: seq<Entry>)
    requires at.Valid(k) && |cell| == k && |left.leaves| == |left.terminals| && left.leaves <= after.leaves
    requires Filled(start, left, nl, b, at.Child(k, false), Narrow(cell, at.dim, p, false), low)
    ensures Strict(nl, left.leaves, at.level + 1, k) && Strict(nr, after.leaves, at.level + 1, k) && BelowSplit(low, at.dim, p)
            ==> Strict(Stem(Fin(p), nl, nr), after.leaves, at.level, k)
  {
    LaidTips(left.stems, left.terminals, left.maxStemLevel, nl, 2 * at.stemIdx, at.level + 1, |start.leaves|);
    DependsOnTips(nl, left.leaves, after.leaves, at.level + 1, []);
    if Strict(nl, left.leaves, at.level + 1, k) {
      StrictDependsOnTips(nl, left.leaves, after.leaves, at.level + 1, k);
    }
    SameElements(Entries(nl, left.leaves), low);
  }

  lemma UnsplittableSame(part: seq<Entry>, all: seq<Entry>, b: nat, dim: nat)
    requires multiset(part) == multiset(all) && Unsplittable(part, b, dim)
    ensures Unsplittable(all, b, dim)
  {
    UnsplittablePart(part, [], all, b, dim);
  }

  /** What was filled stays so when only other stems change and leaves are appended. */
  lemma StaysHeld(left: Build, after: Build, n: Node, at: Cursor, k: nat, lo: nat, cell: Cell, chunk: seq<Entry>)
    requires |cell| > 0 && at.Valid(k) && Holds(left, n, at, lo, cell, chunk) && |left.leaves| == |left.terminals|
    requires KeptBelow(left.stems, after.stems, at.stemIdx) && left.terminals <= after.terminals
    requires left.leaves <= after.leaves && left.maxStemLevel <= after.maxStemLevel
    ensures Holds(after, n, at, lo, cell, chunk)
  {
    StaysLaid(left.stems, after.stems, left.terminals, after.terminals, left.maxStemLevel, after.maxStemLevel,
              n, at.stemIdx, at.level, lo);
    LaidTips(left.stems, left.terminals, left.maxStemLevel, n, at.stemIdx, at.level, lo);
    DependsOnTips(n, left.leaves, after.leaves, at.level, cell);
  }

  lemma StemHeld(after: Build, nl: Node, nr: Node, at: Cursor, k: nat, lo: nat, cell: Cell, p: real,
                 low: seq<Entry>, high: seq<Entry>)
    requires at.Valid(k) && |cell| == k && cell[at.dim].Contains(p)
    requires at.level <= after.maxStemLevel && at.stemIdx < |after.stems| && after.stems[at.stemIdx] == Fin(p)
    requires Holds(after, nl, at.Child(k, false), lo, Narrow(cell, at.dim, p, false), low)
    requires Holds(after, nr, at.Child(k, true), lo + TipCount(nl), Narrow(cell, at.dim, p, true), high)
    ensures Holds(after, Stem(Fin(p), nl, nr), at, lo, cell, low + high)
  {
    assert multiset(Entries(Stem(Fin(p), nl, nr), after.leaves))
        == multiset(Entries(nl, after.leaves)) + multiset(Entries(nr, after.leaves));
  }

  lemma BothBucketed(left: seq<Leaf>, after: seq<Leaf>, lo: nat, b: nat)
    requires left <= after && Bucketed(left, lo, b) && Bucketed(after, |left|, b)
    ensures Bucketed(after, lo, b)
  {
  }

  /** A stem over two filled children is filled. */
  lemma BothFilled(before: Build, start: Build, left: Build, after: Build, nl: Node, nr: Node, b: nat, at: Cursor, k: nat,
                   cell: Cell, p: real, low: seq<Entry>, high: seq<Entry>)
    requires at.Valid(k) && |cell| == k && cell[at.dim].Contains(p) && |before.leaves| == |before.terminals|
    requires Started(before, start, at, p)
    requires Filled(start, left, nl, b, at.Child(k, false), Narrow(cell, at.dim, p, false), low)
    requires Filled(left, after, nr, b, at.Child(k, true), Narrow(cell, at.dim, p, true), high)
    ensures Filled(before, after, Stem(Fin(p), nl, nr), b, at, cell, low + high)
  {
    OnlyBelowWritten(before.stems, start.stems, left.stems, after.stems, at.stemIdx, Fin(p));
    StaysHeld(left, after, nl, at.Child(k, false), k, |before.leaves|, Narrow(cell, at.dim, p, false), low);
    StemHeld(after, nl, nr, at, k, |before.leaves|, cell, p, low, high);
    BothBucketed(left.leaves, after.leaves, |before.leaves|, b);
  }

  lemma OnlyBelowWritten(before: seq<Ext>, start: seq<Ext>, left: seq<Ext>, after: seq<Ext>, idx: nat, pivot: Ext)
    requires 0 < idx < |start| && |before| <= |start| && start[idx] == pivot
    requires forall i :: 0 <= i < |before| && i != idx ==> start[i] == before[i]
    requires KeptOutside(start, left, 2 * idx) && KeptOutside(left, after, 2 * idx + 1)
    ensures KeptOutside(before, after, idx) && KeptBelow(left, after, 2 * idx)
    ensures after[idx] == pivot
  {
    forall i: nat
      ensures i < |before| && !Descends(i, idx) ==> before[i] == after[i]
      ensures i < |left| && Descends(i, 2 * idx) ==> left[i] == after[i]
      ensures i == idx ==> after[i] == pivot
    {
      ChildrenAreDisjoint(i, idx);
      assert Descends(idx, idx);
    }
  }

  // ---------------------------------------------------------------- the whole tree

  /** `mapped_stem_leaf_resolution_from_terminals`. */
  method MapTerminals(terminals: seq<nat>) returns (m: map<nat, nat>)
    requires forall i, j :: 0 <= i < j < |terminals| ==> terminals[i] != terminals[j]
    ensures Indexes(m, terminals)
  {
    m := map[];
    for i := 0 to |terminals|
      invariant Indexes(m, terminals[..i])
    {
      m := m[terminals[i] := i];
    }
    assert terminals[..|terminals|] == terminals;
  }

  /** A mutable tree is well formed: every walk ends in a leaf of its own, every leaf is
      reached, and no bucket overflows. */
  ghost predicate WellFormed(t: Tree, b: nat) {
    && t.k > 0 && t.maxStemLevel >= -1 && CompleteAt(t, ROOT) && Distinct(t.Shape())
    && (forall i :: 0 <= i < |t.leaves| ==> i in TipSet(t.Shape()))
    && forall i :: 0 <= i < |t.leaves| ==> |t.leaves[i]| <= b
  }

  /** The finished tree. */
  method Resolve(k: nat, b: nat, f: Build, ghost n: Node, ghost entries: seq<Entry>) returns (t: Tree)
    requires k > 0 && f.maxStemLevel >= -1
    requires Holds(f, n, ROOT, 0, Everywhere(k), entries) && |f.leaves| == |f.terminals| == TipCount(n)
    requires Bucketed(f.leaves, 0, b)
    ensures t.k == k && WellFormed(t, b) && t.Valid() && multiset(t.Contents()) == multiset(entries)
    ensures t.leaves == f.leaves && t.maxStemLevel == f.maxStemLevel && t.Shape() == n
    ensures KeysBelow(t.leafIdxMap, Pow2(t.maxStemLevel + 2))
  {
    LaidTerminals(f.stems, f.terminals, f.maxStemLevel, n, 1, 0, 0);
    LaidTips(f.stems, f.terminals, f.maxStemLevel, n, 1, 0, 0);
    LaidBelow(f.stems, f.terminals, f.maxStemLevel, n, 1, 0, 0);
    var m := MapTerminals(f.terminals);
    LaidIsMapped(f.stems, f.terminals, m, f.maxStemLevel, n, 1, 0, 0);
    t := Tree(k, f.stems, m, f.leaves, f.maxStemLevel);
  }

  /** The fewest leaves that can hold `n` entries, no deeper than that many need, and mapped
      within the compact limit. */
  ghost predicate Balanced(t: Tree, n: nat, b: nat)
    requires b > 0
  {
    && |t.leaves| == (if n == 0 then 1 else LeavesNeeded(n, b))
    && (n > 0 ==> t.maxStemLevel < IC.StemsDepth(LeavesNeeded(n, b)))
    && KeysBelow(t.leafIdxMap, CompactLimit(|t.leaves|))
  }

  lemma ShallowIsBalanced(t: Tree, n: nat, b: nat)
    requires n > b > 0 && t.maxStemLevel >= -1 && KeysBelow(t.leafIdxMap, Pow2(t.maxStemLevel + 2))
    ensures |t.leaves| == LeavesNeeded(n, b) && t.maxStemLevel < IC.StemsDepth(|t.leaves|) ==> Balanced(t, n, b)
  {
    if t.maxStemLevel < IC.StemsDepth(|t.leaves|) {
      Pow2Monotone(t.maxStemLevel + 2, IC.StemsDepth(|t.leaves|) + 1);
    }
  }

  /** At most a bucket of entries: one leaf mapped from the root. */
  function OneLeaf(k: nat, b: nat, entries: seq<Entry>): (t: Tree)
    requires k > 0 && b > 0 && |entries| <= b && forall e :: e in entries ==> |e.point| == k
    ensures t.k == k && WellFormed(t, b) && t.Valid() && multiset(t.Contents()) == multiset(entries)
    ensures Balanced(t, |entries|, b)
  {
    if |entries| == 0 then Tree(k, [Inf, Inf], map[1 := 0], [[]], 0) else Tree(k, [], map[1 := 0], [entries], -1)
  }

  /** The stems a build starts from: enough for its leaves, in whole cache lines. */
  function FirstStems(leafCount: nat): seq<Ext>
    requires leafCount >= 2
  {
    var stemNodeCount := Pow2(IC.StemsDepth(leafCount) - 1) + (leafCount - 1) / 2 + 1;
    seq((stemNodeCount + 7) / 8 * 8, _ => Inf)
  }

  /** The stem reached from the root by the bits of a leaf's number, from the highest of `depth`
      bits down to bit `j`. */
  function StemOnPath(leaf: nat, depth: nat, j: nat): nat
    requires j <= depth
    decreases depth - j
  {
    if j == depth then 1 else 2 * StemOnPath(leaf, depth, j + 1) + leaf / Pow2(j) % 2
  }

  lemma {:induction false} PathByDivision(leaf: nat, depth: nat, j: nat)
    requires j <= depth && leaf < Pow2(depth)
    ensures StemOnPath(leaf, depth, j) == Pow2(depth - j) + leaf / Pow2(j)
    decreases depth - j
  {
    if j < depth {
      PathByDivision(leaf, depth, j + 1);
      HalfOfQuotient(leaf, Pow2(j));
    } else {
      DivUnique(leaf, Pow2(depth), 0, leaf);
    }
  }

  lemma HalfOfQuotient(n: nat, k: nat)
    requires k > 0
    ensures n / (2 * k) == n / k / 2
  {
    var x := n / k;
    DivRemainder(n, k);
    DivUnique(n, 2 * k, x / 2, n % k + x % 2 * k);
  }

  /** The stems reach to the one above the last leaf, rounded up to a whole cache line. */
  lemma FirstStemsReachLastLeaf(leafCount: nat)
    requires leafCount >= 2
    ensures var count := StemOnPath(leafCount - 1, IC.StemsDepth(leafCount), 1) + 1;
            |FirstStems(leafCount)| % 8 == 0 && count <= |FirstStems(leafCount)| < count + 8
  {
    PathByDivision(leafCount - 1, IC.StemsDepth(leafCount), 1);
    assert Pow2(1) == 2;
  }

  /** `new_from_source`, mutable: the build fails only if more than a bucket of entries agree
      on some axis; otherwise the tree is valid and holds exactly the entries. Ties apart, it
      succeeds with a balanced tree that is strict at every stem. */
  method NewFromEntries(entries: seq<Entry>, k: nat, b: nat) returns (r: Result<Tree>)
    requires k > 0 && b > 0 && forall e :: e in entries ==> |e.point| == k
    ensures r.Ok? ==> r.value.k == k && WellFormed(r.value, b) && r.value.Valid()
    ensures r.Ok? ==> multiset(r.value.Contents()) == multiset(entries)
    ensures r.UnsplittableBucket? ==> r.splitDim < k && Unsplittable(entries, b, r.splitDim)
    ensures TieFree(entries, k) ==> r.Ok? && Balanced(r.value, |entries|, b)
    ensures TieFree(entries, k) ==> r.Ok? && Strict(r.value.Shape(), r.value.leaves, 0, k)
  {
    var leafCount := LeavesNeeded(|entries|, b);
    if leafCount < 2 {
      return Ok(OneLeaf(k, b, entries));
    }
    var depth := IC.StemsDepth(leafCount);
    var stems := FirstStems(leafCount);
    ghost var n;
    var filled;
    RootIsPlanned(|entries|, b);
    filled, n := PopulateHard(k, b, Build(stems, [], [], -1), entries, ROOT, depth - 1, leafCount * b, Everywhere(k));
    if filled.UnsplittableBucket? {
      return UnsplittableBucket(filled.splitDim);
    }
    var t := Resolve(k, b, filled.value, n, entries);
    ShallowIsBalanced(t, |entries|, b);
    r := Ok(t);
  }
}

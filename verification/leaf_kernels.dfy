/** The nearest-one leaf kernels: wide chunks, lines, a half line and a scalar tail, against
    the plain scan they replace (ultimate_f64_*.rs). Registers are sequences of lanes. */
module LeafKernels {
  import opened Metrics
  import opened Eytzinger
  import opened BitMask

  datatype Best = Best(dist: Ext, item: nat)

  /** The columns of a leaf: one coordinate array per axis, and the items. */
  datatype Columns = Columns(points: seq<seq<real>>, items: seq<nat>) {
    predicate Valid() {
      points != [] && forall d :: 0 <= d < |points| ==> |points[d]| == |items|
    }
  }

  // ---------------------------------------------------------------- the scan

  function Step(best: Best, d: real, item: nat): Best {
    if Fin(d).Lt(best.dist) then Best(Fin(d), item) else best
  }

  function Scan(dists: seq<real>, items: seq<nat>, best: Best): Best
    requires |dists| == |items|
  {
    if dists == [] then best
    else Step(Scan(dists[..|dists| - 1], items[..|items| - 1], best), dists[|dists| - 1], items[|items| - 1])
  }

  /** Scanning one leaf and then another, seeded with the first result, scans both. */
  lemma {:induction false} ScanOfConcat(a: seq<real>, ia: seq<nat>, b: seq<real>, ib: seq<nat>, best: Best)
    requires |a| == |ia| && |b| == |ib|
    ensures Scan(a + b, ia + ib, best) == Scan(b, ib, Scan(a, ia, best))
  {
    if b == [] {
      assert a + b == a && ia + ib == ia;
    } else {
      ScanOfConcat(a, ia, b[..|b| - 1], ib[..|ib| - 1], best);
      assert (a + b)[..|a + b| - 1] == a + b[..|b| - 1];
      assert (ia + ib)[..|ia + ib| - 1] == ia + ib[..|ib| - 1];
    }
  }

  lemma {:induction false} ScanKeeps(dists: seq<real>, items: seq<nat>, best: Best)
    requires |dists| == |items| && forall i :: 0 <= i < |dists| ==> best.dist.Le(Fin(dists[i]))
    ensures Scan(dists, items, best) == best
  {
    if dists != [] {
      ScanKeeps(dists[..|dists| - 1], items[..|items| - 1], best);
    }
  }

  lemma {:induction false} ScanStaysAbove(dists: seq<real>, items: seq<nat>, best: Best, v: real)
    requires |dists| == |items| && Fin(v).Lt(best.dist) && forall i :: 0 <= i < |dists| ==> v < dists[i]
    ensures Fin(v).Lt(Scan(dists, items, best).dist)
  {
    if dists != [] {
      ScanStaysAbove(dists[..|dists| - 1], items[..|items| - 1], best, v);
    }
  }

  ghost predicate LeftmostMin(dists: seq<real>, i: nat) {
    && i < |dists|
    && (forall j :: 0 <= j < |dists| ==> dists[i] <= dists[j])
    && (forall j :: 0 <= j < i ==> dists[i] < dists[j])
  }

  lemma ScanAround(dists: seq<real>, items: seq<nat>, best: Best, i: nat)
    requires |dists| == |items| && i < |dists|
    ensures Scan(dists, items, best)
         == Scan(dists[i + 1..], items[i + 1..], Step(Scan(dists[..i], items[..i], best), dists[i], items[i]))
  {
    var low, lowItems := dists[..i + 1], items[..i + 1];
    assert low[..i] == dists[..i] && lowItems[..i] == items[..i];
    ScanOfConcat(low, lowItems, dists[i + 1..], items[i + 1..], best);
    assert dists == low + dists[i + 1..] && items == lowItems + items[i + 1..];
  }

  /** A scan that improves ends at the leftmost minimum. */
  lemma ScanFindsLeftmost(dists: seq<real>, items: seq<nat>, best: Best, i: nat)
    requires |dists| == |items| && LeftmostMin(dists, i) && Fin(dists[i]).Lt(best.dist)
    ensures Scan(dists, items, best) == Best(Fin(dists[i]), items[i])
  {
    ScanAround(dists, items, best, i);
    ScanStaysAbove(dists[..i], items[..i], best, dists[i]);
    ScanKeeps(dists[i + 1..], items[i + 1..], Best(Fin(dists[i]), items[i]));
  }

  /** The distance after a scan is the least of the incoming one and all scanned ones, in
      whatever order they come. */
  lemma {:induction false} ScanIsMinimum(dists: seq<real>, items: seq<nat>, best: Best)
    requires |dists| == |items|
    ensures var r := Scan(dists, items, best).dist;
            && r.Le(best.dist) && (forall d :: d in dists ==> r.Le(Fin(d)))
            && (r == best.dist || exists d :: d in dists && r == Fin(d))
  {
    if dists != [] {
      var front := dists[..|dists| - 1];
      ScanIsMinimum(front, items[..|items| - 1], best);
      StepIsMinimum(dists, front, items[|items| - 1], Scan(front, items[..|items| - 1], best), best.dist);
    }
  }

  lemma StepIsMinimum(dists: seq<real>, front: seq<real>, item: nat, b: Best, d0: Ext)
    requires dists != [] && front == dists[..|dists| - 1] && b.dist.Le(d0) && forall d :: d in front ==> b.dist.Le(Fin(d))
    requires b.dist == d0 || exists d :: d in front && b.dist == Fin(d)
    ensures var r := Step(b, dists[|dists| - 1], item).dist;
            && r.Le(d0) && (forall d :: d in dists ==> r.Le(Fin(d)))
            && (r == d0 || exists d :: d in dists && r == Fin(d))
  {
    var last := dists[|dists| - 1];
    assert dists == front + [last] && last in dists;
  }

  // ---------------------------------------------------------------- distances

  /** Distance of entry `idx` over the first `n` axes, accumulated in axis order. */
  function DistTo(m: Metric, leaf: Columns, q: seq<real>, idx: nat, n: nat): real
    requires leaf.Valid() && 0 < n <= |leaf.points| == |q| && idx < |leaf.items| && Additive(m)
  {
    var delta := leaf.points[n - 1][idx] - q[n - 1];
    if n == 1 then Dist1(m, delta, 0.0) else DistTo(m, leaf, q, idx, n - 1) + Dist1(m, delta, 0.0)
  }

  function DistAt(m: Metric, leaf: Columns, q: seq<real>, idx: nat): real
    requires leaf.Valid() && |leaf.points| == |q| && idx < |leaf.items| && Additive(m)
  {
    DistTo(m, leaf, q, idx, |q|)
  }

  function Dists(m: Metric, leaf: Columns, q: seq<real>, lo: nat, hi: nat): (r: seq<real>)
    requires leaf.Valid() && |leaf.points| == |q| && lo <= hi <= |leaf.items| && Additive(m)
    ensures |r| == hi - lo && forall i :: 0 <= i < hi - lo ==> r[i] == DistAt(m, leaf, q, lo + i)
  {
    seq(hi - lo, i requires 0 <= i < hi - lo => DistAt(m, leaf, q, lo + i))
  }

  // ---------------------------------------------------------------- lane arithmetic

  type Reg = seq<real>

  function Load(column: seq<real>, at: nat, width: nat): (r: Reg)
    requires at + width <= |column|
    ensures |r| == width && forall i :: 0 <= i < width ==> r[i] == column[at + i]
  {
    column[at..at + width]
  }

  function SubSplat(a: Reg, x: real): (r: Reg)
    ensures |r| == |a| && forall i :: 0 <= i < |a| ==> r[i] == a[i] - x
  {
    seq(|a|, i requires 0 <= i < |a| => a[i] - x)
  }

  function InitReg(m: Metric, delta: Reg): (r: Reg)
    ensures |r| == |delta| && forall i :: 0 <= i < |delta| ==> r[i] == Dist1(m, delta[i], 0.0)
  {
    seq(|delta|, i requires 0 <= i < |delta| => Dist1(m, delta[i], 0.0))
  }

  function AccumReg(m: Metric, acc: Reg, delta: Reg): (r: Reg)
    requires |acc| == |delta|
    ensures |r| == |acc| && forall i :: 0 <= i < |acc| ==> r[i] == acc[i] + Dist1(m, delta[i], 0.0)
  {
    seq(|acc|, i requires 0 <= i < |acc| => acc[i] + Dist1(m, delta[i], 0.0))
  }

  /** The distances of `width` consecutive entries, axis by axis. */
  function DistReg(m: Metric, leaf: Columns, q: seq<real>, at: nat, width: nat, n: nat): (r: Reg)
    requires leaf.Valid() && 0 < n <= |leaf.points| == |q| && at + width <= |leaf.items| && Additive(m)
    ensures |r| == width
  {
    var delta := SubSplat(Load(leaf.points[n - 1], at, width), q[n - 1]);
    if n == 1 then InitReg(m, delta) else AccumReg(m, DistReg(m, leaf, q, at, width, n - 1), delta)
  }

  lemma {:induction false} DistRegLanes(m: Metric, leaf: Columns, q: seq<real>, at: nat, width: nat, n: nat)
    requires leaf.Valid() && 0 < n <= |leaf.points| == |q| && at + width <= |leaf.items| && Additive(m)
    ensures forall i :: 0 <= i < width ==> DistReg(m, leaf, q, at, width, n)[i] == DistTo(m, leaf, q, at + i, n)
  {
    if n > 1 {
      DistRegLanes(m, leaf, q, at, width, n - 1);
    }
  }

  function LessLanes(a: Reg, best: Ext): (r: seq<bool>)
    ensures |r| == |a| && forall i :: 0 <= i < |a| ==> r[i] == Fin(a[i]).Lt(best)
  {
    seq(|a|, i requires 0 <= i < |a| => Fin(a[i]).Lt(best))
  }

  function EqualLanes(a: Reg, x: real): (r: seq<bool>)
    ensures |r| == |a| && forall i :: 0 <= i < |a| ==> r[i] == (a[i] == x)
  {
    seq(|a|, i requires 0 <= i < |a| => a[i] == x)
  }

  function MinReg(a: Reg, b: Reg): (r: Reg)
    requires |a| == |b|
    ensures |r| == |a| && forall i :: 0 <= i < |a| ==> r[i] == if a[i] < b[i] then a[i] else b[i]
  {
    seq(|a|, i requires 0 <= i < |a| => if a[i] < b[i] then a[i] else b[i])
  }

  /** Lane counts of the registers used. */
  predicate Width(w: nat) {
    w == 2 || w == 4 || w == 8
  }

  /** Fold the upper half onto the lower half until one lane is left. */
  function HorizontalMin(a: Reg): real
    requires |a| == 1 || Width(|a|)
    decreases |a|
  {
    if |a| == 1 then a[0] else HorizontalMin(MinReg(a[..|a| / 2], a[|a| / 2..]))
  }

  ghost predicate IsMin(v: real, a: seq<real>) {
    v in a && forall x :: x in a ==> v <= x
  }

  lemma MinOfHalves(v: real, a: Reg, b: Reg)
    requires |a| == |b| && IsMin(v, MinReg(a, b))
    ensures IsMin(v, a + b)
  {
    var r := MinReg(a, b);
    var i :| 0 <= i < |r| && r[i] == v;
    assert v == (a + b)[i] || v == (a + b)[|a| + i];
    forall x | x in a + b ensures v <= x {
      var j :| 0 <= j < |a + b| && (a + b)[j] == x;
      assert r[if j < |a| then j else j - |a|] in r;
    }
  }

  lemma {:induction false} HorizontalMinIsMin(a: Reg)
    requires |a| == 1 || Width(|a|)
    ensures IsMin(HorizontalMin(a), a)
    decreases |a|
  {
    if |a| > 1 {
      var lo, hi := a[..|a| / 2], a[|a| / 2..];
      HorizontalMinIsMin(MinReg(lo, hi));
      MinOfHalves(HorizontalMin(a), lo, hi);
      assert a == lo + hi;
    }
  }

  lemma TreeMinIsMin(d0: Reg, d1: Reg, d2: Reg, d3: Reg)
    requires Width(|d0|) && |d0| == |d1| == |d2| == |d3|
    ensures IsMin(HorizontalMin(MinReg(MinReg(d0, d1), MinReg(d2, d3))), d0 + d1 + d2 + d3)
  {
    var lo, hi := MinReg(d0, d1), MinReg(d2, d3);
    var v := HorizontalMin(MinReg(lo, hi));
    HorizontalMinIsMin(MinReg(lo, hi));
    MinOfHalves(v, lo, hi);
    MinOfBoth(v, lo, hi, d0 + d1, d2 + d3, d0, d1, d2, d3);
    assert d0 + d1 + d2 + d3 == (d0 + d1) + (d2 + d3);
  }

  lemma MinOfBoth(v: real, lo: Reg, hi: Reg, a: seq<real>, b: seq<real>, d0: Reg, d1: Reg, d2: Reg, d3: Reg)
    requires IsMin(v, lo + hi) && |d0| == |d1| == |d2| == |d3|
    requires lo == MinReg(d0, d1) && hi == MinReg(d2, d3) && a == d0 + d1 && b == d2 + d3
    ensures IsMin(v, a + b)
  {
    assert forall y :: y in lo || y in hi ==> y in lo + hi;
    forall x | x in a + b ensures v <= x {
      if x in a {
        LanesAbove(v, d0, d1, x);
      } else {
        LanesAbove(v, d2, d3, x);
      }
    }
    if v in lo {
      LaneOfEither(v, d0, d1);
    } else {
      LaneOfEither(v, d2, d3);
    }
  }

  lemma LanesAbove(v: real, a: Reg, b: Reg, x: real)
    requires |a| == |b| && x in a + b && forall y :: y in MinReg(a, b) ==> v <= y
    ensures v <= x
  {
    var j :| 0 <= j < |a + b| && (a + b)[j] == x;
    assert MinReg(a, b)[if j < |a| then j else j - |a|] in MinReg(a, b);
  }

  lemma LaneOfEither(v: real, a: Reg, b: Reg)
    requires |a| == |b| && v in MinReg(a, b)
    ensures v in a + b
  {
    var i :| 0 <= i < |a| && MinReg(a, b)[i] == v;
    assert (a + b)[i] == a[i] && (a + b)[|a| + i] == b[i];
  }

  // ---------------------------------------------------------------- updating the best

  lemma MaskOfNone(lanes: seq<bool>)
    ensures Mask(lanes) == 0 <==> forall i :: 0 <= i < |lanes| ==> !lanes[i]
  {
    LowestBitIsFirstLane(lanes);
  }

  /** The index read off the equality mask is the leftmost minimum, and it improves. */
  lemma MaskFindsLeftmost(d: seq<real>, v: real, best: Ext)
    requires IsMin(v, d) && exists i :: 0 <= i < |d| && Fin(d[i]).Lt(best)
    ensures Mask(EqualLanes(d, v)) != 0
    ensures var i := TrailingZeros(Mask(EqualLanes(d, v)));
            LeftmostMin(d, i) && d[i] == v && Fin(v).Lt(best)
  {
    var lanes := EqualLanes(d, v);
    LowestBitIsFirstLane(lanes);
    var j :| 0 <= j < |d| && d[j] == v;
    assert lanes[j];
    var i := FirstTrue(lanes);
    forall x | 0 <= x < |d| ensures v <= d[x] && (x < i ==> v < d[x]) {
      assert d[x] in d;
    }
  }

  ghost predicate NoneBelow(d: seq<real>, best: Ext) {
    forall i :: 0 <= i < |d| ==> best.Le(Fin(d[i]))
  }

  lemma NoneLess(d: Reg, best: Ext)
    ensures Mask(LessLanes(d, best)) == 0 <==> NoneBelow(d, best)
  {
    MaskOfNone(LessLanes(d, best));
    if NoneBelow(d, best) {
      assert forall i :: 0 <= i < |d| ==> !LessLanes(d, best)[i];
    } else {
      var i :| 0 <= i < |d| && !best.Le(Fin(d[i]));
      assert LessLanes(d, best)[i];
    }
  }

  /** With an improvement among the lanes, the least lane and its index are what a scan finds. */
  lemma ImprovedScan(d: seq<real>, its: seq<nat>, best: Best, v: real) returns (i: nat)
    requires |d| == |its| && IsMin(v, d) && !NoneBelow(d, best.dist)
    ensures Mask(EqualLanes(d, v)) != 0 && i == TrailingZeros(Mask(EqualLanes(d, v))) && i < |d|
    ensures Scan(d, its, best) == Best(Fin(v), its[i])
  {
    MaskFindsLeftmost(d, v, best.dist);
    i := TrailingZeros(Mask(EqualLanes(d, v)));
    ScanFindsLeftmost(d, its, best, i);
  }

  /** `update_best_line_*`: one register of distances. */
  method UpdateBestLine(d0: Reg, items: seq<nat>, base: nat, best: Best) returns (r: Best)
    requires Width(|d0|) && base + |d0| <= |items|
    ensures r == Scan(d0, items[base..base + |d0|], best)
  {
    ghost var its := items[base..base + |d0|];
    NoneLess(d0, best.dist);
    var m0 := Mask(LessLanes(d0, best.dist));
    if m0 == 0 {
      ScanKeeps(d0, its, best);
      return best;
    }
    var lineMin := HorizontalMin(d0);
    HorizontalMinIsMin(d0);
    var idx := TrailingZeros(Mask(EqualLanes(d0, lineMin)));
    ghost var i := ImprovedScan(d0, its, best, lineMin);
    return Best(Fin(lineMin), items[base + idx]);
  }

  /** The merged mask of four registers is the mask of all their lanes. */
  function Combined(e0: nat, e1: nat, e2: nat, e3: nat, width: nat): nat {
    BitOr(BitOr(BitOr(e0, Shl32(e1, width)), Shl32(e2, 2 * width)), Shl32(e3, 3 * width))
  }

  lemma CombinedLanes(b0: seq<bool>, b1: seq<bool>, b2: seq<bool>, b3: seq<bool>)
    requires Width(|b0|) && |b0| == |b1| == |b2| == |b3|
    ensures Combined(Mask(b0), Mask(b1), Mask(b2), Mask(b3), |b0|) == Mask(b0 + b1 + b2 + b3)
  {
    MergeConcatenates(b0, b1);
    MergeConcatenates(b0 + b1, b2);
    MergeConcatenates(b0 + b1 + b2, b3);
  }

  lemma EqualLanesOfConcat(d0: Reg, d1: Reg, d2: Reg, d3: Reg, v: real)
    ensures EqualLanes(d0 + d1 + d2 + d3, v) == EqualLanes(d0, v) + EqualLanes(d1, v) + EqualLanes(d2, v) + EqualLanes(d3, v)
  {
  }

  lemma AnyLess(d0: Reg, d1: Reg, d2: Reg, d3: Reg, best: Ext)
    ensures var m0, m1, m2, m3 := Mask(LessLanes(d0, best)), Mask(LessLanes(d1, best)),
                                  Mask(LessLanes(d2, best)), Mask(LessLanes(d3, best));
            var d := d0 + d1 + d2 + d3;
            BitOr(BitOr(BitOr(m0, m1), m2), m3) == 0 <==> NoneBelow(d, best)
  {
    var m0, m1, m2, m3 := Mask(LessLanes(d0, best)), Mask(LessLanes(d1, best)),
                          Mask(LessLanes(d2, best)), Mask(LessLanes(d3, best));
    OrIsZero(m0, m1);
    OrIsZero(BitOr(m0, m1), m2);
    OrIsZero(BitOr(BitOr(m0, m1), m2), m3);
    NoneLess(d0, best);
    NoneLess(d1, best);
    NoneLess(d2, best);
    NoneLess(d3, best);
    InAll(d0, d1, d2, d3, best);
  }

  lemma NoneBelowEither(a: seq<real>, b: seq<real>, best: Ext)
    ensures NoneBelow(a + b, best) <==> NoneBelow(a, best) && NoneBelow(b, best)
  {
    if NoneBelow(a + b, best) {
      assert forall i :: 0 <= i < |a| ==> a[i] == (a + b)[i];
      assert forall i :: 0 <= i < |b| ==> b[i] == (a + b)[|a| + i];
    }
  }

  lemma InAll(d0: Reg, d1: Reg, d2: Reg, d3: Reg, best: Ext)
    ensures NoneBelow(d0 + d1 + d2 + d3, best) <==>
            NoneBelow(d0, best) && NoneBelow(d1, best) && NoneBelow(d2, best) && NoneBelow(d3, best)
  {
    NoneBelowEither(d0, d1, best);
    NoneBelowEither(d0 + d1, d2, best);
    NoneBelowEither(d0 + d1 + d2, d3, best);
  }

  lemma ChunkMask(d0: Reg, d1: Reg, d2: Reg, d3: Reg, v: real)
    requires Width(|d0|) && |d0| == |d1| == |d2| == |d3|
    ensures Combined(Mask(EqualLanes(d0, v)), Mask(EqualLanes(d1, v)), Mask(EqualLanes(d2, v)), Mask(EqualLanes(d3, v)), |d0|)
         == Mask(EqualLanes(d0 + d1 + d2 + d3, v))
  {
    CombinedLanes(EqualLanes(d0, v), EqualLanes(d1, v), EqualLanes(d2, v), EqualLanes(d3, v));
    EqualLanesOfConcat(d0, d1, d2, d3, v);
  }

  /** The early exit of a chunk: some lane of the four registers improves. */
  method AnyImproves(d0: Reg, d1: Reg, d2: Reg, d3: Reg, best: Ext) returns (any: bool)
    ensures any <==> !NoneBelow(d0 + d1 + d2 + d3, best)
  {
    var m0, m1, m2, m3 := Mask(LessLanes(d0, best)), Mask(LessLanes(d1, best)),
                          Mask(LessLanes(d2, best)), Mask(LessLanes(d3, best));
    AnyLess(d0, d1, d2, d3, best);
    any := BitOr(BitOr(BitOr(m0, m1), m2), m3) != 0;
  }

  /** The lane min-tree of a chunk. */
  method ChunkMin(d0: Reg, d1: Reg, d2: Reg, d3: Reg) returns (v: real)
    requires Width(|d0|) && |d0| == |d1| == |d2| == |d3|
    ensures IsMin(v, d0 + d1 + d2 + d3)
  {
    TreeMinIsMin(d0, d1, d2, d3);
    v := HorizontalMin(MinReg(MinReg(d0, d1), MinReg(d2, d3)));
  }

  /** The merged equality mask of a chunk. */
  method MergedMask(d0: Reg, d1: Reg, d2: Reg, d3: Reg, v: real) returns (combined: nat)
    requires Width(|d0|) && |d0| == |d1| == |d2| == |d3|
    ensures combined == Mask(EqualLanes(d0 + d1 + d2 + d3, v))
  {
    var eq0, eq1 := Mask(EqualLanes(d0, v)), Mask(EqualLanes(d1, v));
    var eq2, eq3 := Mask(EqualLanes(d2, v)), Mask(EqualLanes(d3, v));
    ChunkMask(d0, d1, d2, d3, v);
    combined := Combined(eq0, eq1, eq2, eq3, |d0|);
  }

  /** `update_best_chunk_*`: four registers of distances. */
  method UpdateBestChunk(d0: Reg, d1: Reg, d2: Reg, d3: Reg, items: seq<nat>, base: nat, best: Best) returns (r: Best)
    requires Width(|d0|) && |d0| == |d1| == |d2| == |d3| && base + 4 * |d0| <= |items|
    ensures r == Scan(d0 + d1 + d2 + d3, items[base..base + 4 * |d0|], best)
  {
    ghost var its := items[base..base + 4 * |d0|];
    var any := AnyImproves(d0, d1, d2, d3, best.dist);
    if !any {
      ScanKeeps(d0 + d1 + d2 + d3, its, best);
      return best;
    }
    var chunkMin := ChunkMin(d0, d1, d2, d3);
    var combined := MergedMask(d0, d1, d2, d3, chunkMin);
    ghost var i := ImprovedScan(d0 + d1 + d2 + d3, its, best, chunkMin);
    var idx := TrailingZeros(combined);
    return Best(Fin(chunkMin), items[base + idx]);
  }

  // ---------------------------------------------------------------- phases

  /** One leaf, one query, a metric, and the width of `usize`. */
  datatype Job = Job(m: Metric, leaf: Columns, q: seq<real>, wordBits: nat) {
    ghost predicate Valid() {
      && Additive(m) && leaf.Valid() && |leaf.points| == |q|
      && wordBits > 5 && |leaf.items| < Pow2(wordBits)
    }

    function Len(): nat {
      |leaf.items|
    }

    /** The scan of the first `n` entries. */
    ghost function ScanTo(n: nat, best: Best): Best
      requires Valid() && n <= Len()
    {
      Scan(Dists(m, leaf, q, 0, n), leaf.items[..n], best)
    }
  }

  lemma ScanFurther(j: Job, a: nat, b: nat, best: Best)
    requires j.Valid() && a <= b <= j.Len()
    ensures Scan(Dists(j.m, j.leaf, j.q, a, b), j.leaf.items[a..b], j.ScanTo(a, best)) == j.ScanTo(b, best)
  {
    var d, e := Dists(j.m, j.leaf, j.q, 0, a), Dists(j.m, j.leaf, j.q, a, b);
    ScanOfConcat(d, j.leaf.items[..a], e, j.leaf.items[a..b], best);
    assert d + e == Dists(j.m, j.leaf, j.q, 0, b);
    assert j.leaf.items[..a] + j.leaf.items[a..b] == j.leaf.items[..b];
  }

  lemma RegIsDists(j: Job, at: nat, width: nat)
    requires j.Valid() && at + width <= j.Len()
    ensures DistReg(j.m, j.leaf, j.q, at, width, |j.q|) == Dists(j.m, j.leaf, j.q, at, at + width)
  {
    DistRegLanes(j.m, j.leaf, j.q, at, width, |j.q|);
  }

  lemma RegsAreDists(j: Job, a: nat, b: nat, c: nat, d: nat, e: nat, width: nat)
    requires j.Valid() && a + width == b && b + width == c && c + width == d && d + width == e <= j.Len()
    ensures DistReg(j.m, j.leaf, j.q, a, width, |j.q|) + DistReg(j.m, j.leaf, j.q, b, width, |j.q|)
          + DistReg(j.m, j.leaf, j.q, c, width, |j.q|) + DistReg(j.m, j.leaf, j.q, d, width, |j.q|)
         == Dists(j.m, j.leaf, j.q, a, e)
  {
    RegIsDists(j, a, width);
    RegIsDists(j, b, width);
    RegIsDists(j, c, width);
    RegIsDists(j, d, width);
    FourDists(j, a, b, c, d, e);
  }

  lemma FourDists(j: Job, a: nat, b: nat, c: nat, d: nat, e: nat)
    requires j.Valid() && a <= b <= c <= d <= e <= j.Len()
    ensures Dists(j.m, j.leaf, j.q, a, b) + Dists(j.m, j.leaf, j.q, b, c) + Dists(j.m, j.leaf, j.q, c, d)
          + Dists(j.m, j.leaf, j.q, d, e) == Dists(j.m, j.leaf, j.q, a, e)
  {
    DistsJoin(j, a, b, c);
    DistsJoin(j, a, c, d);
    DistsJoin(j, a, d, e);
  }

  lemma DistsJoin(j: Job, a: nat, b: nat, c: nat)
    requires j.Valid() && a <= b <= c <= j.Len()
    ensures Dists(j.m, j.leaf, j.q, a, b) + Dists(j.m, j.leaf, j.q, b, c) == Dists(j.m, j.leaf, j.q, a, c)
  {
  }

  /** The chunk phase: whole chunks of four registers, loading nothing past the end. */
  method Chunks(j: Job, width: nat, bits: nat, best0: Best) returns (base: nat, best: Best)
    requires j.Valid() && Width(width) && bits <= 5 && Pow2(bits) == 4 * width
    ensures base <= j.Len() < base + 4 * width && best == j.ScanTo(base, best0)
  {
    var fullChunksLen := RoundDown(j.Len(), bits, j.wordBits);
    ghost var chunks := RoundDownIsMultiple(j.Len(), bits, j.wordBits);
    ghost var done := 0;
    base, best := 0, best0;
    while base != fullChunksLen
      invariant base == 4 * width * done && done <= chunks && base <= fullChunksLen
      invariant best == j.ScanTo(base, best0)
      decreases chunks - done
    {
      NextChunk(4 * width, done, chunks);
      best := ChunkAt(j, width, base, best);
      ScanFurther(j, base, base + 4 * width, best0);
      base := base + 4 * width;
      done := done + 1;
    }
  }

  lemma NextChunk(chunk: nat, done: nat, chunks: nat)
    requires done <= chunks && chunk * done != chunk * chunks
    ensures done < chunks && chunk * done + chunk == chunk * (done + 1) <= chunk * chunks
  {
    assert chunk * (chunks - done - 1) >= 0;
  }

  method ChunkAt(j: Job, width: nat, base: nat, best: Best) returns (r: Best)
    requires j.Valid() && Width(width) && base + 4 * width <= j.Len()
    ensures r == Scan(Dists(j.m, j.leaf, j.q, base, base + 4 * width), j.leaf.items[base..base + 4 * width], best)
  {
    var d0 := DistReg(j.m, j.leaf, j.q, base, width, |j.q|);
    var d1 := DistReg(j.m, j.leaf, j.q, base + width, width, |j.q|);
    var d2 := DistReg(j.m, j.leaf, j.q, base + 2 * width, width, |j.q|);
    var d3 := DistReg(j.m, j.leaf, j.q, base + 3 * width, width, |j.q|);
    RegsAreDists(j, base, base + width, base + 2 * width, base + 3 * width, base + 4 * width, width);
    r := UpdateBestChunk(d0, d1, d2, d3, j.leaf.items, base, best);
  }

  method LineAt(j: Job, width: nat, base: nat, best: Best) returns (r: Best)
    requires j.Valid() && Width(width) && base + width <= j.Len()
    ensures r == Scan(Dists(j.m, j.leaf, j.q, base, base + width), j.leaf.items[base..base + width], best)
  {
    RegIsDists(j, base, width);
    r := UpdateBestLine(DistReg(j.m, j.leaf, j.q, base, width, |j.q|), j.leaf.items, base, best);
  }

  /** The line phase: whole single registers. */
  method Lines(j: Job, width: nat, bits: nat, fullChunksLen: nat, best1: Best, ghost best0: Best)
    returns (base: nat, best: Best)
    requires j.Valid() && Width(width) && bits <= 5 && Pow2(bits) == width
    requires fullChunksLen <= j.Len() && best1 == j.ScanTo(fullChunksLen, best0)
    ensures base <= j.Len() < base + width && best == j.ScanTo(base, best0)
  {
    var fullLinesLen := fullChunksLen + RoundDown(j.Len() - fullChunksLen, bits, j.wordBits);
    ghost var lines := RoundDownIsMultiple(j.Len() - fullChunksLen, bits, j.wordBits);
    ghost var done := 0;
    base, best := fullChunksLen, best1;
    while base != fullLinesLen
      invariant base == fullChunksLen + width * done && done <= lines && base <= fullLinesLen
      invariant best == j.ScanTo(base, best0)
      decreases lines - done
    {
      NextChunk(width, done, lines);
      best := LineAt(j, width, base, best);
      ScanFurther(j, base, base + width, best0);
      base := base + width;
      done := done + 1;
    }
  }

  /** At most one narrower register. */
  method HalfLine(j: Job, width: nat, base1: nat, best1: Best, ghost best0: Best) returns (base: nat, best: Best)
    requires j.Valid() && Width(width) && base1 <= j.Len() < base1 + 2 * width && best1 == j.ScanTo(base1, best0)
    ensures base <= j.Len() < base + width && best == j.ScanTo(base, best0)
  {
    base, best := base1, best1;
    if base + width <= j.Len() {
      best := LineAt(j, width, base, best);
      ScanFurther(j, base, base + width, best0);
      base := base + width;
    }
  }

  /** The scalar tail. */
  method Tail(j: Job, base: nat, best1: Best, ghost best0: Best) returns (best: Best)
    requires j.Valid() && base <= j.Len() && best1 == j.ScanTo(base, best0)
    ensures best == j.ScanTo(j.Len(), best0)
  {
    best := best1;
    for idx := base to j.Len()
      invariant best == j.ScanTo(idx, best0)
    {
      var d := DistAt(j.m, j.leaf, j.q, idx);
      assert Dists(j.m, j.leaf, j.q, 0, idx + 1) == Dists(j.m, j.leaf, j.q, 0, idx) + [d];
      assert j.leaf.items[..idx + 1] == j.leaf.items[..idx] + [j.leaf.items[idx]];
      if Fin(d).Lt(best.dist) {
        best := Best(Fin(d), j.leaf.items[idx]);
      }
    }
  }

  // ---------------------------------------------------------------- the kernels

  /** What every kernel computes: the scan of the whole leaf. */
  ghost function Scanned(j: Job, best: Best): Best
    requires j.Valid()
  {
    j.ScanTo(j.Len(), best)
  }

  /** `scalar_fallback_dynamic`. */
  method ScalarFallback(j: Job, best0: Best) returns (best: Best)
    requires j.Valid()
    ensures best == Scanned(j, best0)
  {
    best := Tail(j, 0, best0, best0);
  }

  /** AVX2: chunks of 16, lines of 4, at most one line of 2, at most one scalar step. */
  method Avx2Kernel(j: Job, best0: Best) returns (best: Best)
    requires j.Valid()
    ensures best == Scanned(j, best0)
  {
    var base;
    base, best := Chunks(j, 4, 4, best0);
    base, best := Lines(j, 4, 2, base, best, best0);
    base, best := HalfLine(j, 2, base, best, best0);
    assert j.Len() - base <= 1;
    best := Tail(j, base, best, best0);
  }

  /** AVX-512: chunks of 32, lines of 8, at most one line of 4, at most three scalar steps. */
  method Avx512Kernel(j: Job, best0: Best) returns (best: Best)
    requires j.Valid()
    ensures best == Scanned(j, best0)
  {
    var base;
    base, best := Chunks(j, 8, 5, best0);
    base, best := Lines(j, 8, 3, base, best, best0);
    base, best := HalfLine(j, 4, base, best, best0);
    assert j.Len() - base <= 3;
    best := Tail(j, base, best, best0);
  }

  /** NEON: chunks of 8 and a scalar tail. */
  method NeonKernel(j: Job, best0: Best) returns (best: Best)
    requires j.Valid()
    ensures best == Scanned(j, best0)
  {
    var base;
    base, best := Chunks(j, 2, 3, best0);
    best := Tail(j, base, best, best0);
  }

  /** AVX-512, squared Euclidean only: chunks of 32 and a scalar tail. */
  method Avx512SqEucKernel(j: Job, best0: Best) returns (best: Best)
    requires j.Valid() && j.m.SquaredEuclidean?
    ensures best == Scanned(j, best0)
  {
    var base;
    base, best := Chunks(j, 8, 5, best0);
    best := Tail(j, base, best, best0);
  }

  /** The distance accumulated from zero. */
  method DistFromZero(j: Job, idx: nat) returns (d: real)
    requires j.Valid() && idx < j.Len() && j.m.SquaredEuclidean?
    ensures d == DistAt(j.m, j.leaf, j.q, idx)
  {
    d := 0.0;
    for dim := 0 to |j.q|
      invariant d == if dim == 0 then 0.0 else DistTo(j.m, j.leaf, j.q, idx, dim)
    {
      d := d + Dist1(j.m, j.leaf.points[dim][idx], j.q[dim]);
    }
  }

  /** The squared-Euclidean `scalar_fallback_dynamic`, which accumulates from zero. */
  method SqEucFallback(j: Job, best0: Best) returns (best: Best)
    requires j.Valid() && j.m.SquaredEuclidean?
    ensures best == Scanned(j, best0)
  {
    best := best0;
    for idx := 0 to j.Len()
      invariant best == j.ScanTo(idx, best0)
    {
      var d := DistFromZero(j, idx);
      assert Dists(j.m, j.leaf, j.q, 0, idx + 1) == Dists(j.m, j.leaf, j.q, 0, idx) + [d];
      assert j.leaf.items[..idx + 1] == j.leaf.items[..idx] + [j.leaf.items[idx]];
      if Fin(d).Lt(best.dist) {
        best := Best(Fin(d), j.leaf.items[idx]);
      }
    }
  }

  datatype Backend = Avx2 | Avx512 | Neon | Avx512SqEuc

  /** The selectors: unrolled kernels up to eight axes, each one's own fallback above. */
  method Select(backend: Backend, j: Job, best0: Best) returns (best: Best)
    requires j.Valid() && (backend.Avx512SqEuc? ==> j.m.SquaredEuclidean?)
    ensures best == Scanned(j, best0)
  {
    if |j.q| > 8 && backend.Avx512SqEuc? {
      best := SqEucFallback(j, best0);
    } else if |j.q| > 8 {
      best := ScalarFallback(j, best0);
    } else {
      match backend
      case Avx2 => best := Avx2Kernel(j, best0);
      case Avx512 => best := Avx512Kernel(j, best0);
      case Neon => best := NeonKernel(j, best0);
      case Avx512SqEuc => best := Avx512SqEucKernel(j, best0);
    }
  }
}

/** Distance metrics of the tree (src/dist), in exact arithmetic.

    A metric supplies a per-axis contribution `Dist1` and a way to combine contributions.
    The traversal never sees a box: it keeps one offset per axis and the combined
    "rectangle distance" `rd`, and updates both when it crosses a splitting plane. */
module Metrics {

  /** A coordinate or distance extended with the `max_value` sentinel, which is +infinity
      for the floating-point axes. */
  datatype Ext = Fin(v: real) | Inf {
    predicate Le(other: Ext) {
      match other
      case Inf => true
      case Fin(w) => Fin? && v <= w
    }
    predicate Lt(other: Ext) {
      !other.Le(this)
    }
  }

  function Min(a: Ext, b: Ext): Ext {
    if b.Lt(a) then b else a
  }

  datatype Metric = SquaredEuclidean | Manhattan | Minkowski(power: nat) | Chebyshev

  /** Every metric but Chebyshev combines axis contributions by addition. */
  predicate Additive(m: Metric) {
    !m.Chebyshev?
  }

  function Abs(x: real): real {
    if x < 0.0 then -x else x
  }

  function Power(x: real, n: nat): real {
    if n == 0 then 1.0 else x * Power(x, n - 1)
  }

  function Dist1(m: Metric, a: real, b: real): real {
    match m
    case SquaredEuclidean => (a - b) * (a - b)
    case Manhattan => Abs(a - b)
    case Minkowski(p) => Power(Abs(a - b), p)
    case Chebyshev => Abs(a - b)
  }

  function Combine(m: Metric, acc: real, component: real): real {
    if Additive(m) then acc + component
    else if component > acc then component else acc
  }

  /** The accumulation loop shared by `dist` and `rect_dist_from_off`: combine the
      contributions in axis order, starting from zero. */
  function Total(m: Metric, components: seq<real>): real {
    if components == [] then 0.0
    else Combine(m, Total(m, components[..|components| - 1]), components[|components| - 1])
  }

  function Contributions(m: Metric, a: seq<real>, b: seq<real>): (r: seq<real>)
    requires |a| == |b|
    ensures |r| == |a|
    ensures forall d :: 0 <= d < |a| ==> r[d] == Dist1(m, a[d], b[d])
  {
    seq(|a|, d requires 0 <= d < |a| => Dist1(m, a[d], b[d]))
  }

  function Zeros(k: nat): (r: seq<real>)
    ensures |r| == k && forall d :: 0 <= d < k ==> r[d] == 0.0
  {
    seq(k, _ => 0.0)
  }

  /** Distance between two points. */
  function Dist(m: Metric, a: seq<real>, b: seq<real>): real
    requires |a| == |b|
  {
    Total(m, Contributions(m, a, b))
  }

  /** Distance from the query to a box, from its per-axis offsets to the query. */
  function RectDist(m: Metric, off: seq<real>): real {
    Total(m, Contributions(m, off, Zeros(|off|)))
  }

  /** The incremental update of the rectangle distance when one axis offset changes.
      Additive metrics replace one summand; Chebyshev recomputes the maximum from `off`. */
  function RectDistAfterUpdate(m: Metric, rd: real, off: seq<real>, dim: nat, newOff: real): real
    requires dim < |off|
  {
    match m
    case Chebyshev => Total(m, off[dim := newOff])
    case Manhattan => rd - off[dim] + newOff
    case _ => rd - Dist1(m, off[dim], 0.0) + Dist1(m, newOff, 0.0)
  }

  // ---------------------------------------------------------------- per-axis facts

  lemma {:induction false} PowerMonotone(x: real, y: real, n: nat)
    requires 0.0 <= x <= y
    ensures 0.0 <= Power(x, n) <= Power(y, n)
  {
    if n > 0 {
      PowerMonotone(x, y, n - 1);
      var px, py := Power(x, n - 1), Power(y, n - 1);
      assert x * px <= y * px <= y * py;
    }
  }

  lemma SquareMonotone(x: real, y: real)
    requires 0.0 <= x <= y
    ensures 0.0 <= x * x <= y * y
  {
    assert x * x <= x * y;
    assert x * y <= y * y;
  }

  /** A contribution depends only on the separation and grows with it. */
  lemma Dist1Monotone(m: Metric, a: real, b: real, c: real, d: real)
    requires Abs(a - b) <= Abs(c - d)
    ensures 0.0 <= Dist1(m, a, b) <= Dist1(m, c, d)
  {
    match m
    case SquaredEuclidean =>
      SquareMonotone(Abs(a - b), Abs(c - d));
    case Manhattan =>
    case Minkowski(p) => PowerMonotone(Abs(a - b), Abs(c - d), p);
    case Chebyshev =>
  }

  // ---------------------------------------------------------------- aggregate facts

  predicate Below(a: seq<real>, b: seq<real>) {
    |a| == |b| && forall d :: 0 <= d < |a| ==> 0.0 <= a[d] <= b[d]
  }

  lemma {:induction false} TotalMonotone(m: Metric, a: seq<real>, b: seq<real>)
    requires Below(a, b)
    ensures 0.0 <= Total(m, a) <= Total(m, b)
  {
    if a != [] {
      TotalMonotone(m, a[..|a| - 1], b[..|b| - 1]);
    }
  }

  /** Replacing one summand of an additive metric moves the total by the difference. */
  lemma {:induction false} TotalUpdate(m: Metric, s: seq<real>, dim: nat, x: real)
    requires dim < |s| && Additive(m)
    ensures Total(m, s[dim := x]) == Total(m, s) - s[dim] + x
  {
    var last := |s| - 1;
    if dim < last {
      TotalUpdate(m, s[..last], dim, x);
      assert s[dim := x][..last] == s[..last][dim := x];
    } else {
      assert s[dim := x][..last] == s[..last];
    }
  }

  /** Per-axis offsets that under-estimate a point's separation under-estimate its distance:
      the pruning bound is sound. */
  lemma RectDistIsLowerBound(m: Metric, off: seq<real>, a: seq<real>, q: seq<real>)
    requires |off| == |a| == |q|
    requires forall d :: 0 <= d < |off| ==> 0.0 <= off[d] <= Abs(a[d] - q[d])
    ensures 0.0 <= RectDist(m, off) <= Dist(m, a, q)
  {
    var z := Zeros(|off|);
    forall d | 0 <= d < |off|
      ensures 0.0 <= Contributions(m, off, z)[d] <= Contributions(m, a, q)[d]
    {
      Dist1Monotone(m, off[d], 0.0, a[d], q[d]);
    }
    TotalMonotone(m, Contributions(m, off, z), Contributions(m, a, q));
  }

  lemma RectDistMonotone(m: Metric, off: seq<real>, wider: seq<real>)
    requires Below(off, wider)
    ensures 0.0 <= RectDist(m, off) <= RectDist(m, wider)
  {
    RectDistIsLowerBound(m, off, wider, Zeros(|off|));
  }

  lemma RectDistZero(m: Metric, k: nat)
    requires m.Minkowski? ==> m.power > 0
    ensures RectDist(m, Zeros(k)) == 0.0
  {
    var c := Contributions(m, Zeros(k), Zeros(k));
    assert forall d :: 0 <= d < k ==> c[d] == 0.0;
    TotalOfZeros(m, c);
  }

  lemma {:induction false} TotalOfZeros(m: Metric, s: seq<real>)
    requires forall d :: 0 <= d < |s| ==> s[d] == 0.0
    ensures Total(m, s) == 0.0
  {
    if s != [] {
      TotalOfZeros(m, s[..|s| - 1]);
    }
  }

  /** The incremental update is exact when `rd` and `off` agree: it yields the rectangle
      distance of the updated offsets, for every metric. */
  lemma UpdateIsExact(m: Metric, rd: real, off: seq<real>, dim: nat, newOff: real)
    requires dim < |off| && newOff >= 0.0
    requires forall d :: 0 <= d < |off| ==> off[d] >= 0.0
    requires rd == RectDist(m, off)
    ensures RectDistAfterUpdate(m, rd, off, dim, newOff) == RectDist(m, off[dim := newOff])
  {
    var z := Zeros(|off|);
    var c := Contributions(m, off, z);
    assert Contributions(m, off[dim := newOff], z) == c[dim := Dist1(m, newOff, 0.0)];
    if m.Chebyshev? {
      assert Contributions(m, off[dim := newOff], z) == off[dim := newOff];
    } else {
      TotalUpdate(m, c, dim, Dist1(m, newOff, 0.0));
    }
  }

  /** For additive metrics the update stays a lower bound even when `off` holds stale,
      larger values: it then subtracts too much, never too little. */
  lemma StaleUpdateIsLowerBound(m: Metric, rd: real, cell: seq<real>, off: seq<real>, dim: nat, newOff: real)
    requires Additive(m) && dim < |off| && newOff >= 0.0
    requires Below(cell, off)
    requires rd <= RectDist(m, cell)
    ensures RectDistAfterUpdate(m, rd, off, dim, newOff) <= RectDist(m, cell[dim := newOff])
  {
    UpdateIsExact(m, RectDist(m, cell), cell, dim, newOff);
    Dist1Monotone(m, cell[dim], 0.0, off[dim], 0.0);
  }
}

/** The palette builder: k-means++ seeding and Lloyd iteration
    (examples/fixed_point_result_widening.rs, `kmeans_palette`). The nearest-centroid lookup is
    an exact nearest contract. */
module KMeans {

  datatype Point = Point(x: real, y: real, z: real)

  function Sq(a: real): (r: real)
    ensures r >= 0.0
  {
    a * a
  }

  function Dist2(a: Point, b: Point): (r: real)
    ensures r >= 0.0
  {
    Sq(a.x - b.x) + Sq(a.y - b.y) + Sq(a.z - b.z)
  }

  lemma ZeroMeansEqual(a: Point, b: Point)
    ensures Dist2(a, b) == 0.0 <==> a == b
  {
    SquareIsPositive(a.x - b.x);
    SquareIsPositive(a.y - b.y);
    SquareIsPositive(a.z - b.z);
  }

  lemma SquareIsPositive(a: real)
    ensures Sq(a) == 0.0 <==> a == 0.0
  {
    if a > 0.0 {
      ProductIsPositive(a, a, Sq(a));
    } else if a < 0.0 {
      ProductOfNegatives(a, a, Sq(a));
    }
  }

  lemma ProductIsPositive(a: real, b: real, p: real)
    requires a > 0.0 && b > 0.0 && p == a * b
    ensures p > 0.0
  {
  }

  lemma ProductOfNegatives(a: real, b: real, p: real)
    requires a < 0.0 && b < 0.0 && p == a * b
    ensures p > 0.0
  {
  }

  ghost predicate IsNearest(centroids: seq<Point>, p: Point, c: nat) {
    c < |centroids| && forall j :: 0 <= j < |centroids| ==> Dist2(centroids[c], p) <= Dist2(centroids[j], p)
  }

  /** `tree.nearest`; callers see only that it is exact. */
  method Nearest(centroids: seq<Point>, p: Point) returns (c: nat, dist: real)
    requires centroids != []
    ensures IsNearest(centroids, p, c) && dist == Dist2(centroids[c], p)
  {
    c, dist := 0, Dist2(centroids[0], p);
    for j := 1 to |centroids|
      invariant c < |centroids| && dist == Dist2(centroids[c], p)
      invariant forall i :: 0 <= i < j ==> dist <= Dist2(centroids[i], p)
    {
      if Dist2(centroids[j], p) < dist {
        c, dist := j, Dist2(centroids[j], p);
      }
    }
  }

  // ---------------------------------------------------------------- cost

  ghost predicate Assigned(samples: seq<Point>, a: seq<nat>, k: nat) {
    |a| == |samples| && forall i :: 0 <= i < |a| ==> a[i] < k
  }

  /** Total squared distance of the samples to their assigned centroids. */
  ghost function Cost(samples: seq<Point>, centroids: seq<Point>, a: seq<nat>): real
    requires Assigned(samples, a, |centroids|)
  {
    if samples == [] then 0.0
    else
      var n := |samples| - 1;
      Cost(samples[..n], centroids, a[..n]) + Dist2(centroids[a[n]], samples[n])
  }

  lemma {:induction false} ReassigningLowersCost(samples: seq<Point>, centroids: seq<Point>, a: seq<nat>, b: seq<nat>)
    requires Assigned(samples, a, |centroids|) && Assigned(samples, b, |centroids|)
    requires forall i :: 0 <= i < |samples| ==> IsNearest(centroids, samples[i], b[i])
    ensures Cost(samples, centroids, b) <= Cost(samples, centroids, a)
  {
    if samples != [] {
      var n := |samples| - 1;
      ReassigningLowersCost(samples[..n], centroids, a[..n], b[..n]);
    }
  }

  // ---------------------------------------------------------------- one cluster

  function Add(p: Point, q: Point): Point {
    Point(p.x + q.x, p.y + q.y, p.z + q.z)
  }

  const ORIGIN := Point(0.0, 0.0, 0.0)

  function Sum(samples: seq<Point>, a: seq<nat>, c: nat): Point
    requires |a| == |samples|
  {
    if samples == [] then ORIGIN
    else
      var n := |samples| - 1;
      var rest := Sum(samples[..n], a[..n], c);
      if a[n] == c then Add(rest, samples[n]) else rest
  }

  function Count(a: seq<nat>, c: nat): nat {
    if a == [] then 0 else Count(a[..|a| - 1], c) + if a[|a| - 1] == c then 1 else 0
  }

  /** Sum of `f` over the samples of a cluster. */
  ghost function SumOf(samples: seq<Point>, a: seq<nat>, c: nat, f: Point -> real): real
    requires |a| == |samples|
  {
    if samples == [] then 0.0
    else
      var n := |samples| - 1;
      SumOf(samples[..n], a[..n], c, f) + if a[n] == c then f(samples[n]) else 0.0
  }

  lemma {:induction false} SumOfSums(samples: seq<Point>, a: seq<nat>, c: nat, f: Point -> real, g: Point -> real, h: Point -> real)
    requires |a| == |samples| && forall p :: f(p) == g(p) + h(p)
    ensures SumOf(samples, a, c, f) == SumOf(samples, a, c, g) + SumOf(samples, a, c, h)
  {
    if samples != [] {
      var n := |samples| - 1;
      SumOfSums(samples[..n], a[..n], c, f, g, h);
    }
  }

  lemma Distribute(d: real, x: real, y: real)
    ensures d * (x + y) == d * x + d * y
  {
  }

  /** Summing a line over a cluster, by its size and the sum of its coordinates. */
  lemma {:induction false} SumOfLine(samples: seq<Point>, a: seq<nat>, c: nat, f: Point -> real, coord: Point -> real,
                                     k: real, d: real)
    requires |a| == |samples| && forall p :: f(p) == k - d * coord(p)
    ensures SumOf(samples, a, c, f) == k * (Count(a, c) as real) - d * SumOf(samples, a, c, coord)
  {
    if samples != [] {
      var n := |samples| - 1;
      SumOfLine(samples[..n], a[..n], c, f, coord, k, d);
      if a[n] == c {
        Distribute(d, SumOf(samples[..n], a[..n], c, coord), coord(samples[n]));
        Distribute(k, Count(a[..n], c) as real, 1.0);
      }
    }
  }

  /** Cost of one cluster around a candidate centre. */
  ghost function Spread(samples: seq<Point>, a: seq<nat>, c: nat, centre: Point): real
    requires |a| == |samples|
  {
    SumOf(samples, a, c, (p: Point) => Dist2(centre, p))
  }

  lemma {:induction false} SumByAxis(samples: seq<Point>, a: seq<nat>, c: nat)
    requires |a| == |samples|
    ensures Sum(samples, a, c) == Point(SumOf(samples, a, c, X), SumOf(samples, a, c, Y), SumOf(samples, a, c, Z))
  {
    if samples != [] {
      var n := |samples| - 1;
      SumByAxis(samples[..n], a[..n], c);
    }
  }

  ghost predicate IsMean(mean: Point, samples: seq<Point>, a: seq<nat>, c: nat)
    requires |a| == |samples|
  {
    var n := Count(a, c);
    Sum(samples, a, c) == Point(Times(n, mean.x), Times(n, mean.y), Times(n, mean.z))
  }

  /** `n * x`, as repeated addition. */
  ghost function Times(n: nat, x: real): real {
    if n == 0 then 0.0 else Times(n - 1, x) + x
  }

  lemma {:induction false} TimesIsProduct(n: nat, x: real)
    ensures Times(n, x) == n as real * x
  {
    if n > 0 {
      TimesIsProduct(n - 1, x);
      Distribute(x, (n - 1) as real, 1.0);
    }
  }

  /** On one axis, moving the centre from `m` to `c` adds this much to each sample's cost. */
  function Shift(c: real, m: real, x: real): real {
    (c * c - m * m) - (2.0 * (c - m)) * x
  }

  lemma ShiftIsDifference(c: real, m: real, x: real)
    ensures Sq(c - x) == Sq(m - x) + Shift(c, m, x)
  {
  }

  lemma ShiftOfMean(c: real, m: real, n: real)
    requires n >= 0.0
    ensures (c * c - m * m) * n - (2.0 * (c - m)) * (n * m) >= 0.0
  {
    assert (c * c - m * m) * n - (2.0 * (c - m)) * (n * m) == n * Sq(c - m);
    ProductNotNegative(n, Sq(c - m));
  }

  lemma ProductNotNegative(a: real, b: real)
    requires a >= 0.0 && b >= 0.0
    ensures a * b >= 0.0
  {
  }

  const X := (p: Point) => p.x
  const Y := (p: Point) => p.y
  const Z := (p: Point) => p.z

  ghost function Shifts(coord: Point -> real, to: real, from: real): (f: Point -> real)
    ensures forall p :: f(p) == Shift(to, from, coord(p))
  {
    (p: Point) => Shift(to, from, coord(p))
  }

  lemma AxisShift(samples: seq<Point>, a: seq<nat>, c: nat, coord: Point -> real, from: real, to: real)
    requires |a| == |samples|
    requires SumOf(samples, a, c, coord) == Times(Count(a, c), from)
    ensures SumOf(samples, a, c, Shifts(coord, to, from)) >= 0.0
  {
    var n := LineAroundMean(samples, a, c, Shifts(coord, to, from), coord, to * to - from * from, 2.0 * (to - from), from);
    ShiftOfMean(to, from, n);
  }

  lemma LineAroundMean(samples: seq<Point>, a: seq<nat>, c: nat, f: Point -> real, coord: Point -> real, k: real, d: real, from: real)
    returns (n: real)
    requires |a| == |samples| && forall p :: f(p) == k - d * coord(p)
    requires SumOf(samples, a, c, coord) == Times(Count(a, c), from)
    ensures n >= 0.0 && SumOf(samples, a, c, f) == k * n - d * (n * from)
  {
    n := Count(a, c) as real;
    TimesIsProduct(Count(a, c), from);
    SumOfLine(samples, a, c, f, coord, k, d);
  }

  /** No centre does better than the mean. */
  lemma MeanMinimizes(samples: seq<Point>, a: seq<nat>, c: nat, mean: Point, centre: Point)
    requires |a| == |samples| && IsMean(mean, samples, a, c)
    ensures Spread(samples, a, c, mean) <= Spread(samples, a, c, centre)
  {
    SumByAxis(samples, a, c);
    AxisShift(samples, a, c, X, mean.x, centre.x);
    AxisShift(samples, a, c, Y, mean.y, centre.y);
    AxisShift(samples, a, c, Z, mean.z, centre.z);
    SpreadMoves(samples, a, c, mean, centre, Shifts(X, centre.x, mean.x), Shifts(Y, centre.y, mean.y), Shifts(Z, centre.z, mean.z));
  }

  lemma SpreadMoves(samples: seq<Point>, a: seq<nat>, c: nat, mean: Point, centre: Point,
                    fx: Point -> real, fy: Point -> real, fz: Point -> real)
    requires |a| == |samples|
    requires fx == Shifts(X, centre.x, mean.x) && fy == Shifts(Y, centre.y, mean.y) && fz == Shifts(Z, centre.z, mean.z)
    ensures Spread(samples, a, c, centre)
         == Spread(samples, a, c, mean) + (SumOf(samples, a, c, fx) + (SumOf(samples, a, c, fy) + SumOf(samples, a, c, fz)))
  {
    var yz := (p: Point) => fy(p) + fz(p);
    var xyz := (p: Point) => fx(p) + yz(p);
    forall p: Point ensures Dist2(centre, p) == Dist2(mean, p) + xyz(p) {
      ShiftIsDifference(centre.x, mean.x, p.x);
      ShiftIsDifference(centre.y, mean.y, p.y);
      ShiftIsDifference(centre.z, mean.z, p.z);
    }
    SumOfSums(samples, a, c, (p: Point) => Dist2(centre, p), (p: Point) => Dist2(mean, p), xyz);
    SumOfSums(samples, a, c, xyz, fx, yz);
    SumOfSums(samples, a, c, yz, fy, fz);
  }

  /** Moving one centroid changes the cost by the change in its own cluster. */
  lemma {:induction false} CostOfMove(samples: seq<Point>, centroids: seq<Point>, a: seq<nat>, c: nat, centre: Point)
    requires Assigned(samples, a, |centroids|) && c < |centroids|
    ensures Cost(samples, centroids[c := centre], a)
         == Cost(samples, centroids, a) - Spread(samples, a, c, centroids[c]) + Spread(samples, a, c, centre)
  {
    if samples != [] {
      var n := |samples| - 1;
      CostOfMove(samples[..n], centroids, a[..n], c, centre);
    }
  }
}

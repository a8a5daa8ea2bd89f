/** What each metric measures, by laws that fix it without naming how it is computed. */
module MetricLaws {
  import opened Metrics
  import KMeans

  /** A contribution looks at the separation only. */
  lemma ContributionOfSeparation(m: Metric, a: real, b: real)
    ensures Dist1(m, a, b) == Dist1(m, a - b, 0.0) == Dist1(m, b, a)
  {
    assert (a - b) * (a - b) == (b - a) * (b - a);
    assert Abs(a - b) == Abs(b - a);
  }

  /** The parallelogram law and the unit: squared Euclidean is the square of the separation. */
  lemma ParallelogramLaw(x: real, y: real)
    ensures var f := (z: real) => Dist1(SquaredEuclidean, z, 0.0);
            f(x + y) + f(x - y) == 2.0 * f(x) + 2.0 * f(y) && f(1.0) == 1.0
  {
    assert (x + y) * (x + y) == x * x + 2.0 * (x * y) + y * y;
    assert (x - y) * (x - y) == x * x - 2.0 * (x * y) + y * y;
  }

  /** Along an axis, Manhattan and Chebyshev add up what lies between, in units of one. */
  lemma SegmentsAddUp(m: Metric, a: real, b: real, c: real)
    requires (m.Manhattan? || m.Chebyshev?) && a <= b <= c
    ensures Dist1(m, a, c) == Dist1(m, a, b) + Dist1(m, b, c) && Dist1(m, 0.0, 1.0) == 1.0
  {
  }

  lemma {:induction false} PowersMultiply(x: real, n: nat, k: nat)
    ensures Power(x, n + k) == Power(x, n) * Power(x, k)
  {
    if n > 0 {
      PowersMultiply(x, n - 1, k);
      var p, r := Power(x, n - 1), Power(x, k);
      assert x * (p * r) == (x * p) * r;
    }
  }

  /** Minkowski's exponents: one is Manhattan, two is squared Euclidean, and contributions
      multiply when exponents add up. */
  lemma MinkowskiByExponent(a: real, b: real, p: nat, r: nat)
    ensures Dist1(Minkowski(1), a, b) == Dist1(Manhattan, a, b)
    ensures Dist1(Minkowski(2), a, b) == Dist1(SquaredEuclidean, a, b)
    ensures Dist1(Minkowski(p + r), a, b) == Dist1(Minkowski(p), a, b) * Dist1(Minkowski(r), a, b)
  {
    var x := Abs(a - b);
    assert Power(x, 1) == x * Power(x, 0) == x;
    assert Power(x, 2) == x * Power(x, 1);
    assert x * x == (a - b) * (a - b);
    PowersMultiply(x, p, r);
  }

  // ---------------------------------------------------------------- several axes

  lemma {:induction false} TotalOfConcat(m: Metric, s: seq<real>, t: seq<real>)
    requires Additive(m)
    ensures Total(m, s + t) == Total(m, s) + Total(m, t)
  {
    if t == [] {
      assert s + t == s;
    } else {
      var n := |t| - 1;
      assert (s + t)[..|s + t| - 1] == s + t[..n];
      TotalOfConcat(m, s, t[..n]);
    }
  }

  /** The distance of an additive metric is the sum over any division of the axes, and on one axis
      it is the contribution. */
  lemma DistAddsUp(m: Metric, a: seq<real>, b: seq<real>, c: seq<real>, d: seq<real>)
    requires Additive(m) && |a| == |b| && |c| == |d|
    ensures Dist(m, a + c, b + d) == Dist(m, a, b) + Dist(m, c, d)
    ensures |a| == 1 ==> Dist(m, a, b) == Dist1(m, a[0], b[0])
  {
    assert Contributions(m, a + c, b + d) == Contributions(m, a, b) + Contributions(m, c, d);
    TotalOfConcat(m, Contributions(m, a, b), Contributions(m, c, d));
    if |a| == 1 {
      assert Contributions(m, a, b) == [Dist1(m, a[0], b[0])];
    }
  }

  lemma {:induction false} TotalIsLargest(s: seq<real>)
    requires forall d :: 0 <= d < |s| ==> s[d] >= 0.0
    ensures forall d :: 0 <= d < |s| ==> s[d] <= Total(Chebyshev, s)
    ensures if s == [] then Total(Chebyshev, s) == 0.0 else exists d :: 0 <= d < |s| && Total(Chebyshev, s) == s[d]
  {
    if s != [] {
      var n := |s| - 1;
      TotalIsLargest(s[..n]);
      forall d | 0 <= d < n ensures s[d] <= Total(Chebyshev, s) {
        assert s[..n][d] == s[d];
      }
      if Total(Chebyshev, s) != s[n] {
        var d :| 0 <= d < n && Total(Chebyshev, s[..n]) == s[..n][d];
        assert s[d] == Total(Chebyshev, s);
      }
    }
  }

  /** Chebyshev's distance is the largest separation of any axis. */
  lemma ChebyshevIsLargest(a: seq<real>, b: seq<real>)
    requires |a| == |b|
    ensures forall d :: 0 <= d < |a| ==> Abs(a[d] - b[d]) <= Dist(Chebyshev, a, b)
    ensures a != [] ==> exists d :: 0 <= d < |a| && Dist(Chebyshev, a, b) == Abs(a[d] - b[d])
  {
    var c := Contributions(Chebyshev, a, b);
    TotalIsLargest(c);
    if a != [] {
      var d :| 0 <= d < |c| && Total(Chebyshev, c) == c[d];
      assert Dist(Chebyshev, a, b) == Abs(a[d] - b[d]);
    }
  }

  lemma OneAxisMore(m: Metric, a: seq<real>, b: seq<real>, x: real, y: real)
    requires Additive(m) && |a| == |b|
    ensures Dist(m, a + [x], b + [y]) == Dist(m, a, b) + Dist1(m, x, y)
  {
    DistAddsUp(m, a, b, [x], [y]);
    DistAddsUp(m, [x], [y], [], []);
  }

  /** The palette measures colours by the squared Euclidean distance of the tree. */
  lemma PaletteDistance(a: KMeans.Point, b: KMeans.Point)
    ensures KMeans.Dist2(a, b) == Dist(SquaredEuclidean, [a.x, a.y, a.z], [b.x, b.y, b.z])
  {
    var m := SquaredEuclidean;
    DistAddsUp(m, [a.x], [b.x], [], []);
    OneAxisMore(m, [a.x], [b.x], a.y, b.y);
    OneAxisMore(m, [a.x] + [a.y], [b.x] + [b.y], a.z, b.z);
    assert [a.x, a.y, a.z] == [a.x] + [a.y] + [a.z] && [b.x, b.y, b.z] == [b.x] + [b.y] + [b.z];
  }
}

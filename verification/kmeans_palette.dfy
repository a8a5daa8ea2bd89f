/** The loops of `kmeans_palette`: seeding, Lloyd passes and the final snap to bytes
    (examples/fixed_point_result_widening.rs). Random draws are inputs. */
module KMeansPalette {
  import opened KMeans

  // ---------------------------------------------------------------- the byte range

  ghost predicate InBox(p: Point) {
    0.0 <= p.x <= 255.0 && 0.0 <= p.y <= 255.0 && 0.0 <= p.z <= 255.0
  }

  ghost predicate AllInBox(s: seq<Point>) {
    forall i :: 0 <= i < |s| ==> InBox(s[i])
  }

  lemma {:induction false} SumWithin(samples: seq<Point>, a: seq<nat>, c: nat, coord: Point -> real)
    requires |a| == |samples| && forall i :: 0 <= i < |samples| ==> 0.0 <= coord(samples[i]) <= 255.0
    ensures 0.0 <= SumOf(samples, a, c, coord) <= Times(Count(a, c), 255.0)
  {
    if samples != [] {
      var n := |samples| - 1;
      SumWithin(samples[..n], a[..n], c, coord);
    }
  }

  lemma TimesBounded(n: nat, x: real)
    requires n > 0 && 0.0 <= Times(n, x) <= Times(n, 255.0)
    ensures 0.0 <= x <= 255.0
  {
    TimesIsProduct(n, 0.0);
    TimesMonotone(n, x, 0.0);
    TimesMonotone(n, 255.0, x);
  }

  /** Of two factors the one with the smaller multiple is no larger. */
  lemma TimesMonotone(n: nat, x: real, y: real)
    requires n > 0 && Times(n, y) <= Times(n, x)
    ensures y <= x
  {
    if n > 1 && y > x {
      TimesStrict(n, x, y);
    }
  }

  lemma {:induction false} TimesStrict(n: nat, x: real, y: real)
    requires n > 0 && x < y
    ensures Times(n, x) < Times(n, y)
  {
    if n > 1 {
      TimesStrict(n - 1, x, y);
    }
  }

  /** Means of samples in the byte range stay in the byte range. */
  lemma MeanStaysInBox(mean: Point, samples: seq<Point>, a: seq<nat>, c: nat)
    requires |a| == |samples| && AllInBox(samples) && Count(a, c) > 0 && IsMean(mean, samples, a, c)
    ensures InBox(mean)
  {
    SumByAxis(samples, a, c);
    SumWithin(samples, a, c, X);
    SumWithin(samples, a, c, Y);
    SumWithin(samples, a, c, Z);
    TimesBounded(Count(a, c), mean.x);
    TimesBounded(Count(a, c), mean.y);
    TimesBounded(Count(a, c), mean.z);
  }

  // ---------------------------------------------------------------- one Lloyd pass

  /** Every sample belongs to a nearest centroid. */
  ghost predicate AllNearest(samples: seq<Point>, centroids: seq<Point>, a: seq<nat>) {
    |a| == |samples| && forall i :: 0 <= i < |a| ==> IsNearest(centroids, samples[i], a[i])
  }

  /** Every non-empty cluster's centroid is the mean of its samples. */
  ghost predicate AllMeans(samples: seq<Point>, centroids: seq<Point>, a: seq<nat>)
    requires |a| == |samples|
  {
    forall c :: 0 <= c < |centroids| && Count(a, c) > 0 ==> IsMean(centroids[c], samples, a, c)
  }

  ghost predicate FixedPoint(samples: seq<Point>, centroids: seq<Point>, a: seq<nat>) {
    AllNearest(samples, centroids, a) && AllMeans(samples, centroids, a)
  }

  method Assign(samples: seq<Point>, centroids: seq<Point>, a: seq<nat>) returns (b: seq<nat>, changed: bool)
    requires centroids != [] && Assigned(samples, a, |centroids|)
    ensures AllNearest(samples, centroids, b) && Assigned(samples, b, |centroids|)
    ensures changed <==> b != a
    ensures Cost(samples, centroids, b) <= Cost(samples, centroids, a)
  {
    b, changed := a, false;
    for i := 0 to |samples|
      invariant Assigned(samples, b, |centroids|) && (changed <==> b != a)
      invariant forall j :: i <= j < |samples| ==> b[j] == a[j]
      invariant forall j :: 0 <= j < i ==> IsNearest(centroids, samples[j], b[j])
    {
      var nearest, _ := Nearest(centroids, samples[i]);
      if b[i] != nearest {
        b, changed := b[i := nearest], true;
      }
    }
    ReassigningLowersCost(samples, centroids, a, b);
  }

  /** Per-cluster sums and counts. */
  method Totals(samples: seq<Point>, a: seq<nat>, k: nat) returns (sums: seq<Point>, counts: seq<nat>)
    requires Assigned(samples, a, k)
    ensures |sums| == |counts| == k
    ensures forall c :: 0 <= c < k ==> sums[c] == Sum(samples, a, c) && counts[c] == Count(a, c)
  {
    sums, counts := seq(k, _ => ORIGIN), seq(k, _ => 0);
    for i := 0 to |samples|
      invariant |sums| == |counts| == k
      invariant forall c :: 0 <= c < k ==> sums[c] == Sum(samples[..i], a[..i], c) && counts[c] == Count(a[..i], c)
    {
      assert samples[..i + 1][..i] == samples[..i] && a[..i + 1][..i] == a[..i];
      var c := a[i];
      sums := sums[c := Add(sums[c], samples[i])];
      counts := counts[c := counts[c] + 1];
    }
    assert samples[..|samples|] == samples && a[..|a|] == a;
  }

  lemma TimesQuotient(n: nat, s: real)
    requires n > 0
    ensures Times(n, s / n as real) == s
  {
    TimesIsProduct(n, s / n as real);
  }

  /** Replacing non-empty clusters' centroids by their means lowers the cost; empty clusters
      stay where they were. */
  method Recompute(samples: seq<Point>, centroids: seq<Point>, a: seq<nat>) returns (r: seq<Point>)
    requires Assigned(samples, a, |centroids|)
    ensures |r| == |centroids| && AllMeans(samples, r, a)
    ensures forall c :: 0 <= c < |r| && Count(a, c) == 0 ==> r[c] == centroids[c]
    ensures Cost(samples, r, a) <= Cost(samples, centroids, a)
    ensures AllInBox(samples) && AllInBox(centroids) ==> AllInBox(r)
  {
    var sums, counts := Totals(samples, a, |centroids|);
    r := centroids;
    for j := 0 to |centroids|
      invariant |r| == |centroids| && Cost(samples, r, a) <= Cost(samples, centroids, a)
      invariant forall c :: 0 <= c < j && Count(a, c) > 0 ==> IsMean(r[c], samples, a, c)
      invariant forall c :: 0 <= c < |r| && (c >= j || Count(a, c) == 0) ==> r[c] == centroids[c]
      invariant AllInBox(samples) && AllInBox(centroids) ==> AllInBox(r)
    {
      if counts[j] > 0 {
        var n := counts[j] as real;
        var mean := Point(sums[j].x / n, sums[j].y / n, sums[j].z / n);
        QuotientIsMean(mean, samples, a, j, counts[j]);
        MeanMinimizes(samples, a, j, mean, r[j]);
        CostOfMove(samples, r, a, j, mean);
        if AllInBox(samples) {
          MeanStaysInBox(mean, samples, a, j);
        }
        r := r[j := mean];
      }
    }
  }

  lemma QuotientIsMean(mean: Point, samples: seq<Point>, a: seq<nat>, c: nat, n: nat)
    requires |a| == |samples| && n == Count(a, c) > 0
    requires var s := Sum(samples, a, c); mean == Point(s.x / n as real, s.y / n as real, s.z / n as real)
    ensures IsMean(mean, samples, a, c)
  {
    var s := Sum(samples, a, c);
    TimesQuotient(n, s.x);
    TimesQuotient(n, s.y);
    TimesQuotient(n, s.z);
  }

  // ---------------------------------------------------------------- the Lloyd loop

  datatype State = State(centroids: seq<Point>, a: seq<nat>)

  /** What one pass of the loop does: every sample goes to a nearest centroid; if that changes
      anything, non-empty clusters move to their means and empty ones stay. */
  ghost predicate Passes(samples: seq<Point>, s: State, t: State) {
    && |t.centroids| == |s.centroids| && AllNearest(samples, s.centroids, t.a)
    && (t.a == s.a ==> t.centroids == s.centroids)
    && (t.a != s.a ==>
          && AllMeans(samples, t.centroids, t.a)
          && forall c :: 0 <= c < |t.centroids| && Count(t.a, c) == 0 ==> t.centroids[c] == s.centroids[c])
  }

  method Pass(samples: seq<Point>, s: State) returns (t: State, changed: bool)
    requires s.centroids != [] && Assigned(samples, s.a, |s.centroids|)
    ensures Passes(samples, s, t) && (changed <==> t.a != s.a)
    ensures Assigned(samples, t.a, |t.centroids|)
    ensures Cost(samples, t.centroids, t.a) <= Cost(samples, s.centroids, s.a)
    ensures AllInBox(samples) && AllInBox(s.centroids) ==> AllInBox(t.centroids)
  {
    var b;
    b, changed := Assign(samples, s.centroids, s.a);
    t := State(s.centroids, b);
    if changed {
      var r := Recompute(samples, s.centroids, b);
      t := State(r, b);
    }
  }

  /** The states before the first pass and after each pass; the loop goes on only after a pass
      that changed the assignments. */
  ghost predicate IsRun(samples: seq<Point>, seeds: seq<Point>, run: seq<State>) {
    if |run| <= 1 then run == [State(seeds, Zeros(|samples|))]
    else
      var n := |run| - 1;
      && IsRun(samples, seeds, run[..n]) && Passes(samples, run[n - 1], run[n])
      && (n > 1 ==> run[n - 1].a != run[n - 2].a)
  }

  ghost predicate CostNeverRises(samples: seq<Point>, run: seq<State>) {
    && (forall i :: 0 <= i < |run| ==> Assigned(samples, run[i].a, |run[i].centroids|))
    && forall i :: 0 <= i < |run| - 1 ==> CostDrops(samples, run[i], run[i + 1])
  }

  ghost predicate CostDrops(samples: seq<Point>, s: State, t: State)
    requires Assigned(samples, s.a, |s.centroids|) && Assigned(samples, t.a, |t.centroids|)
  {
    Cost(samples, t.centroids, t.a) <= Cost(samples, s.centroids, s.a)
  }

  lemma RunGrows(samples: seq<Point>, seeds: seq<Point>, run: seq<State>, t: State)
    requires IsRun(samples, seeds, run) && (|run| > 1 ==> run[|run| - 1].a != run[|run| - 2].a)
    requires run != [] && Passes(samples, run[|run| - 1], t)
    ensures IsRun(samples, seeds, run + [t])
  {
    assert (run + [t])[..|run|] == run;
  }

  lemma CostKeepsDropping(samples: seq<Point>, run: seq<State>, t: State)
    requires run != [] && CostNeverRises(samples, run) && Assigned(samples, t.a, |t.centroids|)
    requires CostDrops(samples, run[|run| - 1], t)
    ensures CostNeverRises(samples, run + [t])
  {
    var longer := run + [t];
    assert forall i :: 0 <= i < |longer| ==> longer[i] == if i < |run| then run[i] else t;
  }

  /** Both, for the run with one pass more. */
  lemma PassedOn(samples: seq<Point>, seeds: seq<Point>, run: seq<State>, t: State) returns (longer: seq<State>)
    requires IsRun(samples, seeds, run) && (|run| > 1 ==> run[|run| - 1].a != run[|run| - 2].a)
    requires run != [] && Passes(samples, run[|run| - 1], t)
    requires CostNeverRises(samples, run) && Assigned(samples, t.a, |t.centroids|) && CostDrops(samples, run[|run| - 1], t)
    ensures longer == run + [t] && IsRun(samples, seeds, longer) && CostNeverRises(samples, longer)
  {
    RunGrows(samples, seeds, run, t);
    CostKeepsDropping(samples, run, t);
    longer := run + [t];
  }

  lemma {:induction false} RunStart(samples: seq<Point>, seeds: seq<Point>, run: seq<State>)
    requires IsRun(samples, seeds, run)
    ensures run != [] && run[0] == State(seeds, Zeros(|samples|))
  {
    if |run| > 1 {
      RunStart(samples, seeds, run[..|run| - 1]);
    }
  }

  /** Where a run may have stopped. */
  lemma RunEnds(samples: seq<Point>, seeds: seq<Point>, run: seq<State>)
    requires seeds != [] && IsRun(samples, seeds, run) && |run| > 1
    ensures var s, t := run[|run| - 2], run[|run| - 1];
            && |t.a| == |samples|
            && (t.a != s.a ==> AllMeans(samples, t.centroids, t.a))
            && (t.a == s.a && |run| > 2 ==> FixedPoint(samples, t.centroids, t.a))
            && (t.a == s.a && |run| == 2 ==> t == run[0] && AllNearest(samples, t.centroids, t.a))
  {
    var front := run[..|run| - 1];
    RunStart(samples, seeds, run);
    if |run| > 2 {
      assert Passes(samples, front[|front| - 2], front[|front| - 1]);
    }
  }

  lemma {:induction false} CostOfLast(samples: seq<Point>, run: seq<State>)
    requires run != [] && CostNeverRises(samples, run)
    ensures CostDrops(samples, run[0], run[|run| - 1])
  {
    if |run| > 1 {
      CostOfLast(samples, run[..|run| - 1]);
      assert CostDrops(samples, run[|run| - 2], run[|run| - 1]);
    }
  }

  /** The run so far, which ends in this state. */
  ghost predicate Running(samples: seq<Point>, seeds: seq<Point>, run: seq<State>, last: State) {
    && IsRun(samples, seeds, run) && run != [] && last == run[|run| - 1] && CostNeverRises(samples, run)
    && |last.centroids| == |seeds| && Assigned(samples, last.a, |seeds|)
    && (AllInBox(samples) && AllInBox(seeds) ==> AllInBox(last.centroids))
  }

  method NextPass(samples: seq<Point>, seeds: seq<Point>, ghost run: seq<State>, last: State)
    returns (next: State, changed: bool, ghost longer: seq<State>)
    requires seeds != [] && Running(samples, seeds, run, last) && (|run| > 1 ==> last.a != run[|run| - 2].a)
    ensures Running(samples, seeds, longer, next) && |longer| == |run| + 1 && (changed <==> next.a != longer[|longer| - 2].a)
  {
    next, changed := Pass(samples, last);
    longer := PassedOn(samples, seeds, run, next);
  }

  /** The loop goes through the passes of a run and ends with its last state. */
  method Iterate(samples: seq<Point>, seeds: seq<Point>, maxIters: nat)
    returns (last: State, converged: bool, ghost run: seq<State>)
    requires seeds != []
    ensures IsRun(samples, seeds, run) && run[|run| - 1] == last && CostNeverRises(samples, run)
    ensures |run| <= maxIters + 1 && (!converged ==> |run| == maxIters + 1)
    ensures converged <==> |run| > 1 && last.a == run[|run| - 2].a
    ensures |last.centroids| == |seeds| && Assigned(samples, last.a, |seeds|)
    ensures AllInBox(samples) && AllInBox(seeds) ==> AllInBox(last.centroids)
  {
    last := State(seeds, Zeros(|samples|));
    var passes := 0;
    converged, run := false, [last];
    while passes < maxIters && !converged
      invariant |run| == passes + 1 <= maxIters + 1 && Running(samples, seeds, run, last)
      invariant converged <==> |run| > 1 && last.a == run[|run| - 2].a
      decreases maxIters - passes, !converged
    {
      var changed;
      last, changed, run := NextPass(samples, seeds, run, last);
      passes, converged := passes + 1, !changed;
    }
  }

  /** The main loop stops when a pass changes nothing. A stop after the first pass is a fixed
      point; a stop on the first pass only says that every sample is nearest to centroid 0,
      whose mean was never taken. */
  method Lloyd(samples: seq<Point>, seeds: seq<Point>, maxIters: nat)
    returns (last: State, converged: bool, ghost run: seq<State>)
    requires seeds != []
    ensures IsRun(samples, seeds, run) && run[|run| - 1] == last && CostNeverRises(samples, run)
    ensures |run| <= maxIters + 1 && (!converged ==> |run| == maxIters + 1)
    ensures converged <==> |run| > 1 && last.a == run[|run| - 2].a
    ensures |last.centroids| == |seeds| && Assigned(samples, last.a, |seeds|)
    ensures AllInBox(samples) && AllInBox(seeds) ==> AllInBox(last.centroids)
    ensures !converged && |run| > 1 ==> AllMeans(samples, last.centroids, last.a)
    ensures converged && |run| > 2 ==> FixedPoint(samples, last.centroids, last.a)
    ensures converged && |run| == 2 ==>
              && last == State(seeds, Zeros(|samples|)) && AllNearest(samples, seeds, last.a)
              && (FixedPoint(samples, seeds, last.a) <==> samples == [] || IsMean(seeds[0], samples, last.a, 0))
  {
    last, converged, run := Iterate(samples, seeds, maxIters);
    if |run| > 1 {
      RunStart(samples, seeds, run);
      RunEnds(samples, seeds, run);
      OnlyFirstCluster(samples, seeds);
    }
  }

  function Zeros(n: nat): (a: seq<nat>)
    ensures |a| == n && forall i :: 0 <= i < n ==> a[i] == 0
  {
    seq(n, _ => 0)
  }

  lemma {:induction false} CountZeros(n: nat, c: nat)
    ensures Count(Zeros(n), c) == if c == 0 then n else 0
  {
    if n > 0 {
      assert Zeros(n)[..n - 1] == Zeros(n - 1);
      CountZeros(n - 1, c);
    }
  }

  lemma OnlyFirstCluster(samples: seq<Point>, centroids: seq<Point>)
    requires centroids != []
    ensures AllMeans(samples, centroids, Zeros(|samples|))
       <==> samples == [] || IsMean(centroids[0], samples, Zeros(|samples|), 0)
  {
    forall c: nat ensures Count(Zeros(|samples|), c) == if c == 0 then |samples| else 0 {
      CountZeros(|samples|, c);
    }
  }

  /** With a single centroid the loop stops on its first pass, wherever the seed is. */
  lemma SingleSeedIsNotMoved(seed: Point, other: Point)
    requires seed != other
    ensures AllNearest([seed, other], [seed], Zeros(2)) && !FixedPoint([seed, other], [seed], Zeros(2))
  {
    var samples, a := [seed, other], Zeros(2);
    assert samples[..1] == [seed] && a[..1] == [0] && samples[..1][..0] == [] && a[..1][..0] == [];
    assert Sum(samples[..1], a[..1], 0) == Add(ORIGIN, seed);
    assert Sum(samples, a, 0) == Add(Add(ORIGIN, seed), other);
    CountZeros(2, 0);
    TwiceIsSum(seed.x);
    TwiceIsSum(seed.y);
    TwiceIsSum(seed.z);
    assert !IsMean(seed, samples, a, 0);
  }

  lemma TwiceIsSum(x: real)
    ensures Times(2, x) == x + x
  {
    assert Times(1, x) == Times(0, x) + x;
  }

  // ---------------------------------------------------------------- seeding

  ghost function Total(weights: seq<real>): real {
    if weights == [] then 0.0 else Total(weights[..|weights| - 1]) + weights[|weights| - 1]
  }

  ghost predicate NonNegative(weights: seq<real>) {
    forall i :: 0 <= i < |weights| ==> weights[i] >= 0.0
  }

  lemma {:induction false} TotalGrows(weights: seq<real>, n: nat)
    requires n <= |weights| && NonNegative(weights)
    ensures 0.0 <= Total(weights[..n]) <= Total(weights)
    decreases |weights|
  {
    if n < |weights| {
      var front := weights[..|weights| - 1];
      TotalGrows(front, n);
      assert front[..n] == weights[..n];
    } else {
      assert weights[..n] == weights;
      if n > 0 {
        TotalGrows(weights[..n - 1], n - 1);
      }
    }
  }

  ghost function Share(u: real, weights: seq<real>): real {
    u * Total(weights)
  }

  /** The threshold is spent by the weight of the chosen sample and by no sample before it. */
  ghost predicate Spends(weights: seq<real>, threshold: real, chosen: nat)
    requires chosen < |weights|
  {
    && threshold <= Total(weights[..chosen + 1])
    && (chosen > 0 ==> Total(weights[..chosen]) < threshold)
  }

  method TotalOf(weights: seq<real>) returns (total: real)
    ensures total == Total(weights)
  {
    total := 0.0;
    for i := 0 to |weights|
      invariant total == Total(weights[..i])
    {
      assert weights[..i + 1][..i] == weights[..i];
      total := total + weights[i];
    }
    assert weights[..|weights|] == weights;
  }

  /** Subtracts weights until the threshold is spent. */
  method Spend(weights: seq<real>, start: real) returns (chosen: nat)
    requires weights != [] && 0.0 <= start <= Total(weights)
    ensures chosen < |weights| && Spends(weights, start, chosen)
  {
    assert weights[..|weights|] == weights;
    var threshold := start;
    chosen := 0;
    for i := 0 to |weights|
      invariant threshold == start - Total(weights[..i]) && chosen == 0
      invariant i > 0 ==> threshold > 0.0
    {
      assert weights[..i + 1][..i] == weights[..i];
      threshold := threshold - weights[i];
      if threshold <= 0.0 {
        chosen := i;
        return;
      }
    }
    assert false;
  }

  /** Where the threshold is spent, the weight is positive, unless nothing was to be spent. */
  lemma SpentIsPositive(weights: seq<real>, start: real, chosen: nat)
    requires NonNegative(weights) && chosen < |weights| && 0.0 <= start
    requires Spends(weights, start, chosen)
    ensures weights[chosen] > 0.0 ==> Total(weights) > 0.0
    ensures start > 0.0 ==> weights[chosen] > 0.0
    ensures start == 0.0 ==> chosen == 0
  {
    assert weights[..chosen + 1][..chosen] == weights[..chosen];
    TotalGrows(weights, chosen);
    TotalGrows(weights, chosen + 1);
  }

  /** Weighted selection with a draw `u` from [0, 1): subtract weights until the threshold is
      spent. The chosen sample has positive weight exactly when some sample has and the draw
      is positive or the first sample's weight is. */
  method Choose(weights: seq<real>, u: real) returns (chosen: nat)
    requires weights != [] && NonNegative(weights) && 0.0 <= u < 1.0
    ensures chosen < |weights| && Spends(weights, Share(u, weights), chosen)
    ensures weights[chosen] > 0.0 <==> Total(weights) > 0.0 && (u > 0.0 || weights[0] > 0.0)
  {
    var total := TotalOf(weights);
    TotalGrows(weights, 0);
    var start := u * total;
    DrawWithinTotal(u, total, start);
    chosen := Spend(weights, start);
    SpentIsPositive(weights, start, chosen);
  }

  lemma DrawWithinTotal(u: real, total: real, start: real)
    requires 0.0 <= u < 1.0 && total >= 0.0 && start == u * total
    ensures 0.0 <= start <= total
    ensures start > 0.0 <==> u > 0.0 && total > 0.0
  {
    if u > 0.0 && total > 0.0 {
      ProductIsPositive(u, total, start);
    }
  }

  ghost function Elements(s: seq<Point>): set<Point> {
    set p | p in s
  }

  ghost predicate PairwiseDistinct(s: seq<Point>) {
    forall i, j :: 0 <= i < j < |s| ==> s[i] != s[j]
  }

  lemma {:induction false} ElementsAtMost(s: seq<Point>)
    ensures |Elements(s)| <= |s|
  {
    if s == [] {
      assert Elements(s) == {};
    } else {
      var front, last := s[..|s| - 1], s[|s| - 1];
      assert s == front + [last];
      ElementsAtMost(front);
      assert Elements(s) == Elements(front) + {last};
    }
  }

  /** With fewer centroids than distinct samples, some sample is no centroid. */
  lemma SomeSampleIsNew(samples: seq<Point>, centroids: seq<Point>) returns (i: nat)
    requires |centroids| < |Elements(samples)|
    ensures i < |samples| && samples[i] !in centroids
  {
    ElementsAtMost(centroids);
    var all, taken := Elements(samples), Elements(centroids);
    assert all == (all - taken) + all * taken && taken == (taken - all) + all * taken;
    assert all - taken != {};
    var p :| p in all - taken;
    i :| 0 <= i < |samples| && samples[i] == p;
  }

  lemma SomeWeightMakesTotal(weights: seq<real>, i: nat)
    requires NonNegative(weights) && i < |weights| && weights[i] > 0.0
    ensures Total(weights) > 0.0
  {
    TotalGrows(weights, i);
    TotalGrows(weights, i + 1);
    assert weights[..i + 1][..i] == weights[..i];
  }

  /** Squared distance to the nearest centroid. */
  ghost function NearestDist(centroids: seq<Point>, p: Point): real
    requires centroids != []
  {
    var last := Dist2(centroids[|centroids| - 1], p);
    if |centroids| == 1 then last
    else
      var rest := NearestDist(centroids[..|centroids| - 1], p);
      if last < rest then last else rest
  }

  lemma {:induction false} NearestDistIsLeast(centroids: seq<Point>, p: Point, c: nat)
    requires IsNearest(centroids, p, c)
    ensures NearestDist(centroids, p) == Dist2(centroids[c], p)
  {
    var front := centroids[..|centroids| - 1];
    if |centroids| > 1 {
      if c < |front| {
        NearestDistIsLeast(front, p, c);
      } else {
        NearestDistIsReached(front, p);
      }
    }
  }

  lemma {:induction false} NearestDistIsReached(centroids: seq<Point>, p: Point)
    requires centroids != []
    ensures exists c :: 0 <= c < |centroids| && NearestDist(centroids, p) == Dist2(centroids[c], p)
  {
    var n := |centroids| - 1;
    if n > 0 {
      NearestDistIsReached(centroids[..n], p);
      var c :| 0 <= c < n && NearestDist(centroids[..n], p) == Dist2(centroids[..n][c], p);
      assert centroids[..n][c] == centroids[c];
    }
    assert NearestDist(centroids, p) == Dist2(centroids[n], p) || NearestDist(centroids, p) == NearestDist(centroids[..n], p);
  }

  ghost function WeightsOf(samples: seq<Point>, centroids: seq<Point>): (w: seq<real>)
    requires centroids != []
    ensures |w| == |samples|
  {
    seq(|samples|, i requires 0 <= i < |samples| => NearestDist(centroids, samples[i]))
  }

  /** The seed drawn after `centroids`: the threshold, a share `u` of all squared distances to
      the nearest centroid, is spent by this sample. */
  ghost predicate IsNextSeed(samples: seq<Point>, centroids: seq<Point>, u: real, seed: Point)
    requires centroids != []
  {
    exists chosen: nat :: DrawnAt(samples, centroids, u, seed, chosen)
  }

  ghost predicate DrawnAt(samples: seq<Point>, centroids: seq<Point>, u: real, seed: Point, chosen: nat)
    requires centroids != []
  {
    var weights := WeightsOf(samples, centroids);
    chosen < |samples| && seed == samples[chosen] && Spends(weights, Share(u, weights), chosen)
  }

  lemma IsDrawn(samples: seq<Point>, centroids: seq<Point>, weights: seq<real>, u: real, chosen: nat)
    requires centroids != [] && chosen < |samples| && weights == WeightsOf(samples, centroids)
    requires Spends(weights, Share(u, weights), chosen)
    ensures IsNextSeed(samples, centroids, u, samples[chosen])
  {
    assert DrawnAt(samples, centroids, u, samples[chosen], chosen);
  }

  method Weights(samples: seq<Point>, centroids: seq<Point>) returns (weights: seq<real>)
    requires centroids != []
    ensures weights == WeightsOf(samples, centroids) && NonNegative(weights)
    ensures forall i :: 0 <= i < |weights| ==> (weights[i] == 0.0 <==> samples[i] in centroids)
  {
    weights := [];
    for i := 0 to |samples|
      invariant |weights| == i && NonNegative(weights)
      invariant forall j :: 0 <= j < i ==> weights[j] == NearestDist(centroids, samples[j])
      invariant forall j :: 0 <= j < i ==> (weights[j] == 0.0 <==> samples[j] in centroids)
    {
      var c, dist := Nearest(centroids, samples[i]);
      NearestDistIsLeast(centroids, samples[i], c);
      ZeroMeansEqual(centroids[c], samples[i]);
      forall j | 0 <= j < |centroids| ensures centroids[j] == samples[i] ==> dist == 0.0 {
        ZeroMeansEqual(centroids[j], samples[i]);
      }
      weights := weights + [dist];
    }
  }

  ghost predicate IsSeeding(samples: seq<Point>, k: nat, first: nat, draws: seq<real>, seeds: seq<Point>)
    requires k > 0 && first < |samples| && |draws| == k - 1
  {
    |seeds| == k && seeds[0] == samples[first] && FollowDraws(samples, seeds, draws)
  }

  /** Every seed but the first is drawn after those before it. */
  ghost predicate FollowDraws(samples: seq<Point>, seeds: seq<Point>, draws: seq<real>)
    requires |seeds| <= |draws| + 1
  {
    |seeds| <= 1 ||
    var n := |seeds| - 1;
    FollowDraws(samples, seeds[..n], draws) && IsNextSeed(samples, seeds[..n], draws[n - 1], seeds[n])
  }

  lemma SeedAdded(samples: seq<Point>, seeds: seq<Point>, draws: seq<real>, seed: Point)
    requires 0 < |seeds| <= |draws| && FollowDraws(samples, seeds, draws)
    requires IsNextSeed(samples, seeds, draws[|seeds| - 1], seed)
    ensures FollowDraws(samples, seeds + [seed], draws)
  {
    assert (seeds + [seed])[..|seeds|] == seeds;
  }

  /** The next seed; with a positive draw it is new while there are samples that are. */
  method NextSeed(samples: seq<Point>, centroids: seq<Point>, u: real) returns (seed: Point)
    requires samples != [] && centroids != [] && 0.0 <= u < 1.0
    ensures IsNextSeed(samples, centroids, u, seed) && seed in samples
    ensures u > 0.0 && |centroids| < |Elements(samples)| ==> seed !in centroids
  {
    var weights := Weights(samples, centroids);
    var chosen := Choose(weights, u);
    seed := samples[chosen];
    IsDrawn(samples, centroids, weights, u, chosen);
    if u > 0.0 && |centroids| < |Elements(samples)| {
      ghost var other := SomeSampleIsNew(samples, centroids);
      SomeWeightMakesTotal(weights, other);
    }
  }

  /** k-means++ seeding: with positive draws, `k` pairwise distinct samples are chosen whenever
      there are that many. */
  method Seeds(samples: seq<Point>, k: nat, first: nat, draws: seq<real>) returns (centroids: seq<Point>)
    requires k > 0 && first < |samples| && |draws| == k - 1
    requires forall i :: 0 <= i < |draws| ==> 0.0 <= draws[i] < 1.0
    ensures IsSeeding(samples, k, first, draws, centroids)
    ensures forall i :: 0 <= i < k ==> centroids[i] in samples
    ensures (forall i :: 0 <= i < |draws| ==> draws[i] > 0.0) && |Elements(samples)| >= k ==> PairwiseDistinct(centroids)
  {
    centroids := [samples[first]];
    for i := 1 to k
      invariant |centroids| == i && centroids[0] == samples[first] && forall j :: 0 <= j < i ==> centroids[j] in samples
      invariant FollowDraws(samples, centroids, draws)
      invariant (forall j :: 0 <= j < |draws| ==> draws[j] > 0.0) && |Elements(samples)| >= k ==> PairwiseDistinct(centroids)
    {
      var seed := NextSeed(samples, centroids, draws[i - 1]);
      SeedAdded(samples, centroids, draws, seed);
      centroids := centroids + [seed];
    }
  }

  // ---------------------------------------------------------------- back to bytes

  /** `x.round() as u8`: the cast saturates. */
  function ToByte(x: real): (b: int)
    ensures 0 <= b <= 255
  {
    var r := (x + 0.5).Floor;
    if r < 0 then 0 else if r > 255 then 255 else r
  }

  /** The nearest whole number, and the upper one of two. */
  ghost predicate RoundsTo(x: real, b: int) {
    b as real - 0.5 <= x < b as real + 0.5
  }

  /** In range the cast does not saturate: a coordinate moves by at most a half, a half is rounded
      up, and whole coordinates stay. */
  lemma ToByteIsRounding(x: real)
    requires 0.0 <= x <= 255.0
    ensures 0 <= ToByte(x) <= 255 && RoundsTo(x, ToByte(x))
    ensures x.Floor as real == x ==> ToByte(x) as real == x
  {
  }

  /** Red, green and blue are the three coordinates, in this order. */
  ghost predicate IsColour(c: Point, colour: (int, int, int)) {
    RoundsTo(c.x, colour.0) && RoundsTo(c.y, colour.1) && RoundsTo(c.z, colour.2)
  }

  lemma ColoursAreRounded(centroids: seq<Point>)
    requires AllInBox(centroids)
    ensures forall i :: 0 <= i < |centroids| ==> IsColour(centroids[i], Colours(centroids)[i])
  {
    forall i | 0 <= i < |centroids| ensures IsColour(centroids[i], Colours(centroids)[i]) {
      ToByteIsRounding(centroids[i].x);
      ToByteIsRounding(centroids[i].y);
      ToByteIsRounding(centroids[i].z);
    }
  }

  /** Centroids with byte coordinates come out as they are. */
  lemma ColoursOfBytes(centroids: seq<Point>, colours: seq<(int, int, int)>)
    requires AllInBox(centroids) && |colours| == |centroids|
    requires forall i :: 0 <= i < |centroids| ==>
               centroids[i] == Point(colours[i].0 as real, colours[i].1 as real, colours[i].2 as real)
    ensures Colours(centroids) == colours
  {
    ColoursAreRounded(centroids);
    forall i | 0 <= i < |centroids| ensures Colours(centroids)[i] == colours[i] {
      assert IsColour(centroids[i], Colours(centroids)[i]);
    }
  }

  /** `kmeans_palette`: the `k` colours are the rounded centroids at the end of a run from
      k-means++ seeds. Their cost is no higher than that of the seeds, and if the loop stopped
      after its first pass they are a fixed point. */
  method Palette(samples: seq<Point>, k: nat, maxIters: nat, first: nat, draws: seq<real>)
    returns (palette: seq<(int, int, int)>, ghost run: seq<State>)
    requires AllInBox(samples) && k > 0 && first < |samples| && |draws| == k - 1
    requires forall i :: 0 <= i < |draws| ==> 0.0 <= draws[i] < 1.0
    ensures 0 < |run| <= maxIters + 1
    ensures IsSeeding(samples, k, first, draws, run[0].centroids) && IsRun(samples, run[0].centroids, run)
    ensures var last := run[|run| - 1];
            && |last.centroids| == k && AllInBox(last.centroids) && palette == Colours(last.centroids)
            && (forall i :: 0 <= i < k ==> IsColour(last.centroids[i], palette[i]))
            && Assigned(samples, last.a, k) && Assigned(samples, run[0].a, k) && CostDrops(samples, run[0], last)
            && (|run| <= maxIters ==> |run| > 1 && last.a == run[|run| - 2].a)
            && (|run| > 2 && last.a == run[|run| - 2].a ==> FixedPoint(samples, last.centroids, last.a))
  {
    var seeds := Seeds(samples, k, first, draws);
    var last, converged;
    last, converged, run := Lloyd(samples, seeds, maxIters);
    RunStart(samples, seeds, run);
    CostOfLast(samples, run);
    assert run[0].centroids == seeds;
    palette := Colours(last.centroids);
    ColoursAreRounded(last.centroids);
  }

  function Colours(centroids: seq<Point>): (palette: seq<(int, int, int)>)
    ensures |palette| == |centroids|
    ensures forall i :: 0 <= i < |palette| ==>
              0 <= palette[i].0 <= 255 && 0 <= palette[i].1 <= 255 && 0 <= palette[i].2 <= 255
  {
    seq(|centroids|, i requires 0 <= i < |centroids| =>
      (ToByte(centroids[i].x), ToByte(centroids[i].y), ToByte(centroids[i].z)))
  }
}

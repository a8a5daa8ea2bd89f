/** The leaf kernels implement the leaf visit of nearest-one queries. */
module KernelRefinement {
  import opened Metrics
  import opened KdTree
  import opened QueryContext
  import opened LeafKernels

  /** The entries of a leaf stored by columns. */
  function Rows(leaf: Columns): (r: seq<Entry>)
    requires leaf.Valid()
    ensures |r| == |leaf.items| && Fits(r, |leaf.points|)
    ensures forall i :: 0 <= i < |r| ==> r[i] == Entry(PointAt(leaf, i), leaf.items[i])
  {
    seq(|leaf.items|, i requires 0 <= i < |leaf.items| => Entry(PointAt(leaf, i), leaf.items[i]))
  }

  function PointAt(leaf: Columns, idx: nat): (p: seq<real>)
    requires leaf.Valid() && idx < |leaf.items|
    ensures |p| == |leaf.points| && forall d :: 0 <= d < |p| ==> p[d] == leaf.points[d][idx]
  {
    seq(|leaf.points|, d requires 0 <= d < |leaf.points| => leaf.points[d][idx])
  }

  /** Accumulating from the first axis, as the kernels do, gives the distance. */
  lemma {:induction false} PartialDist(m: Metric, leaf: Columns, q: seq<real>, idx: nat, n: nat)
    requires leaf.Valid() && 0 < n <= |leaf.points| == |q| && idx < |leaf.items| && Additive(m)
    ensures DistTo(m, leaf, q, idx, n) == Total(m, Contributions(m, PointAt(leaf, idx), q)[..n])
  {
    var c := Contributions(m, PointAt(leaf, idx), q);
    var a, b := leaf.points[n - 1][idx], q[n - 1];
    Dist1Monotone(m, a - b, 0.0, a, b);
    Dist1Monotone(m, a, b, a - b, 0.0);
    assert c[..n][..n - 1] == c[..n - 1];
    if n > 1 {
      PartialDist(m, leaf, q, idx, n - 1);
    } else {
      assert c[..0] == [];
    }
  }

  lemma KernelDistance(m: Metric, leaf: Columns, q: seq<real>, idx: nat)
    requires leaf.Valid() && |leaf.points| == |q| && idx < |leaf.items| && Additive(m)
    ensures DistAt(m, leaf, q, idx) == Dist(m, PointAt(leaf, idx), q)
  {
    var c := Contributions(m, PointAt(leaf, idx), q);
    assert c[..|q|] == c;
    PartialDist(m, leaf, q, idx, |q|);
  }

  lemma {:induction false} ScanIsOffering(hits: seq<Hit>, best: Best, bound: Ext)
    ensures var dists, items := seq(|hits|, i requires 0 <= i < |hits| => hits[i].dist),
                                seq(|hits|, i requires 0 <= i < |hits| => hits[i].item);
            var s := Scan(dists, items, best);
            OfferAll(NearestOne(best.dist, best.item), bound, hits) == NearestOne(s.dist, s.item)
  {
    if hits != [] {
      var front := hits[..|hits| - 1];
      ScanIsOffering(front, best, bound);
      var dists, items := seq(|hits|, i requires 0 <= i < |hits| => hits[i].dist),
                          seq(|hits|, i requires 0 <= i < |hits| => hits[i].item);
      assert dists[..|hits| - 1] == seq(|front|, i requires 0 <= i < |front| => front[i].dist);
      assert items[..|hits| - 1] == seq(|front|, i requires 0 <= i < |front| => front[i].item);
    }
  }

  /** Whatever the backend, a kernel does to the running best what the leaf visit does to a
      nearest-one query. */
  lemma KernelIsLeafVisit(j: Job, best: Best)
    requires j.Valid()
    ensures Fits(Rows(j.leaf), |j.q|)
    ensures ProcessLeaf(j.m, j.q, Rows(j.leaf), NearestOne(best.dist, best.item))
         == NearestOne(Scanned(j, best).dist, Scanned(j, best).item)
  {
    var hits := Hits(j.m, j.q, Rows(j.leaf));
    forall i | 0 <= i < j.Len() ensures hits[i] == Hit(DistAt(j.m, j.leaf, j.q, i), j.leaf.items[i]) {
      KernelDistance(j.m, j.leaf, j.q, i);
    }
    ScanIsOffering(hits, best, best.dist);
    assert seq(|hits|, i requires 0 <= i < |hits| => hits[i].dist) == Dists(j.m, j.leaf, j.q, 0, j.Len());
    assert seq(|hits|, i requires 0 <= i < |hits| => hits[i].item) == j.leaf.items[..j.Len()];
  }
}

/** From the entries to the answer. */
module EndToEnd {
  import opened Metrics
  import opened KdTree
  import opened QueryContext
  import opened HitPermutation
  import AQ = ArithmeticQuery
  import IC = ImmutableConstruction
  import MC = MutableConstruction
  import MQ = MappedQuery

  /** Building an immutable tree and querying it answers like a scan of the entries, for every
      metric, every kind of query and every query point. */
  method BuildAndQuery(entries: seq<Entry>, k: nat, b: nat, m: Metric, q: seq<real>, c0: Context) returns (c: Context)
    requires k > 0 && b > 0 && Fits(entries, k) && |q| == k && Fresh(c0)
    requires m.Minkowski? ==> m.power > 0
    ensures SameQuery(c0, c) && Answers(c, multiset(Hits(m, q, entries)))
  {
    var t := IC.NewFromEntries(entries, k, b);
    c := AQ.Answer(t, m, q, c0);
    HitsOfPermutation(m, q, t.Contents(), entries);
  }

  /** Building a mutable tree and querying it does so for additive metrics, or refuses because
      more than a bucket of entries share a coordinate. */
  method BuildMutableAndQuery(entries: seq<Entry>, k: nat, b: nat, m: Metric, q: seq<real>, c0: Context)
    returns (r: MC.Result<Context>)
    requires k > 0 && b > 0 && Fits(entries, k) && |q| == k && Fresh(c0)
    requires (Additive(m) || k == 1) && (m.Minkowski? ==> m.power > 0)
    ensures r.Ok? ==> SameQuery(c0, r.value) && Answers(r.value, multiset(Hits(m, q, entries)))
    ensures r.UnsplittableBucket? ==> r.splitDim < k && MC.Unsplittable(entries, b, r.splitDim)
  {
    var built := MC.NewFromEntries(entries, k, b);
    if built.UnsplittableBucket? {
      return MC.UnsplittableBucket(built.splitDim);
    }
    var t := built.value;
    var c := MQ.Answer(t, m, q, c0);
    HitsOfPermutation(m, q, t.Contents(), entries);
    r := MC.Ok(c);
  }
}

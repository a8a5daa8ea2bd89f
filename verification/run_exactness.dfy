/** When every run of additions and removals leaves a mutable tree in order, and when every query
    after every run is exact. */
module RunExactness {
  import opened Metrics
  import opened KdTree
  import opened QueryContext
  import opened MappedQuery
  import opened MutableTree
  import opened MutableRuns
  import opened StaleOffsets
  import opened ReachedTrees
  import opened CulpritRun
  import opened MisplacedSplit

  /** Every tree over `k` axes that a run reaches with buckets of `b` is in order. */
  ghost predicate RunsKeepOrder(k: nat, b: nat)
    requires b > 0
  {
    forall ops: seq<Op>, t: Tree :: ReachedBy(EmptyTree(k), t, b, ops) ==> t.Valid()
  }

  lemma SmallRunsKeepOrder(k: nat, b: nat, ops: seq<Op>, t: Tree)
    requires k >= 1 && 2 <= b <= 6 && ReachedBy(EmptyTree(k), t, b, ops)
    ensures t.Valid()
  {
    EmptyIsSound(k, b);
    var trace: seq<Tree>, outcomes: seq<Outcome> :|
      IsTrace(trace, b, ops, outcomes) && trace[0] == EmptyTree(k) && trace[|ops|] == t;
    SmallBucketsKeepOrder(trace, b, ops, outcomes);
  }

  /** Runs keep order exactly with buckets of at most six. */
  lemma OrderKeptUpToSix(k: nat, b: nat)
    requires k >= 1 && b >= 2
    ensures RunsKeepOrder(k, b) <==> b <= 6
  {
    if b <= 6 {
      forall ops: seq<Op>, t: Tree | ReachedBy(EmptyTree(k), t, b, ops) ensures t.Valid() {
        SmallRunsKeepOrder(k, b, ops, t);
      }
    } else {
      UnorderedIsReached(k, b);
      UnorderedIsNotValid(k, b);
    }
  }

  /** Every query of every tree that a run reaches gets a right answer. */
  ghost predicate RunsAnswerRightly(m: Metric, k: nat, b: nat)
    requires b > 0
  {
    forall ops: seq<Op>, t: Tree, q: seq<real>, c0: Context ::
      ReachedBy(EmptyTree(k), t, b, ops) && |q| == t.k == k && Fresh(c0) && c0.WellFormed() ==> RightAnswer(t, m, q, c0)
  }

  lemma SmallRunsAnswerRightly(m: Metric, k: nat, b: nat)
    requires k >= 1 && 2 <= b <= 6 && (m.Minkowski? ==> m.power > 0) && (Additive(m) || k == 1)
    ensures RunsAnswerRightly(m, k, b)
  {
    forall ops: seq<Op>, t: Tree, q: seq<real>, c0: Context
      | ReachedBy(EmptyTree(k), t, b, ops) && |q| == t.k == k && Fresh(c0) && c0.WellFormed()
      ensures RightAnswer(t, m, q, c0)
    {
      SmallRunsKeepOrder(k, b, ops, t);
      AdditiveIsExact(t, m, q, c0);
    }
  }

  lemma OneWrongAnswer(m: Metric, k: nat, b: nat, ops: seq<Op>, t: Tree, q: seq<real>, c0: Context)
    requires b > 0 && ReachedBy(EmptyTree(k), t, b, ops) && |q| == t.k == k && Fresh(c0) && c0.WellFormed()
    requires !RightAnswer(t, m, q, c0)
    ensures !RunsAnswerRightly(m, k, b)
  {
  }

  /** Queries after runs are exact exactly when the metric is additive or there is a single
      axis, and buckets hold at most six. */
  lemma RunsAreExactExactlyWhen(m: Metric, k: nat, b: nat)
    requires k >= 1 && b >= 2 && (m.Minkowski? ==> m.power > 0)
    ensures RunsAnswerRightly(m, k, b) <==> (Additive(m) || k == 1) && b <= 6
  {
    if b >= 7 {
      UnorderedIsReached(k, b);
      MisplacedIsMissed(m, k, b);
      OneWrongAnswer(m, k, b, Adds(Bucket(k, b)) + [Op.Add(On(k, 5.0, 5))], Unordered(k, b), Around(k), HALF);
    } else if Additive(m) || k == 1 {
      SmallRunsAnswerRightly(m, k, b);
    } else {
      CulpritIsReached(k, b);
      CulpritIsMissed(m, k);
      OneWrongAnswer(m, k, b, Ops(k, b), CulpritTree(k), At(k, 6.0, 0.0, 0.0), NearestOne(Inf, 0));
    }
  }

  lemma CulpritIsMissed(m: Metric, k: nat)
    requires k >= 2 && m == Chebyshev
    ensures !RightAnswer(CulpritTree(k), m, At(k, 6.0, 0.0, 0.0), NearestOne(Inf, 0))
  {
    CulpritShape(k);
    CulpritIsLost(k);
  }
}

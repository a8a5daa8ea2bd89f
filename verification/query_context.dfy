/** Query contexts: what a traversal asks of a query (its pruning bound) and what a leaf
    visit does to it. The three kinds are nearest-one, nearest-n-within and within. */
module QueryContext {
  import opened Metrics
  import opened KdTree
  import opened Sorting

  datatype Hit = Hit(dist: real, item: nat)

  datatype Context =
    | NearestOne(best: Ext, item: nat)
    | NearestN(radius: Ext, exclusive: bool, maxQty: nat, results: seq<Hit>)
    | Within(radius: Ext, exclusive: bool, results: seq<Hit>)
  {
    /** The current pruning distance. */
    function MaxDist(): Ext
      requires WellFormed()
    {
      match this
      case NearestOne(b, _) => b
      case NearestN(r, _, n, res) =>
        var cap := if |res| == n then Fin(res[n - 1].dist) else Inf;
        if cap.Lt(r) then cap else r
      case Within(r, _, _) => r
    }

    predicate PruneOnEqual() {
      NearestOne? || exclusive
    }

    predicate InitialBoundIsUnbounded() {
      NearestOne? || radius == Inf
    }

    /** A subtree at rectangle distance `rd` is skipped. */
    predicate ShouldPrune(rd: real)
      requires WellFormed()
    {
      !Fin(rd).Le(MaxDist()) || (PruneOnEqual() && Fin(rd) == MaxDist())
    }

    /** The threshold collection holds at most `maxQty` hits and is sorted once full. */
    ghost predicate WellFormed() {
      NearestN? ==> 0 < maxQty && |results| <= maxQty && (|results| == maxQty ==> Ascending(results))
    }
  }

  /** Both contexts ask the same: for the nearest, for so many within a radius, or for all within
      one. */
  predicate SameQuery(c: Context, d: Context) {
    match c
    case NearestOne(_, _) => d.NearestOne?
    case NearestN(radius, exclusive, maxQty, _) =>
      d.NearestN? && d.radius == radius && d.exclusive == exclusive && d.maxQty == maxQty
    case Within(radius, exclusive, _) => d.Within? && d.radius == radius && d.exclusive == exclusive
  }

  function DistKey(h: Hit): real {
    h.dist
  }

  ghost predicate Ascending(s: seq<Hit>) {
    Sorted(s, DistKey)
  }

  /** `ThresholdVecResultCollection::add`: push while not full, sort on becoming full, then
      replace the farthest hit by any strictly nearer one. */
  function AddHit(results: seq<Hit>, maxQty: nat, h: Hit): (r: seq<Hit>)
    requires 0 < maxQty && |results| <= maxQty
    requires |results| == maxQty ==> Ascending(results)
    ensures |r| == if |results| < maxQty then |results| + 1 else maxQty
    ensures |r| == maxQty ==> Ascending(r)
  {
    if |results| < maxQty then
      var pushed := results + [h];
      SortSorts(pushed, DistKey);
      if |pushed| == maxQty then Sort(pushed, DistKey) else pushed
    else if h.dist < results[maxQty - 1].dist then
      InsertSorts(results[..maxQty - 1], h, DistKey);
      Insert(results[..maxQty - 1], h, DistKey)
    else results
  }

  /** One candidate of a leaf, tested against the bound taken at the start of that leaf. */
  function Offer(c: Context, bound: Ext, h: Hit): (r: Context)
    requires c.WellFormed()
    ensures r.WellFormed()
    ensures SameQuery(c, r)
  {
    match c
    case NearestOne(best, _) => if Fin(h.dist).Lt(best) then NearestOne(Fin(h.dist), h.item) else c
    case NearestN(radius, exclusive, maxQty, results) =>
      if Admits(h, bound, exclusive)
      then NearestN(radius, exclusive, maxQty, AddHit(results, maxQty, h)) else c
    case Within(radius, exclusive, results) =>
      if Admits(h, bound, exclusive) then Within(radius, exclusive, results + [h]) else c
  }

  predicate Admits(h: Hit, bound: Ext, exclusive: bool) {
    if exclusive then Fin(h.dist).Lt(bound) else Fin(h.dist).Le(bound)
  }

  function HitOf(m: Metric, q: seq<real>, e: Entry): Hit
    requires |e.point| == |q|
  {
    Hit(Dist(m, e.point, q), e.item)
  }

  ghost predicate Fits(entries: seq<Entry>, k: nat) {
    forall e :: e in entries ==> |e.point| == k
  }

  function Hits(m: Metric, q: seq<real>, entries: seq<Entry>): (r: seq<Hit>)
    requires Fits(entries, |q|)
    ensures |r| == |entries|
    ensures forall i :: 0 <= i < |entries| ==> r[i] == HitOf(m, q, entries[i])
  {
    seq(|entries|, i requires 0 <= i < |entries| => HitOf(m, q, entries[i]))
  }

  function OfferAll(c: Context, bound: Ext, hits: seq<Hit>): (r: Context)
    requires c.WellFormed()
    ensures r.WellFormed()
    ensures SameQuery(c, r)
  {
    if hits == [] then c
    else Offer(OfferAll(c, bound, hits[..|hits| - 1]), bound, hits[|hits| - 1])
  }

  /** The leaf visit: the bound is read once, then every entry is offered in order. */
  function ProcessLeaf(m: Metric, q: seq<real>, leaf: Leaf, c: Context): (r: Context)
    requires Fits(leaf, |q|) && c.WellFormed()
    ensures r.WellFormed()
    ensures SameQuery(c, r)
  {
    OfferAll(c, c.MaxDist(), Hits(m, q, leaf))
  }

  // ---------------------------------------------------------------- what a right answer is

  /** Within the radius asked for: nearer, or, unless the radius is exclusive, just as far. */
  ghost predicate InRadius(d: real, radius: Ext, exclusive: bool) {
    match radius
    case Inf => true
    case Fin(r) => d < r || (d == r && !exclusive)
  }

  ghost predicate IsFilter(r: multiset<Hit>, seen: multiset<Hit>, radius: Ext, exclusive: bool) {
    forall h: Hit :: r[h] == if InRadius(h.dist, radius, exclusive) then seen[h] else 0
  }

  lemma {:induction false} FilterExists(seen: multiset<Hit>, bound: Ext, exclusive: bool)
    ensures exists r :: IsFilter(r, seen, bound, exclusive)
    decreases |seen|
  {
    if seen == multiset{} {
      assert IsFilter(multiset{}, seen, bound, exclusive);
    } else {
      var x :| x in seen;
      var rest := seen - multiset{x};
      assert seen == rest + multiset{x};
      FilterExists(rest, bound, exclusive);
      var s :| IsFilter(s, rest, bound, exclusive);
      if InRadius(x.dist, bound, exclusive) {
        assert IsFilter(s + multiset{x}, seen, bound, exclusive);
      } else {
        assert IsFilter(s, seen, bound, exclusive);
      }
    }
  }

  /** The hits of `seen` inside the query's radius. */
  ghost function Candidates(c: Context, seen: multiset<Hit>): (r: multiset<Hit>)
    requires !c.NearestOne?
    ensures IsFilter(r, seen, c.radius, c.exclusive)
  {
    FilterExists(seen, c.radius, c.exclusive);
    var r :| IsFilter(r, seen, c.radius, c.exclusive);
    r
  }

  /** `kept` are `n` nearest candidates (all of them when there are fewer): nothing that
      was left out is strictly nearer than anything kept. */
  ghost predicate IsNearestN(kept: multiset<Hit>, n: nat, candidates: multiset<Hit>) {
    && kept <= candidates
    && |kept| == (if |candidates| < n then |candidates| else n)
    && forall k, l :: k in kept && l in candidates - kept ==> k.dist <= l.dist
  }

  /** `c` is a right answer to its query over exactly the hits in `seen`. */
  ghost predicate Answers(c: Context, seen: multiset<Hit>) {
    && c.WellFormed()
    && match c
       case NearestOne(Inf, _) => seen == multiset{}
       case NearestOne(Fin(d), item) => Hit(d, item) in seen && forall h :: h in seen ==> d <= h.dist
       case NearestN(_, _, n, results) => IsNearestN(multiset(results), n, Candidates(c, seen))
       case Within(_, _, results) => multiset(results) == Candidates(c, seen)
  }

  predicate Fresh(c: Context) {
    match c
    case NearestOne(best, _) => best == Inf
    case NearestN(_, _, n, results) => results == [] && n > 0
    case Within(_, _, results) => results == []
  }

  lemma FreshAnswersNothing(c: Context)
    requires Fresh(c)
    ensures c.WellFormed() && Answers(c, multiset{})
  {
    if !c.NearestOne? {
      assert Candidates(c, multiset{}) == multiset{};
    }
  }

  // ---------------------------------------------------------------- preservation

  lemma FillKeepsNearest(kept: multiset<Hit>, n: nat, candidates: multiset<Hit>, h: Hit)
    requires |kept| < n && IsNearestN(kept, n, candidates)
    ensures IsNearestN(kept + multiset{h}, n, candidates + multiset{h})
  {
    assert |candidates - kept| == 0;
    assert candidates == kept;
  }

  lemma ReplaceKeepsNearest(rest: multiset<Hit>, last: Hit, n: nat, candidates: multiset<Hit>, h: Hit)
    requires |rest| + 1 == n && IsNearestN(rest + multiset{last}, n, candidates)
    requires h.dist < last.dist && forall x :: x in rest ==> x.dist <= last.dist
    ensures IsNearestN(rest + multiset{h}, n, candidates + multiset{h})
  {
    var kept := rest + multiset{last};
    assert candidates + multiset{h} - (rest + multiset{h}) == (candidates - kept) + multiset{last};
    forall k, l | k in rest + multiset{h} && l in (candidates - kept) + multiset{last}
      ensures k.dist <= l.dist
    {
      assert last in kept;
      assert k.dist <= last.dist;
      assert l == last || l in candidates - kept;
    }
  }

  /** A hit no nearer than anything kept can be left out of a full collection. */
  lemma SkipKeepsNearest(kept: multiset<Hit>, n: nat, candidates: multiset<Hit>, h: Hit)
    requires |kept| == n && IsNearestN(kept, n, candidates)
    requires forall x :: x in kept ==> x.dist <= h.dist
    ensures IsNearestN(kept, n, candidates + multiset{h})
  {
    forall k, l | k in kept && l in candidates + multiset{h} - kept
      ensures k.dist <= l.dist
    {
      assert l == h || l in candidates - kept;
    }
  }

  lemma LastIsFarthest(results: seq<Hit>)
    requires results != [] && Ascending(results)
    ensures multiset(results) == multiset(results[..|results| - 1]) + multiset{results[|results| - 1]}
    ensures forall h :: h in multiset(results) ==> h.dist <= results[|results| - 1].dist
  {
    assert results == results[..|results| - 1] + [results[|results| - 1]];
    forall h | h in multiset(results) ensures h.dist <= results[|results| - 1].dist {
      assert h in results;
    }
  }

  lemma AddHitContents(results: seq<Hit>, n: nat, h: Hit)
    requires 0 < n && |results| <= n && (|results| == n ==> Ascending(results))
    ensures multiset(AddHit(results, n, h)) ==
            if |results| < n then multiset(results) + multiset{h}
            else if h.dist < results[n - 1].dist then multiset(results[..n - 1]) + multiset{h}
            else multiset(results)
  {
    if |results| < n {
      SortSorts(results + [h], DistKey);
    } else if h.dist < results[n - 1].dist {
      InsertContents(results[..n - 1], h, DistKey);
    }
  }

  /** A full collection keeps the earlier of two hits at its farthest distance. */
  lemma TiesAreKept(results: seq<Hit>, n: nat, h: Hit)
    requires 0 < n && |results| == n && Ascending(results)
    ensures AddHit(results, n, h) == results <==> results[n - 1].dist <= h.dist
  {
    if h.dist < results[n - 1].dist {
      AddHitContents(results, n, h);
      LastIsFarthest(results);
      assert multiset(AddHit(results, n, h))[h] == multiset(results[..n - 1])[h] + 1;
      assert multiset(results)[h] == multiset(results[..n - 1])[h];
    }
  }

  lemma AddHitKeepsNearest(results: seq<Hit>, n: nat, candidates: multiset<Hit>, h: Hit)
    requires 0 < n && |results| <= n && (|results| == n ==> Ascending(results))
    requires IsNearestN(multiset(results), n, candidates)
    ensures IsNearestN(multiset(AddHit(results, n, h)), n, candidates + multiset{h})
  {
    var before, after := multiset(results), multiset(AddHit(results, n, h));
    AddHitContents(results, n, h);
    assert |before| == |results|;
    if |results| < n {
      FillKeepsNearest(before, n, candidates, h);
    } else {
      LastIsFarthest(results);
      var rest, last := multiset(results[..n - 1]), results[n - 1];
      assert |rest| == n - 1;
      assert before == rest + multiset{last};
      if h.dist < last.dist {
        assert after == rest + multiset{h};
        assert forall x :: x in rest ==> x in before;
        ReplaceKeepsNearest(rest, last, n, candidates, h);
      } else {
        SkipKeepsNearest(before, n, candidates, h);
      }
    }
  }

  /** Both radii agree on everything but the hits on the radius: an inclusive query has them, an
      exclusive one has not. */
  lemma RimOfCandidates(inclusive: Context, exclusive: Context, r: real, seen: multiset<Hit>, h: Hit)
    requires !inclusive.NearestOne? && inclusive.radius == Fin(r) && !inclusive.exclusive
    requires !exclusive.NearestOne? && exclusive.radius == Fin(r) && exclusive.exclusive
    ensures Candidates(inclusive, seen)[h] == Candidates(exclusive, seen)[h] + if h.dist == r then seen[h] else 0
    ensures h in Candidates(exclusive, seen) <==> h in seen && h.dist < r
  {
  }

  lemma CandidatesOfMore(c: Context, seen: multiset<Hit>, h: Hit)
    requires !c.NearestOne?
    ensures Candidates(c, seen + multiset{h}) ==
            if InRadius(h.dist, c.radius, c.exclusive) then Candidates(c, seen) + multiset{h}
            else Candidates(c, seen)
  {
  }

  lemma CandidatesDependOnRadius(c: Context, d: Context, seen: multiset<Hit>)
    requires !c.NearestOne? && !d.NearestOne? && c.radius == d.radius && c.exclusive == d.exclusive
    ensures Candidates(c, seen) == Candidates(d, seen)
  {
  }

  /** A hit beyond the pruning bound changes no answer. */
  lemma SkippingIsSafe(c: Context, seen: multiset<Hit>, h: Hit)
    requires Answers(c, seen)
    requires c.ShouldPrune(h.dist)
    ensures Answers(c, seen + multiset{h})
  {
    match c
    case NearestOne(_, _) =>
    case NearestN(_, _, _, _) => SkippingNearestN(c, seen, h);
    case Within(_, _, _) => CandidatesOfMore(c, seen, h);
  }

  lemma PrunedIsFarther(c: Context, h: Hit)
    requires c.NearestN? && c.WellFormed() && c.ShouldPrune(h.dist) && InRadius(h.dist, c.radius, c.exclusive)
    ensures |multiset(c.results)| == c.maxQty
    ensures forall x :: x in multiset(c.results) ==> x.dist <= h.dist
  {
    LastIsFarthest(c.results);
  }

  /** What is skipped is exactly what no hit from there on could change, but for an inclusive
      collection that is full: there hits just as far as its farthest are still looked at. */
  lemma PrunesExactlyTheUseless(c: Context, rd: real)
    requires c.WellFormed() && (c.NearestN? ==> c.exclusive || |c.results| < c.maxQty)
    ensures c.ShouldPrune(rd) <==> forall h: Hit :: h.dist >= rd ==> Offer(c, c.MaxDist(), h) == c
  {
    var near := Hit(rd, 0);
    if !c.ShouldPrune(rd) {
      if c.NearestN? && |c.results| == c.maxQty {
        TiesAreKept(c.results, c.maxQty, near);
      }
      assert Offer(c, c.MaxDist(), near) != c;
    }
  }

  lemma SkippingNearestN(c: Context, seen: multiset<Hit>, h: Hit)
    requires c.NearestN? && Answers(c, seen) && c.ShouldPrune(h.dist)
    ensures Answers(c, seen + multiset{h})
  {
    CandidatesOfMore(c, seen, h);
    if InRadius(h.dist, c.radius, c.exclusive) {
      PrunedIsFarther(c, h);
      SkipKeepsNearest(multiset(c.results), c.maxQty, Candidates(c, seen), h);
      assert Candidates(c, seen + multiset{h}) == Candidates(c, seen) + multiset{h};
    } else {
      assert Candidates(c, seen + multiset{h}) == Candidates(c, seen);
    }
  }

  /** Offering a hit keeps the answer right, for any bound between the current one and the
      radius, and never loosens the bound. */
  lemma OfferKeepsAnswer(c: Context, bound: Ext, seen: multiset<Hit>, h: Hit)
    requires Answers(c, seen)
    requires c.MaxDist().Le(bound) && (!c.NearestOne? ==> bound.Le(c.radius))
    ensures Answers(Offer(c, bound, h), seen + multiset{h})
    ensures Offer(c, bound, h).MaxDist().Le(c.MaxDist())
  {
    match c
    case NearestOne(_, _) =>
    case NearestN(_, _, _, _) => OfferNearestN(c, bound, seen, h);
    case Within(_, _, results) =>
      CandidatesOfMore(c, seen, h);
      CandidatesDependOnRadius(c, Offer(c, bound, h), seen + multiset{h});
      assert multiset(results + [h]) == multiset(results) + multiset{h};
  }

  lemma OfferNearestN(c: Context, bound: Ext, seen: multiset<Hit>, h: Hit)
    requires c.NearestN? && Answers(c, seen) && c.MaxDist().Le(bound) && bound.Le(c.radius)
    ensures Answers(Offer(c, bound, h), seen + multiset{h})
    ensures Offer(c, bound, h).MaxDist().Le(c.MaxDist())
  {
    OfferTightensNearestN(c, bound, h);
    if Admits(h, bound, c.exclusive) {
      assert Offer(c, bound, h) == Keep(c, h);
      KeepNearestN(c, seen, h);
    } else {
      assert Offer(c, bound, h) == c;
      assert c.ShouldPrune(h.dist);
      SkippingIsSafe(c, seen, h);
    }
  }

  lemma OfferTightensNearestN(c: Context, bound: Ext, h: Hit)
    requires c.NearestN? && c.WellFormed()
    ensures Offer(c, bound, h).MaxDist().Le(c.MaxDist())
  {
    AddHitTightens(c.results, c.maxQty, h);
  }

  function Keep(c: Context, h: Hit): Context
    requires c.NearestN? && c.WellFormed()
  {
    NearestN(c.radius, c.exclusive, c.maxQty, AddHit(c.results, c.maxQty, h))
  }

  lemma KeepNearestN(c: Context, seen: multiset<Hit>, h: Hit)
    requires c.NearestN? && Answers(c, seen) && InRadius(h.dist, c.radius, c.exclusive)
    ensures Answers(Keep(c, h), seen + multiset{h})
  {
    var r := Keep(c, h);
    assert Candidates(r, seen + multiset{h}) == Candidates(c, seen) + multiset{h} by {
      CandidatesOfMore(c, seen, h);
      CandidatesDependOnRadius(c, r, seen + multiset{h});
    }
    AddHitKeepsNearest(c.results, c.maxQty, Candidates(c, seen), h);
    assert IsNearestN(multiset(r.results), r.maxQty, Candidates(r, seen + multiset{h}));
  }

  lemma AddHitTightens(results: seq<Hit>, n: nat, h: Hit)
    requires 0 < n && |results| <= n && (|results| == n ==> Ascending(results))
    ensures |results| == n ==> AddHit(results, n, h)[n - 1].dist <= results[n - 1].dist
  {
    if |results| == n && h.dist < results[n - 1].dist {
      var r := AddHit(results, n, h);
      InsertBounded(results[..n - 1], h, DistKey, results[n - 1].dist);
    }
  }

  lemma {:induction false} OfferAllKeepsAnswer(c: Context, bound: Ext, seen: multiset<Hit>, hits: seq<Hit>)
    requires Answers(c, seen)
    requires c.MaxDist().Le(bound) && (!c.NearestOne? ==> bound.Le(c.radius))
    ensures Answers(OfferAll(c, bound, hits), seen + multiset(hits))
    ensures OfferAll(c, bound, hits).MaxDist().Le(c.MaxDist())
  {
    if hits == [] {
      assert seen + multiset(hits) == seen;
    } else {
      var front, last := hits[..|hits| - 1], hits[|hits| - 1];
      assert hits == front + [last];
      OfferAllKeepsAnswer(c, bound, seen, front);
      OfferKeepsAnswer(OfferAll(c, bound, front), bound, seen + multiset(front), last);
      assert seen + multiset(hits) == seen + multiset(front) + multiset{last};
    }
  }

  /** A leaf visit extends the answer by exactly that leaf's hits. */
  lemma ProcessLeafKeepsAnswer(m: Metric, q: seq<real>, leaf: Leaf, c: Context, seen: multiset<Hit>)
    requires Fits(leaf, |q|) && Answers(c, seen)
    ensures Answers(ProcessLeaf(m, q, leaf, c), seen + multiset(Hits(m, q, leaf)))
    ensures ProcessLeaf(m, q, leaf, c).MaxDist().Le(c.MaxDist())
  {
    OfferAllKeepsAnswer(c, c.MaxDist(), seen, Hits(m, q, leaf));
  }

  lemma {:induction false} SkippingAllIsSafe(c: Context, seen: multiset<Hit>, hits: seq<Hit>)
    requires Answers(c, seen)
    requires forall h :: h in hits ==> c.ShouldPrune(h.dist)
    ensures Answers(c, seen + multiset(hits))
  {
    if hits == [] {
      assert seen + multiset(hits) == seen;
    } else {
      var front, last := hits[..|hits| - 1], hits[|hits| - 1];
      assert hits == front + [last];
      SkippingAllIsSafe(c, seen, front);
      assert last in hits;
      SkippingIsSafe(c, seen + multiset(front), last);
      assert seen + multiset(hits) == seen + multiset(front) + multiset{last};
    }
  }
}

/** The brute-force side of the fuzz oracle (examples/fuzz-case-repro.rs, `MetricState`,
    `brute_states`). The binary heap is kept as a list sorted by distance. */
module FuzzState {
  import opened Metrics
  import opened Sorting
  import opened QueryContext

  /** Items of the hits at distance `d`, in order of arrival. */
  function ItemsAtDist(seen: seq<Hit>, d: real): seq<nat> {
    if seen == [] then []
    else ItemsAtDist(seen[..|seen| - 1], d) + if seen[|seen| - 1].dist == d then [seen[|seen| - 1].item] else []
  }

  function Inside(seen: seq<Hit>, radius: real): seq<Hit> {
    if seen == [] then []
    else Inside(seen[..|seen| - 1], radius) + if seen[|seen| - 1].dist <= radius then [seen[|seen| - 1]] else []
  }

  /** The least distance seen, or infinity. */
  function LeastDist(seen: seq<Hit>): (m: Ext)
    ensures m.Inf? <==> seen == []
  {
    if seen == [] then Inf else Min(LeastDist(seen[..|seen| - 1]), Fin(seen[|seen| - 1].dist))
  }

  lemma {:induction false} LeastIsMinimum(seen: seq<Hit>)
    ensures forall i :: 0 <= i < |seen| ==> LeastDist(seen).Le(Fin(seen[i].dist))
    ensures seen != [] ==> exists i :: 0 <= i < |seen| && LeastDist(seen) == Fin(seen[i].dist)
  {
    if seen != [] {
      var n := |seen| - 1;
      LeastIsMinimum(seen[..n]);
      if LeastDist(seen) == Fin(seen[n].dist) {
      } else {
        var i :| 0 <= i < n && LeastDist(seen[..n]) == Fin(seen[..n][i].dist);
        assert seen[..n][i] == seen[i];
      }
    }
  }

  /** Nothing is listed at a distance below every hit. */
  lemma {:induction false} NothingBelow(seen: seq<Hit>, d: real)
    requires forall i :: 0 <= i < |seen| ==> d < seen[i].dist
    ensures ItemsAtDist(seen, d) == []
  {
    if seen != [] {
      NothingBelow(seen[..|seen| - 1], d);
    }
  }

  /** The best distance and its items after one more hit. */
  lemma BestAfter(was: seq<Hit>, h: Hit)
    ensures var least, next := LeastDist(was), was + [h];
            if Fin(h.dist).Lt(least) then LeastDist(next) == Fin(h.dist) && ItemsAtDist(next, h.dist) == [h.item]
            else LeastDist(next) == least
                 && ItemsAtDist(next, least.v) == ItemsAtDist(was, least.v) + if h.dist == least.v then [h.item] else []
  {
    assert (was + [h])[..|was|] == was;
    LeastIsMinimum(was);
    if Fin(h.dist).Lt(LeastDist(was)) {
      NothingBelow(was, h.dist);
    }
  }

  lemma InsideAfter(was: seq<Hit>, h: Hit, radius: real)
    ensures Inside(was + [h], radius) == Inside(was, radius) + if h.dist <= radius then [h] else []
  {
    assert (was + [h])[..|was|] == was;
  }

  /** What the best fields say about the hits seen. */
  ghost predicate BestOf(seen: seq<Hit>, bestDist: Ext, bestItems: seq<nat>) {
    bestDist == LeastDist(seen) && bestItems == if bestDist.Fin? then ItemsAtDist(seen, bestDist.v) else []
  }

  /** What the heap says: `maxQty` nearest hits, sorted. */
  ghost predicate HeapOf(seen: seq<Hit>, heap: seq<Hit>, maxQty: nat) {
    Ascending(heap) && IsNearestN(multiset(heap), maxQty, multiset(seen))
  }

  lemma HeapAfter(seen: seq<Hit>, heap: seq<Hit>, maxQty: nat, h: Hit)
    requires HeapOf(seen, heap, maxQty)
    ensures HeapOf(seen + [h], Pushed(heap, maxQty, h), maxQty)
  {
    PushedKeepsNearest(heap, maxQty, multiset(seen), h);
    assert multiset(seen + [h]) == multiset(seen) + multiset{h};
  }

  class MetricState {
    const maxQty: nat
    const radius: real
    var bestDist: Ext
    var bestItems: seq<nat>
    var heap: seq<Hit>
    var within: seq<Hit>
    ghost var seen: seq<Hit>

    /** Everything kept is determined by what was seen, up to the choice among ties in the
        heap. */
    ghost predicate Valid()
      reads this
    {
      BestOf(seen, bestDist, bestItems) && within == Inside(seen, radius) && HeapOf(seen, heap, maxQty)
    }

    constructor (maxQty: nat, radius: real)
      ensures Valid() && seen == [] && this.maxQty == maxQty && this.radius == radius
    {
      this.maxQty, this.radius := maxQty, radius;
      bestDist, bestItems, heap, within, seen := Inf, [], [], [], [];
    }

    method Update(dist: real, idx: nat)
      requires Valid()
      modifies this
      ensures Valid() && seen == old(seen) + [Hit(dist, idx)]
    {
      ghost var next := seen + [Hit(dist, idx)];
      UpdateBest(dist, idx, next);
      UpdateWithin(dist, idx, next);
      UpdateHeap(dist, idx, next);
      seen := next;
    }

    method UpdateWithin(dist: real, idx: nat, ghost next: seq<Hit>)
      requires within == Inside(seen, radius) && next == seen + [Hit(dist, idx)]
      modifies this`within
      ensures within == Inside(next, radius)
    {
      InsideAfter(seen, Hit(dist, idx), radius);
      if dist <= radius {
        within := within + [Hit(dist, idx)];
      }
    }

    method UpdateHeap(dist: real, idx: nat, ghost next: seq<Hit>)
      requires HeapOf(seen, heap, maxQty) && next == seen + [Hit(dist, idx)]
      modifies this`heap
      ensures HeapOf(next, heap, maxQty)
    {
      HeapAfter(seen, heap, maxQty, Hit(dist, idx));
      heap := Pushed(heap, maxQty, Hit(dist, idx));
    }

    method UpdateBest(dist: real, idx: nat, ghost next: seq<Hit>)
      requires BestOf(seen, bestDist, bestItems) && next == seen + [Hit(dist, idx)]
      modifies this`bestDist, this`bestItems
      ensures BestOf(next, bestDist, bestItems)
    {
      BestAfter(seen, Hit(dist, idx));
      if Fin(dist).Lt(bestDist) {
        bestDist, bestItems := Fin(dist), [idx];
      } else if Fin(dist) == bestDist {
        bestItems := bestItems + [idx];
      }
    }

    method TakeNearestNSorted() returns (r: seq<Hit>)
      requires Valid()
      modifies this`heap
      ensures heap == [] && HeapOf(seen, r, maxQty)
    {
      r, heap := heap, [];
    }
  }

  /** The heap update: push while there is room, else replace the top by anything nearer. */
  function Pushed(heap: seq<Hit>, maxQty: nat, h: Hit): seq<Hit> {
    if maxQty == 0 then heap
    else if |heap| < maxQty then Insert(heap, h, DistKey)
    else if heap != [] && h.dist < heap[|heap| - 1].dist then Insert(heap[..|heap| - 1], h, DistKey)
    else heap
  }

  lemma PushedKeepsNearest(heap: seq<Hit>, n: nat, seen: multiset<Hit>, h: Hit)
    requires Ascending(heap) && IsNearestN(multiset(heap), n, seen)
    ensures Ascending(Pushed(heap, n, h))
    ensures IsNearestN(multiset(Pushed(heap, n, h)), n, seen + multiset{h})
  {
    assert |multiset(heap)| == |heap| <= n;
    if n > 0 && |heap| < n {
      InsertSorts(heap, h, DistKey);
      InsertContents(heap, h, DistKey);
      FillKeepsNearest(multiset(heap), n, seen, h);
    } else if n > 0 {
      LastIsFarthest(heap);
      var rest := heap[..|heap| - 1];
      InsertSorts(rest, h, DistKey);
      InsertContents(rest, h, DistKey);
      if h.dist < heap[|heap| - 1].dist {
        RestIsNearer(heap);
        ReplaceKeepsNearest(multiset(rest), heap[|heap| - 1], n, seen, h);
      } else {
        SkipKeepsNearest(multiset(heap), n, seen, h);
      }
    }
  }

  /** A full heap stays as it is exactly for hits that are not nearer than its farthest. */
  lemma TiesStay(heap: seq<Hit>, n: nat, h: Hit)
    requires 0 < n && |heap| == n && Ascending(heap)
    ensures Pushed(heap, n, h) == heap <==> heap[n - 1].dist <= h.dist
  {
    if h.dist < heap[n - 1].dist {
      var rest := heap[..n - 1];
      InsertContents(rest, h, DistKey);
      assert heap == rest + [heap[n - 1]];
      assert multiset(Pushed(heap, n, h))[h] == multiset(rest)[h] + 1;
      assert multiset(heap)[h] == multiset(rest)[h];
    }
  }

  lemma RestIsNearer(heap: seq<Hit>)
    requires heap != [] && Ascending(heap)
    ensures forall x :: x in multiset(heap[..|heap| - 1]) ==> x.dist <= heap[|heap| - 1].dist
    ensures |multiset(heap[..|heap| - 1])| == |heap| - 1
  {
    forall x | x in multiset(heap[..|heap| - 1]) ensures x.dist <= heap[|heap| - 1].dist {
      assert x in heap[..|heap| - 1];
    }
  }

  /** `brute_states`: after a whole scan the state answers for exactly the scanned distances. */
  method BruteState(dists: seq<real>, maxQty: nat, radius: real) returns (s: MetricState)
    ensures fresh(s) && s.Valid() && s.maxQty == maxQty && s.radius == radius
    ensures s.seen == Scanned(dists)
  {
    s := new MetricState(maxQty, radius);
    for i := 0 to |dists|
      invariant fresh(s) && s.Valid() && s.maxQty == maxQty && s.radius == radius
      invariant s.seen == Scanned(dists[..i])
    {
      ScannedOneMore(dists, i);
      s.Update(dists[i], i);
    }
    assert dists[..|dists|] == dists;
  }

  lemma ScannedOneMore(dists: seq<real>, i: nat)
    requires i < |dists|
    ensures Scanned(dists[..i + 1]) == Scanned(dists[..i]) + [Hit(dists[i], i)]
  {
  }

  function Scanned(dists: seq<real>): (s: seq<Hit>)
    ensures |s| == |dists| && forall i :: 0 <= i < |dists| ==> s[i] == Hit(dists[i], i)
  {
    seq(|dists|, i requires 0 <= i < |dists| => Hit(dists[i], i))
  }

  /** `items` lists, in ascending order, exactly the indices at distance `d`. */
  ghost predicate ListsExactly(items: seq<nat>, seen: seq<Hit>, d: real) {
    && (forall i, j :: 0 <= i < j < |items| ==> items[i] < items[j])
    && (forall x :: x in items ==> x < |seen| && seen[x].dist == d)
    && (forall x :: 0 <= x < |seen| && seen[x].dist == d ==> x in items)
  }

  /** On a scan, the best items are exactly the indices at the least distance, ascending. */
  lemma {:induction false} BestItemsAreAscending(seen: seq<Hit>, d: real)
    requires forall i :: 0 <= i < |seen| ==> seen[i].item == i
    ensures ListsExactly(ItemsAtDist(seen, d), seen, d)
  {
    if seen != [] {
      var n := |seen| - 1;
      BestItemsAreAscending(seen[..n], d);
      OneMoreListed(ItemsAtDist(seen[..n], d), seen, d);
    }
  }

  lemma OneMoreListed(items: seq<nat>, seen: seq<Hit>, d: real)
    requires seen != [] && ListsExactly(items, seen[..|seen| - 1], d)
    ensures ListsExactly(items + if seen[|seen| - 1].dist == d then [|seen| - 1] else [], seen, d)
  {
    var n := |seen| - 1;
    forall i | 0 <= i < |items| ensures items[i] < n {
      assert items[i] in items;
    }
    forall x | 0 <= x < n && seen[x].dist == d ensures x in items {
      assert seen[..n][x] == seen[x];
    }
  }
}

/** The comparators of the fuzz oracle (examples/fuzz-case-repro.rs,
    `compare_nearest_n_sorted`, `compare_within_results`), for any matching relation between
    distances. */
module OracleComparators {
  import opened Metrics
  import opened Sorting
  import opened QueryContext
  import opened FuzzState
  import opened KdTree
  import opened EndToEnd
  import opened OracleMatching

  // ---------------------------------------------------------------- nearest n

  /** The run of hits matching `d` that starts at `from`. */
  method TakeRun(matches: Match, s: seq<Hit>, from: nat, d: real) returns (to: nat, items: seq<nat>)
    requires from <= |s|
    ensures to == from + RunLength(matches, s[from..], d) && items == ItemsOf(s[from..to])
  {
    to, items := from, [];
    while to < |s| && matches(s[to].dist, d)
      invariant from <= to <= |s| && items == ItemsOf(s[from..to])
      invariant forall i :: from <= i < to ==> matches(s[i].dist, d)
    {
      assert ItemsOf(s[from..to + 1]) == ItemsOf(s[from..to]) + [s[to].item];
      items := items + [s[to].item];
      to := to + 1;
    }
    RunIs(matches, s[from..], to - from, d);
  }

  /** One group of matching distances. */
  method CompareGroup(matches: Match, expected: seq<Hit>, got: seq<Hit>, i: nat, j: nat, ghost tail: real)
    returns (same: bool, i1: nat, j1: nat)
    requires Reflexive(matches) && i < |expected| && j <= |got| && Nearer(matches, expected[i].dist, tail)
    ensures same ==> i < i1 <= |expected| && j1 <= |got|
    ensures Merges(matches, expected[i..], got[j..], tail) <==> same && Merges(matches, expected[i1..], got[j1..], tail)
  {
    var dist := expected[i].dist;
    var expItems, gotItems;
    i1, expItems := TakeRun(matches, expected, i, dist);
    if j < |got| && Nearer(matches, got[j].dist, dist) {
      return false, i, j;
    }
    if j >= |got| || !matches(got[j].dist, dist) {
      return false, i, j;
    }
    j1, gotItems := TakeRun(matches, got, j, dist);
    same := multiset(expItems) == multiset(gotItems);
    GroupMerges(matches, expected, got, i, j, tail, i1, j1);
  }

  /** What the group's items say about the rest of the comparison. */
  lemma GroupMerges(matches: Match, expected: seq<Hit>, got: seq<Hit>, i: nat, j: nat, tail: real, i1: nat, j1: nat)
    requires Reflexive(matches) && i < |expected| && j <= |got| && Nearer(matches, expected[i].dist, tail)
    requires i1 == i + RunLength(matches, expected[i..], expected[i].dist) && j1 == j + RunLength(matches, got[j..], expected[i].dist)
    ensures Merges(matches, expected[i..], got[j..], tail) <==>
              multiset(ItemsOf(expected[i..i1])) == multiset(ItemsOf(got[j..j1])) && Merges(matches, expected[i1..], got[j1..], tail)
  {
    var e, g, d := expected[i..], got[j..], expected[i].dist;
    var n, k := i1 - i, j1 - j;
    MergesStep(matches, e, g, tail, n);
    RunsOfSameItems(matches, e, g, d);
    assert e[..n] == expected[i..i1] && g[..k] == got[j..j1];
    assert e[n..] == expected[i1..] && g[k..] == got[j1..];
    assert SameRun(matches, e, g, d) ==> n == k;
  }

  /** The two-pointer comparison: it accepts exactly the lists that merge group by group. */
  method CompareNearestN(matches: Match, expected: seq<Hit>, got: seq<Hit>) returns (ok: bool)
    requires Reflexive(matches)
    ensures ok <==> Accepts(matches, expected, got)
    ensures expected == got ==> ok
    ensures Exact(matches) && Ascending(expected) && Ascending(got) ==> (ok <==> Agree(expected, got))
  {
    if expected != [] {
      MergesItself(matches, expected, expected[|expected| - 1].dist);
    }
    if Exact(matches) && Ascending(expected) && Ascending(got) {
      ExactAccepts(matches, expected, got);
    }
    if |expected| != |got| {
      return false;
    }
    if expected == [] {
      return true;
    }
    var tail := expected[|expected| - 1].dist;
    if !matches(got[|got| - 1].dist, tail) {
      return false;
    }
    var i: nat, j: nat := 0, 0;
    assert expected[0..] == expected && got[0..] == got;
    while i < |expected| && Nearer(matches, expected[i].dist, tail)
      invariant i <= |expected| && j <= |got|
      invariant Merges(matches, expected, got, tail) <==> Merges(matches, expected[i..], got[j..], tail)
      decreases |expected| - i
    {
      var same, i1, j1 := CompareGroup(matches, expected, got, i, j, tail);
      if !same {
        return false;
      }
      i, j := i1, j1;
    }
    return !(j < |got| && Nearer(matches, got[j].dist, tail));
  }

  /** Same length, same farthest distance, and at every nearer distance the same items. */
  ghost predicate Agree(expected: seq<Hit>, got: seq<Hit>) {
    && |expected| == |got|
    && (expected != [] ==>
          var tail := expected[|expected| - 1].dist;
          && got[|got| - 1].dist == tail
          && forall d :: d < tail ==> SameItemsAt(expected, got, d))
  }

  ghost predicate SameItemsAt(a: seq<Hit>, b: seq<Hit>, d: real) {
    multiset(ItemsAtDist(a, d)) == multiset(ItemsAtDist(b, d))
  }

  lemma {:induction false} ItemsAtFirst(s: seq<Hit>, d: real)
    requires s != []
    ensures ItemsAtDist(s, d) == (if s[0].dist == d then [s[0].item] else []) + ItemsAtDist(s[1..], d)
  {
    var n := |s| - 1;
    if n > 0 {
      ItemsAtFirst(s[..n], d);
      ItemsAtLast(s[1..], s[..n][1..], s[n], d);
    } else {
      assert s[1..] == [] && s[..0] == [];
    }
  }

  lemma ItemsAtLast(s: seq<Hit>, front: seq<Hit>, last: Hit, d: real)
    requires s == front + [last]
    ensures ItemsAtDist(s, d) == ItemsAtDist(front, d) + if last.dist == d then [last.item] else []
  {
    assert s[..|s| - 1] == front;
  }

  /** With exact matching, the items like a distance are those at it. */
  lemma {:induction false} LikeIsAt(matches: Match, s: seq<Hit>, d: real)
    requires Exact(matches)
    ensures ItemsLike(matches, s, d) == ItemsAtDist(s, d)
  {
    if s != [] {
      LikeIsAt(matches, s[1..], d);
      ItemsAtFirst(s, d);
    }
  }

  lemma ExactAccepts(matches: Match, expected: seq<Hit>, got: seq<Hit>)
    requires Exact(matches) && Reflexive(matches) && Ascending(expected) && Ascending(got)
    ensures Accepts(matches, expected, got) <==> Agree(expected, got)
  {
    AcceptsExactlyWhen(matches, expected, got);
    forall d ensures SameItemsAt(expected, got, d) <==> SameLike(matches, expected, got, d) {
      LikeIsAt(matches, expected, d);
      LikeIsAt(matches, got, d);
    }
    forall d | !Occurs(expected, d) && !Occurs(got, d) ensures SameItemsAt(expected, got, d) {
      NoneLike(matches, expected, d);
      NoneLike(matches, got, d);
      assert SameLike(matches, expected, got, d);
    }
  }

  // ---------------------------------------------------------------- the oracle accepts right answers

  lemma {:induction false} ItemsMultiset(s: seq<Hit>, d: real, item: nat)
    ensures multiset(ItemsAtDist(s, d))[item] == multiset(s)[Hit(d, item)]
  {
    if s != [] {
      var front, last := s[..|s| - 1], s[|s| - 1];
      assert s == front + [last];
      ItemsMultiset(front, d, item);
    }
  }

  /** Two n-smallest answers over the same hits agree, whatever they pick among ties at the
      cutoff. */
  lemma NearestAnswersAgree(expected: seq<Hit>, got: seq<Hit>, n: nat, all: multiset<Hit>)
    requires Ascending(expected) && Ascending(got)
    requires IsNearestN(multiset(expected), n, all) && IsNearestN(multiset(got), n, all)
    ensures Agree(expected, got)
  {
    assert |multiset(expected)| == |expected| && |multiset(got)| == |got|;
    if expected != [] {
      LastIsFarthest(expected);
      LastIsFarthest(got);
      TailNoFarther(expected, got, n, all);
      TailNoFarther(got, expected, n, all);
      forall d | d < expected[|expected| - 1].dist ensures SameItemsAt(expected, got, d) {
        forall item: nat ensures multiset(ItemsAtDist(expected, d))[item] == multiset(ItemsAtDist(got, d))[item] {
          NearerAllKept(expected, n, all, Hit(d, item));
          NearerAllKept(got, n, all, Hit(d, item));
          ItemsMultiset(expected, d, item);
          ItemsMultiset(got, d, item);
        }
      }
    }
  }

  /** Every copy of a hit strictly nearer than the farthest kept one is kept. */
  lemma NearerAllKept(kept: seq<Hit>, n: nat, all: multiset<Hit>, h: Hit)
    requires kept != [] && IsNearestN(multiset(kept), n, all) && h.dist < kept[|kept| - 1].dist
    ensures multiset(kept)[h] == all[h]
  {
    var last := kept[|kept| - 1];
    assert last in multiset(kept);
    assert h in all - multiset(kept) <==> multiset(kept)[h] < all[h];
  }

  /** Of two n-smallest answers neither reaches farther than the other. */
  lemma TailNoFarther(a: seq<Hit>, b: seq<Hit>, n: nat, all: multiset<Hit>)
    requires a != [] && |a| == |b| && Ascending(a) && Ascending(b)
    requires IsNearestN(multiset(a), n, all) && IsNearestN(multiset(b), n, all)
    ensures a[|a| - 1].dist <= b[|b| - 1].dist
  {
    var far, near := a[|a| - 1], b[|b| - 1];
    LastIsFarthest(b);
    if far.dist > near.dist {
      forall h | h in multiset(b) ensures multiset(b)[h] <= multiset(a)[h] {
        NearerAllKept(a, n, all, h);
      }
      assert multiset(b) <= multiset(a);
      assert far in multiset(a) && far !in multiset(b);
      StrictlyMore(multiset(b), multiset(a), far);
    }
  }

  lemma StrictlyMore(a: multiset<Hit>, b: multiset<Hit>, x: Hit)
    requires a <= b && x in b && x !in a
    ensures |a| < |b|
  {
    assert b == a + (b - a);
    assert x in b - a;
  }

  /** The answer of a tree to an unbounded nearest-n query, sorted, agrees with any n nearest. */
  lemma TreeAnswersAgree(c0: Context, c: Context, expected: seq<Hit>, all: multiset<Hit>)
    requires c0.NearestN? && c0.radius.Inf? && SameQuery(c0, c) && Answers(c, all)
    requires Ascending(expected) && IsNearestN(multiset(expected), c0.maxQty, all)
    ensures var got := Sort(c.results, DistKey);
            Ascending(got) && IsNearestN(multiset(got), c0.maxQty, all) && Agree(expected, got)
  {
    SortSorts(c.results, DistKey);
    assert Candidates(c, all) == all;
    NearestAnswersAgree(expected, Sort(c.results, DistKey), c0.maxQty, all);
  }

  // ---------------------------------------------------------------- one check of the oracle

  /** The points of a case, each with its index as the item. */
  function Indexed(points: seq<seq<real>>): (s: seq<Entry>)
    ensures |s| == |points| && forall i :: 0 <= i < |s| ==> s[i] == Entry(points[i], i)
  {
    seq(|points|, i requires 0 <= i < |points| => Entry(points[i], i))
  }

  /** The distances of a scan, taken from the query to each point. */
  function DistsFrom(m: Metric, q: seq<real>, points: seq<seq<real>>): (d: seq<real>)
    requires forall i :: 0 <= i < |points| ==> |points[i]| == |q|
    ensures |d| == |points| && forall i :: 0 <= i < |d| ==> d[i] == Dist(m, q, points[i])
  {
    seq(|points|, i requires 0 <= i < |points| => Dist(m, q, points[i]))
  }

  lemma DistIsSymmetric(m: Metric, a: seq<real>, b: seq<real>)
    requires |a| == |b|
    ensures Dist(m, a, b) == Dist(m, b, a)
  {
    forall d | 0 <= d < |a| ensures Dist1(m, a[d], b[d]) == Dist1(m, b[d], a[d]) {
      assert Abs(a[d] - b[d]) == Abs(b[d] - a[d]);
      assert (a[d] - b[d]) * (a[d] - b[d]) == (b[d] - a[d]) * (b[d] - a[d]);
    }
    assert Contributions(m, a, b) == Contributions(m, b, a);
  }

  /** The scan sees exactly the hits of the stored entries. */
  lemma ScannedAreHits(m: Metric, q: seq<real>, points: seq<seq<real>>)
    requires forall i :: 0 <= i < |points| ==> |points[i]| == |q|
    ensures Fits(Indexed(points), |q|) && Scanned(DistsFrom(m, q, points)) == Hits(m, q, Indexed(points))
  {
    forall i | 0 <= i < |points| ensures Dist(m, q, points[i]) == Dist(m, points[i], q) {
      DistIsSymmetric(m, q, points[i]);
    }
  }

  /** The nearest-n check of one case: the tree's answer is compared with that of a scan. Both are
      n nearest of the points, they agree, and the comparison says so. */
  method CheckNearestN(matches: Match, points: seq<seq<real>>, k: nat, b: nat, m: Metric, q: seq<real>, maxQty: nat, radius: real)
    returns (expected: seq<Hit>, got: seq<Hit>, ok: bool)
    requires Reflexive(matches) && Exact(matches)
    requires k > 0 && b > 0 && maxQty > 0 && |q| == k && forall i :: 0 <= i < |points| ==> |points[i]| == k
    requires m.Minkowski? ==> m.power > 0
    ensures Fits(Indexed(points), k)
    ensures HeapOf(Hits(m, q, Indexed(points)), expected, maxQty) && HeapOf(Hits(m, q, Indexed(points)), got, maxQty)
    ensures Agree(expected, got) && ok
  {
    ScannedAreHits(m, q, points);
    var s := BruteState(DistsFrom(m, q, points), maxQty, radius);
    expected := s.TakeNearestNSorted();
    var c0 := NearestN(Inf, false, maxQty, []);
    var c := BuildAndQuery(Indexed(points), k, b, m, q, c0);
    got := Sort(c.results, DistKey);
    TreeAnswersAgree(c0, c, expected, multiset(Hits(m, q, Indexed(points))));
    ok := CompareNearestN(matches, expected, got);
  }

  // ---------------------------------------------------------------- within

  ghost predicate UniqueItems(s: seq<Hit>) {
    forall i, j :: 0 <= i < j < |s| ==> s[i].item != s[j].item
  }

  ghost predicate Has(s: seq<Hit>, item: nat) {
    exists h :: h in s && h.item == item
  }

  /** A hit of one list matches its counterparts in the other, or lies on the radius when it
      has none. */
  ghost predicate Fine(matches: Match, e: Hit, others: seq<Hit>, radius: real) {
    && (forall g :: g in others && g.item == e.item ==> matches(e.dist, g.dist))
    && (!Has(others, e.item) ==> matches(e.dist, radius))
  }

  ghost predicate Extra(matches: Match, g: Hit, expected: seq<Hit>, radius: real) {
    !Has(expected, g.item) ==> matches(g.dist, radius)
  }

  /** Items in both lists have matching distances; items in one list only lie on the radius. */
  ghost predicate AgreeWithin(matches: Match, expected: seq<Hit>, got: seq<Hit>, radius: real) {
    && (forall e :: e in expected ==> Fine(matches, e, got, radius))
    && (forall g :: g in got ==> Extra(matches, g, expected, radius))
  }

  ghost predicate ByItem(s: seq<Hit>) {
    forall i, j :: 0 <= i < j < |s| ==> s[i].item < s[j].item
  }

  /** Everything before the pointers is accounted for, and comes before everything after. */
  ghost predicate Merged(matches: Match, expected: seq<Hit>, got: seq<Hit>, radius: real, i: nat, j: nat) {
    && i <= |expected| && j <= |got|
    && (forall x, y :: 0 <= x < i && j <= y < |got| ==> expected[x].item < got[y].item)
    && (forall x, y :: i <= x < |expected| && 0 <= y < j ==> got[y].item < expected[x].item)
    && (forall x :: 0 <= x < i ==> Fine(matches, expected[x], got, radius))
    && (forall y :: 0 <= y < j ==> Extra(matches, got[y], expected, radius))
  }

  /** With the least remaining item in both lists, its distances decide. */
  lemma BothHave(matches: Match, expected: seq<Hit>, got: seq<Hit>, radius: real, i: nat, j: nat)
    requires ByItem(expected) && ByItem(got) && Merged(matches, expected, got, radius, i, j)
    requires i < |expected| && j < |got| && expected[i].item == got[j].item
    ensures Fine(matches, expected[i], got, radius) <==> matches(expected[i].dist, got[j].dist)
    ensures Extra(matches, got[j], expected, radius)
  {
    assert got[j] in got && expected[i] in expected;
    forall g | g in got && g.item == expected[i].item ensures g == got[j] {
      var y :| 0 <= y < |got| && got[y] == g;
    }
  }

  lemma OnlyExpected(matches: Match, expected: seq<Hit>, got: seq<Hit>, radius: real, i: nat, j: nat)
    requires ByItem(expected) && ByItem(got) && Merged(matches, expected, got, radius, i, j)
    requires i < |expected| && (j < |got| ==> expected[i].item < got[j].item)
    ensures Fine(matches, expected[i], got, radius) <==> matches(expected[i].dist, radius)
  {
    forall g | g in got ensures g.item != expected[i].item {
      var y :| 0 <= y < |got| && got[y] == g;
    }
  }

  lemma OnlyGot(matches: Match, expected: seq<Hit>, got: seq<Hit>, radius: real, i: nat, j: nat)
    requires ByItem(expected) && ByItem(got) && Merged(matches, expected, got, radius, i, j)
    requires j < |got| && (i < |expected| ==> got[j].item < expected[i].item)
    ensures Extra(matches, got[j], expected, radius) <==> matches(got[j].dist, radius)
  {
    forall e | e in expected ensures e.item != got[j].item {
      var x :| 0 <= x < |expected| && expected[x] == e;
    }
  }

  lemma AfterBoth(matches: Match, expected: seq<Hit>, got: seq<Hit>, radius: real, i: nat, j: nat)
    requires ByItem(expected) && ByItem(got) && Merged(matches, expected, got, radius, i, j)
    requires i < |expected| && j < |got| && expected[i].item == got[j].item
    ensures if matches(expected[i].dist, got[j].dist) then Merged(matches, expected, got, radius, i + 1, j + 1)
            else !AgreeWithin(matches, expected, got, radius)
  {
    BothHave(matches, expected, got, radius, i, j);
    assert expected[i] in expected;
  }

  lemma AfterExpected(matches: Match, expected: seq<Hit>, got: seq<Hit>, radius: real, i: nat, j: nat)
    requires ByItem(expected) && ByItem(got) && Merged(matches, expected, got, radius, i, j)
    requires i < |expected| && (j < |got| ==> expected[i].item < got[j].item)
    ensures if matches(expected[i].dist, radius) then Merged(matches, expected, got, radius, i + 1, j)
            else !AgreeWithin(matches, expected, got, radius)
  {
    OnlyExpected(matches, expected, got, radius, i, j);
    assert expected[i] in expected;
  }

  lemma AfterGot(matches: Match, expected: seq<Hit>, got: seq<Hit>, radius: real, i: nat, j: nat)
    requires ByItem(expected) && ByItem(got) && Merged(matches, expected, got, radius, i, j)
    requires j < |got| && (i < |expected| ==> got[j].item < expected[i].item)
    ensures if matches(got[j].dist, radius) then Merged(matches, expected, got, radius, i, j + 1)
            else !AgreeWithin(matches, expected, got, radius)
  {
    OnlyGot(matches, expected, got, radius, i, j);
    assert got[j] in got;
  }

  lemma AllMerged(matches: Match, expected: seq<Hit>, got: seq<Hit>, radius: real)
    requires Merged(matches, expected, got, radius, |expected|, |got|)
    ensures AgreeWithin(matches, expected, got, radius)
  {
  }

  /** The merge of two lists sorted by item, on any relation. */
  method MergeWithin(matches: Match, expected: seq<Hit>, got: seq<Hit>, radius: real) returns (ok: bool)
    requires ByItem(expected) && ByItem(got)
    ensures ok <==> AgreeWithin(matches, expected, got, radius)
  {
    var i: nat, j: nat := 0, 0;
    while i < |expected| || j < |got|
      invariant Merged(matches, expected, got, radius, i, j)
      decreases |expected| - i + |got| - j
    {
      if i < |expected| && j < |got| && expected[i].item == got[j].item {
        AfterBoth(matches, expected, got, radius, i, j);
        if !matches(expected[i].dist, got[j].dist) {
          return false;
        }
        i, j := i + 1, j + 1;
      } else if i < |expected| && (j < |got| ==> expected[i].item < got[j].item) {
        AfterExpected(matches, expected, got, radius, i, j);
        if !matches(expected[i].dist, radius) {
          return false;
        }
        i := i + 1;
      } else {
        AfterGot(matches, expected, got, radius, i, j);
        if !matches(got[j].dist, radius) {
          return false;
        }
        j := j + 1;
      }
    }
    AllMerged(matches, expected, got, radius);
    return true;
  }

  function ItemKey(h: Hit): real {
    h.item as real
  }

  lemma SortedByItem(s: seq<Hit>, t: seq<Hit>)
    requires multiset(s) == multiset(t) && UniqueItems(s) && Sorted(t, ItemKey)
    ensures ByItem(t)
  {
    forall i, j | 0 <= i < j < |t| ensures t[i].item < t[j].item {
      if t[i].item == t[j].item {
        TwiceInBoth(s, t, i, j);
      }
      assert ItemKey(t[i]) <= ItemKey(t[j]);
    }
  }

  /** Two places of one arrangement come from two places of the other. */
  lemma TwiceInBoth(s: seq<Hit>, t: seq<Hit>, i: nat, j: nat)
    requires multiset(s) == multiset(t) && i < j < |t| && UniqueItems(s)
    ensures t[i].item != t[j].item
  {
    SameElements(s, t);
    var x :| 0 <= x < |s| && s[x] == t[i];
    var y :| 0 <= y < |s| && s[y] == t[j];
    if x == y {
      assert t == t[..j] + [t[j]] + t[j + 1..] && t[i] in t[..j];
      assert multiset(t)[t[j]] >= 2;
      AtMostOnce(s, x);
    }
  }

  lemma AtMostOnce(s: seq<Hit>, x: nat)
    requires x < |s| && UniqueItems(s)
    ensures multiset(s)[s[x]] == 1
  {
    var low, high := s[..x], s[x + 1..];
    assert s == low + [s[x]] + high;
    assert s[x] !in low && s[x] !in high;
    assert multiset(low)[s[x]] == 0 && multiset(high)[s[x]] == 0;
  }

  /** `compare_within_results`: accepts exactly the lists that agree up to the radius. */
  method CompareWithin(matches: Match, expected: seq<Hit>, got: seq<Hit>, radius: real) returns (ok: bool)
    requires UniqueItems(expected) && UniqueItems(got)
    ensures ok <==> AgreeWithin(matches, expected, got, radius)
  {
    var e, g := Sort(expected, ItemKey), Sort(got, ItemKey);
    SortSorts(expected, ItemKey);
    SortSorts(got, ItemKey);
    SortedByItem(expected, e);
    SortedByItem(got, g);
    ok := MergeWithin(matches, e, g, radius);
    SameElements(e, expected);
    SameElements(g, got);
    forall h: Hit ensures Fine(matches, h, g, radius) <==> Fine(matches, h, got, radius) {
    }
    forall h: Hit ensures Extra(matches, h, e, radius) <==> Extra(matches, h, expected, radius) {
    }
  }
}

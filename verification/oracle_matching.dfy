/** What comparing two lists of hits distance by distance accepts (examples/fuzz-case-repro.rs,
    `compare_nearest_n_sorted`), for any relation between distances: equality for fixed-point axes,
    within four units in the last place for floats. */
module OracleMatching {
  import opened Sorting
  import opened QueryContext

  type Match = (real, real) -> bool

  ghost predicate Reflexive(matches: Match) {
    forall x :: matches(x, x)
  }

  ghost predicate Exact(matches: Match) {
    forall x, y :: matches(x, y) <==> x == y
  }

  /** `distance_lt_for_repro`. */
  predicate Nearer(matches: Match, a: real, b: real) {
    a < b && !matches(a, b)
  }

  function ItemsOf(s: seq<Hit>): (r: seq<nat>)
    ensures |r| == |s| && forall i :: 0 <= i < |s| ==> r[i] == s[i].item
  {
    seq(|s|, i requires 0 <= i < |s| => s[i].item)
  }

  lemma SameItemsSameLength(a: seq<Hit>, b: seq<Hit>)
    requires multiset(ItemsOf(a)) == multiset(ItemsOf(b))
    ensures |a| == |b|
  {
    assert |multiset(ItemsOf(a))| == |a| && |multiset(ItemsOf(b))| == |b|;
  }

  // ---------------------------------------------------------------- groups

  /** How many hits at the front match the distance. */
  ghost function RunLength(matches: Match, s: seq<Hit>, d: real): (n: nat)
    ensures n <= |s| && (forall i :: 0 <= i < n ==> matches(s[i].dist, d)) && (n < |s| ==> !matches(s[n].dist, d))
  {
    if s != [] && matches(s[0].dist, d) then 1 + RunLength(matches, s[1..], d) else 0
  }

  lemma RunIs(matches: Match, s: seq<Hit>, n: nat, d: real)
    requires n <= |s| && (forall i :: 0 <= i < n ==> matches(s[i].dist, d)) && (n < |s| ==> !matches(s[n].dist, d))
    ensures RunLength(matches, s, d) == n
  {
  }

  /** The next groups of both lists are as long and hold the same items. */
  ghost predicate SameRun(matches: Match, expected: seq<Hit>, got: seq<Hit>, d: real) {
    var n := RunLength(matches, expected, d);
    RunLength(matches, got, d) == n && multiset(ItemsOf(expected[..n])) == multiset(ItemsOf(got[..n]))
  }

  /** Group by group, up to the first that is not nearer than the last distance. */
  ghost predicate Merges(matches: Match, expected: seq<Hit>, got: seq<Hit>, tail: real)
    requires Reflexive(matches)
    decreases |expected|
  {
    if expected != [] && Nearer(matches, expected[0].dist, tail) then
      var d := expected[0].dist;
      var n := RunLength(matches, expected, d);
      SameRun(matches, expected, got, d) && Merges(matches, expected[n..], got[n..], tail)
    else got == [] || !Nearer(matches, got[0].dist, tail)
  }

  lemma MergesStep(matches: Match, expected: seq<Hit>, got: seq<Hit>, tail: real, n: nat)
    requires Reflexive(matches) && expected != [] && Nearer(matches, expected[0].dist, tail)
    requires n == RunLength(matches, expected, expected[0].dist)
    ensures Merges(matches, expected, got, tail) <==>
              SameRun(matches, expected, got, expected[0].dist) && Merges(matches, expected[n..], got[n..], tail)
  {
  }

  ghost predicate Accepts(matches: Match, expected: seq<Hit>, got: seq<Hit>)
    requires Reflexive(matches)
  {
    && |expected| == |got|
    && (expected != [] ==>
          var tail := expected[|expected| - 1].dist;
          matches(got[|got| - 1].dist, tail) && Merges(matches, expected, got, tail))
  }

  /** Every list is accepted against itself. */
  lemma {:induction false} MergesItself(matches: Match, s: seq<Hit>, tail: real)
    requires Reflexive(matches)
    ensures Merges(matches, s, s, tail)
    decreases |s|
  {
    if s != [] && Nearer(matches, s[0].dist, tail) {
      MergesItself(matches, s[RunLength(matches, s, s[0].dist)..], tail);
    }
  }

  lemma AscendingTail(s: seq<Hit>, n: nat)
    requires n <= |s| && Ascending(s)
    ensures Ascending(s[n..]) && forall i :: 0 <= i < |s| ==> s[0].dist <= s[i].dist
  {
  }

  // ---------------------------------------------------------------- what is accepted

  /** A group of both lists: from `a` up to `b` every distance matches the nearer one that leads
      it, and the items are the same. */
  ghost predicate Group(matches: Match, expected: seq<Hit>, got: seq<Hit>, tail: real, a: nat, b: nat) {
    && a < b <= |expected| && b <= |got| && expected[a].dist < tail && !matches(expected[a].dist, tail)
    && (forall x :: a <= x < b ==> matches(expected[x].dist, expected[a].dist) && matches(got[x].dist, expected[a].dist))
    && multiset(ItemsOf(expected[a..b])) == multiset(ItemsOf(got[a..b]))
  }

  /** The lists are cut into groups, after which nothing is nearer than the last distance. */
  ghost predicate Groups(matches: Match, expected: seq<Hit>, got: seq<Hit>, tail: real, cuts: seq<nat>) {
    && cuts != [] && cuts[0] == 0
    && (forall k :: 0 <= k < |cuts| - 1 ==> Group(matches, expected, got, tail, cuts[k], cuts[k + 1]))
    && NothingFrom(matches, expected, tail, cuts[|cuts| - 1]) && NothingFrom(matches, got, tail, cuts[|cuts| - 1])
  }

  ghost predicate NothingFrom(matches: Match, s: seq<Hit>, tail: real, m: nat) {
    m <= |s| && forall x :: m <= x < |s| ==> s[x].dist >= tail || matches(s[x].dist, tail)
  }

  ghost predicate AgreesNear(matches: Match, expected: seq<Hit>, got: seq<Hit>, tail: real) {
    exists cuts :: Groups(matches, expected, got, tail, cuts)
  }

  /** What lies between two matching distances matches the upper one. */
  ghost predicate ClosedUpwards(matches: Match) {
    forall a, b, t :: a < b < t && matches(a, t) ==> matches(b, t)
  }

  lemma NothingNearer(matches: Match, s: seq<Hit>, tail: real)
    requires ClosedUpwards(matches) && Ascending(s) && (s == [] || !Nearer(matches, s[0].dist, tail))
    ensures NothingFrom(matches, s, tail, 0)
  {
    forall x | 0 <= x < |s| ensures !Nearer(matches, s[x].dist, tail) {
      assert s[0].dist <= s[x].dist;
    }
  }

  lemma {:induction false} MergedInGroups(matches: Match, expected: seq<Hit>, got: seq<Hit>, tail: real) returns (cuts: seq<nat>)
    requires Reflexive(matches) && ClosedUpwards(matches) && Ascending(expected) && Ascending(got)
    requires Merges(matches, expected, got, tail)
    ensures Groups(matches, expected, got, tail, cuts)
    decreases |expected|
  {
    if expected != [] && Nearer(matches, expected[0].dist, tail) {
      var n := RunLength(matches, expected, expected[0].dist);
      AscendingTail(expected, n);
      AscendingTail(got, n);
      var later := MergedInGroups(matches, expected[n..], got[n..], tail);
      FirstGroup(matches, expected, got, tail, n);
      cuts := GroupBefore(matches, expected, got, tail, n, later);
    } else {
      cuts := [0];
      NothingNearer(matches, expected, tail);
      NothingNearer(matches, got, tail);
    }
  }

  /** The cuts of the later part, moved, after one at the start. */
  ghost predicate CutsBefore(cuts: seq<nat>, later: seq<nat>, n: nat) {
    |cuts| == |later| + 1 && cuts[0] == 0 && forall k {:trigger later[k]} :: 0 <= k < |later| ==> cuts[k + 1] == later[k] + n
  }

  lemma SomeCuts(later: seq<nat>, n: nat) returns (cuts: seq<nat>)
    ensures CutsBefore(cuts, later, n)
  {
    cuts := [0] + seq(|later|, k requires 0 <= k < |later| => later[k] + n);
  }

  lemma GroupBefore(matches: Match, expected: seq<Hit>, got: seq<Hit>, tail: real, n: nat, later: seq<nat>) returns (cuts: seq<nat>)
    requires Group(matches, expected, got, tail, 0, n) && Groups(matches, expected[n..], got[n..], tail, later)
    ensures Groups(matches, expected, got, tail, cuts)
  {
    cuts := SomeCuts(later, n);
    assert cuts[1] == later[0] + n;
    forall k | 0 <= k < |cuts| - 1 ensures Group(matches, expected, got, tail, cuts[k], cuts[k + 1]) {
      if k > 0 {
        GroupMoved(matches, expected, got, tail, n, later, cuts, k - 1);
      }
    }
    var last := |later| - 1;
    assert cuts[|cuts| - 1] == later[last] + n;
    NothingLater(matches, expected, tail, n, later[last]);
    NothingLater(matches, got, tail, n, later[last]);
  }

  lemma GroupMoved(matches: Match, expected: seq<Hit>, got: seq<Hit>, tail: real, n: nat, later: seq<nat>, cuts: seq<nat>, k: nat)
    requires n <= |expected| && n <= |got| && Groups(matches, expected[n..], got[n..], tail, later)
    requires CutsBefore(cuts, later, n) && k + 1 < |later|
    ensures Group(matches, expected, got, tail, cuts[k + 1], cuts[k + 2])
  {
    assert cuts[k + 1] == later[k] + n && cuts[k + 2] == later[k + 1] + n;
    GroupLater(matches, expected, got, tail, n, later[k], later[k + 1]);
  }

  lemma FirstGroup(matches: Match, expected: seq<Hit>, got: seq<Hit>, tail: real, n: nat)
    requires expected != [] && Nearer(matches, expected[0].dist, tail) && SameRun(matches, expected, got, expected[0].dist)
    requires 0 < n == RunLength(matches, expected, expected[0].dist)
    ensures Group(matches, expected, got, tail, 0, n)
  {
    assert expected[..n] == expected[0..n] && got[..n] == got[0..n];
  }

  lemma GroupLater(matches: Match, expected: seq<Hit>, got: seq<Hit>, tail: real, n: nat, a: nat, b: nat)
    requires n <= |expected| && n <= |got| && Group(matches, expected[n..], got[n..], tail, a, b)
    ensures Group(matches, expected, got, tail, a + n, b + n)
  {
    assert expected[n..][a..b] == expected[a + n..b + n] && got[n..][a..b] == got[a + n..b + n];
    forall x | a + n <= x < b + n
      ensures matches(expected[x].dist, expected[a + n].dist) && matches(got[x].dist, expected[a + n].dist)
    {
      assert expected[x] == expected[n..][x - n] && got[x] == got[n..][x - n];
    }
  }

  lemma NothingLater(matches: Match, s: seq<Hit>, tail: real, n: nat, m: nat)
    requires n <= |s| && NothingFrom(matches, s[n..], tail, m)
    ensures NothingFrom(matches, s, tail, m + n)
  {
    forall x | m + n <= x < |s| ensures !Nearer(matches, s[x].dist, tail) {
      assert s[x] == s[n..][x - n];
    }
  }

  /** Whatever is accepted agrees on everything nearer than the last distance. */
  ghost predicate Sound(matches: Match)
    requires Reflexive(matches)
  {
    forall expected: seq<Hit>, got: seq<Hit> ::
      Ascending(expected) && Ascending(got) && expected != [] && Accepts(matches, expected, got) ==>
        AgreesNear(matches, expected, got, expected[|expected| - 1].dist)
  }

  lemma ClosedIsSound(matches: Match)
    requires Reflexive(matches) && ClosedUpwards(matches)
    ensures Sound(matches)
  {
    forall expected: seq<Hit>, got: seq<Hit>
      | Ascending(expected) && Ascending(got) && expected != [] && Accepts(matches, expected, got)
      ensures AgreesNear(matches, expected, got, expected[|expected| - 1].dist)
    {
      var cuts := MergedInGroups(matches, expected, got, expected[|expected| - 1].dist);
    }
  }

  lemma SoundExactlyWhen(matches: Match)
    requires Reflexive(matches)
    ensures Sound(matches) <==> ClosedUpwards(matches)
  {
    if ClosedUpwards(matches) {
      ClosedIsSound(matches);
    } else {
      var a, b, t :| a < b < t && matches(a, t) && !matches(b, t);
      WrongItemAccepted(matches, a, b, t);
    }
  }

  /** A distance that matches the last one, before one that does not: the comparison stops there,
      and the item after it may be any. */
  lemma WrongItemAccepted(matches: Match, a: real, b: real, t: real)
    requires Reflexive(matches) && a < b < t && matches(a, t) && !matches(b, t)
    ensures !Sound(matches)
  {
    var expected, got := [Hit(a, 1), Hit(b, 7), Hit(t, 3)], [Hit(a, 1), Hit(b, 8), Hit(t, 3)];
    assert Accepts(matches, expected, got);
    forall cuts ensures !Groups(matches, expected, got, t, cuts) {
      if Groups(matches, expected, got, t, cuts) {
        assert Nearer(matches, expected[1].dist, t);
        var k := CutAround(cuts, 1);
        assert Group(matches, expected, got, t, cuts[k], cuts[k + 1]);
        ItemsDiffer(expected, got, cuts[k], cuts[k + 1]);
      }
    }
  }

  /** A position before the last cut lies between two. */
  lemma {:induction false} CutAround(cuts: seq<nat>, x: nat) returns (k: nat)
    requires cuts != [] && cuts[0] <= x < cuts[|cuts| - 1]
    ensures k + 1 < |cuts| && cuts[k] <= x < cuts[k + 1]
  {
    var n := |cuts| - 1;
    if cuts[n - 1] <= x {
      k := n - 1;
    } else {
      k := CutAround(cuts[..n], x);
    }
  }

  lemma ItemsDiffer(a: seq<Hit>, b: seq<Hit>, from: nat, to: nat)
    requires |a| == |b| && from <= 1 < to <= |a| && a[1].item == 7 && forall i :: 0 <= i < |b| ==> b[i].item != 7
    ensures multiset(ItemsOf(a[from..to])) != multiset(ItemsOf(b[from..to]))
  {
    assert ItemsOf(a[from..to])[1 - from] == 7;
    assert 7 in multiset(ItemsOf(a[from..to])) && 7 !in ItemsOf(b[from..to]);
  }

  /** Within four units of a rank that grows with the distance, as the bits of a float do. */
  lemma UnitsAreClosed(matches: Match, rank: real -> int)
    requires forall x, y :: x <= y ==> rank(x) <= rank(y)
    requires forall x, y :: matches(x, y) <==> -4 <= rank(x) - rank(y) <= 4
    ensures Reflexive(matches) && ClosedUpwards(matches)
  {
    forall a, b, t | a < b < t && matches(a, t) ensures matches(b, t) {
      assert rank(a) <= rank(b) <= rank(t);
    }
  }

  // ---------------------------------------------------------------- exactly what is accepted

  /** On these distances the relation is an equivalence whose classes are intervals. */
  ghost predicate Classes(matches: Match, dists: set<real>) {
    && (forall a, b :: a in dists && b in dists ==> matches(a, b) == matches(b, a))
    && (forall a, b, c :: a in dists && b in dists && c in dists && matches(a, b) && matches(b, c) ==> matches(a, c))
    && (forall a, b, c :: a in dists && b in dists && c in dists && a <= b <= c && matches(a, c) ==> matches(a, b))
  }

  ghost predicate DistsIn(s: seq<Hit>, dists: set<real>) {
    forall i :: 0 <= i < |s| ==> s[i].dist in dists
  }

  /** Items of the hits whose distances match `d`, in order. */
  function ItemsLike(matches: Match, s: seq<Hit>, d: real): seq<nat> {
    if s == [] then [] else (if matches(s[0].dist, d) then [s[0].item] else []) + ItemsLike(matches, s[1..], d)
  }

  ghost predicate Occurs(s: seq<Hit>, d: real) {
    exists i :: 0 <= i < |s| && s[i].dist == d
  }

  /** Every distance of either list that is nearer than the last has the same items in both. */
  ghost predicate SameByClass(matches: Match, expected: seq<Hit>, got: seq<Hit>, tail: real) {
    forall d :: (Occurs(expected, d) || Occurs(got, d)) && d < tail && !matches(d, tail) ==> SameLike(matches, expected, got, d)
  }

  ghost predicate SameLike(matches: Match, a: seq<Hit>, b: seq<Hit>, d: real) {
    multiset(ItemsLike(matches, a, d)) == multiset(ItemsLike(matches, b, d))
  }

  lemma {:induction false} NoneLike(matches: Match, s: seq<Hit>, d: real)
    requires forall i :: 0 <= i < |s| ==> !matches(s[i].dist, d)
    ensures ItemsLike(matches, s, d) == []
  {
    if s != [] {
      NoneLike(matches, s[1..], d);
    }
  }

  lemma {:induction false} SomeLike(matches: Match, s: seq<Hit>, d: real)
    requires ItemsLike(matches, s, d) != []
    ensures exists i :: 0 <= i < |s| && matches(s[i].dist, d)
  {
    if forall i :: 0 <= i < |s| ==> !matches(s[i].dist, d) {
      NoneLike(matches, s, d);
    }
  }

  lemma {:induction false} SomethingLike(matches: Match, s: seq<Hit>, d: real, i: nat)
    requires i < |s| && matches(s[i].dist, d)
    ensures ItemsLike(matches, s, d) != []
  {
    if i > 0 {
      SomethingLike(matches, s[1..], d, i - 1);
    }
  }

  /** The first `n` hits all match, or none does. */
  lemma {:induction false} LikeFront(matches: Match, s: seq<Hit>, d: real, n: nat)
    requires n <= |s| && forall i :: 0 <= i < n ==> matches(s[i].dist, d)
    ensures ItemsLike(matches, s, d) == ItemsOf(s[..n]) + ItemsLike(matches, s[n..], d)
    decreases n
  {
    if n == 0 {
      assert s[0..] == s;
    } else {
      LikeFront(matches, s[1..], d, n - 1);
      assert s[1..][n - 1..] == s[n..];
      ItemsFromFirst(s, n);
    }
  }

  lemma ItemsFromFirst(s: seq<Hit>, n: nat)
    requires 0 < n <= |s|
    ensures ItemsOf(s[..n]) == [s[0].item] + ItemsOf(s[1..][..n - 1])
  {
  }

  lemma {:induction false} UnlikeFront(matches: Match, s: seq<Hit>, d: real, n: nat)
    requires n <= |s| && forall i :: 0 <= i < n ==> !matches(s[i].dist, d)
    ensures ItemsLike(matches, s, d) == ItemsLike(matches, s[n..], d)
    decreases n
  {
    if n == 0 {
      assert s[0..] == s;
    } else {
      UnlikeFront(matches, s[1..], d, n - 1);
      assert s[1..][n - 1..] == s[n..];
    }
  }

  /** In an ascending list that starts with the class of `d`, that class is the run at the front. */
  lemma ClassIsRun(matches: Match, dists: set<real>, s: seq<Hit>, d: real)
    requires Classes(matches, dists) && DistsIn(s, dists) && d in dists && Ascending(s) && s != [] && matches(s[0].dist, d)
    ensures forall i :: RunLength(matches, s, d) <= i < |s| ==> !matches(s[i].dist, d)
  {
    var n := RunLength(matches, s, d);
    forall i | n <= i < |s| ensures !matches(s[i].dist, d) {
      if matches(s[i].dist, d) {
        InOneClass(matches, dists, s[0].dist, s[n].dist, s[i].dist, d);
      }
    }
  }

  /** What lies between two members of a class is a member. */
  lemma InOneClass(matches: Match, dists: set<real>, a: real, b: real, c: real, d: real)
    requires Classes(matches, dists) && a in dists && b in dists && c in dists && d in dists
    requires a <= b <= c && matches(a, d) && matches(c, d)
    ensures matches(b, d)
  {
    assert matches(d, c) && matches(a, c) && matches(a, b) && matches(b, a);
  }

  /** Items by class, with the class at the front taken off. */
  lemma LikeAfterRun(matches: Match, dists: set<real>, s: seq<Hit>, d0: real, d: real)
    requires Classes(matches, dists) && DistsIn(s, dists) && d0 in dists && d in dists
    requires Ascending(s) && s != [] && matches(s[0].dist, d0)
    ensures var n := RunLength(matches, s, d0);
            ItemsLike(matches, s, d) == if matches(d0, d) then ItemsOf(s[..n]) else ItemsLike(matches, s[n..], d)
  {
    var n := RunLength(matches, s, d0);
    ClassIsRun(matches, dists, s, d0);
    forall i | 0 <= i < |s| ensures matches(s[i].dist, d) == if matches(d0, d) then i < n else i >= n && matches(s[i].dist, d) {
      assert s[i].dist in dists;
      assert matches(s[i].dist, d0) <==> i < n;
      assert matches(d, d0) == matches(d0, d) && matches(d0, s[i].dist) == matches(s[i].dist, d0);
    }
    if matches(d0, d) {
      LikeFront(matches, s, d, n);
      NoneLike(matches, s[n..], d);
    } else {
      UnlikeFront(matches, s, d, n);
    }
  }

  lemma DistsInTail(s: seq<Hit>, dists: set<real>, n: nat)
    requires n <= |s| && DistsIn(s, dists)
    ensures DistsIn(s[n..], dists)
  {
  }

  /** Where both lists start with the class of `d`, taking it off leaves the rest to compare. */
  lemma SameAfterRun(matches: Match, dists: set<real>, expected: seq<Hit>, got: seq<Hit>, tail: real, d: real)
    requires Classes(matches, dists) && DistsIn(expected, dists) && DistsIn(got, dists) && d in dists && tail in dists
    requires Ascending(expected) && Ascending(got) && expected != [] && got != [] && Nearer(matches, d, tail)
    requires expected[0].dist == d && matches(d, d) && matches(got[0].dist, d)
    ensures SameByClass(matches, expected, got, tail) <==>
              && multiset(ItemsOf(expected[..RunLength(matches, expected, d)])) == multiset(ItemsOf(got[..RunLength(matches, got, d)]))
              && SameByClass(matches, expected[RunLength(matches, expected, d)..], got[RunLength(matches, got, d)..], tail)
  {
    var n, k := RunLength(matches, expected, d), RunLength(matches, got, d);
    LikeAfterRun(matches, dists, expected, d, d);
    LikeAfterRun(matches, dists, got, d, d);
    assert Occurs(expected, d);
    if SameByClass(matches, expected, got, tail) {
      assert SameLike(matches, expected, got, d);
      SameOfLater(matches, dists, expected, got, tail, d);
    }
    if SameByClass(matches, expected[n..], got[k..], tail) && multiset(ItemsOf(expected[..n])) == multiset(ItemsOf(got[..k])) {
      SameOfAll(matches, dists, expected, got, tail, d);
    }
  }

  lemma SameOfLater(matches: Match, dists: set<real>, expected: seq<Hit>, got: seq<Hit>, tail: real, d0: real)
    requires Classes(matches, dists) && DistsIn(expected, dists) && DistsIn(got, dists) && d0 in dists
    requires Ascending(expected) && Ascending(got) && expected != [] && got != []
    requires matches(expected[0].dist, d0) && matches(got[0].dist, d0) && SameByClass(matches, expected, got, tail)
    ensures SameByClass(matches, expected[RunLength(matches, expected, d0)..], got[RunLength(matches, got, d0)..], tail)
  {
    var n, k := RunLength(matches, expected, d0), RunLength(matches, got, d0);
    ClassIsRun(matches, dists, expected, d0);
    ClassIsRun(matches, dists, got, d0);
    forall d | (Occurs(expected[n..], d) || Occurs(got[k..], d)) && Nearer(matches, d, tail)
      ensures SameLike(matches, expected[n..], got[k..], d)
    {
      OccursInTail(expected, n, d);
      OccursInTail(got, k, d);
      LikeAfterRun(matches, dists, expected, d0, d);
      LikeAfterRun(matches, dists, got, d0, d);
      assert SameLike(matches, expected, got, d);
    }
  }

  lemma OccursInTail(s: seq<Hit>, n: nat, d: real)
    requires n <= |s|
    ensures Occurs(s[n..], d) ==> Occurs(s, d) && exists i :: n <= i < |s| && s[i].dist == d
  {
    if Occurs(s[n..], d) {
      var i :| 0 <= i < |s[n..]| && s[n..][i].dist == d;
      assert s[n + i].dist == d;
    }
  }

  lemma SameOfAll(matches: Match, dists: set<real>, expected: seq<Hit>, got: seq<Hit>, tail: real, d0: real)
    requires Classes(matches, dists) && DistsIn(expected, dists) && DistsIn(got, dists) && d0 in dists
    requires Ascending(expected) && Ascending(got) && expected != [] && got != []
    requires matches(expected[0].dist, d0) && matches(got[0].dist, d0)
    requires multiset(ItemsOf(expected[..RunLength(matches, expected, d0)])) == multiset(ItemsOf(got[..RunLength(matches, got, d0)]))
    requires SameByClass(matches, expected[RunLength(matches, expected, d0)..], got[RunLength(matches, got, d0)..], tail)
    ensures SameByClass(matches, expected, got, tail)
  {
    var n, k := RunLength(matches, expected, d0), RunLength(matches, got, d0);
    forall d | (Occurs(expected, d) || Occurs(got, d)) && Nearer(matches, d, tail) ensures SameLike(matches, expected, got, d) {
      LikeAfterRun(matches, dists, expected, d0, d);
      LikeAfterRun(matches, dists, got, d0, d);
      if !matches(d0, d) {
        OccursLater(matches, dists, expected, d0, d);
        OccursLater(matches, dists, got, d0, d);
        assert SameLike(matches, expected[n..], got[k..], d);
      }
    }
  }

  lemma OccursLater(matches: Match, dists: set<real>, s: seq<Hit>, d0: real, d: real)
    requires Classes(matches, dists) && DistsIn(s, dists) && d0 in dists && d in dists && !matches(d0, d)
    ensures Occurs(s, d) ==> Occurs(s[RunLength(matches, s, d0)..], d)
  {
    var n := RunLength(matches, s, d0);
    if Occurs(s, d) {
      var i :| 0 <= i < |s| && s[i].dist == d;
      assert matches(d, d0) == matches(d0, d);
      assert s[n..][i - n] == s[i];
    }
  }

  /** If all nearer items are the same, the other list starts with the class of the first. */
  lemma SameStart(matches: Match, dists: set<real>, expected: seq<Hit>, got: seq<Hit>, tail: real)
    requires Reflexive(matches) && Classes(matches, dists) && DistsIn(expected, dists) && DistsIn(got, dists) && tail in dists
    requires Ascending(expected) && Ascending(got) && expected != [] && Nearer(matches, expected[0].dist, tail)
    requires SameByClass(matches, expected, got, tail)
    ensures got != [] && matches(got[0].dist, expected[0].dist)
  {
    var d := expected[0].dist;
    SomethingLike(matches, expected, d, 0);
    assert Occurs(expected, d) && SameLike(matches, expected, got, d);
    assert ItemsLike(matches, got, d) != [] by {
      assert |multiset(ItemsLike(matches, got, d))| == |ItemsLike(matches, got, d)|;
    }
    SomeLike(matches, got, d);
    var y :| 0 <= y < |got| && matches(got[y].dist, d);
    var e := got[0].dist;
    assert e <= got[y].dist;
    if e > d {
      InOneClass(matches, dists, d, e, got[y].dist, d);
    } else {
      NoEarlierClass(matches, dists, expected, got, tail);
    }
  }

  /** A nearer distance than the first of `expected` is matched there, so it is in its class. */
  lemma NoEarlierClass(matches: Match, dists: set<real>, expected: seq<Hit>, got: seq<Hit>, tail: real)
    requires Reflexive(matches) && Classes(matches, dists) && DistsIn(expected, dists) && DistsIn(got, dists) && tail in dists
    requires Ascending(expected) && expected != [] && got != [] && Nearer(matches, expected[0].dist, tail)
    requires SameByClass(matches, expected, got, tail) && got[0].dist <= expected[0].dist
    ensures matches(got[0].dist, expected[0].dist)
  {
    var d, e := expected[0].dist, got[0].dist;
    if Nearer(matches, e, tail) {
      SomethingLike(matches, got, e, 0);
      assert Occurs(got, e) && SameLike(matches, expected, got, e);
      assert ItemsLike(matches, expected, e) != [] by {
        assert |multiset(ItemsLike(matches, got, e))| == |ItemsLike(matches, got, e)|;
      }
      SomeLike(matches, expected, e);
      var x :| 0 <= x < |expected| && matches(expected[x].dist, e);
      assert d <= expected[x].dist;
      InOneClass(matches, dists, e, d, expected[x].dist, e);
    }
  }

  /** Where nothing nearer is expected, there must be nothing nearer in the other list. */
  lemma SameOfNothing(matches: Match, dists: set<real>, expected: seq<Hit>, got: seq<Hit>, tail: real)
    requires Reflexive(matches) && Classes(matches, dists) && DistsIn(expected, dists) && DistsIn(got, dists) && tail in dists
    requires Ascending(expected) && Ascending(got) && (expected == [] || !Nearer(matches, expected[0].dist, tail))
    ensures SameByClass(matches, expected, got, tail) <==> got == [] || !Nearer(matches, got[0].dist, tail)
  {
    NothingNearerInClasses(matches, dists, expected, tail);
    if got == [] || !Nearer(matches, got[0].dist, tail) {
      NothingNearerInClasses(matches, dists, got, tail);
    } else {
      var e := got[0].dist;
      SomethingLike(matches, got, e, 0);
      assert Occurs(got, e);
      forall x | 0 <= x < |expected| ensures !matches(expected[x].dist, e) {
        NearerMatchesNearer(matches, dists, e, expected[x].dist, tail);
      }
      NoneLike(matches, expected, e);
      assert |multiset(ItemsLike(matches, got, e))| == |ItemsLike(matches, got, e)|;
      assert !SameLike(matches, expected, got, e);
    }
  }

  lemma NearerMatchesNearer(matches: Match, dists: set<real>, e: real, x: real, tail: real)
    requires Classes(matches, dists) && e in dists && x in dists && tail in dists && Nearer(matches, e, tail)
    ensures matches(x, e) ==> Nearer(matches, x, tail)
  {
    assert matches(e, x) == matches(x, e);
    assert x >= tail && matches(e, x) ==> matches(e, tail);
  }

  lemma NothingNearerInClasses(matches: Match, dists: set<real>, s: seq<Hit>, tail: real)
    requires Reflexive(matches) && Classes(matches, dists) && DistsIn(s, dists) && tail in dists
    requires Ascending(s) && (s == [] || !Nearer(matches, s[0].dist, tail))
    ensures forall i :: 0 <= i < |s| ==> !Nearer(matches, s[i].dist, tail)
  {
    forall i | 0 <= i < |s| ensures !Nearer(matches, s[i].dist, tail) {
      assert s[0].dist <= s[i].dist;
      if s[i].dist < tail {
        InOneClass(matches, dists, s[0].dist, s[i].dist, tail, tail);
      }
    }
  }

  lemma {:induction false} MergesExactlyWhen(matches: Match, dists: set<real>, expected: seq<Hit>, got: seq<Hit>, tail: real)
    requires Reflexive(matches) && Classes(matches, dists) && DistsIn(expected, dists) && DistsIn(got, dists) && tail in dists
    requires Ascending(expected) && Ascending(got)
    ensures Merges(matches, expected, got, tail) <==> SameByClass(matches, expected, got, tail)
    decreases |expected|
  {
    if expected != [] && Nearer(matches, expected[0].dist, tail) {
      var d := expected[0].dist;
      if got != [] && matches(got[0].dist, d) {
        var n, k := RunLength(matches, expected, d), RunLength(matches, got, d);
        AscendingTail(expected, n);
        AscendingTail(got, k);
        DistsInTail(expected, dists, n);
        DistsInTail(got, dists, k);
        MergesExactlyWhen(matches, dists, expected[n..], got[k..], tail);
        SameAfterRun(matches, dists, expected, got, tail, d);
        RunsOfSameItems(matches, expected, got, d);
      } else if SameByClass(matches, expected, got, tail) {
        SameStart(matches, dists, expected, got, tail);
      }
    } else {
      SameOfNothing(matches, dists, expected, got, tail);
    }
  }

  lemma RunsOfSameItems(matches: Match, expected: seq<Hit>, got: seq<Hit>, d: real)
    ensures SameRun(matches, expected, got, d) <==>
              multiset(ItemsOf(expected[..RunLength(matches, expected, d)])) == multiset(ItemsOf(got[..RunLength(matches, got, d)]))
  {
    var n, k := RunLength(matches, expected, d), RunLength(matches, got, d);
    if multiset(ItemsOf(expected[..n])) == multiset(ItemsOf(got[..k])) {
      SameItemsSameLength(expected[..n], got[..k]);
    }
  }

  /** The lists agree: as many hits, matching last distances, and at every nearer distance the
      same items. */
  ghost predicate AgreeByClass(matches: Match, expected: seq<Hit>, got: seq<Hit>) {
    && |expected| == |got|
    && (expected != [] ==>
          var tail := expected[|expected| - 1].dist;
          matches(got[|got| - 1].dist, tail) && SameByClass(matches, expected, got, tail))
  }

  ghost function Dists(s: seq<Hit>): set<real> {
    set i | 0 <= i < |s| :: s[i].dist
  }

  /** If on the distances that occur the relation is an equivalence with intervals for classes,
      ascending lists are accepted exactly when they agree. */
  lemma AcceptsExactlyWhen(matches: Match, expected: seq<Hit>, got: seq<Hit>)
    requires Reflexive(matches) && Classes(matches, Dists(expected) + Dists(got)) && Ascending(expected) && Ascending(got)
    ensures Accepts(matches, expected, got) <==> AgreeByClass(matches, expected, got)
  {
    if expected != [] && |expected| == |got| {
      var tail := expected[|expected| - 1].dist;
      assert tail in Dists(expected);
      MergesExactlyWhen(matches, Dists(expected) + Dists(got), expected, got, tail);
    }
  }
}

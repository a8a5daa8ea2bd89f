/** Choosing a split (src/kd_tree/construction/mod.rs, `update_pivot`). */
module Construction {
  import opened KdTree
  import opened Sorting
  import opened Division

  // ---------------------------------------------------------------- leaf counts

  /** `div_ceil` of the number of entries by the bucket size. */
  function LeavesNeeded(n: nat, b: nat): (c: nat)
    requires b > 0
    ensures c < 2 <==> n <= b
    ensures c > 0 <==> n > 0
  {
    var c := (n + b - 1) / b;
    assert n + b - 1 == b * c + (n + b - 1) % b;
    assert c >= 2 ==> b * c >= b * 2;
    assert c <= 0 ==> b * c <= 0;
    c
  }

  /** Splitting off whole buckets needs no extra leaf. */
  lemma LeavesOfParts(low: nat, high: nat, b: nat)
    requires b > 0 && low % b == 0
    ensures LeavesNeeded(low + high, b) == LeavesNeeded(low, b) + LeavesNeeded(high, b)
  {
    var p, q := low / b, LeavesNeeded(high, b);
    assert low == b * p;
    var spare := (high + b - 1) % b;
    assert high + b - 1 == b * q + spare;
    assert b * (p + q) == b * p + b * q;
    DivUnique(low + b - 1, b, p, b - 1);
    DivUnique(low + high + b - 1, b, p + q, spare);
  }

  /** A budget of enough leaves holds every entry. */
  lemma BudgetSuffices(n: nat, b: nat, budget: nat)
    requires b > 0 && LeavesNeeded(n, b) <= budget
    ensures n <= b * budget
  {
    var c := LeavesNeeded(n, b);
    assert n + b - 1 == b * c + (n + b - 1) % b;
    assert b * c <= b * budget;
  }

  // ---------------------------------------------------------------- selections

  function AxisKey(dim: nat): Entry -> real {
    (e: Entry) => if dim < |e.point| then e.point[dim] else 0.0
  }

  /** What `select_nth_unstable_by` documents: nothing larger before position `n` and nothing
      smaller after it. */
  ghost predicate Selected<T>(s: seq<T>, key: T -> real, n: nat)
    requires n < |s|
  {
    && (forall i :: 0 <= i < n ==> key(s[i]) <= key(s[n]))
    && (forall i :: n < i < |s| ==> key(s[n]) <= key(s[i]))
  }

  /** The split at `n` is strict: an entry that lies on the split value is in the upper part. */
  ghost predicate Apart<T>(s: seq<T>, key: T -> real, n: nat)
    requires n < |s|
  {
    && (forall i :: 0 <= i < n ==> key(s[i]) < key(s[n]))
    && (forall i :: n < i < |s| ==> key(s[n]) <= key(s[i]))
  }

  /** Callers see only the documented contract; sorting is one way to meet it. */
  method SelectNth<T>(s: seq<T>, key: T -> real, n: nat) returns (r: seq<T>)
    requires n < |s|
    ensures multiset(r) == multiset(s) && |r| == |s| && Selected(r, key, n)
  {
    r := Sort(s, key);
    SortSorts(s, key);
  }

  ghost predicate AllEqual<T>(s: seq<T>, key: T -> real) {
    forall x, y :: x in s && y in s ==> key(x) == key(y)
  }

  /** No two elements agree. */
  ghost predicate NoTies<T>(s: seq<T>, key: T -> real) {
    && (forall x :: x in s ==> multiset(s)[x] == 1)
    && (forall x, y :: x in s && y in s && key(x) == key(y) ==> x == y)
  }

  lemma NoTiesApart<T>(s: seq<T>, key: T -> real, i: nat, j: nat)
    requires NoTies(s, key) && i < j < |s|
    ensures key(s[i]) != key(s[j])
  {
    assert s == s[..j] + s[j..];
    assert s[i] in s[..j] && s[j] in s[j..];
    assert multiset(s)[s[j]] == multiset(s[..j])[s[j]] + multiset(s[j..])[s[j]];
  }

  lemma NoTiesIsApart<T>(s: seq<T>, key: T -> real, n: nat)
    requires n < |s| && NoTies(s, key) && Selected(s, key, n)
    ensures Apart(s, key, n)
  {
    forall i | 0 <= i < n ensures key(s[i]) < key(s[n]) {
      NoTiesApart(s, key, i, n);
    }
  }

  lemma NoTiesInPart<T>(part: seq<T>, all: seq<T>, key: T -> real)
    requires NoTies(all, key) && multiset(part) <= multiset(all)
    ensures NoTies(part, key)
  {
    forall x | x in part ensures x in all && multiset(part)[x] == 1 {
      assert x in multiset(part);
    }
  }

  /** No two entries share a coordinate on any axis. */
  ghost predicate TieFree(entries: seq<Entry>, k: nat) {
    forall d: nat :: d < k ==> NoTies(entries, AxisKey(d))
  }

  lemma TieFreePart(part: seq<Entry>, all: seq<Entry>, k: nat)
    requires TieFree(all, k) && multiset(part) <= multiset(all)
    ensures TieFree(part, k)
  {
    forall d: nat | d < k ensures NoTies(part, AxisKey(d)) {
      NoTiesInPart(part, all, AxisKey(d));
    }
  }

  lemma TieFreeCut(entries: seq<Entry>, cut: nat, k: nat)
    requires cut <= |entries|
    ensures TieFree(entries, k) ==> TieFree(entries[..cut], k) && TieFree(entries[cut..], k)
  {
    assert entries == entries[..cut] + entries[cut..];
    if TieFree(entries, k) {
      TieFreePart(entries[..cut], entries, k);
      TieFreePart(entries[cut..], entries, k);
    }
  }

  /** `update_pivot`: move the ideal split so that no visible run of equal values straddles it,
      to the left first, else to the right after a full sort. The split is proper and ordered,
      its two sides differ where they meet, and it degenerates exactly when every value on the
      axis is the same. Without ties it stays where it is and is strict. */
  method UpdatePivot<T>(s: seq<T>, key: T -> real, initPivot: nat) returns (r: seq<T>, pivot: nat)
    requires 0 < initPivot < |s|
    ensures multiset(r) == multiset(s) && |r| == |s|
    ensures 0 < pivot <= |s|
    ensures pivot < |s| ==> Selected(r, key, pivot) && key(r[pivot - 1]) < key(r[pivot])
    ensures pivot == |s| <==> AllEqual(s, key)
    ensures NoTies(s, key) ==> pivot == initPivot && Apart(r, key, pivot)
  {
    r := SelectNth(s, key, initPivot);
    SameElements(r, s);
    pivot := initPivot;
    if NoTies(s, key) {
      NoTiesInPart(r, s, key);
      NoTiesIsApart(r, key, initPivot);
    }
    while pivot > 0 && key(r[pivot]) == key(r[pivot - 1])
      invariant 0 <= pivot <= initPivot && (NoTies(s, key) ==> pivot == initPivot)
      invariant forall i :: pivot <= i <= initPivot ==> key(r[i]) == key(r[initPivot])
    {
      pivot := pivot - 1;
    }
    if pivot > 0 {
      assert r[pivot] in s && r[pivot - 1] in s;
    } else {
      r, pivot := SplitAfterLowestRun(s, r, key, initPivot);
    }
  }

  /** The rightward half: everything up to `initPivot` has the lowest value, so after a full
      sort the boundary is placed after the run of that value. */
  method SplitAfterLowestRun<T>(ghost s: seq<T>, selected: seq<T>, key: T -> real, initPivot: nat)
    returns (r: seq<T>, pivot: nat)
    requires multiset(selected) == multiset(s) && |selected| == |s| && initPivot < |s|
    requires Selected(selected, key, initPivot)
    requires forall i :: 0 <= i <= initPivot ==> key(selected[i]) == key(selected[initPivot])
    ensures multiset(r) == multiset(s) && |r| == |s|
    ensures initPivot < pivot <= |s|
    ensures pivot < |s| ==> Selected(r, key, pivot) && key(r[pivot - 1]) < key(r[pivot])
    ensures pivot == |s| <==> AllEqual(s, key)
  {
    ghost var lowest := key(selected[initPivot]);
    r := Sort(selected, key);
    SortSorts(selected, key);
    SortedRank(selected, r, key, initPivot, lowest);
    SameElements(r, selected);
    forall i | 0 <= i < |r| ensures lowest <= key(r[i]) {
      assert r[i] in selected;
    }
    pivot := initPivot;
    while pivot + 1 < |r| && key(r[pivot]) == key(r[pivot + 1])
      invariant initPivot <= pivot < |r| && key(r[pivot]) == lowest
    {
      pivot := pivot + 1;
    }
    pivot := pivot + 1;
    AfterLowestRun(s, r, key, pivot, lowest);
  }

  lemma AfterLowestRun<T>(s: seq<T>, r: seq<T>, key: T -> real, pivot: nat, lowest: real)
    requires multiset(r) == multiset(s) && 0 < pivot <= |r| && Sorted(r, key) && key(r[pivot - 1]) == lowest
    requires forall i :: 0 <= i < |r| ==> lowest <= key(r[i])
    requires pivot < |r| ==> key(r[pivot - 1]) != key(r[pivot])
    ensures pivot < |r| ==> Selected(r, key, pivot) && key(r[pivot - 1]) < key(r[pivot])
    ensures pivot == |r| <==> AllEqual(s, key)
  {
    SameElements(r, s);
    if pivot < |r| {
      assert r[pivot - 1] in s && r[pivot] in s;
    } else {
      assert forall i :: 0 <= i < |r| ==> key(r[i]) <= key(r[pivot - 1]);
    }
  }
}

/** Selecting the n-th smallest of a column while a second column is permuted along
    (src/mirror_select_nth_unstable_by.rs).

    What the loops do is followed step by step in functions and predicates on rows; only the
    order that the block-wise inner partition leaves within each side is not. */
module MirrorSelect {
  import opened Options
  import opened MirroredRows
  import opened BlockPartition

  // ---------------------------------------------------------------- partitions

  /** Whether a value belongs before a pivot `v`; `ties` says whether equal ones do. */
  predicate Low(x: real, v: real, ties: bool) {
    x < v || (ties && x == v)
  }

  /** Past the low values, from the left. */
  function PastLow(s: seq<Row>, l: nat, r: nat, v: real, ties: bool): (n: nat)
    requires l <= r <= |s|
    ensures l <= n <= r && (forall i :: l <= i < n ==> Low(s[i].0, v, ties)) && (n < r ==> !Low(s[n].0, v, ties))
    decreases r - l
  {
    if l < r && Low(s[l].0, v, ties) then PastLow(s, l + 1, r, v, ties) else l
  }

  /** Down past the others, from the right. */
  function PastHigh(s: seq<Row>, l: nat, r: nat, v: real, ties: bool): (n: nat)
    requires l <= r <= |s|
    ensures l <= n <= r && (forall i :: n <= i < r ==> !Low(s[i].0, v, ties)) && (l < n ==> Low(s[n - 1].0, v, ties))
    decreases r - l
  {
    if l < r && !Low(s[r - 1].0, v, ties) then PastHigh(s, l, r - 1, v, ties) else r
  }

  method SkipLow(target: array<real>, mirror: array<nat>, l0: nat, r: nat, v: real, ties: bool) returns (l: nat)
    requires target.Length == mirror.Length && l0 <= r <= target.Length
    ensures l == PastLow(Rows(target, mirror), l0, r, v, ties)
  {
    l := l0;
    while l < r && Low(target[l], v, ties)
      invariant l0 <= l <= r
      invariant PastLow(Rows(target, mirror), l0, r, v, ties) == PastLow(Rows(target, mirror), l, r, v, ties)
    {
      l := l + 1;
    }
  }

  method SkipHigh(target: array<real>, mirror: array<nat>, l: nat, r0: nat, v: real, ties: bool) returns (r: nat)
    requires target.Length == mirror.Length && l <= r0 <= target.Length
    ensures r == PastHigh(Rows(target, mirror), l, r0, v, ties)
  {
    r := r0;
    while l < r && !Low(target[r - 1], v, ties)
      invariant l <= r <= r0
      invariant PastHigh(Rows(target, mirror), l, r0, v, ties) == PastHigh(Rows(target, mirror), l, r, v, ties)
    {
      r := r - 1;
    }
  }

  /** Everything but the pivot at `lo`, partitioned: only what lies between the first pair of
      values on the wrong sides is moved. */
  ghost predicate PartsBehind(s: seq<Row>, t: seq<Row>, lo: nat, hi: nat, v: real, end: nat) {
    && lo < hi <= |s|
    && var l := PastLow(s, lo + 1, hi, v, false);
       var r := PastHigh(s, l, hi, v, false);
       PermutedWithin(s, t, l, r) && Parted(t, l, end, r, v)
  }

  /** `mirror_partition`: the pivot comes to the front, the others are partitioned, and the pivot
      goes between them. */
  ghost predicate PartitionsTo(s: seq<Row>, t: seq<Row>, lo: nat, hi: nat, pivot: nat, mid: nat) {
    && lo <= pivot < hi <= |s| == |t| && lo <= mid < hi
    && PartsBehind(Exchanged(s, lo, pivot), Exchanged(t, lo, mid), lo, hi, s[pivot].0, mid + 1)
  }

  lemma IsPartedBehind(s: seq<Row>, t: seq<Row>, lo: nat, l: nat, r: nat, hi: nat, v: real, end: nat)
    requires lo < hi <= |s| && l == PastLow(s, lo + 1, hi, v, false) && r == PastHigh(s, l, hi, v, false)
    requires PermutedWithin(s, t, l, r) && Parted(t, l, end, r, v)
    ensures PartsBehind(s, t, lo, hi, v, end)
  {
  }

  method PartitionBehind(target: array<real>, mirror: array<nat>, lo: nat, hi: nat, v: real) returns (end: nat)
    requires target.Length == mirror.Length && lo < hi <= target.Length
    modifies target, mirror
    ensures PartsBehind(old(Rows(target, mirror)), Rows(target, mirror), lo, hi, v, end)
  {
    ghost var was := Rows(target, mirror);
    var l := SkipLow(target, mirror, lo + 1, hi, v, false);
    var r := SkipHigh(target, mirror, l, hi, v, false);
    end := PartitionInBlocks(target, mirror, l, r, v);
    IsPartedBehind(was, Rows(target, mirror), lo, l, r, hi, v, end);
  }

  /** The pivot ends up at `mid`, with smaller values before it and the others after it. */
  method Partition(target: array<real>, mirror: array<nat>, lo: nat, hi: nat, pivot: nat) returns (mid: nat)
    requires target.Length == mirror.Length && lo <= pivot < hi <= target.Length
    modifies target, mirror
    ensures PartitionsTo(old(Rows(target, mirror)), Rows(target, mirror), lo, hi, pivot, mid)
    ensures PermutedWithin(old(Rows(target, mirror)), Rows(target, mirror), lo, hi)
    ensures lo <= mid < hi && target[mid] == old(target[pivot])
    ensures Parted(Rows(target, mirror), lo, mid, hi, target[mid])
  {
    ghost var was := Rows(target, mirror);
    var v := target[pivot];
    Swap(target, mirror, lo, pivot);
    var end := PartitionBehind(target, mirror, lo, hi, v);
    ghost var parted := Rows(target, mirror);
    mid := end - 1;
    Swap(target, mirror, lo, mid);
    ExchangedTwice(parted, lo, mid);
    PartitionSeparates(was, Rows(target, mirror), lo, hi, pivot, mid);
  }

  lemma PartitionSeparates(s: seq<Row>, t: seq<Row>, lo: nat, hi: nat, pivot: nat, mid: nat)
    requires PartitionsTo(s, t, lo, hi, pivot, mid)
    ensures PermutedWithin(s, t, lo, hi) && t[mid].0 == s[pivot].0 && Parted(t, lo, mid, hi, t[mid].0)
  {
    var u, w := Exchanged(s, lo, pivot), Exchanged(t, lo, mid);
    OthersParted(u, w, lo, hi, s[pivot].0, mid + 1);
    ExchangePermutes(s, lo, pivot, lo, hi);
    ExchangedTwice(t, lo, mid);
    PivotPlaced(s, u, w, t, lo, mid + 1, hi, s[pivot].0);
  }

  lemma PivotPlaced(was: seq<Row>, before: seq<Row>, parted: seq<Row>, now: seq<Row>, lo: nat, end: nat, hi: nat, v: real)
    requires lo < end <= hi && PermutedWithin(was, before, lo, hi) && PermutedWithin(before, parted, lo, hi)
    requires parted[lo].0 == v && Parted(parted, lo + 1, end, hi, v)
    requires now == Exchanged(parted, lo, end - 1)
    ensures PermutedWithin(was, now, lo, hi) && now[end - 1].0 == v && Parted(now, lo, end - 1, hi, v)
  {
    PermutedTwice(was, before, parted, lo, hi);
    ExchangeMore(was, parted, now, lo, end - 1, lo, hi);
    PivotBetween(parted, now, lo, end, hi, v);
  }

  lemma PivotBetween(parted: seq<Row>, now: seq<Row>, lo: nat, end: nat, hi: nat, v: real)
    requires lo < end <= hi && lo < |parted| && parted[lo].0 == v && Parted(parted, lo + 1, end, hi, v)
    requires now == Exchanged(parted, lo, end - 1)
    ensures now[end - 1].0 == v && Parted(now, lo, end - 1, hi, v)
  {
  }

  lemma OthersParted(s: seq<Row>, t: seq<Row>, lo: nat, hi: nat, v: real, end: nat)
    requires PartsBehind(s, t, lo, hi, v, end) && s[lo].0 == v
    ensures PermutedWithin(s, t, lo, hi) && t[lo].0 == v && Parted(t, lo + 1, end, hi, v)
  {
    var l := PastLow(s, lo + 1, hi, v, false);
    OnlyMiddleMoved(s, t, lo, l, PastHigh(s, l, hi, v, false), hi, end, v);
  }

  lemma OnlyMiddleMoved(s: seq<Row>, t: seq<Row>, lo: nat, l: nat, r: nat, hi: nat, end: nat, v: real)
    requires lo < l <= r <= hi <= |s| && PermutedWithin(s, t, l, r) && Parted(t, l, end, r, v)
    requires s[lo].0 == v
    requires forall i :: lo < i < l ==> s[i].0 < v
    requires forall i :: r <= i < hi ==> s[i].0 >= v
    ensures PermutedWithin(s, t, lo, hi) && t[lo].0 == v && Parted(t, lo + 1, end, hi, v)
  {
    PermutedInside(s, t, l, r, lo, hi);
    forall i | lo <= i < l || r <= i < hi ensures t[i] == s[i] {
      KeptOutside(s, t, l, r, i);
    }
  }

  /** If the others are partitioned already, only the pivot moves. */
  lemma AlreadyParted(s: seq<Row>, t: seq<Row>, lo: nat, hi: nat, pivot: nat, mid: nat, m: nat)
    requires PartitionsTo(s, t, lo, hi, pivot, mid) && lo <= m < hi
    requires Parted(Exchanged(s, lo, pivot), lo + 1, m + 1, hi, s[pivot].0)
    ensures mid == m && t == Exchanged(Exchanged(s, lo, pivot), lo, m)
  {
    var u, w, v := Exchanged(s, lo, pivot), Exchanged(t, lo, mid), s[pivot].0;
    NothingBetween(u, lo, m, hi, v);
    assert w == w[..m + 1] + w[m + 1..] == u[..m + 1] + u[m + 1..] == u;
    ExchangedTwice(t, lo, mid);
  }

  lemma NothingBetween(u: seq<Row>, lo: nat, m: nat, hi: nat, v: real)
    requires lo <= m < hi && Parted(u, lo + 1, m + 1, hi, v)
    ensures PastLow(u, lo + 1, hi, v, false) == m + 1 && PastHigh(u, m + 1, hi, v, false) == m + 1
  {
    assert m + 1 < hi ==> !Low(u[m + 1].0, v, false);
  }

  // ---------------------------------------------------------------- equal values

  /** One pass of `mirror_partition_equal`: a larger value on the left is exchanged with one on
      the right that is not larger. */
  function Pass(s: seq<Row>, l: nat, r: nat, v: real): (res: (seq<Row>, nat, nat))
    requires l < r <= |s|
    ensures |res.0| == |s| && l <= res.1 <= res.2 <= r && res.2 - res.1 < r - l
  {
    var l2 := PastLow(s, l, r, v, true);
    var r2 := PastHigh(s, l2, r, v, true);
    if l2 < r2 then (Exchanged(s, l2, r2 - 1), l2 + 1, r2 - 1) else (s, l2, r2)
  }

  function Swept(s: seq<Row>, l: nat, r: nat, v: real): (res: (seq<Row>, nat))
    requires l <= r <= |s|
    ensures |res.0| == |s| && l <= res.1 <= r
    decreases r - l
  {
    if l == r then (s, l)
    else
      var (u, l2, r2) := Pass(s, l, r, v);
      Swept(u, l2, r2, v)
  }

  /** `mirror_partition_equal`. */
  function EqualParted(s: seq<Row>, lo: nat, hi: nat, pivot: nat): (res: (seq<Row>, nat))
    requires lo <= pivot < hi <= |s|
    ensures |res.0| == |s| && lo < res.1 <= hi
  {
    Swept(Exchanged(s, lo, pivot), lo + 1, hi, s[pivot].0)
  }

  /** From `lo` up to `hi`: at most `v` before `l`, above it from `r` on. */
  ghost predicate Sweeping(was: seq<Row>, s: seq<Row>, lo: nat, l: nat, r: nat, hi: nat, v: real) {
    && lo <= l <= r <= hi <= |s| && PermutedWithin(was, s, lo, hi)
    && (forall i :: lo <= i < l ==> s[i].0 <= v) && forall i :: r <= i < hi ==> s[i].0 > v
  }

  lemma {:induction false} SweptSeparates(was: seq<Row>, s: seq<Row>, lo: nat, l: nat, r: nat, hi: nat, v: real)
    requires Sweeping(was, s, lo, l, r, hi, v)
    ensures var (t, mid) := Swept(s, l, r, v); Sweeping(was, t, lo, mid, mid, hi, v)
    decreases r - l
  {
    if l < r {
      var (u, l2, r2) := Pass(s, l, r, v);
      PassSeparates(was, s, u, lo, l, r, hi, v, l2, r2);
      SweptSeparates(was, u, lo, l2, r2, hi, v);
    }
  }

  lemma PassSeparates(was: seq<Row>, s: seq<Row>, t: seq<Row>, lo: nat, l: nat, r: nat, hi: nat, v: real, l2: nat, r2: nat)
    requires l < r && Sweeping(was, s, lo, l, r, hi, v) && (t, l2, r2) == Pass(s, l, r, v)
    ensures Sweeping(was, t, lo, l2, r2, hi, v)
  {
    var x := PastLow(s, l, r, v, true);
    var y := PastHigh(s, x, r, v, true);
    if x < y {
      PairExchanged(was, s, t, lo, x, y - 1, hi, v);
    }
  }

  lemma PairExchanged(was: seq<Row>, s: seq<Row>, t: seq<Row>, lo: nat, l: nat, r: nat, hi: nat, v: real)
    requires l <= r < hi && Sweeping(was, s, lo, l, r + 1, hi, v) && s[l].0 > v >= s[r].0 && t == Exchanged(s, l, r)
    ensures l < r && Sweeping(was, t, lo, l + 1, r, hi, v)
  {
    ExchangeMore(was, s, t, l, r, lo, hi);
  }

  /** For a pivot that is least, the values equal to it come first. */
  lemma EqualPartedSeparates(s: seq<Row>, lo: nat, hi: nat, pivot: nat)
    requires lo <= pivot < hi <= |s| && forall i :: lo <= i < hi ==> s[pivot].0 <= s[i].0
    ensures var (t, mid) := EqualParted(s, lo, hi, pivot);
            && PermutedWithin(s, t, lo, hi)
            && (forall i :: lo <= i < mid ==> t[i].0 == s[pivot].0) && forall i :: mid <= i < hi ==> t[i].0 > s[pivot].0
  {
    var u, v := Exchanged(s, lo, pivot), s[pivot].0;
    ExchangePermutes(s, lo, pivot, lo, hi);
    assert Sweeping(s, u, lo, lo + 1, hi, hi, v);
    SweptSeparates(s, u, lo, lo + 1, hi, hi, v);
    NoneBelow(s, EqualParted(s, lo, hi, pivot).0, lo, hi, v);
  }

  lemma NoneBelow(s: seq<Row>, t: seq<Row>, lo: nat, hi: nat, v: real)
    requires PermutedWithin(s, t, lo, hi) && forall i :: lo <= i < hi ==> v <= s[i].0
    ensures forall i :: lo <= i < hi ==> v <= t[i].0
  {
    forall i | lo <= i < hi ensures v <= t[i].0 {
      var j := CameFromRange(s, t, lo, hi, i);
    }
  }

  /** If equal values already come first, only the pivot moves. */
  lemma AlreadyEqualParted(s: seq<Row>, lo: nat, hi: nat, pivot: nat, mid: nat)
    requires lo <= pivot < mid <= hi <= |s|
    requires (forall i :: lo <= i < mid ==> s[i].0 == s[pivot].0) && forall i :: mid <= i < hi ==> s[i].0 > s[pivot].0
    ensures EqualParted(s, lo, hi, pivot) == (Exchanged(s, lo, pivot), mid)
  {
    var u, v := Exchanged(s, lo, pivot), s[pivot].0;
    assert forall i :: lo < i < mid ==> u[i].0 == v;
    assert forall i :: mid <= i < hi ==> u[i] == s[i];
    assert forall i :: lo < i < mid ==> Low(u[i].0, v, true);
    assert mid < hi ==> !Low(u[mid].0, v, true);
    assert PastLow(u, lo + 1, hi, v, true) == mid && PastHigh(u, mid, hi, v, true) == mid;
    if lo + 1 < hi {
      assert Pass(u, lo + 1, hi, v) == (u, mid, mid) && Swept(u, mid, mid, v) == (u, mid);
    }
  }

  /** What the sweep from here on makes of the rows. */
  ghost predicate SweepsTo(s: seq<Row>, l: nat, r: nat, v: real, end: (seq<Row>, nat)) {
    l <= r <= |s| && forall t: seq<Row> :: t == s ==> Swept(t, l, r, v) == end
  }

  lemma PassSweeps(s: seq<Row>, l: nat, r: nat, v: real, end: (seq<Row>, nat), t: seq<Row>, l2: nat, r2: nat)
    requires l < r && SweepsTo(s, l, r, v, end) && (t, l2, r2) == Pass(s, l, r, v)
    ensures l <= l2 <= r2 <= r && r2 - l2 < r - l && SweepsTo(t, l2, r2, v, end)
  {
    assert Swept(s, l, r, v) == end;
  }

  method PartitionEqual(target: array<real>, mirror: array<nat>, lo: nat, hi: nat, pivot: nat) returns (mid: nat)
    requires target.Length == mirror.Length && lo <= pivot < hi <= target.Length
    modifies target, mirror
    ensures (Rows(target, mirror), mid) == EqualParted(old(Rows(target, mirror)), lo, hi, pivot)
  {
    var v := target[pivot];
    Swap(target, mirror, lo, pivot);
    mid := Sweep(target, mirror, lo + 1, hi, v);
  }

  /** The loop of passes. */
  method Sweep(target: array<real>, mirror: array<nat>, l0: nat, r0: nat, v: real) returns (l: nat)
    requires target.Length == mirror.Length && l0 <= r0 <= target.Length
    modifies target, mirror
    ensures (Rows(target, mirror), l) == Swept(old(Rows(target, mirror)), l0, r0, v)
  {
    ghost var end := Swept(Rows(target, mirror), l0, r0, v);
    var r := r0;
    l := l0;
    while l < r
      invariant l <= r <= r0 && SweepsTo(Rows(target, mirror), l, r, v, end)
      decreases r - l
    {
      ghost var rows, l1, r1 := Rows(target, mirror), l, r;
      l, r := EqualStep(target, mirror, l, r, v);
      PassSweeps(rows, l1, r1, v, end, Rows(target, mirror), l, r);
    }
    assert Swept(Rows(target, mirror), l, r, v) == end;
  }

  /** Find a pair of out-of-order values and exchange it. */
  method EqualStep(target: array<real>, mirror: array<nat>, l0: nat, r0: nat, v: real) returns (l: nat, r: nat)
    requires target.Length == mirror.Length && l0 < r0 <= target.Length
    modifies target, mirror
    ensures (Rows(target, mirror), l, r) == Pass(old(Rows(target, mirror)), l0, r0, v)
  {
    l := SkipLow(target, mirror, l0, r0, v, true);
    r := SkipHigh(target, mirror, l, r0, v, true);
    if l < r {
      r := r - 1;
      Swap(target, mirror, l, r);
      l := l + 1;
    }
  }

  // ---------------------------------------------------------------- choosing a pivot

  /** Two indices in the order of their values, and the number of exchanges so far. */
  function Ordered2(s: seq<Row>, a: nat, b: nat, swaps: nat): (res: (nat, nat, nat))
    requires a < |s| && b < |s|
    ensures (res.0 == a && res.1 == b && res.2 == swaps) || (res.0 == b && res.1 == a && res.2 == swaps + 1)
    ensures s[res.0].0 <= s[res.1].0
  {
    if s[b].0 < s[a].0 then (b, a, swaps + 1) else (a, b, swaps)
  }

  /** The index of the median of three values. */
  function Median(s: seq<Row>, a: nat, b: nat, c: nat, swaps: nat): (res: (nat, nat))
    requires a < |s| && b < |s| && c < |s|
    ensures res.0 == a || res.0 == b || res.0 == c
    ensures swaps <= res.1 <= swaps + 3
    ensures s[a].0 == s[b].0 <= s[c].0 ==> res == (b, swaps)
  {
    var (x, y, n) := Ordered2(s, a, b, swaps);
    var (y2, z, n2) := Ordered2(s, y, c, n);
    var (x2, m, n3) := Ordered2(s, x, y2, n2);
    (m, n3)
  }

  /** The index of a median of three, or of three medians, in a range. */
  function MedianIndex(s: seq<Row>, lo: nat, hi: nat): (res: (nat, nat))
    requires lo < hi <= |s|
    ensures lo <= res.0 < hi
  {
    var len := hi - lo;
    var quarter := len / 4;
    var a, b, c := lo + quarter, lo + quarter * 2, lo + quarter * 3;
    if len < 8 then (b, 0)
    else if len < 50 then Median(s, a, b, c, 0)
    else
      var (a2, n) := Median(s, a - 1, a, a + 1, 0);
      var (b2, n2) := Median(s, b - 1, b, b + 1, n);
      var (c2, n3) := Median(s, c - 1, c, c + 1, n2);
      Median(s, a2, b2, c2, n3)
  }

  function Reversed(s: seq<Row>, lo: nat, hi: nat): (t: seq<Row>)
    requires lo <= hi <= |s|
    ensures |t| == |s|
  {
    seq(|s|, i requires 0 <= i < |s| => if lo <= i < hi then s[lo + (hi - 1 - i)] else s[i])
  }

  lemma {:induction false} ReversedPermutes(s: seq<Row>, lo: nat, hi: nat)
    requires lo <= hi <= |s|
    ensures PermutedWithin(s, Reversed(s, lo, hi), lo, hi)
    decreases hi - lo
  {
    if hi - lo < 2 {
      assert Reversed(s, lo, hi) == s;
    } else {
      ReversedPermutes(s, lo + 1, hi - 1);
      var u, t := ReversedOutside(s, lo, hi);
      PermutedInside(s, u, lo + 1, hi - 1, lo, hi);
      ExchangeMore(s, u, t, lo, hi - 1, lo, hi);
    }
  }

  lemma ReversedOutside(s: seq<Row>, lo: nat, hi: nat) returns (u: seq<Row>, t: seq<Row>)
    requires lo + 2 <= hi <= |s|
    ensures u == Reversed(s, lo + 1, hi - 1) && t == Reversed(s, lo, hi) && t == Exchanged(u, lo, hi - 1)
  {
    u, t := Reversed(s, lo + 1, hi - 1), Reversed(s, lo, hi);
  }

  function Turned(s: seq<Row>, lo: nat, hi: nat, m: nat, swaps: nat): (res: (seq<Row>, nat))
    requires lo <= m < hi <= |s|
    ensures |res.0| == |s| && lo <= res.1 < hi
  {
    if swaps < 12 then (s, m) else (Reversed(s, lo, hi), lo + (hi - 1 - m))
  }

  /** `choose_pivot`: the rows, reversed after many exchanges, and the index of the pivot. */
  function PivotChoice(s: seq<Row>, lo: nat, hi: nat): (res: (seq<Row>, nat))
    requires lo < hi <= |s|
    ensures |res.0| == |s| && lo <= res.1 < hi
  {
    Turned(s, lo, hi, MedianIndex(s, lo, hi).0, MedianIndex(s, lo, hi).1)
  }

  lemma PivotChoicePermutes(s: seq<Row>, lo: nat, hi: nat)
    requires lo < hi <= |s|
    ensures PermutedWithin(s, PivotChoice(s, lo, hi).0, lo, hi)
  {
    ReversedPermutes(s, lo, hi);
  }

  method ChoosePivot(target: array<real>, mirror: array<nat>, lo: nat, hi: nat) returns (pivot: nat)
    requires target.Length == mirror.Length && lo < hi <= target.Length
    modifies target, mirror
    ensures (Rows(target, mirror), pivot) == PivotChoice(old(Rows(target, mirror)), lo, hi)
  {
    var median := MedianIndex(Rows(target, mirror), lo, hi);
    pivot := TurnAround(target, mirror, lo, hi, median.0, median.1);
  }

  method TurnAround(target: array<real>, mirror: array<nat>, lo: nat, hi: nat, m: nat, swaps: nat) returns (pivot: nat)
    requires target.Length == mirror.Length && lo <= m < hi <= target.Length
    modifies target, mirror
    ensures (Rows(target, mirror), pivot) == Turned(old(Rows(target, mirror)), lo, hi, m, swaps)
  {
    pivot := m;
    if swaps >= 12 {
      Reverse(target, mirror, lo, hi);
      pivot := lo + (hi - 1 - m);
    }
  }

  method Reverse(target: array<real>, mirror: array<nat>, lo: nat, hi: nat)
    requires target.Length == mirror.Length && lo <= hi <= target.Length
    modifies target, mirror
    ensures Rows(target, mirror) == Reversed(old(Rows(target, mirror)), lo, hi)
  {
    ghost var was := Rows(target, mirror);
    var l, r := lo, hi;
    while l + 1 < r
      invariant lo <= l <= r + 1 && r <= hi && l - lo == hi - r
      invariant Reversed(was, lo, hi) == Reversed(Rows(target, mirror), l, if l <= r then r else l)
      decreases r - l
    {
      r := r - 1;
      ReversedStep(Rows(target, mirror), l, r);
      Swap(target, mirror, l, r);
      l := l + 1;
    }
    ReversedNothing(Rows(target, mirror), l, if l <= r then r else l);
  }

  lemma ReversedStep(s: seq<Row>, l: nat, r: nat)
    requires l < r < |s|
    ensures Reversed(Exchanged(s, l, r), l + 1, r) == Reversed(s, l, r + 1)
  {
  }

  lemma ReversedNothing(s: seq<Row>, l: nat, r: nat)
    requires l <= r <= l + 1 && r <= |s|
    ensures Reversed(s, l, r) == s
  {
  }

  // ---------------------------------------------------------------- the selection

  /** What the selection leaves: nothing larger before position `n`, nothing smaller after it,
      and the values equal to the selected one directly before it. */
  ghost predicate Chosen(s: seq<Row>, n: nat)
    requires n < |s|
  {
    && (forall i :: 0 <= i < n ==> s[i].0 <= s[n].0)
    && (forall i :: n < i < |s| ==> s[n].0 <= s[i].0)
    && forall i, j :: 0 <= i <= j <= n && s[i].0 == s[n].0 ==> s[j].0 == s[n].0
  }

  /** The state of the loop: everything from `hi` on is larger than what is before it; what is
      before `lo` is smaller than the rest, except that a predecessor directly before `lo` may
      be equal to some of it. */
  ghost predicate Narrowed(s: seq<Row>, lo: nat, hi: nat, index: nat, pred: Option<real>) {
    && lo <= index < hi <= |s|
    && (forall i, j :: 0 <= i < hi <= j < |s| ==> s[i].0 < s[j].0)
    && match pred
       case None => forall i, j :: 0 <= i < lo <= j < |s| ==> s[i].0 < s[j].0
       case Some(p) =>
         && lo > 0 && s[lo - 1].0 == p && (forall i :: 0 <= i < lo - 1 ==> s[i].0 < p)
         && forall j :: lo <= j < |s| ==> p <= s[j].0
  }

  /** Rearranging the range keeps the state. */
  lemma StaysNarrowed(s: seq<Row>, t: seq<Row>, lo: nat, hi: nat, index: nat, pred: Option<real>)
    requires Narrowed(s, lo, hi, index, pred) && PermutedWithin(s, t, lo, hi)
    ensures Narrowed(t, lo, hi, index, pred)
  {
    forall j | 0 <= j < |t| ensures exists i :: 0 <= i < |s| && s[i] == t[j] && (lo <= j < hi <==> lo <= i < hi)
                                             && (j < lo || hi <= j ==> i == j) {
      if lo <= j < hi {
        var i := CameFromRange(s, t, lo, hi, j);
      } else {
        KeptOutside(s, t, lo, hi, j);
      }
    }
  }

  /** Where the loop goes on after a partition. */
  function NextRange(lo: nat, mid: nat, hi: nat, index: nat, pred: Option<real>, v: real): (res: (nat, nat, Option<real>))
    requires lo <= mid < hi && lo <= index < hi
    ensures mid != index ==> lo <= res.0 <= index < res.1 <= hi && res.1 - res.0 < hi - lo
  {
    if mid < index then (mid + 1, hi, Some(v)) else if mid > index then (lo, mid, pred) else (lo, hi, pred)
  }

  lemma AfterPartition(s: seq<Row>, lo: nat, mid: nat, hi: nat, index: nat, pred: Option<real>)
    requires Narrowed(s, lo, hi, index, pred) && lo <= mid < hi && Parted(s, lo, mid, hi, s[mid].0)
    requires pred.Some? ==> pred.value < s[mid].0
    ensures var (lo2, hi2, pred2) := NextRange(lo, mid, hi, index, pred, s[mid].0);
            if mid == index then Chosen(s, index) else Narrowed(s, lo2, hi2, index, pred2)
  {
    if mid < index {
      RightOfPivot(s, lo, mid, hi, index, pred);
    } else if mid > index {
      LeftOfPivot(s, lo, mid, hi, index, pred);
    }
  }

  lemma RightOfPivot(s: seq<Row>, lo: nat, mid: nat, hi: nat, index: nat, pred: Option<real>)
    requires Narrowed(s, lo, hi, index, pred) && lo <= mid < index && Parted(s, lo, mid, hi, s[mid].0)
    requires pred.Some? ==> pred.value < s[mid].0
    ensures Narrowed(s, mid + 1, hi, index, Some(s[mid].0))
  {
  }

  lemma LeftOfPivot(s: seq<Row>, lo: nat, mid: nat, hi: nat, index: nat, pred: Option<real>)
    requires Narrowed(s, lo, hi, index, pred) && index < mid < hi && Parted(s, lo, mid, hi, s[mid].0)
    requires pred.Some? ==> pred.value < s[mid].0
    ensures Narrowed(s, lo, mid, index, pred)
  {
  }

  lemma AfterPartitionEqual(s: seq<Row>, lo: nat, mid: nat, hi: nat, index: nat, v: real)
    requires Narrowed(s, lo, hi, index, Some(v)) && lo < mid <= hi
    requires forall i :: lo <= i < mid ==> s[i].0 == v
    requires forall i :: mid <= i < hi ==> s[i].0 > v
    ensures mid > index ==> Chosen(s, index)
    ensures mid <= index ==> Narrowed(s, mid, hi, index, None)
  {
  }

  /** What the loop makes of the rows from one of its states on. A pivot that is not above the
      predecessor is the least value of the range. */
  ghost predicate SelectsFrom(s: seq<Row>, t: seq<Row>, lo: nat, hi: nat, index: nat, pred: Option<real>)
    requires lo <= index < hi <= |s|
    decreases hi - lo
  {
    var (u, pivot) := PivotChoice(s, lo, hi);
    if pred.Some? && u[pivot].0 <= pred.value then
      var (w, mid) := EqualParted(u, lo, hi, pivot);
      if mid > index then t == w else SelectsFrom(w, t, mid, hi, index, None)
    else
      exists w: seq<Row>, mid: nat :: PartitionsTo(u, w, lo, hi, pivot, mid) && GoesOn(w, t, lo, mid, hi, index, pred)
  }

  ghost predicate GoesOn(w: seq<Row>, t: seq<Row>, lo: nat, mid: nat, hi: nat, index: nat, pred: Option<real>)
    requires lo <= mid < hi <= |w| && lo <= index < hi
    decreases hi - lo, 0
  {
    if mid == index then t == w
    else
      var (lo2, hi2, pred2) := NextRange(lo, mid, hi, index, pred, w[mid].0);
      SelectsFrom(w, t, lo2, hi2, index, pred2)
  }

  /** `t` is what selecting position `n` makes of `s`: the loop starts from the whole range,
      without a predecessor. */
  ghost predicate Selects(s: seq<Row>, t: seq<Row>, n: nat) {
    n < |s| && forall pred: Option<real> :: pred == None ==> SelectsFrom(s, t, 0, |s|, n, pred)
  }

  /** The selection permutes the rows as pairs and puts the selected value in its place. */
  lemma SelectionIsChosen(s: seq<Row>, t: seq<Row>, n: nat)
    requires Selects(s, t, n)
    ensures multiset(t) == multiset(s) && |t| == |s| && Chosen(t, n)
  {
    assert SelectsFrom(s, t, 0, |s|, n, None);
    NarrowedIsChosen(s, t, 0, |s|, n, None);
    assert |multiset(t)| == |multiset(s)|;
  }

  lemma {:induction false} NarrowedIsChosen(s: seq<Row>, t: seq<Row>, lo: nat, hi: nat, index: nat, pred: Option<real>)
    requires Narrowed(s, lo, hi, index, pred) && SelectsFrom(s, t, lo, hi, index, pred)
    ensures multiset(t) == multiset(s) && index < |t| && Chosen(t, index)
    decreases hi - lo
  {
    var (u, pivot) := PivotChoice(s, lo, hi);
    PivotChoicePermutes(s, lo, hi);
    StaysNarrowed(s, u, lo, hi, index, pred);
    PermutedAll(s, u, lo, hi);
    if pred.Some? && u[pivot].0 <= pred.value {
      var (w, mid) := EqualParted(u, lo, hi, pivot);
      EqualRound(u, lo, hi, index, pred.value, pivot);
      if mid <= index {
        NarrowedIsChosen(w, t, mid, hi, index, None);
      }
    } else {
      var w: seq<Row>, mid: nat :| PartitionsTo(u, w, lo, hi, pivot, mid) && GoesOn(w, t, lo, mid, hi, index, pred);
      PartitionRound(u, w, lo, hi, index, pred, pivot, mid);
      var (lo2, hi2, pred2) := NextRange(lo, mid, hi, index, pred, w[mid].0);
      if mid != index {
        NarrowedIsChosen(w, t, lo2, hi2, index, pred2);
      }
    }
  }

  lemma EqualRound(u: seq<Row>, lo: nat, hi: nat, index: nat, v: real, pivot: nat)
    requires Narrowed(u, lo, hi, index, Some(v)) && lo <= pivot < hi && u[pivot].0 <= v
    ensures var (w, mid) := EqualParted(u, lo, hi, pivot);
            && multiset(w) == multiset(u)
            && if mid > index then Chosen(w, index) else Narrowed(w, mid, hi, index, None)
  {
    var (w, mid) := EqualParted(u, lo, hi, pivot);
    EqualPartedSeparates(u, lo, hi, pivot);
    StaysNarrowed(u, w, lo, hi, index, Some(v));
    PermutedAll(u, w, lo, hi);
    AfterPartitionEqual(w, lo, mid, hi, index, v);
  }

  lemma PartitionRound(u: seq<Row>, w: seq<Row>, lo: nat, hi: nat, index: nat, pred: Option<real>, pivot: nat, mid: nat)
    requires Narrowed(u, lo, hi, index, pred) && PartitionsTo(u, w, lo, hi, pivot, mid)
    requires pred.Some? ==> pred.value < u[pivot].0
    ensures multiset(w) == multiset(u)
    ensures var (lo2, hi2, pred2) := NextRange(lo, mid, hi, index, pred, w[mid].0);
            if mid == index then Chosen(w, index) else Narrowed(w, lo2, hi2, index, pred2)
  {
    PartitionSeparates(u, w, lo, hi, pivot, mid);
    StaysNarrowed(u, w, lo, hi, index, pred);
    PermutedAll(u, w, lo, hi);
    AfterPartition(w, lo, mid, hi, index, pred);
  }

  /** Whatever the loop makes of this state, it makes of the rows it started from. */
  ghost predicate Continues(was: seq<Row>, n: nat, s: seq<Row>, lo: nat, hi: nat, pred: Option<real>)
    requires n < |was|
  {
    && lo <= n < hi <= |s|
    && forall t :: SelectsFrom(s, t, lo, hi, n, pred) ==> Selects(was, t, n)
  }

  /** `mirror_select_nth_unstable_by`: the rows are permuted as pairs, as the loop does it, and
      the selected value is in its place. */
  method Select(target: array<real>, mirror: array<nat>, index: nat)
    requires target.Length == mirror.Length && index < target.Length
    modifies target, mirror
    ensures Selects(old(Rows(target, mirror)), Rows(target, mirror), index)
    ensures multiset(Rows(target, mirror)) == multiset(old(Rows(target, mirror)))
    ensures Chosen(Rows(target, mirror), index)
  {
    ghost var was := Rows(target, mirror);
    var lo: nat, hi: nat, pred, done := 0, target.Length, None, false;
    while !done
      invariant if done then Selects(was, Rows(target, mirror), index)
                else Continues(was, index, Rows(target, mirror), lo, hi, pred)
      decreases !done, hi - lo
    {
      lo, hi, pred, done := Round(target, mirror, lo, hi, index, pred, was);
    }
    SelectionIsChosen(was, Rows(target, mirror), index);
  }

  method Round(target: array<real>, mirror: array<nat>, lo: nat, hi: nat, index: nat, pred: Option<real>, ghost was: seq<Row>)
    returns (lo2: nat, hi2: nat, pred2: Option<real>, done: bool)
    requires target.Length == mirror.Length && index < |was| && Continues(was, index, Rows(target, mirror), lo, hi, pred)
    modifies target, mirror
    ensures if done then Selects(was, Rows(target, mirror), index)
            else Continues(was, index, Rows(target, mirror), lo2, hi2, pred2) && hi2 - lo2 < hi - lo
  {
    ghost var s := Rows(target, mirror);
    var pivot := ChoosePivot(target, mirror, lo, hi);
    if pred.Some? && target[pivot] <= pred.value {
      lo2 := PartitionEqual(target, mirror, lo, hi, pivot);
      hi2, pred2, done := hi, None, lo2 > index;
      ContinuesEqual(was, s, lo, hi, index, pred);
    } else {
      lo2, hi2, pred2, done := RoundParted(target, mirror, lo, hi, index, pred, pivot, was, s);
    }
  }

  method RoundParted(target: array<real>, mirror: array<nat>, lo: nat, hi: nat, index: nat, pred: Option<real>, pivot: nat,
                     ghost was: seq<Row>, ghost s: seq<Row>)
    returns (lo2: nat, hi2: nat, pred2: Option<real>, done: bool)
    requires target.Length == mirror.Length && index < |was| && Continues(was, index, s, lo, hi, pred)
    requires (Rows(target, mirror), pivot) == PivotChoice(s, lo, hi) && !(pred.Some? && target[pivot] <= pred.value)
    modifies target, mirror
    ensures if done then Selects(was, Rows(target, mirror), index)
            else Continues(was, index, Rows(target, mirror), lo2, hi2, pred2) && hi2 - lo2 < hi - lo
  {
    ghost var u := Rows(target, mirror);
    var mid := Partition(target, mirror, lo, hi, pivot);
    ContinuesParted(was, s, u, Rows(target, mirror), lo, hi, index, pred, pivot, mid);
    var next := NextRange(lo, mid, hi, index, pred, target[mid]);
    lo2, hi2, pred2, done := next.0, next.1, next.2, mid == index;
  }

  lemma ContinuesEqual(was: seq<Row>, s: seq<Row>, lo: nat, hi: nat, index: nat, pred: Option<real>)
    requires index < |was| && Continues(was, index, s, lo, hi, pred)
    requires var (u, pivot) := PivotChoice(s, lo, hi); pred.Some? && u[pivot].0 <= pred.value
    ensures var (u, pivot) := PivotChoice(s, lo, hi);
            var (w, mid) := EqualParted(u, lo, hi, pivot);
            if mid > index then Selects(was, w, index) else Continues(was, index, w, mid, hi, None)
  {
    var (u, pivot) := PivotChoice(s, lo, hi);
    var (w, mid) := EqualParted(u, lo, hi, pivot);
    if mid > index {
      assert SelectsFrom(s, w, lo, hi, index, pred);
    } else {
      forall t | SelectsFrom(w, t, mid, hi, index, None) ensures Selects(was, t, index) {
        assert SelectsFrom(s, t, lo, hi, index, pred);
      }
    }
  }

  lemma ContinuesParted(was: seq<Row>, s: seq<Row>, u: seq<Row>, w: seq<Row>, lo: nat, hi: nat, index: nat, pred: Option<real>,
                        pivot: nat, mid: nat)
    requires index < |was| && Continues(was, index, s, lo, hi, pred) && (u, pivot) == PivotChoice(s, lo, hi)
    requires !(pred.Some? && u[pivot].0 <= pred.value) && PartitionsTo(u, w, lo, hi, pivot, mid)
    ensures var (lo2, hi2, pred2) := NextRange(lo, mid, hi, index, pred, w[mid].0);
            if mid == index then Selects(was, w, index) else Continues(was, index, w, lo2, hi2, pred2)
  {
    forall t | GoesOn(w, t, lo, mid, hi, index, pred) ensures Selects(was, t, index) {
      assert SelectsFrom(s, t, lo, hi, index, pred);
    }
    if mid == index {
      assert GoesOn(w, w, lo, mid, hi, index, pred);
    } else {
      var (lo2, hi2, pred2) := NextRange(lo, mid, hi, index, pred, w[mid].0);
      forall t | SelectsFrom(w, t, lo2, hi2, index, pred2) ensures Selects(was, t, index) {
        assert GoesOn(w, t, lo, mid, hi, index, pred);
      }
    }
  }

  // ---------------------------------------------------------------- some result

  function Belows(s: seq<Row>, v: real): (t: seq<Row>)
    ensures forall i :: 0 <= i < |t| ==> t[i].0 < v
  {
    if s == [] then [] else (if s[0].0 < v then [s[0]] else []) + Belows(s[1..], v)
  }

  function Others(s: seq<Row>, v: real): (t: seq<Row>)
    ensures forall i :: 0 <= i < |t| ==> t[i].0 >= v
  {
    if s == [] then [] else (if s[0].0 < v then [] else [s[0]]) + Others(s[1..], v)
  }

  lemma {:induction false} BelowsAndOthers(s: seq<Row>, v: real)
    ensures multiset(Belows(s, v)) + multiset(Others(s, v)) == multiset(s) && |Belows(s, v)| + |Others(s, v)| == |s|
  {
    if s != [] {
      BelowsAndOthers(s[1..], v);
      assert s == [s[0]] + s[1..];
    }
  }

  /** A partition has a result. */
  lemma SomePartition(s: seq<Row>, lo: nat, hi: nat, pivot: nat) returns (t: seq<Row>, mid: nat)
    requires lo <= pivot < hi <= |s|
    ensures PartitionsTo(s, t, lo, hi, pivot, mid)
  {
    var u, v := Exchanged(s, lo, pivot), s[pivot].0;
    var l := PastLow(u, lo + 1, hi, v, false);
    var r := PastHigh(u, l, hi, v, false);
    var w, end := SomeRest(u, l, r, v);
    mid := end - 1;
    t := Exchanged(w, lo, mid);
    ExchangedTwice(w, lo, mid);
    IsPartedBehind(u, w, lo, l, r, hi, v, end);
  }

  lemma SomeRest(s: seq<Row>, l: nat, r: nat, v: real) returns (t: seq<Row>, end: nat)
    requires l <= r <= |s|
    ensures PermutedWithin(s, t, l, r) && Parted(t, l, end, r, v)
  {
    var low, high := Belows(s[l..r], v), Others(s[l..r], v);
    BelowsAndOthers(s[l..r], v);
    end := l + |low|;
    t := PutBetween(s, l, r, low + high);
    MiddleIsParted(t, l, r, v, low, high);
  }

  lemma MiddleIsParted(t: seq<Row>, l: nat, r: nat, v: real, low: seq<Row>, high: seq<Row>)
    requires l <= r <= |t| && |low| + |high| == r - l && forall i :: l <= i < r ==> t[i] == (low + high)[i - l]
    requires (forall i :: 0 <= i < |low| ==> low[i].0 < v) && forall i :: 0 <= i < |high| ==> high[i].0 >= v
    ensures Parted(t, l, l + |low|, r, v)
  {
  }

  lemma PutBetween(s: seq<Row>, l: nat, r: nat, middle: seq<Row>) returns (t: seq<Row>)
    requires l <= r <= |s| && |middle| == r - l && multiset(middle) == multiset(s[l..r])
    ensures PermutedWithin(s, t, l, r) && forall i :: l <= i < r ==> t[i] == middle[i - l]
  {
    t := s[..l] + middle + s[r..];
    assert t[..l] == s[..l] && t[r..] == s[r..] && t[l..r] == middle;
  }

  /** So has the loop, from every state. */
  lemma {:induction false} SomeSelection(s: seq<Row>, lo: nat, hi: nat, index: nat, pred: Option<real>) returns (t: seq<Row>)
    requires lo <= index < hi <= |s|
    ensures SelectsFrom(s, t, lo, hi, index, pred)
    decreases hi - lo
  {
    var (u, pivot) := PivotChoice(s, lo, hi);
    if pred.Some? && u[pivot].0 <= pred.value {
      var (w, mid) := EqualParted(u, lo, hi, pivot);
      t := w;
      if mid <= index {
        t := SomeSelection(w, mid, hi, index, None);
      }
    } else {
      var w, mid := SomePartition(u, lo, hi, pivot);
      t := w;
      if mid != index {
        var (lo2, hi2, pred2) := NextRange(lo, mid, hi, index, pred, w[mid].0);
        t := SomeSelection(w, lo2, hi2, index, pred2);
      }
      assert GoesOn(w, t, lo, mid, hi, index, pred);
    }
  }
}

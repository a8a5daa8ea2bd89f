/** Splitting a full bucket (src/leaf_strategy/vec_of_arrays.rs, `split_leaf`).

    The bucket is partitioned around its middle; when the lowest value reaches from the front
    to the middle, the cut moves right instead, after a second selection that is meant to
    sort the bucket but only puts the largest entries last. */
module BucketSplit {
  import opened Options
  import opened KdTree
  import opened Sorting
  import opened Construction
  import opened MirroredRows
  import opened MirrorSelect

  /** Where the run of `v` that ends before `p` starts. */
  function LeftOfRun(s: seq<Entry>, key: Entry -> real, v: real, p: nat): (q: nat)
    requires p <= |s|
    ensures q <= p && forall i :: q <= i < p ==> key(s[i]) == v
    ensures q > 0 ==> key(s[q - 1]) != v
  {
    if p > 0 && key(s[p - 1]) == v then LeftOfRun(s, key, v, p - 1) else p
  }

  /** Where the run of `v` that starts at `p` ends. */
  function RightOfRun(s: seq<Entry>, key: Entry -> real, v: real, p: nat): (q: nat)
    requires p <= |s|
    ensures p <= q <= |s| && forall i :: p <= i < q ==> key(s[i]) == v
    ensures q < |s| ==> key(s[q]) != v
    decreases |s| - p
  {
    if p < |s| && key(s[p]) == v then RightOfRun(s, key, v, p + 1) else p
  }

  ghost predicate Permuted(a: seq<Entry>, b: seq<Entry>) {
    |a| == |b| && multiset(a) == multiset(b)
  }

  /** What the mirrored selection leaves, on entries. */
  ghost predicate Picked(s: seq<Entry>, key: Entry -> real, n: nat)
    requires n < |s|
  {
    Selected(s, key, n) && forall i, j :: 0 <= i <= j <= n && key(s[i]) == key(s[n]) ==> key(s[j]) == key(s[n])
  }

  /** What the contract of the selections allows after the first one. */
  ghost predicate AllowedAfter(first: seq<Entry>, key: Entry -> real, r: seq<Entry>, cut: nat)
    requires |first| > 0
  {
    var mid := |first| / 2;
    var v := key(first[mid]);
    var left := LeftOfRun(first, key, v, mid);
    if left > 0 then r == first && cut == left
    else Permuted(r, first) && Picked(r, key, |r| - 1) && cut == RightOfRun(r, key, v, mid)
  }

  // ---------------------------------------------------------------- the columns of a bucket

  /** The values on the split axis, next to the positions they came from. */
  function Column(s: seq<Entry>, key: Entry -> real): (rows: seq<Row>)
    ensures |rows| == |s|
  {
    seq(|s|, i requires 0 <= i < |s| => (key(s[i]), i))
  }

  ghost predicate IsColumn(s: seq<Entry>, key: Entry -> real, rows: seq<Row>) {
    && |rows| == |s| && multiset(rows) == multiset(Column(s, key))
    && forall i :: 0 <= i < |rows| ==> rows[i].1 < |s| && rows[i].0 == key(s[rows[i].1])
  }

  /** The entries in the order given by the mirrored positions. */
  ghost function Arranged(s: seq<Entry>, rows: seq<Row>): (r: seq<Entry>)
    requires forall i :: 0 <= i < |rows| ==> rows[i].1 < |s|
    ensures |r| == |rows|
  {
    seq(|rows|, i requires 0 <= i < |rows| => s[rows[i].1])
  }

  lemma PermutedColumn(s: seq<Entry>, key: Entry -> real, rows: seq<Row>)
    requires multiset(rows) == multiset(Column(s, key))
    ensures IsColumn(s, key, rows) && Permuted(Arranged(s, rows), s)
    ensures forall i :: 0 <= i < |rows| ==> key(Arranged(s, rows)[i]) == rows[i].0
  {
    var column := Column(s, key);
    assert |multiset(rows)| == |multiset(column)|;
    SameElements(rows, column);
    forall i | 0 <= i < |rows| ensures rows[i].1 < |s| && rows[i].0 == key(s[rows[i].1]) {
      var j :| 0 <= j < |column| && column[j] == rows[i];
    }
    ArrangedAlike(s, rows, column);
    assert Arranged(s, column) == s;
  }

  lemma {:induction false} ArrangedAlike(s: seq<Entry>, a: seq<Row>, b: seq<Row>)
    requires multiset(a) == multiset(b)
    requires (forall i :: 0 <= i < |a| ==> a[i].1 < |s|) && forall i :: 0 <= i < |b| ==> b[i].1 < |s|
    ensures multiset(Arranged(s, a)) == multiset(Arranged(s, b))
  {
    if a == [] {
      assert |multiset(b)| == 0;
    } else {
      SameElements(a, b);
      var n := |a| - 1;
      var j :| 0 <= j < |b| && b[j] == a[n];
      WithoutRow(s, a, n);
      WithoutRow(s, b, j);
      ArrangedAlike(s, a[..n] + a[n + 1..], b[..j] + b[j + 1..]);
    }
  }

  lemma WithoutRow(s: seq<Entry>, b: seq<Row>, j: nat)
    requires j < |b| && forall i :: 0 <= i < |b| ==> b[i].1 < |s|
    ensures multiset(b[..j] + b[j + 1..]) == multiset(b) - multiset{b[j]}
    ensures multiset(Arranged(s, b)) == multiset(Arranged(s, b[..j] + b[j + 1..])) + multiset{s[b[j].1]}
  {
    assert b == b[..j] + [b[j]] + b[j + 1..];
    var r := Arranged(s, b);
    assert r == r[..j] + [r[j]] + r[j + 1..];
    assert Arranged(s, b[..j] + b[j + 1..]) == r[..j] + r[j + 1..];
  }

  lemma ChosenIsPicked(s: seq<Entry>, key: Entry -> real, rows: seq<Row>, n: nat)
    requires IsColumn(s, key, rows) && n < |rows| && Chosen(rows, n)
    ensures Picked(Arranged(s, rows), key, n)
  {
    var r := Arranged(s, rows);
    assert forall i :: 0 <= i < |rows| ==> key(r[i]) == rows[i].0;
  }

  /** What a split makes of a bucket: `r` is its new order and `cut` the start of its upper part,
      or the bucket's length if it cannot be split. */
  ghost predicate Outcome(s: seq<Entry>, key: Entry -> real, r: seq<Entry>, cut: nat)
    requires |s| > 0
  {
    exists first: seq<Row> ::
      Selects(Column(s, key), first, |s| / 2) && IsColumn(s, key, first) && OutcomeAfter(s, key, first, r, cut)
  }

  /** The cut moves left, unless that leaves nothing; then the second selection follows. */
  ghost predicate OutcomeAfter(s: seq<Entry>, key: Entry -> real, first: seq<Row>, r: seq<Entry>, cut: nat)
    requires |s| > 0 && IsColumn(s, key, first)
  {
    var a, mid := Arranged(s, first), |s| / 2;
    var v := key(a[mid]);
    var left := LeftOfRun(a, key, v, mid);
    if left > 0 then r == a && cut == left
    else exists last: seq<Row> ::
      Selects(first, last, |s| - 1) && IsColumn(s, key, last) && r == Arranged(s, last) && cut == RightOfRun(r, key, v, mid)
  }

  /** The columns hold the bucket in the order `r`. */
  ghost predicate Holds(s: seq<Entry>, key: Entry -> real, target: array<real>, mirror: array<nat>, r: seq<Entry>)
    reads target, mirror
  {
    && target.Length == mirror.Length == |s| == |r|
    && forall i :: 0 <= i < |r| ==> target[i] == key(r[i]) && mirror[i] < |s| && s[mirror[i]] == r[i]
  }

  /** Select on the split axis and take the positions along. */
  method SelectColumn(s: seq<Entry>, key: Entry -> real, target: array<real>, mirror: array<nat>, n: nat)
    returns (ghost r: seq<Entry>)
    requires target.Length == mirror.Length == |s| && n < |s|
    requires IsColumn(s, key, Rows(target, mirror))
    modifies target, mirror
    ensures target.Length == mirror.Length == |s| && IsColumn(s, key, Rows(target, mirror))
    ensures Selects(old(Rows(target, mirror)), Rows(target, mirror), n)
    ensures Holds(s, key, target, mirror, r) && r == Arranged(s, Rows(target, mirror))
  {
    Select(target, mirror, n);
    PermutedColumn(s, key, Rows(target, mirror));
    r := Arranged(s, Rows(target, mirror));
  }

  method CutLeft(target: array<real>, ghost r: seq<Entry>, ghost key: Entry -> real, mid: nat) returns (cut: nat)
    requires mid < target.Length == |r| && forall i :: 0 <= i < |r| ==> target[i] == key(r[i])
    ensures cut == LeftOfRun(r, key, key(r[mid]), mid)
  {
    cut := mid;
    while cut > 0 && target[cut - 1] == target[mid]
      invariant 0 <= cut <= mid
      invariant LeftOfRun(r, key, key(r[mid]), mid) == LeftOfRun(r, key, key(r[mid]), cut)
    {
      cut := cut - 1;
    }
  }

  method CutRight(target: array<real>, ghost r: seq<Entry>, ghost key: Entry -> real, mid: nat, v: real) returns (cut: nat)
    requires mid < target.Length == |r| && forall i :: 0 <= i < |r| ==> target[i] == key(r[i])
    ensures cut == RightOfRun(r, key, v, mid)
  {
    cut := mid;
    while cut < target.Length && target[cut] == v
      invariant mid <= cut <= |r|
      invariant RightOfRun(r, key, v, mid) == RightOfRun(r, key, v, cut)
    {
      cut := cut + 1;
    }
  }

  method NewColumn(s: seq<Entry>, key: Entry -> real) returns (target: array<real>, mirror: array<nat>)
    ensures fresh(target) && fresh(mirror) && target.Length == mirror.Length == |s|
    ensures Rows(target, mirror) == Column(s, key) && IsColumn(s, key, Rows(target, mirror))
  {
    target := new real[|s|](i requires 0 <= i < |s| => key(s[i]));
    mirror := new nat[|s|](i => i);
    assert Rows(target, mirror) == Column(s, key);
  }

  /** The entries at the mirrored positions. */
  method Rearrange(s: seq<Entry>, ghost key: Entry -> real, ghost target: array<real>, mirror: array<nat>, ghost r: seq<Entry>)
    returns (arranged: seq<Entry>)
    requires Holds(s, key, target, mirror, r)
    ensures arranged == r
  {
    arranged := [];
    for i := 0 to |s|
      invariant arranged == r[..i]
    {
      arranged := arranged + [s[mirror[i]]];
    }
  }

  /** `split_leaf` up to the copy into the new leaf. */
  method Split(s: seq<Entry>, key: Entry -> real) returns (r: seq<Entry>, cut: nat)
    requires |s| >= 2
    ensures Outcome(s, key, r, cut)
  {
    var mid := |s| / 2;
    var target, mirror := NewColumn(s, key);
    ghost var first := SelectColumn(s, key, target, mirror, mid);
    cut := CutLeft(target, first, key, mid);
    if cut > 0 {
      OutcomeLeft(s, key, Rows(target, mirror), first, cut);
      r := Rearrange(s, key, target, mirror, first);
    } else {
      r, cut := SplitRight(s, key, target, mirror, mid, first);
    }
  }

  /** The second selection, and the cut to the right. */
  method SplitRight(s: seq<Entry>, key: Entry -> real, target: array<real>, mirror: array<nat>, mid: nat, ghost first: seq<Entry>)
    returns (r: seq<Entry>, cut: nat)
    requires |s| >= 2 && mid == |s| / 2 && target.Length == mirror.Length == |s| && IsColumn(s, key, Rows(target, mirror))
    requires Selects(Column(s, key), Rows(target, mirror), mid) && first == Arranged(s, Rows(target, mirror))
    requires LeftOfRun(first, key, key(first[mid]), mid) == 0
    modifies target, mirror
    ensures Outcome(s, key, r, cut)
  {
    ghost var rows := Rows(target, mirror);
    var splitVal := target[mid];
    ghost var last := SelectColumn(s, key, target, mirror, |s| - 1);
    cut := CutRight(target, last, key, mid, splitVal);
    OutcomeRight(s, key, rows, Rows(target, mirror), first, last, splitVal, cut);
    r := Rearrange(s, key, target, mirror, last);
  }

  lemma OutcomeLeft(s: seq<Entry>, key: Entry -> real, rows: seq<Row>, first: seq<Entry>, cut: nat)
    requires s != [] && Selects(Column(s, key), rows, |s| / 2) && IsColumn(s, key, rows) && first == Arranged(s, rows)
    requires cut == LeftOfRun(first, key, key(first[|s| / 2]), |s| / 2) > 0
    ensures Outcome(s, key, first, cut)
  {
    assert OutcomeAfter(s, key, rows, first, cut);
  }

  lemma OutcomeRight(s: seq<Entry>, key: Entry -> real, rows: seq<Row>, rows2: seq<Row>, first: seq<Entry>, last: seq<Entry>,
                     v: real, cut: nat)
    requires s != [] && Selects(Column(s, key), rows, |s| / 2) && IsColumn(s, key, rows) && first == Arranged(s, rows)
    requires v == key(first[|s| / 2]) && LeftOfRun(first, key, v, |s| / 2) == 0
    requires Selects(rows, rows2, |s| - 1) && IsColumn(s, key, rows2) && last == Arranged(s, rows2)
    requires cut == RightOfRun(last, key, v, |s| / 2)
    ensures Outcome(s, key, last, cut)
  {
    assert OutcomeAfter(s, key, rows, last, cut);
  }

  /** Every bucket can be split in some way. */
  lemma SomeOutcome(s: seq<Entry>, key: Entry -> real) returns (r: seq<Entry>, cut: nat)
    requires s != []
    ensures Outcome(s, key, r, cut)
  {
    var mid := |s| / 2;
    var rows, first := SomeColumn(s, key, Column(s, key), mid);
    cut := LeftOfRun(first, key, key(first[mid]), mid);
    if cut > 0 {
      r := first;
      OutcomeLeft(s, key, rows, first, cut);
    } else {
      var rows2, last := SomeColumn(s, key, rows, |s| - 1);
      r, cut := last, RightOfRun(last, key, key(first[mid]), mid);
      OutcomeRight(s, key, rows, rows2, first, last, key(first[mid]), cut);
    }
  }

  lemma SomeColumn(s: seq<Entry>, key: Entry -> real, rows: seq<Row>, n: nat) returns (t: seq<Row>, r: seq<Entry>)
    requires multiset(rows) == multiset(Column(s, key)) && n < |s| == |rows|
    ensures Selects(rows, t, n) && IsColumn(s, key, t) && r == Arranged(s, t)
  {
    t := SomeSelection(rows, 0, |rows|, n, None);
    SelectionIsChosen(rows, t, n);
    PermutedColumn(s, key, t);
    r := Arranged(s, t);
  }

  lemma FirstPass(s: seq<Entry>, key: Entry -> real, r: seq<Entry>, cut: nat) returns (rows: seq<Row>)
    requires s != [] && Outcome(s, key, r, cut)
    ensures Selects(Column(s, key), rows, |s| / 2) && IsColumn(s, key, rows) && OutcomeAfter(s, key, rows, r, cut)
  {
    rows :| Selects(Column(s, key), rows, |s| / 2) && IsColumn(s, key, rows) && OutcomeAfter(s, key, rows, r, cut);
  }

  lemma SecondPass(s: seq<Entry>, key: Entry -> real, rows: seq<Row>, r: seq<Entry>, cut: nat, v: real) returns (last: seq<Row>)
    requires s != [] && IsColumn(s, key, rows) && OutcomeAfter(s, key, rows, r, cut)
    requires v == key(Arranged(s, rows)[|s| / 2]) && LeftOfRun(Arranged(s, rows), key, v, |s| / 2) == 0
    ensures Selects(rows, last, |rows| - 1) && IsColumn(s, key, last) && r == Arranged(s, last) && cut == RightOfRun(r, key, v, |s| / 2)
  {
    last :| Selects(rows, last, |s| - 1) && IsColumn(s, key, last) && r == Arranged(s, last) && cut == RightOfRun(r, key, v, |s| / 2);
  }

  /** A selection keeps the column, and leaves what its contract says. */
  lemma SelectedColumn(s: seq<Entry>, key: Entry -> real, rows: seq<Row>, t: seq<Row>, n: nat)
    requires multiset(rows) == multiset(Column(s, key)) && Selects(rows, t, n) && n < |s| == |rows|
    ensures multiset(t) == multiset(Column(s, key)) && IsColumn(s, key, t)
    ensures Permuted(Arranged(s, t), s) && Picked(Arranged(s, t), key, n)
  {
    SelectionIsChosen(rows, t, n);
    PermutedColumn(s, key, t);
    ChosenIsPicked(s, key, t, n);
  }

  lemma OutcomeIsAllowed(s: seq<Entry>, key: Entry -> real, r: seq<Entry>, cut: nat) returns (first: seq<Entry>)
    requires |s| >= 2 && Outcome(s, key, r, cut)
    ensures Permuted(first, s) && Picked(first, key, |s| / 2) && AllowedAfter(first, key, r, cut)
  {
    var rows := FirstPass(s, key, r, cut);
    SelectedColumn(s, key, Column(s, key), rows, |s| / 2);
    first := Arranged(s, rows);
    AfterIsAllowed(s, key, rows, first, r, cut);
  }

  lemma AfterIsAllowed(s: seq<Entry>, key: Entry -> real, rows: seq<Row>, first: seq<Entry>, r: seq<Entry>, cut: nat)
    requires |s| >= 2 && multiset(rows) == multiset(Column(s, key)) && IsColumn(s, key, rows) && first == Arranged(s, rows)
    requires Permuted(first, s) && OutcomeAfter(s, key, rows, r, cut)
    ensures AllowedAfter(first, key, r, cut)
  {
    var v := key(first[|s| / 2]);
    if LeftOfRun(first, key, v, |s| / 2) == 0 {
      RightIsAllowed(s, key, rows, r, cut, v);
    }
  }

  lemma RightIsAllowed(s: seq<Entry>, key: Entry -> real, rows: seq<Row>, r: seq<Entry>, cut: nat, v: real)
    requires |s| >= 2 && multiset(rows) == multiset(Column(s, key)) && IsColumn(s, key, rows) && OutcomeAfter(s, key, rows, r, cut)
    requires v == key(Arranged(s, rows)[|s| / 2]) && LeftOfRun(Arranged(s, rows), key, v, |s| / 2) == 0
    ensures Permuted(r, s) && Picked(r, key, |r| - 1) && cut == RightOfRun(r, key, v, |s| / 2)
  {
    var last := SecondPass(s, key, rows, r, cut, v);
    LastIsPicked(s, key, rows, last, r);
  }

  lemma LastIsPicked(s: seq<Entry>, key: Entry -> real, rows: seq<Row>, last: seq<Row>, r: seq<Entry>)
    requires s != [] && multiset(rows) == multiset(Column(s, key)) && IsColumn(s, key, rows) && Selects(rows, last, |rows| - 1)
    requires IsColumn(s, key, last) && r == Arranged(s, last)
    ensures Permuted(r, s) && Picked(r, key, |r| - 1)
  {
    SelectedColumn(s, key, rows, last, |rows| - 1);
  }

  /** A split permutes the bucket, leaves both parts non-empty, and fails exactly when every
      entry has the same value on the axis. */
  lemma OutcomeIsProper(s: seq<Entry>, key: Entry -> real, r: seq<Entry>, cut: nat)
    requires |s| >= 2 && Outcome(s, key, r, cut)
    ensures Permuted(r, s) && 0 < cut <= |s|
    ensures cut == |s| <==> AllEqual(s, key)
  {
    var first := OutcomeIsAllowed(s, key, r, cut);
    AllowedIsProper(s, key, first, r, cut);
  }

  lemma AllowedIsProper(s: seq<Entry>, key: Entry -> real, first: seq<Entry>, r: seq<Entry>, cut: nat)
    requires |s| >= 2 && Permuted(first, s) && Picked(first, key, |s| / 2) && AllowedAfter(first, key, r, cut)
    ensures Permuted(r, s) && 0 < cut <= |s|
    ensures cut == |s| <==> AllEqual(s, key)
  {
    var mid, n := |s| / 2, |s|;
    var v := key(first[mid]);
    SameElements(first, s);
    SameElements(r, s);
    if LeftOfRun(first, key, v, mid) > 0 {
      assert first[cut - 1] in s && first[mid] in s;
    } else if cut == n {
      assert key(r[n - 1]) == v;
      forall x | x in s ensures key(x) == v {
        var i :| 0 <= i < n && first[i] == x;
        var j :| 0 <= j < n && r[j] == x;
        assert key(x) <= key(r[n - 1]);
      }
    } else {
      assert r[cut] in s && first[mid] in s;
    }
  }

  /** In sorted order the lowest value reaches the middle of the bucket, and some entry lies
      strictly between the lowest and the highest value. */
  ghost predicate LowRunWithRest(s: seq<Entry>, key: Entry -> real)
    requires |s| >= 2
  {
    var t := Sort(s, key);
    key(t[|s| / 2]) == key(t[0]) && exists i :: 0 <= i < |t| && key(t[0]) < key(t[i]) < key(t[|t| - 1])
  }

  /** Without such a run, the split is strict: the values in the upper part are above those in
      the lower. */
  lemma StrictWithoutLowRun(s: seq<Entry>, key: Entry -> real, r: seq<Entry>, cut: nat)
    requires |s| >= 2 && Outcome(s, key, r, cut) && cut < |s| && !LowRunWithRest(s, key)
    ensures |r| == |s| && Apart(r, key, cut)
  {
    var first := OutcomeIsAllowed(s, key, r, cut);
    AllowedIsStrict(s, key, first, r, cut);
  }

  lemma AllowedIsStrict(s: seq<Entry>, key: Entry -> real, first: seq<Entry>, r: seq<Entry>, cut: nat)
    requires |s| >= 2 && Permuted(first, s) && Picked(first, key, |s| / 2) && AllowedAfter(first, key, r, cut)
    requires cut < |s| && !LowRunWithRest(s, key)
    ensures |r| == |s| && Apart(r, key, cut)
  {
    var mid := |s| / 2;
    var v := key(first[mid]);
    if LeftOfRun(first, key, v, mid) > 0 {
      LeftCutIsStrict(first, key, mid, cut);
    } else {
      TwoValues(s, key, first, r, v);
      RightCutIsStrict(first, r, key, mid, v, cut);
    }
  }

  /** The values equal to the selected one lie next to it, so none is left of the run. */
  lemma LeftCutIsStrict(first: seq<Entry>, key: Entry -> real, mid: nat, cut: nat)
    requires mid < |first| && Picked(first, key, mid) && cut == LeftOfRun(first, key, key(first[mid]), mid) > 0
    ensures Apart(first, key, cut)
  {
    forall i | 0 <= i < cut ensures key(first[i]) < key(first[mid]) {
      assert i <= cut - 1 <= mid;
    }
  }

  lemma LowestOf(t: seq<Entry>, key: Entry -> real, first: seq<Entry>, mid: nat, v: real)
    requires mid < |t| && Permuted(first, t) && Sorted(t, key) && Selected(first, key, mid)
    requires forall i :: 0 <= i <= mid ==> key(first[i]) == v
    ensures key(t[0]) == key(t[mid]) == v
    ensures forall x :: x in t ==> key(x) >= v
  {
    SameElements(first, t);
    SortedRank(first, t, key, mid, v);
    forall x | x in t ensures key(x) >= v {
      var i :| 0 <= i < |first| && first[i] == x;
    }
  }

  lemma HighestOf(t: seq<Entry>, key: Entry -> real, r: seq<Entry>)
    requires t != [] && Permuted(r, t) && Sorted(t, key) && Selected(r, key, |r| - 1)
    ensures key(t[|t| - 1]) == key(r[|r| - 1])
  {
    SameElements(r, t);
    var i :| 0 <= i < |t| && t[i] == r[|r| - 1];
    var j :| 0 <= j < |r| && r[j] == t[|t| - 1];
  }

  /** The second selection is reached only when the lowest run reaches the middle; the buckets
      of the safe kind then hold just two values. */
  lemma TwoValues(s: seq<Entry>, key: Entry -> real, first: seq<Entry>, r: seq<Entry>, v: real)
    requires |s| >= 2 && Permuted(first, s) && Permuted(r, first) && !LowRunWithRest(s, key)
    requires Selected(first, key, |s| / 2) && forall i :: 0 <= i <= |s| / 2 ==> key(first[i]) == v
    requires Selected(r, key, |s| - 1)
    ensures forall i :: 0 <= i < |s| ==> key(r[i]) >= v && (key(r[i]) == v || key(r[i]) == key(r[|s| - 1]))
  {
    var t := OnlyTwoValues(s, key);
    LowestOf(t, key, first, |s| / 2, v);
    HighestOf(t, key, r);
    SameElements(r, t);
  }

  lemma OnlyTwoValues(s: seq<Entry>, key: Entry -> real) returns (t: seq<Entry>)
    requires |s| >= 2 && !LowRunWithRest(s, key)
    ensures Permuted(t, s) && Sorted(t, key)
    ensures key(t[|t| / 2]) == key(t[0]) ==> forall x :: x in t ==> key(x) == key(t[0]) || key(x) == key(t[|t| - 1])
  {
    t := Sort(s, key);
    SortSorts(s, key);
    forall x | x in t ensures key(t[0]) <= key(x) <= key(t[|t| - 1]) {
      var j :| 0 <= j < |t| && t[j] == x;
    }
  }

  /** With two values and the higher ones last, the lower ones come first. */
  lemma RightCutIsStrict(first: seq<Entry>, r: seq<Entry>, key: Entry -> real, mid: nat, v: real, cut: nat)
    requires Permuted(r, first) && mid < |r| && Picked(r, key, |r| - 1) && cut == RightOfRun(r, key, v, mid) < |r|
    requires forall i :: 0 <= i <= mid ==> key(first[i]) == v
    requires forall i :: 0 <= i < |r| ==> key(r[i]) >= v && (key(r[i]) == v || key(r[i]) == key(r[|r| - 1]))
    ensures Apart(r, key, cut)
  {
    var j := LowInUpperHalf(first, r, key, mid, v);
    assert key(r[j]) == v && key(r[cut]) == key(r[|r| - 1]) > v;
    assert key(r[mid]) == v;
    forall i | 0 <= i < cut ensures key(r[i]) == v {
      assert key(r[if i <= mid then mid else i]) == v;
    }
  }

  /** `mid + 1` entries at `v` do not fit before `mid`. */
  lemma LowInUpperHalf(first: seq<Entry>, r: seq<Entry>, key: Entry -> real, mid: nat, v: real) returns (j: nat)
    requires Permuted(r, first) && mid < |r|
    requires forall i :: 0 <= i <= mid ==> key(first[i]) == v
    ensures mid <= j < |r| && key(r[j]) <= v
  {
    var low, high := first[..mid + 1], r[mid..];
    assert first == low + first[mid + 1..] && r == r[..mid] + high;
    var x := SomeAtMost(multiset(low), multiset(high), multiset(first), key, v);
    var d :| 0 <= d < |high| && high[d] == x;
    j := mid + d;
  }

  lemma SomeAtMost(low: multiset<Entry>, high: multiset<Entry>, all: multiset<Entry>, key: Entry -> real, v: real)
    returns (x: Entry)
    requires low <= all && high <= all && |low| + |high| > |all| && forall e :: e in low ==> key(e) <= v
    ensures x in high && key(x) <= v
  {
    if forall e :: e in high ==> key(e) > v {
      DisjointCounts(low, high, all, key, v);
    }
    x :| x in high && key(x) <= v;
  }
}

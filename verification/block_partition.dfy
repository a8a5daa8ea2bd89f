/** The inner partition of the mirrored selection, block by block
    (src/mirror_select_nth_unstable_by.rs, `mirror_partition_in_blocks`).

    Values on the wrong side are collected as offsets, block by block from both ends, and moved
    across in one cycle. The offset buffers are the sequences of what is still pending. */
module BlockPartition {
  import opened MirroredRows

  const BLOCK := 128

  ghost predicate Increasing(pending: seq<nat>) {
    forall i, j :: 0 <= i < j < |pending| ==> pending[i] < pending[j]
  }

  ghost function Offsets(pending: seq<nat>): set<nat> {
    set x | x in pending
  }

  /** What is left after the offset at `k`. */
  lemma OffsetsFrom(pending: seq<nat>, k: nat)
    requires Increasing(pending) && k < |pending|
    ensures pending[k] in Offsets(pending[k..]) && Offsets(pending[k + 1..]) == Offsets(pending[k..]) - {pending[k]}
    ensures k == 0 ==> pending[k..] == pending
  {
    assert pending[k..] == [pending[k]] + pending[k + 1..];
  }

  /** In the block that starts at `l`, the pending offsets are those of the values not below `v`. */
  ghost predicate PendingLeft(s: seq<Row>, l: nat, block: nat, pending: set<nat>, v: real) {
    && l + block <= |s| && (forall d :: d in pending ==> d < block)
    && forall j :: l <= j < l + block ==> (s[j].0 >= v <==> j - l in pending)
  }

  /** In the block that ends before `r`, the pending offsets, counted from its end, are those of
      the values below `v`. */
  ghost predicate PendingRight(s: seq<Row>, r: nat, block: nat, pending: set<nat>, v: real) {
    && block <= r <= |s| && (forall d :: d in pending ==> d < block)
    && forall j :: r - block <= j < r ==> (s[j].0 < v <==> r - 1 - j in pending)
  }

  method TraceLeft(target: array<real>, mirror: array<nat>, l: nat, block: nat, v: real) returns (pending: seq<nat>)
    requires target.Length == mirror.Length && l + block <= target.Length
    ensures Increasing(pending) && PendingLeft(Rows(target, mirror), l, block, Offsets(pending), v)
  {
    pending := [];
    for i := 0 to block
      invariant Increasing(pending) && PendingLeft(Rows(target, mirror), l, i, Offsets(pending), v)
      invariant forall k :: 0 <= k < |pending| ==> pending[k] < i
    {
      if target[l + i] >= v {
        pending := pending + [i];
      }
    }
  }

  method TraceRight(target: array<real>, mirror: array<nat>, r: nat, block: nat, v: real) returns (pending: seq<nat>)
    requires target.Length == mirror.Length && block <= r <= target.Length
    ensures Increasing(pending) && PendingRight(Rows(target, mirror), r, block, Offsets(pending), v)
  {
    pending := [];
    for i := 0 to block
      invariant Increasing(pending) && PendingRight(Rows(target, mirror), r, i, Offsets(pending), v)
      invariant forall k :: 0 <= k < |pending| ==> pending[k] < i
    {
      if target[r - 1 - i] < v {
        pending := pending + [i];
      }
    }
  }

  // ---------------------------------------------------------------- moving values across

  /** Two blocks that do not overlap, in a range that is permuted, and what is pending in them. */
  ghost predicate Cycling(was: seq<Row>, s: seq<Row>, lo: nat, hi: nat, l: nat, bl: nat, pl: set<nat>, r: nat, br: nat,
                          pr: set<nat>, v: real)
  {
    && lo <= l && l + bl + br <= r <= hi && PermutedWithin(was, s, lo, hi)
    && PendingLeft(s, l, bl, pl, v) && PendingRight(s, r, br, pr, v)
  }

  /** The same as one fact about the rows, which a loop keeps. */
  ghost predicate StaysCycling(was: seq<Row>, s: seq<Row>, lo: nat, hi: nat, l: nat, bl: nat, pl: set<nat>, r: nat, br: nat,
                               pr: set<nat>, v: real)
  {
    forall u: seq<Row> :: u == s ==> Cycling(was, u, lo, hi, l, bl, pl, r, br, pr, v)
  }

  /** A pair of values on the wrong sides is exchanged. */
  lemma PairSettled(was: seq<Row>, s: seq<Row>, lo: nat, hi: nat, l: nat, bl: nat, pl: set<nat>, r: nat, br: nat, pr: set<nat>,
                    v: real, x: nat, y: nat, pl2: set<nat>, pr2: set<nat>)
    returns (t: seq<Row>)
    requires Cycling(was, s, lo, hi, l, bl, pl, r, br, pr, v) && x in pl && y in pr && pl2 == pl - {x} && pr2 == pr - {y}
    ensures l + x < r - br <= r - 1 - y < r && t == Exchanged(s, l + x, r - 1 - y) && t[r - 1 - y].0 >= v
    ensures StaysCycling(was, t, lo, hi, l, bl, pl2, r, br, pr2, v)
  {
    t := Exchanged(s, l + x, r - 1 - y);
    ExchangeMore(was, s, t, l + x, r - 1 - y, lo, hi);
    PairIsNotPending(s, t, l, bl, pl, r, br, pr, v, x, y);
  }

  lemma PairIsNotPending(s: seq<Row>, t: seq<Row>, l: nat, bl: nat, pl: set<nat>, r: nat, br: nat, pr: set<nat>, v: real, x: nat, y: nat)
    requires PendingLeft(s, l, bl, pl, v) && PendingRight(s, r, br, pr, v) && l + bl + br <= r && x in pl && y in pr
    requires t == Exchanged(s, l + x, r - 1 - y)
    ensures PendingLeft(t, l, bl, pl - {x}, v) && PendingRight(t, r, br, pr - {y}, v) && t[r - 1 - y].0 >= v
  {
    assert s[l + x].0 >= v && s[r - 1 - y].0 < v;
  }

  /** The left row goes to the gap, the right one to its place, and the gap moves there. */
  ghost predicate Cycled(s: seq<Row>, t: seq<Row>, gap: nat, left: nat, right: nat) {
    && |t| == |s| && gap < |s| && left < |s| && right < |s| && gap != left && gap != right && left != right
    && t[gap] == s[left] && t[left] == s[right] && t[right] == s[gap]
    && forall i :: 0 <= i < |s| && i != gap && i != left && i != right ==> t[i] == s[i]
  }

  /** The next pair of the cycle; the gap is in the right block, for a row not below `v`. */
  lemma NextInCycle(was: seq<Row>, s: seq<Row>, t: seq<Row>, lo: nat, hi: nat, l: nat, bl: nat, pl: set<nat>, r: nat, br: nat,
                    pr: set<nat>, v: real, x: nat, y: nat, gap: nat, pl2: set<nat>, pr2: set<nat>)
    requires Cycling(was, s, lo, hi, l, bl, pl, r, br, pr, v) && x in pl && y in pr && pl2 == pl - {x} && pr2 == pr - {y}
    requires r - br <= gap < r && s[gap].0 >= v && Cycled(s, t, gap, l + x, r - 1 - y)
    ensures t[r - 1 - y].0 >= v && StaysCycling(was, t, lo, hi, l, bl, pl2, r, br, pr2, v)
  {
    CycledIsNotPending(s, t, l, bl, pl, r, br, pr, v, x, y, gap);
    CycledPermutes(was, s, t, lo, hi, gap, l + x, r - 1 - y);
  }

  lemma CycledPermutes(was: seq<Row>, s: seq<Row>, t: seq<Row>, lo: nat, hi: nat, gap: nat, left: nat, right: nat)
    requires PermutedWithin(was, s, lo, hi) && lo <= gap < hi && lo <= left < hi && lo <= right < hi
    requires Cycled(s, t, gap, left, right)
    ensures PermutedWithin(was, t, lo, hi)
  {
    var u := Exchanged(s, left, gap);
    assert t == Exchanged(u, left, right);
    ExchangeMore(was, s, u, left, gap, lo, hi);
    ExchangeMore(was, u, t, left, right, lo, hi);
  }

  lemma CycledIsNotPending(s: seq<Row>, t: seq<Row>, l: nat, bl: nat, pl: set<nat>, r: nat, br: nat, pr: set<nat>, v: real, x: nat,
                           y: nat, gap: nat)
    requires PendingLeft(s, l, bl, pl, v) && PendingRight(s, r, br, pr, v) && l + bl + br <= r && x in pl && y in pr
    requires r - br <= gap < r && s[gap].0 >= v && Cycled(s, t, gap, l + x, r - 1 - y)
    ensures t[r - 1 - y].0 >= v
    ensures PendingLeft(t, l, bl, pl - {x}, v) && PendingRight(t, r, br, pr - {y}, v)
  {
    assert s[l + x].0 >= v && s[r - 1 - y].0 < v;
  }

  /** The rows, with a held one put into the gap. */
  ghost predicate Filled(rows: seq<Row>, whole: seq<Row>, gap: nat, held: Row) {
    && |whole| == |rows| && gap < |rows| && whole[gap] == held
    && forall i :: 0 <= i < |rows| && i != gap ==> whole[i] == rows[i]
  }

  method Copy(target: array<real>, mirror: array<nat>, from: nat, to: nat)
    requires target.Length == mirror.Length && from < target.Length && to < target.Length
    modifies target, mirror
    ensures Rows(target, mirror) == old(Rows(target, mirror))[to := old(Rows(target, mirror))[from]]
  {
    target[to] := target[from];
    mirror[to] := mirror[from];
  }

  method Put(target: array<real>, mirror: array<nat>, row: Row, to: nat, ghost whole: seq<Row>)
    requires target.Length == mirror.Length && to < target.Length && Filled(Rows(target, mirror), whole, to, row)
    modifies target, mirror
    ensures Rows(target, mirror) == whole
  {
    target[to] := row.0;
    mirror[to] := row.1;
  }

  /** Take the left row out and move the right one to its place. */
  method Hold(target: array<real>, mirror: array<nat>, left: nat, right: nat, ghost whole: seq<Row>) returns (held: Row)
    requires target.Length == mirror.Length && left < target.Length && right < target.Length
    requires whole == Exchanged(Rows(target, mirror), left, right)
    modifies target, mirror
    ensures Filled(Rows(target, mirror), whole, right, held)
  {
    held := (target[left], mirror[left]);
    Copy(target, mirror, right, left);
  }

  /** Two moves, after which the gap is elsewhere. */
  method CycleStep(target: array<real>, mirror: array<nat>, gap: nat, left: nat, right: nat, ghost held: Row, ghost whole: seq<Row>)
    returns (ghost next: seq<Row>)
    requires target.Length == mirror.Length && gap < target.Length && left < target.Length && right < target.Length
    requires left != gap && gap != right && left != right && Filled(Rows(target, mirror), whole, gap, held)
    modifies target, mirror
    ensures Cycled(whole, next, gap, left, right) && Filled(Rows(target, mirror), next, right, held)
  {
    next := whole[gap := whole[left]][left := whole[right]][right := whole[gap]];
    Copy(target, mirror, left, gap);
    Copy(target, mirror, right, left);
  }

  /** Between two pairs of the cycle: the gap in the right block stands for a row not below `v`. */
  ghost predicate InCycle(was: seq<Row>, rows: seq<Row>, whole: seq<Row>, lo: nat, hi: nat, l: nat, bl: nat, pl: set<nat>, r: nat,
                          br: nat, pr: set<nat>, v: real, gap: nat, held: Row)
  {
    && r - br <= gap < r && Filled(rows, whole, gap, held) && whole[gap].0 >= v
    && StaysCycling(was, whole, lo, hi, l, bl, pl, r, br, pr, v)
  }

  method FirstPair(target: array<real>, mirror: array<nat>, ghost lo: nat, ghost hi: nat, l: nat, ghost bl: nat, ghost pl: set<nat>,
                   r: nat, ghost br: nat, ghost pr: set<nat>, ghost v: real, ghost was: seq<Row>, x: nat, y: nat,
                   ghost pl2: set<nat>, ghost pr2: set<nat>)
    returns (held: Row, ghost whole: seq<Row>)
    requires target.Length == mirror.Length && x in pl && y in pr && pl2 == pl - {x} && pr2 == pr - {y}
    requires Cycling(was, Rows(target, mirror), lo, hi, l, bl, pl, r, br, pr, v)
    modifies target, mirror
    ensures y < r && InCycle(was, Rows(target, mirror), whole, lo, hi, l, bl, pl2, r, br, pr2, v, r - 1 - y, held)
  {
    whole := PairSettled(was, Rows(target, mirror), lo, hi, l, bl, pl, r, br, pr, v, x, y, pl2, pr2);
    held := Hold(target, mirror, l + x, r - 1 - y, whole);
  }

  method NextPair(target: array<real>, mirror: array<nat>, ghost lo: nat, ghost hi: nat, l: nat, ghost bl: nat, ghost pl: set<nat>,
                  r: nat, ghost br: nat, ghost pr: set<nat>, ghost v: real, ghost was: seq<Row>, x: nat, y: nat, gap: nat,
                  ghost held: Row, ghost whole: seq<Row>, ghost pl2: set<nat>, ghost pr2: set<nat>)
    returns (ghost next: seq<Row>)
    requires target.Length == mirror.Length && x in pl && y in pr && pl2 == pl - {x} && pr2 == pr - {y}
    requires InCycle(was, Rows(target, mirror), whole, lo, hi, l, bl, pl, r, br, pr, v, gap, held)
    modifies target, mirror
    ensures y < r && InCycle(was, Rows(target, mirror), next, lo, hi, l, bl, pl2, r, br, pr2, v, r - 1 - y, held)
  {
    assert Cycling(was, whole, lo, hi, l, bl, pl, r, br, pr, v);
    assert whole[r - 1 - y].0 < v;
    next := CycleStep(target, mirror, gap, l + x, r - 1 - y, held, whole);
    NextInCycle(was, whole, next, lo, hi, l, bl, pl, r, br, pr, v, x, y, gap, pl2, pr2);
  }

  /** What is pending before each offset of a buffer. */
  ghost predicate Peels(pending: seq<nat>, sets: seq<set<nat>>) {
    && |sets| == |pending| + 1
    && forall k {:trigger pending[k]} :: 0 <= k < |pending| ==>
         pending[k] in sets[k] && sets[k + 1] == sets[k] - {pending[k]}
  }

  lemma OffsetsPeel(pending: seq<nat>) returns (sets: seq<set<nat>>)
    requires Increasing(pending)
    ensures Peels(pending, sets) && sets[0] == Offsets(pending)
    ensures forall k :: 0 <= k <= |pending| ==> sets[k] == Offsets(pending[k..])
  {
    sets := seq(|pending| + 1, k requires 0 <= k <= |pending| => Offsets(pending[k..]));
    assert pending[0..] == pending;
    forall k | 0 <= k < |pending| ensures pending[k] in sets[k] && sets[k + 1] == sets[k] - {pending[k]} {
      OffsetsFrom(pending, k);
    }
  }

  /** As many pairs as both blocks have are moved in one cycle through a held row. */
  method Cycle(target: array<real>, mirror: array<nat>, ghost lo: nat, ghost hi: nat, l: nat, ghost bl: nat, pl: seq<nat>,
               ghost lefts: seq<set<nat>>, r: nat, ghost br: nat, pr: seq<nat>, ghost rights: seq<set<nat>>, ghost v: real,
               count: nat, ghost was: seq<Row>)
    requires target.Length == mirror.Length && 0 < count <= |pl| && count <= |pr| && Peels(pl, lefts) && Peels(pr, rights)
    requires Cycling(was, Rows(target, mirror), lo, hi, l, bl, lefts[0], r, br, rights[0], v)
    modifies target, mirror
    ensures Cycling(was, Rows(target, mirror), lo, hi, l, bl, lefts[count], r, br, rights[count], v)
  {
    var gap := r - 1 - pr[0];
    var held, whole := FirstPair(target, mirror, lo, hi, l, bl, lefts[0], r, br, rights[0], v, was, pl[0], pr[0],
                                 lefts[1], rights[1]);
    for k := 1 to count
      invariant gap >= 0 && InCycle(was, Rows(target, mirror), whole, lo, hi, l, bl, lefts[k], r, br, rights[k], v, gap, held)
    {
      whole := NextPair(target, mirror, lo, hi, l, bl, lefts[k], r, br, rights[k], v, was, pl[k], pr[k], gap, held, whole,
                        lefts[k + 1], rights[k + 1]);
      gap := r - 1 - pr[k];
    }
    Put(target, mirror, held, gap, whole);
  }

  // ---------------------------------------------------------------- block by block

  /** Below `v` up to `l`, and not below from `r` on. */
  ghost predicate Outside(s: seq<Row>, lo: nat, l: nat, r: nat, hi: nat, v: real) {
    l <= r && Parted(s, lo, l, l, v) && Parted(s, r, r, hi, v)
  }

  /** The state of the loops: what is not settled yet lies between `l` and `r`, and at most one
      block, of `block` values, has offsets left. */
  ghost predicate Between(was: seq<Row>, s: seq<Row>, lo: nat, hi: nat, l: nat, r: nat, block: nat, pl: seq<nat>, pr: seq<nat>,
                          v: real)
  {
    && PermutedWithin(was, s, lo, hi) && Outside(s, lo, l, r, hi, v) && l + block <= r
    && Increasing(pl) && Increasing(pr) && (pl == [] || pr == [])
    && (pl != [] ==> PendingLeft(s, l, block, Offsets(pl), v)) && (pr != [] ==> PendingRight(s, r, block, Offsets(pr), v))
  }

  /** The sizes of the next two blocks: whole ones, until the rest is divided between them. They
      never overlap nor exceed the buffers. */
  function Blocks(width: nat, pl: seq<nat>, pr: seq<nat>): (sizes: (nat, nat))
    requires (pl != [] || pr != []) ==> width >= BLOCK
    ensures sizes.0 <= BLOCK && sizes.1 <= BLOCK
    ensures sizes.0 + sizes.1 <= width && (width <= 2 * BLOCK ==> sizes.0 + sizes.1 == width)
    ensures (pl != [] && pr == [] ==> sizes.0 == BLOCK) && (pl == [] && pr != [] ==> sizes.1 == BLOCK)
    ensures width > 2 * BLOCK ==> sizes == (BLOCK, BLOCK)
  {
    if width > 2 * BLOCK then (BLOCK, BLOCK)
    else if pl != [] then (BLOCK, width - BLOCK)
    else if pr != [] then (width - BLOCK, BLOCK)
    else (width / 2, width - width / 2)
  }

  /** Both blocks traced where nothing is left, and as much as possible moved across. */
  method Exchange(target: array<real>, mirror: array<nat>, l: nat, r: nat, bl: nat, br: nat, pl: seq<nat>, pr: seq<nat>, v: real)
    returns (pl2: seq<nat>, pr2: seq<nat>)
    requires target.Length == mirror.Length && l + bl + br <= r <= target.Length && Increasing(pl) && Increasing(pr)
    requires pl != [] ==> PendingLeft(Rows(target, mirror), l, bl, Offsets(pl), v)
    requires pr != [] ==> PendingRight(Rows(target, mirror), r, br, Offsets(pr), v)
    modifies target, mirror
    ensures Increasing(pl2) && Increasing(pr2) && (pl2 == [] || pr2 == [])
    ensures Cycling(old(Rows(target, mirror)), Rows(target, mirror), l, r, l, bl, Offsets(pl2), r, br, Offsets(pr2), v)
  {
    pl2, pr2 := pl, pr;
    if pl2 == [] {
      pl2 := TraceLeft(target, mirror, l, bl, v);
    }
    if pr2 == [] {
      pr2 := TraceRight(target, mirror, r, br, v);
    }
    var count := if |pl2| < |pr2| then |pl2| else |pr2|;
    if count > 0 {
      ghost var lefts := OffsetsPeel(pl2);
      ghost var rights := OffsetsPeel(pr2);
      Cycle(target, mirror, l, r, l, bl, pl2, lefts, r, br, pr2, rights, v, count, Rows(target, mirror));
      pl2, pr2 := pl2[count..], pr2[count..];
    }
  }

  /** A block without offsets left is settled. */
  lemma Advanced(was: seq<Row>, s: seq<Row>, t: seq<Row>, lo: nat, hi: nat, l: nat, r: nat, bl: nat, br: nat, pl: seq<nat>,
                 pr: seq<nat>, v: real, l2: nat, r2: nat)
    requires PermutedWithin(was, s, lo, hi) && Outside(s, lo, l, r, hi, v)
    requires Cycling(s, t, l, r, l, bl, Offsets(pl), r, br, Offsets(pr), v)
    requires l2 == (if pl == [] then l + bl else l) && r2 == if pr == [] then r - br else r
    ensures PermutedWithin(was, t, lo, hi) && Outside(t, lo, l2, r2, hi, v)
    ensures pl != [] ==> PendingLeft(t, l2, bl, Offsets(pl), v)
    ensures pr != [] ==> PendingRight(t, r2, br, Offsets(pr), v)
  {
    PermutedInside(s, t, l, r, lo, hi);
    PermutedTwice(was, s, t, lo, hi);
    forall i | lo <= i < l || r <= i < hi ensures t[i] == s[i] {
      KeptOutside(s, t, l, r, i);
    }
  }

  method Round(target: array<real>, mirror: array<nat>, ghost lo: nat, ghost hi: nat, l: nat, r: nat, pl: seq<nat>, pr: seq<nat>,
               v: real, ghost was: seq<Row>)
    returns (l2: nat, r2: nat, pl2: seq<nat>, pr2: seq<nat>)
    requires target.Length == mirror.Length && (pl != [] || pr != [] ==> r - l > BLOCK)
    requires Between(was, Rows(target, mirror), lo, hi, l, r, if pl == [] && pr == [] then 0 else BLOCK, pl, pr, v)
    modifies target, mirror
    ensures l2 <= r2
    ensures r - l <= 2 * BLOCK ==> Between(was, Rows(target, mirror), lo, hi, l2, r2, r2 - l2, pl2, pr2, v)
    ensures r - l <= 2 * BLOCK && pl2 == [] && pr2 == [] ==> l2 == r2
    ensures r - l > 2 * BLOCK ==>
              && Between(was, Rows(target, mirror), lo, hi, l2, r2, if pl2 == [] && pr2 == [] then 0 else BLOCK, pl2, pr2, v)
              && (pl2 != [] || pr2 != [] ==> r2 - l2 > BLOCK) && r2 - l2 < r - l
  {
    ghost var rows := Rows(target, mirror);
    var (bl, br) := Blocks(r - l, pl, pr);
    pl2, pr2 := Exchange(target, mirror, l, r, bl, br, pl, pr, v);
    l2 := if pl2 == [] then l + bl else l;
    r2 := if pr2 == [] then r - br else r;
    Advanced(was, rows, Rows(target, mirror), lo, hi, l, r, bl, br, pl2, pr2, v, l2, r2);
  }

  // ---------------------------------------------------------------- what remains in one block

  /** The rest is one block from the left, with these offsets. */
  ghost predicate LeftRemains(was: seq<Row>, s: seq<Row>, lo: nat, hi: nat, l: nat, r: nat, pending: set<nat>, v: real) {
    && l <= r && PermutedWithin(was, s, lo, hi) && Outside(s, lo, l, r, hi, v) && PendingLeft(s, l, r - l, pending, v)
  }

  ghost predicate RightRemains(was: seq<Row>, s: seq<Row>, lo: nat, hi: nat, l: nat, r: nat, pending: set<nat>, v: real) {
    && l <= r && PermutedWithin(was, s, lo, hi) && Outside(s, lo, l, r, hi, v) && PendingRight(s, r, r - l, pending, v)
  }

  ghost predicate Largest(pending: set<nat>, x: nat) {
    x in pending && forall d :: d in pending ==> d <= x
  }

  /** An exchange inside changes nothing outside. */
  lemma OutsideStays(s: seq<Row>, t: seq<Row>, lo: nat, l: nat, r: nat, hi: nat, v: real, i: nat, j: nat)
    requires Outside(s, lo, l, r, hi, v) && hi <= |s| && l <= i < r && l <= j < r && t == Exchanged(s, i, j)
    ensures Outside(t, lo, l, r, hi, v)
  {
  }

  /** The last offset: its value goes to the end of the block. */
  lemma LastShifted(was: seq<Row>, s: seq<Row>, t: seq<Row>, lo: nat, hi: nat, l: nat, r: nat, pending: set<nat>, v: real, x: nat)
    requires LeftRemains(was, s, lo, hi, l, r, pending, v) && Largest(pending, x) && t == Exchanged(s, l + x, r - 1)
    ensures LeftRemains(was, t, lo, hi, l, r - 1, pending - {x}, v)
  {
    ExchangeMore(was, s, t, l + x, r - 1, lo, hi);
    LastIsNotPending(s, t, l, r, pending, v, x);
  }

  lemma LastIsNotPending(s: seq<Row>, t: seq<Row>, l: nat, r: nat, pending: set<nat>, v: real, x: nat)
    requires l <= r && PendingLeft(s, l, r - l, pending, v) && Largest(pending, x) && t == Exchanged(s, l + x, r - 1)
    ensures l <= r - 1 && PendingLeft(t, l, r - 1 - l, pending - {x}, v) && t[r - 1].0 >= v
  {
    assert s[l + x].0 >= v;
  }

  lemma FirstShifted(was: seq<Row>, s: seq<Row>, t: seq<Row>, lo: nat, hi: nat, l: nat, r: nat, pending: set<nat>, v: real, x: nat)
    requires RightRemains(was, s, lo, hi, l, r, pending, v) && Largest(pending, x) && t == Exchanged(s, l, r - 1 - x)
    ensures RightRemains(was, t, lo, hi, l + 1, r, pending - {x}, v)
  {
    ExchangeMore(was, s, t, l, r - 1 - x, lo, hi);
    FirstIsNotPending(s, t, l, r, pending, v, x);
    OutsideStays(s, t, lo, l, r, hi, v, l, r - 1 - x);
  }

  lemma FirstIsNotPending(s: seq<Row>, t: seq<Row>, l: nat, r: nat, pending: set<nat>, v: real, x: nat)
    requires l <= r && PendingRight(s, r, r - l, pending, v) && Largest(pending, x) && t == Exchanged(s, l, r - 1 - x)
    ensures l + 1 <= r && PendingRight(t, r, r - (l + 1), pending - {x}, v) && t[l].0 < v
  {
    assert s[r - 1 - x].0 < v;
  }

  lemma LastOffset(pending: seq<nat>, n: nat)
    requires Increasing(pending) && n < |pending|
    ensures Largest(Offsets(pending[..n + 1]), pending[n])
    ensures Offsets(pending[..n]) == Offsets(pending[..n + 1]) - {pending[n]}
  {
    assert pending[..n + 1] == pending[..n] + [pending[n]];
  }

  /** The left block remains: its values that are not below `v` go to the far right. */
  method ShiftRight(target: array<real>, mirror: array<nat>, ghost lo: nat, ghost hi: nat, l: nat, r0: nat, pending: seq<nat>,
                    ghost v: real, ghost was: seq<Row>)
    returns (r: nat)
    requires target.Length == mirror.Length && Increasing(pending)
    requires LeftRemains(was, Rows(target, mirror), lo, hi, l, r0, Offsets(pending), v)
    modifies target, mirror
    ensures PermutedWithin(was, Rows(target, mirror), lo, hi) && Parted(Rows(target, mirror), lo, r, hi, v)
  {
    r := r0;
    var n := |pending|;
    assert pending[..n] == pending;
    while n > 0
      invariant n <= |pending| && LeftRemains(was, Rows(target, mirror), lo, hi, l, r, Offsets(pending[..n]), v)
    {
      n := n - 1;
      LastOffset(pending, n);
      ghost var before := Rows(target, mirror);
      Swap(target, mirror, l + pending[n], r - 1);
      LastShifted(was, before, Rows(target, mirror), lo, hi, l, r, Offsets(pending[..n + 1]), v, pending[n]);
      r := r - 1;
    }
  }

  /** The right block remains: its values below `v` go to the far left. */
  method ShiftLeft(target: array<real>, mirror: array<nat>, ghost lo: nat, ghost hi: nat, l0: nat, r: nat, pending: seq<nat>,
                   ghost v: real, ghost was: seq<Row>)
    returns (l: nat)
    requires target.Length == mirror.Length && Increasing(pending)
    requires RightRemains(was, Rows(target, mirror), lo, hi, l0, r, Offsets(pending), v)
    modifies target, mirror
    ensures PermutedWithin(was, Rows(target, mirror), lo, hi) && Parted(Rows(target, mirror), lo, l, hi, v)
  {
    l := l0;
    var n := |pending|;
    assert pending[..n] == pending;
    while n > 0
      invariant n <= |pending| && RightRemains(was, Rows(target, mirror), lo, hi, l, r, Offsets(pending[..n]), v)
    {
      n := n - 1;
      LastOffset(pending, n);
      ghost var before := Rows(target, mirror);
      Swap(target, mirror, l, r - 1 - pending[n]);
      FirstShifted(was, before, Rows(target, mirror), lo, hi, l, r, Offsets(pending[..n + 1]), v, pending[n]);
      l := l + 1;
    }
  }

  /** `mirror_partition_in_blocks` on the range from `lo` up to `hi`: its rows are permuted so
      that those below `v` come first; returns where the others start. */
  method PartitionInBlocks(target: array<real>, mirror: array<nat>, lo: nat, hi: nat, v: real) returns (mid: nat)
    requires target.Length == mirror.Length && lo <= hi <= target.Length
    modifies target, mirror
    ensures PermutedWithin(old(Rows(target, mirror)), Rows(target, mirror), lo, hi)
    ensures Parted(Rows(target, mirror), lo, mid, hi, v)
  {
    ghost var was := Rows(target, mirror);
    var l: nat, r: nat, pl: seq<nat>, pr: seq<nat> := lo, hi, [], [];
    while r - l > 2 * BLOCK
      invariant l <= r && (pl != [] || pr != [] ==> r - l > BLOCK)
      invariant Between(was, Rows(target, mirror), lo, hi, l, r, if pl == [] && pr == [] then 0 else BLOCK, pl, pr, v)
    {
      l, r, pl, pr := Round(target, mirror, lo, hi, l, r, pl, pr, v, was);
    }
    l, r, pl, pr := Round(target, mirror, lo, hi, l, r, pl, pr, v, was);
    if pl != [] {
      mid := ShiftRight(target, mirror, lo, hi, l, r, pl, v, was);
    } else if pr != [] {
      mid := ShiftLeft(target, mirror, lo, hi, l, r, pr, v, was);
    } else {
      mid := l;
    }
  }
}

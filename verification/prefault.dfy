/** Touching every page of a byte slice (benches/profile_v6_archived_huge_pages.rs,
    `prefault`). The slice starts at address `base`; page size is in bytes. */
module Prefault {
  import opened Division

  /** The page of the byte at `offset`. */
  function PageOf(base: nat, offset: nat, page: nat): nat
    requires page > 0
  {
    (base + offset) / page
  }

  /** The offsets read: one per page size from the front, and the last byte. */
  function Strides(from: nat, len: nat, page: nat): seq<nat>
    requires page > 0
    decreases if from < len then len - from else 0
  {
    if from >= len then [] else [from] + Strides(from + page, len, page)
  }

  function Touched(len: nat, page: nat): seq<nat>
    requires page > 0
  {
    Strides(0, len, page) + if len > 0 then [len - 1] else []
  }

  function Checksum(bytes: seq<bv8>, offsets: seq<nat>): bv8 {
    if offsets == [] then 0
    else if offsets[0] < |bytes| then bytes[offsets[0]] ^ Checksum(bytes, offsets[1..]) else 0
  }

  /** The addition that moves to the next page saturates at the largest `usize`. */
  function SaturatingAdd(x: nat, y: nat, max: nat): nat {
    if x + y > max then max else x + y
  }

  lemma {:induction false} ChecksumOfConcat(bytes: seq<bv8>, a: seq<nat>, b: seq<nat>)
    requires Inside(a, |bytes|)
    ensures Checksum(bytes, a + b) == Checksum(bytes, a) ^ Checksum(bytes, b)
  {
    if a == [] {
      assert a + b == b;
    } else {
      assert (a + b)[1..] == a[1..] + b;
      ChecksumOfConcat(bytes, a[1..], b);
    }
  }

  /** A byte slice. A volatile read cannot be left out, so which offsets were read is part of what
      a method does. */
  class Slice {
    const bytes: seq<bv8>
    ghost var offsetsRead: seq<nat>

    constructor (bytes: seq<bv8>)
      ensures this.bytes == bytes && offsetsRead == []
    {
      this.bytes, offsetsRead := bytes, [];
    }

    method ReadVolatile(offset: nat) returns (byte: bv8)
      requires offset < |bytes|
      modifies this
      ensures byte == bytes[offset] && offsetsRead == old(offsetsRead) + [offset]
    {
      byte := bytes[offset];
      offsetsRead := offsetsRead + [offset];
    }
  }

  ghost predicate Inside(offsets: seq<nat>, len: nat) {
    forall i :: 0 <= i < |offsets| ==> offsets[i] < len
  }

  /** One more byte into the checksum of those read since `start`. */
  method ReadInto(slice: Slice, checksum: bv8, offset: nat, ghost start: seq<nat>, ghost read: seq<nat>)
    returns (sum: bv8, ghost more: seq<nat>)
    requires offset < |slice.bytes| && Inside(read, |slice.bytes|)
    requires slice.offsetsRead == start + read && checksum == Checksum(slice.bytes, read)
    modifies slice
    ensures more == read + [offset] && Inside(more, |slice.bytes|)
    ensures slice.offsetsRead == start + more && sum == Checksum(slice.bytes, more)
  {
    var byte := slice.ReadVolatile(offset);
    sum, more := checksum ^ byte, read + [offset];
    assert start + read + [offset] == start + more;
    ChecksumOfConcat(slice.bytes, read, [offset]);
    assert [offset][1..] == [];
  }

  /** Exactly the touched offsets are read, in their order, and the checksum is theirs; the loop
      ends even where the addition saturates. */
  method Prefault(slice: Slice, page: nat, maxUsize: nat) returns (checksum: bv8)
    requires page > 0 && |slice.bytes| <= maxUsize
    modifies slice
    ensures slice.offsetsRead == old(slice.offsetsRead) + Touched(|slice.bytes|, page)
    ensures checksum == Checksum(slice.bytes, Touched(|slice.bytes|, page))
  {
    ghost var start, read := slice.offsetsRead, [];
    checksum := 0;
    var offset := 0;
    while offset < |slice.bytes|
      invariant slice.offsetsRead == start + read && Inside(read, |slice.bytes|)
      invariant read + Strides(offset, |slice.bytes|, page) == Strides(0, |slice.bytes|, page)
      invariant checksum == Checksum(slice.bytes, read)
      decreases |slice.bytes| - offset
    {
      StrideFollows(read, offset, |slice.bytes|, page, maxUsize);
      checksum, read := ReadInto(slice, checksum, offset, start, read);
      offset := SaturatingAdd(offset, page, maxUsize);
    }
    assert read == read + Strides(offset, |slice.bytes|, page);
    if slice.bytes != [] {
      checksum, read := ReadInto(slice, checksum, |slice.bytes| - 1, start, read);
    }
    assert read == Touched(|slice.bytes|, page);
  }

  lemma StrideFollows(read: seq<nat>, offset: nat, len: nat, page: nat, max: nat)
    requires page > 0 && offset < len <= max
    ensures read + Strides(offset, len, page) == read + [offset] + Strides(SaturatingAdd(offset, page, max), len, page)
  {
    var next := SaturatingAdd(offset, page, max);
    assert Strides(next, len, page) == Strides(offset + page, len, page);
    assert read + ([offset] + Strides(next, len, page)) == read + [offset] + Strides(next, len, page);
  }

  lemma {:induction false} StridesInSlice(from: nat, len: nat, page: nat)
    requires page > 0
    ensures forall i :: 0 <= i < |Strides(from, len, page)| ==> Strides(from, len, page)[i] < len
    decreases if from < len then len - from else 0
  {
    if from < len {
      StridesInSlice(from + page, len, page);
    }
  }

  // ---------------------------------------------------------------- coverage

  lemma {:induction false} StridesReach(from: nat, len: nat, page: nat, n: nat)
    requires page > 0 && from + page * n < len
    ensures from + page * n in Strides(from, len, page)
    decreases n
  {
    if n > 0 {
      NextStep(page, n - 1);
      StridesReach(from + page, len, page, n - 1);
    }
  }

  lemma NextStep(page: nat, steps: nat)
    ensures page * (steps + 1) == page * steps + page
  {
  }

  /** Some byte on the page of the byte at `x` is read. */
  ghost predicate PageTouched(offsets: seq<nat>, base: nat, x: nat, page: nat)
    requires page > 0
  {
    exists r :: r in offsets && PageOf(base, r, page) == PageOf(base, x, page)
  }

  /** Whatever the alignment, length and page size, every page that the slice overlaps is
      touched, and only bytes of the slice are read. */
  lemma EveryPageTouched(base: nat, len: nat, page: nat)
    requires page > 0
    ensures Inside(Touched(len, page), len)
    ensures forall x :: 0 <= x < len ==> PageTouched(Touched(len, page), base, x, page)
  {
    StridesInSlice(0, len, page);
    forall x | 0 <= x < len ensures PageTouched(Touched(len, page), base, x, page) {
      var n, y := CoveredBy(base, len, x, page);
      StridesReach(0, len, page, n);
      assert Touched(len, page)[|Touched(len, page)| - 1] == len - 1;
      assert y in Touched(len, page);
    }
  }

  /** The page of any byte holds a stride offset `page * n` of the slice or its last byte. */
  lemma CoveredBy(base: nat, len: nat, x: nat, page: nat) returns (n: nat, y: nat)
    requires page > 0 && x < len
    ensures page * n < len && (y == page * n || y == len - 1) && PageOf(base, y, page) == PageOf(base, x, page)
  {
    n := x / page;
    DivRemainder(x, page);
    var low := page * n;
    var p := PageOf(base, low, page);
    DivRemainder(base + low, page);
    NextStep(page, n);
    NextStep(page, p);
    if base + x < page * (p + 1) {
      y := low;
      DivUnique(base + x, page, p, base + x - page * p);
    } else {
      NextStep(page, p + 1);
      DivUnique(base + x, page, p + 1, base + x - page * (p + 1));
      if low + page < len {
        n, y := n + 1, low + page;
        DivUnique(base + y, page, p + 1, base + y - page * (p + 1));
      } else {
        y := len - 1;
        DivUnique(base + y, page, p + 1, base + y - page * (p + 1));
      }
    }
  }
}

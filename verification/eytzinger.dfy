/** The Eytzinger stem order: a breadth-first layout with the root at index 1. */
module Eytzinger {
  import opened Metrics
  import opened KdTree
  import opened Division

  function Pow2(n: nat): (p: nat)
    ensures p > 0
  {
    if n == 0 then 1 else 2 * Pow2(n - 1)
  }

  /** A position in the stem tree: index, level and the axis split there. */
  datatype Cursor = Cursor(stemIdx: nat, level: nat, dim: nat) {
    /** Level `l` occupies the indices from 2^l up to 2^(l+1); the axis cycles. */
    ghost predicate Valid(k: nat) {
      k > 0 && Pow2(level) <= stemIdx < Pow2(level + 1) && dim == DimAt(level, k)
    }

    function Child(k: nat, right: bool): (c: Cursor)
      requires k > 0
      ensures Valid(k) ==> c.Valid(k)
    {
      var wrapped := if dim == k - 1 then 0 else dim + 1;
      Cursor(2 * stemIdx + (if right then 1 else 0), level + 1, wrapped)
    }

    /** `stem_idx & !(1 << level)`: clear the bit of the level. */
    function LeafIdx(): nat {
      if stemIdx / Pow2(level) % 2 == 1 then stemIdx - Pow2(level) else stemIdx
    }
  }

  const ROOT := Cursor(1, 0, 0)

  /** The level bit is the top bit of a valid index, so the leaf index is the offset of the
      stem within its level. */
  lemma LeafIdxIsOffset(c: Cursor, k: nat)
    requires c.Valid(k)
    ensures c.LeafIdx() == c.stemIdx - Pow2(c.level) < Pow2(c.level)
  {
    var p := Pow2(c.level);
    DivOne(c.stemIdx, p);
  }

  lemma DivOne(n: nat, p: nat)
    requires 0 < p <= n < 2 * p
    ensures n / p == 1
  {
    ModUnique(n, p, 1, n - p);
    assert n == p * (n / p) + n % p;
  }

  lemma {:induction false} Pow2Monotone(a: nat, b: nat)
    requires a <= b
    ensures Pow2(a) <= Pow2(b)
    decreases b
  {
    if a < b {
      Pow2Monotone(a, b - 1);
    }
  }

  /** The shape below a stem when every leaf sits at level `maxStemLevel + 1` and is found by
      arithmetic on its stem index. */
  ghost function ArithmeticShape(stems: seq<Ext>, maxStemLevel: int, idx: nat, level: nat): Node
    decreases maxStemLevel + 1 - level
  {
    if level > maxStemLevel then Tip(if idx >= Pow2(level) then idx - Pow2(level) else 0)
    else Stem(if idx < |stems| then stems[idx] else Inf,
              ArithmeticShape(stems, maxStemLevel, 2 * idx, level + 1),
              ArithmeticShape(stems, maxStemLevel, 2 * idx + 1, level + 1))
  }

  // ---------------------------------------------------------------- ancestry

  /** `i` is `idx` or lies below it. */
  predicate Descends(i: nat, idx: nat) {
    i == idx || (i > idx && Descends(i / 2, idx))
  }

  lemma {:induction false} ChildrenAreDisjoint(i: nat, idx: nat)
    requires idx > 0
    ensures Descends(i, 2 * idx) ==> Descends(i, idx) && i != idx && !Descends(i, 2 * idx + 1)
    ensures Descends(i, 2 * idx + 1) ==> Descends(i, idx) && i != idx
  {
    if i > 2 * idx + 1 {
      ChildrenAreDisjoint(i / 2, idx);
    } else if i == 2 * idx + 1 {
      assert i / 2 == idx && !Descends(idx, 2 * idx);
    }
  }
}

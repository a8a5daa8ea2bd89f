/** The query generator of the benchmarks (benches/profile_v6_query_pool.rs, `splitmix64`,
    `query_word`), on 64-bit words as numbers with explicit wrap-around. */
module SplitMix {
  import opened Eytzinger
  import opened BitMask
  import opened Division

  const WORD: nat := 0x1_0000_0000_0000_0000
  const GAMMA: nat := 0x9e37_79b9_7f4a_7c15
  const MIX1: nat := 0xbf58_476d_1ce4_e5b9
  const MIX2: nat := 0x94d0_49bb_1331_11eb

  /** Their inverses modulo 2^64. */
  const GAMMA_INVERSE: nat := 0xf1de_83e1_9937_733d
  const MIX1_INVERSE: nat := 0x96de_1b17_3f11_9089
  const MIX2_INVERSE: nat := 0x3196_42b2_d24d_8ec3

  function BitXor(x: nat, y: nat): nat {
    if x == 0 then y else if y == 0 then x
    else 2 * BitXor(x / 2, y / 2) + Bit(x % 2 != y % 2)
  }

  function Shr(x: nat, n: nat): nat {
    if n == 0 then x else Shr(x / 2, n - 1)
  }

  function XorShift(x: nat, s: nat): nat {
    BitXor(x, Shr(x, s))
  }

  function WrappingMul(x: nat, y: nat): nat {
    x * y % WORD
  }

  function WrappingAdd(x: nat, y: nat): nat {
    (x + y) % WORD
  }

  function SplitMix64(counter: nat): nat {
    var v0 := WrappingAdd(counter, GAMMA);
    var v1 := WrappingMul(XorShift(v0, 30), MIX1);
    var v2 := WrappingMul(XorShift(v1, 27), MIX2);
    XorShift(v2, 31)
  }

  function QueryWord(k: nat, seed: nat, queryIndex: nat, dimension: nat): nat {
    SplitMix64(WrappingAdd(seed, WrappingMul((queryIndex * k + dimension) % WORD, GAMMA)))
  }

  // ---------------------------------------------------------------- xor

  lemma XorHalves(x: nat, y: nat)
    ensures BitXor(x, y) / 2 == BitXor(x / 2, y / 2)
    ensures BitXor(x, y) % 2 == Bit(x % 2 != y % 2)
  {
  }

  lemma {:induction false} XorSelf(x: nat)
    ensures BitXor(x, x) == 0
  {
    if x > 0 {
      XorSelf(x / 2);
    }
  }

  lemma {:induction false} XorAssociates(x: nat, y: nat, z: nat)
    ensures BitXor(BitXor(x, y), z) == BitXor(x, BitXor(y, z))
    decreases x + y + z
  {
    XorHalves(x, y);
    XorHalves(y, z);
    XorHalves(BitXor(x, y), z);
    XorHalves(x, BitXor(y, z));
    if x > 0 && y > 0 && z > 0 {
      XorAssociates(x / 2, y / 2, z / 2);
      FromHalves(BitXor(BitXor(x, y), z), BitXor(x, BitXor(y, z)));
    }
  }

  lemma FromHalves(a: nat, b: nat)
    requires a / 2 == b / 2 && a % 2 == b % 2
    ensures a == b
  {
  }

  lemma {:induction false} XorOfShifts(x: nat, y: nat, n: nat)
    ensures Shr(BitXor(x, y), n) == BitXor(Shr(x, n), Shr(y, n))
    decreases n
  {
    if n > 0 {
      XorHalves(x, y);
      XorOfShifts(x / 2, y / 2, n - 1);
    }
  }

  lemma {:induction false} ShrShrinks(x: nat, n: nat)
    ensures Shr(x, n) <= x && (n > 0 && x > 0 ==> Shr(x, n) < x)
    decreases n
  {
    if n > 0 {
      ShrShrinks(x / 2, n - 1);
    }
  }

  lemma {:induction false} XorFits(x: nat, y: nat, n: nat)
    requires x < Pow2(n) && y < Pow2(n)
    ensures BitXor(x, y) < Pow2(n)
  {
    if n > 0 && x > 0 && y > 0 {
      XorFits(x / 2, y / 2, n - 1);
    }
  }

  /** Undo an xor-shift: the high bits are known, and each block reveals the next. */
  function UnXorShift(y: nat, s: nat): nat
    requires s > 0
    decreases y
  {
    ShrShrinks(y, s);
    if y == 0 then 0 else BitXor(y, UnXorShift(Shr(y, s), s))
  }

  lemma {:induction false} UnXorShiftOfShr(y: nat, s: nat)
    requires s > 0
    ensures Shr(UnXorShift(y, s), s) == UnXorShift(Shr(y, s), s)
    decreases y
  {
    ShrShrinks(y, s);
    if y > 0 {
      UnXorShiftOfShr(Shr(y, s), s);
      XorOfShifts(y, UnXorShift(Shr(y, s), s), s);
    }
  }

  lemma XorCancels(x: nat, y: nat)
    ensures BitXor(BitXor(x, y), y) == x
  {
    XorAssociates(x, y, y);
    XorSelf(y);
  }

  /** An xor-shift can be undone, from either side. */
  lemma {:induction false} XorShiftInverts(x: nat, s: nat)
    requires s > 0
    ensures UnXorShift(XorShift(x, s), s) == x
    decreases x
  {
    ShrShrinks(x, s);
    if x > 0 {
      XorOfShifts(x, Shr(x, s), s);
      XorShiftInverts(Shr(x, s), s);
      XorCancels(x, Shr(x, s));
    }
  }

  lemma XorShiftReaches(y: nat, s: nat)
    requires s > 0
    ensures XorShift(UnXorShift(y, s), s) == y
  {
    ShrShrinks(y, s);
    UnXorShiftOfShr(y, s);
    if y > 0 {
      XorCancels(y, UnXorShift(Shr(y, s), s));
    }
  }

  lemma UnXorShiftFits(y: nat, s: nat, n: nat)
    requires s > 0 && y < Pow2(n)
    ensures UnXorShift(y, s) < Pow2(n)
    decreases y
  {
    ShrShrinks(y, s);
    if y > 0 {
      UnXorShiftFits(Shr(y, s), s, n);
      XorFits(y, UnXorShift(Shr(y, s), s), n);
    }
  }

  // ---------------------------------------------------------------- odd multipliers

  /** Multiplying modulo a word by a number with an inverse can be undone. */
  lemma MulInverts(x: nat, c: nat, d: nat, q: nat)
    requires x < WORD && c * d == WORD * q + 1
    ensures WrappingMul(WrappingMul(x, c), d) == x
  {
    var r, a := x * c % WORD, x * c / WORD;
    assert x * c == WORD * a + r;
    calc {
      r * d;
      (x * c) * d - (WORD * a) * d;
      { Regroup(x, c, d); }
      x * (WORD * q + 1) - (WORD * a) * d;
      { Factor(x, q, a, d); }
      WORD * (x * q - a * d) + x;
    }
    ModUnique(r * d, WORD, x * q - a * d, x);
  }

  lemma Regroup(x: nat, c: nat, d: nat)
    ensures (x * c) * d == x * (c * d)
  {
  }

  lemma Factor(x: nat, q: nat, a: nat, d: nat)
    ensures x * (WORD * q + 1) - (WORD * a) * d == WORD * (x * q - a * d) + x
  {
    assert x * (WORD * q + 1) == WORD * (x * q) + x;
    assert (WORD * a) * d == WORD * (a * d);
  }

  lemma Inverses()
    ensures GAMMA * GAMMA_INVERSE == WORD * 0x957b_bf35_006e_d677 + 1
    ensures MIX1 * MIX1_INVERSE == WORD * 0x70c3_bca7_8f27_f46c + 1
    ensures MIX2 * MIX2_INVERSE == WORD * 0x1cd3_36ed_a85f_1453 + 1
    ensures WORD == Pow2(64)
  {
    WordIsPow2();
  }

  lemma WordIsPow2()
    ensures WORD == Pow2(64)
  {
    assert Pow2(1) == 2 && Pow2(2) == 4;
    Pow2Sum(2, 2);
    Pow2Sum(4, 4);
    Pow2Sum(8, 8);
    Pow2Sum(16, 16);
    Pow2Sum(32, 32);
  }

  function WrappingSub(x: nat, y: nat): nat
    requires y < WORD
  {
    (x + (WORD - y)) % WORD
  }

  lemma AddInverts(x: nat, y: nat)
    requires x < WORD && y < WORD
    ensures WrappingSub(WrappingAdd(x, y), y) == x && WrappingAdd(WrappingSub(x, y), y) == x
  {
    var a := if x + y < WORD then 0 else 1;
    ModUnique(x + y, WORD, a, x + y - WORD * a);
    ModUnique(x + y - WORD * a + (WORD - y), WORD, 1 - a, x);
    var b := if x < y then 0 else 1;
    ModUnique(x + (WORD - y), WORD, b, x + (WORD - y) - WORD * b);
    ModUnique(x + (WORD - y) - WORD * b + y, WORD, 1 - b, x);
  }

  // ---------------------------------------------------------------- the generator

  /** The inverse of the generator. */
  function UnSplitMix64(word: nat): nat {
    var v2 := UnXorShift(word, 31);
    var v1 := UnXorShift(WrappingMul(v2, MIX2_INVERSE), 27);
    var v0 := UnXorShift(WrappingMul(v1, MIX1_INVERSE), 30);
    WrappingSub(v0, GAMMA)
  }

  lemma WordBounds(x: nat, s: nat)
    requires x < WORD && s > 0
    ensures XorShift(x, s) < WORD && UnXorShift(x, s) < WORD
  {
    Inverses();
    ShrShrinks(x, s);
    XorFits(x, Shr(x, s), 64);
    UnXorShiftFits(x, s, 64);
  }

  /** `splitmix64` permutes the 64-bit words: it has a two-sided inverse. */
  lemma SplitMixIsBijective(x: nat)
    requires x < WORD
    ensures SplitMix64(x) < WORD && UnSplitMix64(x) < WORD
    ensures UnSplitMix64(SplitMix64(x)) == x && SplitMix64(UnSplitMix64(x)) == x
  {
    MixedInverts(x);
    UnmixedInverts(x);
  }

  lemma MixedInverts(x: nat)
    requires x < WORD
    ensures SplitMix64(x) < WORD && UnSplitMix64(SplitMix64(x)) == x
  {
    Inverses();
    var v0 := WrappingAdd(x, GAMMA);
    var w0 := XorShift(v0, 30);
    var v1 := WrappingMul(w0, MIX1);
    var w1 := XorShift(v1, 27);
    var v2 := WrappingMul(w1, MIX2);
    WordBounds(v0, 30);
    WordBounds(v1, 27);
    WordBounds(v2, 31);
    XorShiftInverts(v2, 31);
    MulInverts(w1, MIX2, MIX2_INVERSE, 0x1cd3_36ed_a85f_1453);
    XorShiftInverts(v1, 27);
    MulInverts(w0, MIX1, MIX1_INVERSE, 0x70c3_bca7_8f27_f46c);
    XorShiftInverts(v0, 30);
    AddInverts(x, GAMMA);
  }

  lemma UnmixedInverts(x: nat)
    requires x < WORD
    ensures UnSplitMix64(x) < WORD && SplitMix64(UnSplitMix64(x)) == x
  {
    Inverses();
    var v2 := UnXorShift(x, 31);
    var w1 := WrappingMul(v2, MIX2_INVERSE);
    var v1 := UnXorShift(w1, 27);
    var w0 := WrappingMul(v1, MIX1_INVERSE);
    var v0 := UnXorShift(w0, 30);
    WordBounds(x, 31);
    WordBounds(w1, 27);
    WordBounds(w0, 30);
    AddInverts(v0, GAMMA);
    XorShiftReaches(w0, 30);
    MulInverts(v1, MIX1_INVERSE, MIX1, 0x70c3_bca7_8f27_f46c);
    XorShiftReaches(w1, 27);
    MulInverts(v2, MIX2_INVERSE, MIX2, 0x1cd3_36ed_a85f_1453);
    XorShiftReaches(x, 31);
  }

  /** For a fixed seed, different (query, dimension) pairs get different words. */
  lemma QueryWordsDiffer(k: nat, seed: nat, i: nat, d: nat, j: nat, e: nat)
    requires seed < WORD && d < k && e < k && (i != j || d != e)
    requires i * k + d < WORD && j * k + e < WORD
    ensures QueryWord(k, seed, i, d) != QueryWord(k, seed, j, e)
  {
    var a, b := i * k + d, j * k + e;
    CountersDiffer(k, i, d, j, e);
    ModUnique(a, WORD, 0, a);
    ModUnique(b, WORD, 0, b);
    var u, v := WrappingMul(a, GAMMA), WrappingMul(b, GAMMA);
    ProductsDiffer(a, b);
    SumsDiffer(seed, u, v);
    WordsDiffer(WrappingAdd(seed, u), WrappingAdd(seed, v));
  }

  lemma ProductsDiffer(a: nat, b: nat)
    requires a < WORD && b < WORD && a != b
    ensures WrappingMul(a, GAMMA) != WrappingMul(b, GAMMA)
  {
    Inverses();
    MulInverts(a, GAMMA, GAMMA_INVERSE, 0x957b_bf35_006e_d677);
    MulInverts(b, GAMMA, GAMMA_INVERSE, 0x957b_bf35_006e_d677);
  }

  lemma SumsDiffer(seed: nat, u: nat, v: nat)
    requires seed < WORD && u < WORD && v < WORD && u != v
    ensures WrappingAdd(seed, u) != WrappingAdd(seed, v)
  {
    AddInverts(u, seed);
    AddInverts(v, seed);
    assert WrappingAdd(seed, u) == WrappingAdd(u, seed) && WrappingAdd(seed, v) == WrappingAdd(v, seed);
  }

  lemma WordsDiffer(a: nat, b: nat)
    requires a < WORD && b < WORD && a != b
    ensures SplitMix64(a) != SplitMix64(b)
  {
    MixedInverts(a);
    MixedInverts(b);
  }

  lemma CountersDiffer(k: nat, i: nat, d: nat, j: nat, e: nat)
    requires d < k && e < k && (i != j || d != e)
    ensures i * k + d != j * k + e
  {
    if i * k + d == j * k + e {
      DivUnique(i * k + d, k, i, d);
      DivUnique(j * k + e, k, j, e);
    }
  }
}

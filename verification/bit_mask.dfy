/** Lane masks and index masks of the leaf kernels, on unsigned words as numbers: comparison
    masks and their lowest set bit, and rounding a length down with `len & !(CHUNK - 1)`. */
module BitMask {
  import opened Eytzinger
  import opened Division

  function Bit(b: bool): nat {
    if b then 1 else 0
  }

  /** Bitwise or of unsigned words. */
  function BitOr(x: nat, y: nat): nat {
    if x == 0 then y else if y == 0 then x
    else 2 * BitOr(x / 2, y / 2) + Bit(x % 2 == 1 || y % 2 == 1)
  }

  /** Bitwise and of unsigned words. */
  function BitAnd(x: nat, y: nat): nat {
    if x == 0 || y == 0 then 0
    else 2 * BitAnd(x / 2, y / 2) + Bit(x % 2 == 1 && y % 2 == 1)
  }

  /** `x << n` on 32 bits. */
  function Shl32(x: nat, n: nat): nat {
    x * Pow2(n) % Pow2(32)
  }

  /** `!y` on a word. */
  function Not(y: nat, wordBits: nat): nat
    requires y < Pow2(wordBits)
  {
    Pow2(wordBits) - 1 - y
  }

  /** `trailing_zeros` of a 32-bit word. */
  function TrailingZeros(x: nat): nat {
    if x == 0 then 32 else if x % 2 == 1 then 0 else 1 + TrailingZeros(x / 2)
  }

  // ---------------------------------------------------------------- lane masks

  /** `movemask`: bit `i` is set when lane `i` compares true. */
  function Mask(lanes: seq<bool>): nat {
    if lanes == [] then 0 else Bit(lanes[0]) + 2 * Mask(lanes[1..])
  }

  function FirstTrue(lanes: seq<bool>): (i: nat)
    ensures i <= |lanes| && (i < |lanes| ==> lanes[i]) && forall j :: 0 <= j < i ==> !lanes[j]
  {
    if lanes == [] || lanes[0] then 0 else 1 + FirstTrue(lanes[1..])
  }

  lemma {:induction false} MaskFits(lanes: seq<bool>)
    ensures Mask(lanes) < Pow2(|lanes|)
  {
    if lanes != [] {
      MaskFits(lanes[1..]);
    }
  }

  /** A mask is zero exactly when no lane is true, and otherwise its lowest set bit is the
      first true lane: the kernels' early exit, the claim they make to the compiler after it,
      and the index they read off. */
  lemma {:induction false} LowestBitIsFirstLane(lanes: seq<bool>)
    ensures Mask(lanes) == 0 <==> FirstTrue(lanes) == |lanes|
    ensures FirstTrue(lanes) < |lanes| ==> TrailingZeros(Mask(lanes)) == FirstTrue(lanes)
  {
    if lanes != [] {
      LowestBitIsFirstLane(lanes[1..]);
      TrailingZerosStep(lanes[0], Mask(lanes[1..]));
    }
  }

  lemma TrailingZerosStep(b: bool, m: nat)
    ensures TrailingZeros(Bit(b) + 2 * m) == if b then 0 else if m == 0 then 32 else 1 + TrailingZeros(m)
  {
    assert (Bit(b) + 2 * m) % 2 == Bit(b) && (Bit(b) + 2 * m) / 2 == m;
  }

  lemma OrStep(x: nat, y: nat, i: bool, j: bool)
    ensures BitOr(Bit(i) + 2 * x, Bit(j) + 2 * y) == Bit(i || j) + 2 * BitOr(x, y)
  {
  }

  lemma {:induction false} OrOfConcat(a: seq<bool>, b: seq<bool>)
    ensures BitOr(Mask(a), Mask(b) * Pow2(|a|)) == Mask(a + b)
  {
    if a == [] {
      assert a + b == b;
    } else {
      assert (a + b)[1..] == a[1..] + b;
      OrOfConcat(a[1..], b);
      ShiftStep(Mask(a[1..]), Mask(b), Pow2(|a| - 1), a[0]);
    }
  }

  lemma ShiftStep(x: nat, m: nat, p: nat, i: bool)
    ensures BitOr(Bit(i) + 2 * x, m * (2 * p)) == Bit(i) + 2 * BitOr(x, m * p)
  {
    assert m * (2 * p) == 2 * (m * p);
    OrStep(x, m * p, i, false);
  }

  lemma ShiftLosesNothing(b: seq<bool>, n: nat)
    requires |b| + n <= 32
    ensures Shl32(Mask(b), n) == Mask(b) * Pow2(n)
  {
    MaskFits(b);
    Pow2Sum(|b|, n);
    Pow2Monotone(|b| + n, 32);
    var m, p := Mask(b), Pow2(n);
    MulLess(m, Pow2(|b|), p);
    ModUnique(m * p, Pow2(32), 0, m * p);
  }

  lemma MulLess(x: nat, y: nat, p: nat)
    requires x < y && p > 0
    ensures x * p < y * p
  {
  }

  lemma {:induction false} Pow2Sum(a: nat, b: nat)
    ensures Pow2(a) * Pow2(b) == Pow2(a + b)
  {
    if a > 0 {
      Pow2Sum(a - 1, b);
      assert Pow2(a) * Pow2(b) == 2 * (Pow2(a - 1) * Pow2(b));
    }
  }

  /** Shifting a mask past another and merging concatenates their lanes, within 32 bits. */
  lemma MergeConcatenates(a: seq<bool>, b: seq<bool>)
    requires |a| + |b| <= 32
    ensures BitOr(Mask(a), Shl32(Mask(b), |a|)) == Mask(a + b)
  {
    ShiftLosesNothing(b, |a|);
    OrOfConcat(a, b);
  }

  lemma {:induction false} OrIsZero(x: nat, y: nat)
    ensures BitOr(x, y) == 0 <==> x == 0 && y == 0
  {
    if x != 0 && y != 0 {
      OrIsZero(x / 2, y / 2);
    }
  }

  // ---------------------------------------------------------------- rounding lengths down

  lemma DivideTwice(x: nat, p: nat)
    requires p > 0
    ensures x / (2 * p) == x / 2 / p
  {
    var a, r := x / 2 / p, x / 2 % p;
    assert x / 2 == p * a + r;
    assert (2 * p) * a == 2 * (p * a);
    DivUnique(x, 2 * p, a, 2 * r + x % 2);
  }

  /** Masking with all ones from bit `c` up clears the low `c` bits. */
  lemma {:induction false} MaskClearsLow(x: nat, n: nat, c: nat)
    requires c <= n && x < Pow2(n)
    ensures Pow2(n) >= Pow2(c) && BitAnd(x, Pow2(n) - Pow2(c)) == Pow2(c) * (x / Pow2(c))
    decreases n
  {
    Pow2Monotone(c, n);
    if n == c {
      DivUnique(x, Pow2(c), 0, x);
    } else if c == 0 {
      MaskClearsLow(x / 2, n - 1, 0);
      AllOnesStep(x, Pow2(n - 1));
    } else {
      MaskClearsLow(x / 2, n - 1, c - 1);
      DivideTwice(x, Pow2(c - 1));
      EvenAnd(x, Pow2(n - 1) - Pow2(c - 1));
      DoubleProduct(Pow2(c - 1), x / Pow2(c));
    }
  }

  lemma AllOnesStep(x: nat, half: nat)
    requires half > 0 && BitAnd(x / 2, half - 1) == x / 2
    ensures BitAnd(x, 2 * half - 1) == x
  {
    assert (2 * half - 1) / 2 == half - 1 && (2 * half - 1) % 2 == 1;
  }

  lemma DoubleProduct(p: nat, q: nat)
    ensures (2 * p) * q == 2 * (p * q)
  {
  }

  lemma EvenAnd(x: nat, h: nat)
    ensures BitAnd(x, 2 * h) == 2 * BitAnd(x / 2, h)
  {
    assert (2 * h) / 2 == h && (2 * h) % 2 == 0;
  }

  /** `len & !(chunk - 1)`, for a chunk of `2^bits`. */
  function RoundDown(len: nat, bits: nat, wordBits: nat): nat
    requires bits < wordBits
  {
    Pow2Monotone(bits, wordBits);
    BitAnd(len, Not(Pow2(bits) - 1, wordBits))
  }

  /** Rounding down by masking gives the largest multiple of the chunk not above the length. */
  lemma RoundDownIsMultiple(len: nat, bits: nat, wordBits: nat) returns (q: nat)
    requires bits < wordBits && len < Pow2(wordBits)
    ensures RoundDown(len, bits, wordBits) == Pow2(bits) * q <= len < Pow2(bits) * q + Pow2(bits)
  {
    Pow2Monotone(bits, wordBits);
    MaskClearsLow(len, wordBits, bits);
    q := len / Pow2(bits);
    DivRemainder(len, Pow2(bits));
  }
}

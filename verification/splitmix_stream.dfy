/** The generator as a stream: known outputs, and the counters that a seed steps through
    (benches/profile_v6_query_pool.rs, `splitmix64`, `query_word`). */
module SplitMixStream {
  import opened Eytzinger
  import opened BitMask
  import opened Division
  import opened SplitMix

  // ---------------------------------------------------------------- consecutive words

  /** The state of a generator that was seeded so, after `n` steps. */
  function State(seed: nat, n: nat): nat {
    if n == 0 then seed else WrappingAdd(State(seed, n - 1), GAMMA)
  }

  lemma ModOfSum(a: nat, b: nat)
    ensures (a % WORD + b) % WORD == (a + b) % WORD
  {
    var q, r := (a % WORD + b) / WORD, (a % WORD + b) % WORD;
    assert a + b == WORD * (a / WORD + q) + r;
    ModUnique(a + b, WORD, a / WORD + q, r);
  }

  lemma {:induction false} StateIs(seed: nat, n: nat)
    requires seed < WORD
    ensures State(seed, n) == (seed + n * GAMMA) % WORD
  {
    if n == 0 {
      ModUnique(seed, WORD, 0, seed);
    } else {
      StateIs(seed, n - 1);
      assert seed + (n - 1) * GAMMA + GAMMA == seed + n * GAMMA;
      ModOfSum(seed + (n - 1) * GAMMA, GAMMA);
    }
  }

  /** The words of consecutive dimensions and queries are the consecutive outputs of one generator:
      the counter says how many steps come first. */
  lemma WordsFollowStream(k: nat, seed: nat, i: nat, d: nat)
    requires seed < WORD && i * k + d < WORD
    ensures QueryWord(k, seed, i, d) == SplitMix64(State(seed, i * k + d))
  {
    var n := i * k + d;
    ModUnique(n, WORD, 0, n);
    StateIs(seed, n);
    ModOfSum(n * GAMMA, seed);
    assert WrappingAdd(seed, WrappingMul(n, GAMMA)) == (n * GAMMA % WORD + seed) % WORD;
  }

  // ---------------------------------------------------------------- hexadecimal digits

  /** A digit by its bits. */
  datatype Digit = Digit(b8: bool, b4: bool, b2: bool, b1: bool) {
    function Value(): (v: nat)
      ensures v < 16
    {
      8 * Bit(b8) + 4 * Bit(b4) + 2 * Bit(b2) + Bit(b1)
    }

    function Xor(other: Digit): Digit {
      Digit(b8 != other.b8, b4 != other.b4, b2 != other.b2, b1 != other.b1)
    }
  }

  const D0 := Digit(false, false, false, false)
  const D1 := Digit(false, false, false, true)
  const D2 := Digit(false, false, true, false)
  const D3 := Digit(false, false, true, true)
  const D4 := Digit(false, true, false, false)
  const D5 := Digit(false, true, false, true)
  const D6 := Digit(false, true, true, false)
  const D7 := Digit(false, true, true, true)
  const D8 := Digit(true, false, false, false)
  const D9 := Digit(true, false, false, true)
  const DA := Digit(true, false, true, false)
  const DB := Digit(true, false, true, true)
  const DC := Digit(true, true, false, false)
  const DD := Digit(true, true, false, true)
  const DE := Digit(true, true, true, false)
  const DF := Digit(true, true, true, true)

  lemma DigitValues()
    ensures D0.Value() == 0 && D1.Value() == 1 && D2.Value() == 2 && D3.Value() == 3
    ensures D4.Value() == 4 && D5.Value() == 5 && D6.Value() == 6 && D7.Value() == 7
    ensures D8.Value() == 8 && D9.Value() == 9 && DA.Value() == 10 && DB.Value() == 11
    ensures DC.Value() == 12 && DD.Value() == 13 && DE.Value() == 14 && DF.Value() == 15
  {
  }

  /** Four digits. */
  datatype Part = Part(d3: Digit, d2: Digit, d1: Digit, d0: Digit) {
    function Value(): nat {
      0x1000 * d3.Value() + 0x100 * d2.Value() + 0x10 * d1.Value() + d0.Value()
    }

    function Xor(other: Part): Part {
      Part(d3.Xor(other.d3), d2.Xor(other.d2), d1.Xor(other.d1), d0.Xor(other.d0))
    }
  }

  datatype Word = Word(p3: Part, p2: Part, p1: Part, p0: Part) {
    function Value(): nat {
      0x1_0000_0000_0000 * p3.Value() + 0x1_0000_0000 * p2.Value() + 0x1_0000 * p1.Value() + p0.Value()
    }

    function Xor(other: Word): Word {
      Word(p3.Xor(other.p3), p2.Xor(other.p2), p1.Xor(other.p1), p0.Xor(other.p0))
    }
  }

  /** `w` is the exclusive or, as one fact about the first number. */
  ghost predicate IsXor(x: nat, y: nat, w: nat) {
    forall z: nat :: z == x ==> BitXor(z, y) == w
  }

  lemma XorOfBit(x2: nat, y2: nat, w2: nat, x: nat, y: nat, w: nat, p: bool, q: bool)
    requires IsXor(x, y, w) && x2 == 2 * x + Bit(p) && y2 == 2 * y + Bit(q) && w2 == 2 * w + Bit(p != q)
    ensures IsXor(x2, y2, w2)
  {
    assert BitXor(x, y) == w;
    XorHalves(x2, y2);
  }

  lemma XorOfTwoBits(x2: nat, y2: nat, w2: nat, x: nat, y: nat, w: nat, p: bool, q: bool, p2: bool, q2: bool)
    requires IsXor(x, y, w) && x2 == 4 * x + 2 * Bit(p) + Bit(p2) && y2 == 4 * y + 2 * Bit(q) + Bit(q2)
    requires w2 == 4 * w + 2 * Bit(p != q) + Bit(p2 != q2)
    ensures IsXor(x2, y2, w2)
  {
    var x1, y1, w1 := 2 * x + Bit(p), 2 * y + Bit(q), 2 * w + Bit(p != q);
    XorOfBit(x1, y1, w1, x, y, w, p, q);
    XorOfBit(x2, y2, w2, x1, y1, w1, p2, q2);
  }

  function HighBits(a: Digit): nat {
    2 * Bit(a.b8) + Bit(a.b4)
  }

  lemma XorOfHighBits(x: nat, y: nat, w: nat, a: Digit, b: Digit)
    requires IsXor(x, y, w)
    ensures IsXor(4 * x + HighBits(a), 4 * y + HighBits(b), 4 * w + HighBits(a.Xor(b)))
  {
    XorOfTwoBits(4 * x + HighBits(a), 4 * y + HighBits(b), 4 * w + HighBits(a.Xor(b)), x, y, w, a.b8, b.b8, a.b4, b.b4);
  }

  lemma XorOfLowBits(x2: nat, y2: nat, w2: nat, x: nat, y: nat, w: nat, a: Digit, b: Digit)
    requires IsXor(x, y, w) && x2 == 4 * x + 2 * Bit(a.b2) + Bit(a.b1) && y2 == 4 * y + 2 * Bit(b.b2) + Bit(b.b1)
    requires w2 == 4 * w + 2 * Bit(a.Xor(b).b2) + Bit(a.Xor(b).b1)
    ensures IsXor(x2, y2, w2)
  {
    XorOfTwoBits(x2, y2, w2, x, y, w, a.b2, b.b2, a.b1, b.b1);
  }

  lemma DigitByHalves(x: nat, a: Digit)
    ensures 16 * x + a.Value() == 4 * (4 * x + HighBits(a)) + 2 * Bit(a.b2) + Bit(a.b1)
  {
  }

  lemma XorOfDigit(x2: nat, y2: nat, x: nat, y: nat, w: nat, a: Digit, b: Digit)
    requires IsXor(x, y, w) && x2 == 16 * x + a.Value() && y2 == 16 * y + b.Value()
    ensures IsXor(x2, y2, 16 * w + a.Xor(b).Value())
  {
    DigitByHalves(x, a);
    DigitByHalves(y, b);
    DigitByHalves(w, a.Xor(b));
    XorOfHighBits(x, y, w, a, b);
    XorOfLowBits(x2, y2, 16 * w + a.Xor(b).Value(), 4 * x + HighBits(a), 4 * y + HighBits(b), 4 * w + HighBits(a.Xor(b)), a, b);
  }

  lemma XorOfPart(x2: nat, y2: nat, x: nat, y: nat, w: nat, a: Part, b: Part)
    requires IsXor(x, y, w) && x2 == 0x1_0000 * x + a.Value() && y2 == 0x1_0000 * y + b.Value()
    ensures IsXor(x2, y2, 0x1_0000 * w + a.Xor(b).Value())
  {
    var u1, v1, w1 := 16 * x + a.d3.Value(), 16 * y + b.d3.Value(), 16 * w + a.d3.Xor(b.d3).Value();
    var u2, v2, w2 := 16 * u1 + a.d2.Value(), 16 * v1 + b.d2.Value(), 16 * w1 + a.d2.Xor(b.d2).Value();
    var u3, v3, w3 := 16 * u2 + a.d1.Value(), 16 * v2 + b.d1.Value(), 16 * w2 + a.d1.Xor(b.d1).Value();
    XorOfDigit(u1, v1, x, y, w, a.d3, b.d3);
    XorOfDigit(u2, v2, u1, v1, w1, a.d2, b.d2);
    XorOfDigit(u3, v3, u2, v2, w2, a.d1, b.d1);
    XorOfDigit(x2, y2, u3, v3, w3, a.d0, b.d0);
  }

  lemma PartsOfWord(a: Word) returns (u1: nat, u2: nat, u3: nat)
    ensures u1 == a.p3.Value() && u2 == 0x1_0000 * u1 + a.p2.Value() && u3 == 0x1_0000 * u2 + a.p1.Value()
    ensures a.Value() == 0x1_0000 * u3 + a.p0.Value()
  {
    u1 := a.p3.Value();
    u2 := 0x1_0000 * u1 + a.p2.Value();
    u3 := 0x1_0000 * u2 + a.p1.Value();
  }

  /** The exclusive or of two words, digit by digit. */
  lemma XorOfWord(a: Word, b: Word)
    ensures BitXor(a.Value(), b.Value()) == a.Xor(b).Value()
  {
    var u1, u2, u3 := PartsOfWord(a);
    var v1, v2, v3 := PartsOfWord(b);
    var w1, w2, w3 := PartsOfWord(a.Xor(b));
    XorOfPart(u1, v1, 0, 0, 0, a.p3, b.p3);
    XorOfPart(u2, v2, u1, v1, w1, a.p2, b.p2);
    XorOfPart(u3, v3, u2, v2, w2, a.p1, b.p1);
    XorOfPart(a.Value(), b.Value(), u3, v3, w3, a.p0, b.p0);
    assert IsXor(a.Value(), b.Value(), a.Xor(b).Value());
  }

  // ---------------------------------------------------------------- known outputs

  lemma {:induction false} ShrIsDivision(x: nat, n: nat)
    ensures Shr(x, n) == x / Pow2(n)
    decreases n
  {
    if n > 0 {
      ShrIsDivision(x / 2, n - 1);
      DivideTwice(x, Pow2(n - 1));
    }
  }

  lemma ShiftSizes()
    ensures Pow2(27) == 0x800_0000 && Pow2(30) == 0x4000_0000 && Pow2(31) == 0x8000_0000
  {
    assert Pow2(1) == 2 && Pow2(2) == 4 && Pow2(3) == 8;
    Pow2Sum(3, 3);
    Pow2Sum(6, 6);
    Pow2Sum(12, 12);
    Pow2Sum(24, 3);
    Pow2Sum(27, 3);
    Pow2Sum(30, 1);
  }

  function Size(s: nat): (p: nat)
    ensures p > 0
  {
    if s == 27 then 0x800_0000 else if s == 30 then 0x4000_0000 else 0x8000_0000
  }

  /** An xor-shift, from the digits of the number, of the shifted number and of the result. */
  lemma XorShiftIs(x: Word, s: nat, y: Word, r: Word, v: nat)
    requires s == 27 || s == 30 || s == 31
    requires v == x.Value() && v / Size(s) == y.Value() && r == x.Xor(y)
    ensures XorShift(v, s) == r.Value()
  {
    ShiftSizes();
    ShrIsDivision(v, s);
    XorOfWord(x, y);
  }

  lemma MulIs(x: nat, y: nat, q: nat, r: nat)
    requires x * y == WORD * q + r && r < WORD
    ensures WrappingMul(x, y) == r
  {
    ModUnique(x * y, WORD, q, r);
  }

  lemma FirstAfter30(v: nat)
    requires v == 0x9e37_79b9_7f5d_529c
    ensures XorShift(v, 30) == 0x9e37_79bb_0780_b479
  {
    DigitValues();
    XorShiftIs(Word(Part(D9, DE, D3, D7), Part(D7, D9, DB, D9), Part(D7, DF, D5, DD), Part(D5, D2, D9, DC)),
               30, Word(Part(D0, D0, D0, D0), Part(D0, D0, D0, D2), Part(D7, D8, DD, DD), Part(DE, D6, DE, D5)),
               Word(Part(D9, DE, D3, D7), Part(D7, D9, DB, DB), Part(D0, D7, D8, D0), Part(DB, D4, D7, D9)), v);
  }

  lemma FirstAfter27(v: nat)
    requires v == 0x09d2_6ec1_8536_a871
    ensures XorShift(v, 27) == 0x09d2_6ec0_bf7b_7041
  {
    DigitValues();
    XorShiftIs(Word(Part(D0, D9, DD, D2), Part(D6, DE, DC, D1), Part(D8, D5, D3, D6), Part(DA, D8, D7, D1)),
               27, Word(Part(D0, D0, D0, D0), Part(D0, D0, D0, D1), Part(D3, DA, D4, DD), Part(DD, D8, D3, D0)),
               Word(Part(D0, D9, DD, D2), Part(D6, DE, DC, D0), Part(DB, DF, D7, DB), Part(D7, D0, D4, D1)), v);
  }

  lemma FirstAfter31(v: nat)
    requires v == 0x599e_d017_4835_5cab
    ensures XorShift(v, 31) == 0x599e_d017_fb08_fc85
  {
    DigitValues();
    XorShiftIs(Word(Part(D5, D9, D9, DE), Part(DD, D0, D1, D7), Part(D4, D8, D3, D5), Part(D5, DC, DA, DB)),
               31, Word(Part(D0, D0, D0, D0), Part(D0, D0, D0, D0), Part(DB, D3, D3, DD), Part(DA, D0, D2, DE)),
               Word(Part(D5, D9, D9, DE), Part(DD, D0, D1, D7), Part(DF, DB, D0, D8), Part(DF, DC, D8, D5)), v);
  }

  lemma FirstOutput(c: nat)
    requires c == 1234567
    ensures SplitMix64(c) == 6457827717110365317
  {
    FirstAfter30(WrappingAdd(c, GAMMA));
    MulIs(0x9e37_79bb_0780_b479, MIX1, 0x7641_f309_3520_d74e, 0x09d2_6ec1_8536_a871);
    FirstAfter27(0x09d2_6ec1_8536_a871);
    MulIs(0x09d2_6ec0_bf7b_7041, MIX2, 0x05b5_a5d5_9a57_4ec6, 0x599e_d017_4835_5cab);
    FirstAfter31(0x599e_d017_4835_5cab);
  }

  lemma SecondAfter30(v: nat)
    requires v == 0x3c6e_f372_fea7_ceb1
    ensures XorShift(v, 30) == 0x3c6e_f372_0f1c_037a
  {
    DigitValues();
    XorShiftIs(Word(Part(D3, DC, D6, DE), Part(DF, D3, D7, D2), Part(DF, DE, DA, D7), Part(DC, DE, DB, D1)),
               30, Word(Part(D0, D0, D0, D0), Part(D0, D0, D0, D0), Part(DF, D1, DB, DB), Part(DC, DD, DC, DB)),
               Word(Part(D3, DC, D6, DE), Part(DF, D3, D7, D2), Part(D0, DF, D1, DC), Part(D0, D3, D7, DA)), v);
  }

  lemma SecondAfter27(v: nat)
    requires v == 0xa303_cb37_6b02_a52a
    ensures XorShift(v, 27) == 0xa303_cb23_0b7b_c3c7
  {
    DigitValues();
    XorShiftIs(Word(Part(DA, D3, D0, D3), Part(DC, DB, D3, D7), Part(D6, DB, D0, D2), Part(DA, D5, D2, DA)),
               27, Word(Part(D0, D0, D0, D0), Part(D0, D0, D1, D4), Part(D6, D0, D7, D9), Part(D6, D6, DE, DD)),
               Word(Part(DA, D3, D0, D3), Part(DC, DB, D2, D3), Part(D0, DB, D7, DB), Part(DC, D3, DC, D7)), v);
  }

  lemma SecondAfter31(v: nat)
    requires v == 0x2c73_f084_00b3_eead
    ensures XorShift(v, 31) == 0x2c73_f084_5854_0fa5
  {
    DigitValues();
    XorShiftIs(Word(Part(D2, DC, D7, D3), Part(DF, D0, D8, D4), Part(D0, D0, DB, D3), Part(DE, DE, DA, DD)),
               31, Word(Part(D0, D0, D0, D0), Part(D0, D0, D0, D0), Part(D5, D8, DE, D7), Part(DE, D1, D0, D8)),
               Word(Part(D2, DC, D7, D3), Part(DF, D0, D8, D4), Part(D5, D8, D5, D4), Part(D0, DF, DA, D5)), v);
  }

  lemma SecondOutput(c: nat)
    requires c == 11400714819324433052
    ensures SplitMix64(c) == 3203168211198807973
  {
    SecondAfter30(WrappingAdd(c, GAMMA));
    MulIs(0x3c6e_f372_0f1c_037a, MIX1, 0x2d2b_9ea2_500f_8da6, 0xa303_cb37_6b02_a52a);
    SecondAfter27(0xa303_cb37_6b02_a52a);
    MulIs(0xa303_cb23_0b7b_c3c7, MIX2, 0x5ec2_d378_8407_c9d4, 0x2c73_f084_00b3_eead);
    SecondAfter31(0x2c73_f084_00b3_eead);
  }

  /** The first two outputs of the generator seeded with 1234567, as published for it. */
  lemma KnownOutputs(seed: nat)
    requires seed == 1234567
    ensures SplitMix64(State(seed, 0)) == 6457827717110365317 && SplitMix64(State(seed, 1)) == 3203168211198807973
  {
    FirstOutput(seed);
    SecondOutput(WrappingAdd(seed, GAMMA));
  }
}

/** Every spelling of a failure identifier that is accepted, and what it says
    (examples/fuzz-case-repro.rs, `parse_repro_id`). */
module ReproSpelling {
  import opened Options
  import opened Whitespace
  import opened ReproId
  import SplitMix
  import Eytzinger

  // ---------------------------------------------------------------- names

  /** The 26 capitals are lowered, everything else stays. */
  lemma LowersCapitals(s: string, i: nat)
    requires i < |s|
    ensures if 'A' <= s[i] <= 'Z' then ToLower(s)[i] as int == s[i] as int + 32 else ToLower(s)[i] == s[i]
    ensures ToLower(ToLower(s)) == ToLower(s)
    ensures 'a' as int == 'A' as int + 32 && 'z' as int == 'Z' as int + 32
  {
  }

  /** No capitals and no hyphens are left of a kind, and names without them stay. */
  lemma KindIsNormal(s: string)
    ensures |NormalizeKind(s)| == |s| && NormalizeKind(NormalizeKind(s)) == NormalizeKind(s)
    ensures forall i :: 0 <= i < |s| ==> NormalizeKind(s)[i] == if s[i] == '-' then '_' else ToLower(s)[i]
    ensures Plain(s) ==> NormalizeKind(s) == s
  {
    if Plain(s) {
      PlainIsLower(s);
    }
  }

  /** The aliases of the vectorised strategies, in any case; other names are only lowered. */
  lemma StrategyByName(s: string)
    ensures ToLower(s) == "donnellysimd" || ToLower(s) == "donnelly_simd" || ToLower(s) == "donnelly-simd" ==>
              NormalizeStrategy(s) == "donnelly_simd"
    ensures ToLower(s) == "donnellysimdblock3" || ToLower(s) == "donnelly_simd_block3" || ToLower(s) == "donnelly-simd-block3" ==>
              NormalizeStrategy(s) == "donnelly_simd_block3"
    ensures ToLower(s) == "donnellysimdblock4" || ToLower(s) == "donnelly_simd_block4" || ToLower(s) == "donnelly-simd-block4" ==>
              NormalizeStrategy(s) == "donnelly_simd_block4"
    ensures NormalizeStrategy(s) in ["donnelly_simd", "donnelly_simd_block3", "donnelly_simd_block4"] || NormalizeStrategy(s) == ToLower(s)
    ensures NormalizeStrategy(NormalizeStrategy(s)) == NormalizeStrategy(s)
  {
    LowerNames();
    StrategyIsNormal(s);
  }

  lemma LowerNames()
    ensures ToLower("donnelly_simd") == "donnelly_simd"
    ensures ToLower("donnelly_simd_block3") == "donnelly_simd_block3"
    ensures ToLower("donnelly_simd_block4") == "donnelly_simd_block4"
  {
  }

  lemma StrategyIsNormal(s: string)
    ensures NormalizeStrategy(NormalizeStrategy(s)) == NormalizeStrategy(s)
  {
    LowerNames();
    assert ToLower(ToLower(s)) == ToLower(s);
  }

  // ---------------------------------------------------------------- numbers

  function Zeros(n: nat): (s: string)
    ensures |s| == n && AllDigits(s)
  {
    seq(n, _ => '0')
  }

  /** A decimal numeral of the number, perhaps with zeros in front and a plus sign. */
  ghost predicate Numeral(s: string, n: nat) {
    exists zeros: nat :: s == Zeros(zeros) + Decimal(n) || s == "+" + (Zeros(zeros) + Decimal(n))
  }

  lemma {:induction false} DigitsOfDecimal(s: string) returns (zeros: nat)
    requires s != "" && AllDigits(s)
    ensures s == Zeros(zeros) + Decimal(Value(s))
  {
    var n := |s| - 1;
    var front, last := s[..n], s[n];
    if front == "" {
      zeros := 0;
      LastDigit(0, last);
      assert s == [last];
    } else {
      zeros := DigitsOfDecimal(front);
      LastDigit(Value(front), last);
      if Value(front) == 0 {
        assert Decimal(0) == "0" && Zeros(zeros) + "0" == Zeros(zeros + 1);
        zeros := zeros + 1;
      }
      assert s == front + [last];
    }
  }

  lemma LastDigit(v: nat, c: char)
    requires IsDigit(c)
    ensures Decimal(v * 10 + Digit(c)) == if v == 0 then [c] else Decimal(v) + [c]
  {
    var n := v * 10 + Digit(c);
    assert n / 10 == v && n % 10 == Digit(c);
    assert Digit(c) as char + '0' == c;
  }

  lemma {:induction false} ValueOfZeros(zeros: nat, s: string)
    requires AllDigits(s)
    ensures AllDigits(Zeros(zeros) + s) && Value(Zeros(zeros) + s) == Value(s)
    decreases |s|, zeros
  {
    var all := Zeros(zeros) + s;
    if s != "" {
      assert all[..|all| - 1] == Zeros(zeros) + s[..|s| - 1];
      ValueOfZeros(zeros, s[..|s| - 1]);
    } else if zeros > 0 {
      assert all[..|all| - 1] == Zeros(zeros - 1) + "";
      ValueOfZeros(zeros - 1, "");
    }
  }

  /** Numbers end where 64-bit words do. */
  lemma NumbersAreWords()
    ensures WORD_LIMIT == Eytzinger.Pow2(64)
  {
    SplitMix.WordIsPow2();
  }

  /** A number is read exactly from its numerals, if it fits into 64 bits. */
  lemma ParseUintExactly(s: string, n: nat)
    ensures ParseUint(s) == Some(n) <==> n < WORD_LIMIT && Numeral(s, n)
  {
    if ParseUint(s) == Some(n) {
      var digits := if s != "" && s[0] == '+' then s[1..] else s;
      var zeros := DigitsOfDecimal(digits);
      assert s == digits || s == "+" + digits;
    }
    if n < WORD_LIMIT && Numeral(s, n) {
      var zeros: nat :| s == Zeros(zeros) + Decimal(n) || s == "+" + (Zeros(zeros) + Decimal(n));
      NumeralIsRead(s, Zeros(zeros) + Decimal(n), zeros, n);
    }
  }

  lemma NumeralIsRead(s: string, digits: string, zeros: nat, n: nat)
    requires digits == Zeros(zeros) + Decimal(n) && n < WORD_LIMIT && (s == digits || s == "+" + digits)
    ensures ParseUint(s) == Some(n)
  {
    ValueOfZeros(zeros, Decimal(n));
    DecimalValue(n);
    assert IsDigit(digits[0]);
    assert s == "+" + digits ==> s[1..] == digits;
  }

  // ---------------------------------------------------------------- records

  /** The fields say this: each that is demanded is there, the numbers are numerals that fit, and
      the new kinds of trees name their leaves. */
  ghost predicate Says(m: map<string, string>, p: Params) {
    && "kind" in m && p.kind == NormalizeKind(m["kind"]) && "ty" in m && p.scalar == ToLower(m["ty"])
    && "strategy" in m && p.strategy == NormalizeStrategy(m["strategy"])
    && p.leaf == (if "leaf" in m then Some(ToLower(m["leaf"])) else None)
    && (StripPrefix(p.kind, "v6_").Some? ==> p.leaf.Some?)
    && SaysNumber(m, "b", p.b) && SaysNumber(m, "k", p.k) && SaysNumber(m, "size", p.size)
    && SaysNumber(m, "content_seed", p.contentSeed) && SaysNumber(m, "query_seed", p.querySeed)
  }

  ghost predicate SaysNumber(m: map<string, string>, key: string, n: nat) {
    key in m && n < WORD_LIMIT && Numeral(m[key], n)
  }

  lemma NumberExactly(m: map<string, string>, key: string, n: nat)
    ensures Number(m, key) == Some(n) <==> SaysNumber(m, key, n)
  {
    if key in m {
      ParseUintExactly(m[key], n);
    }
  }

  lemma FromFieldsExactly(m: map<string, string>, p: Params)
    ensures FromFields(m) == Some(p) <==> Says(m, p)
  {
    NumberExactly(m, "b", p.b);
    NumberExactly(m, "k", p.k);
    NumberExactly(m, "size", p.size);
    NumberExactly(m, "content_seed", p.contentSeed);
    NumberExactly(m, "query_seed", p.querySeed);
  }

  // ---------------------------------------------------------------- spellings

  ghost predicate Blank(s: string) {
    forall i :: 0 <= i < |s| ==> IsWhiteSpace(s[i])
  }

  lemma {:induction false} TrimFront(space: string, s: string)
    requires Blank(space) && s != "" && !IsWhiteSpace(s[0])
    ensures TrimStart(space + s) == s
  {
    if space == "" {
      assert space + s == s;
    } else {
      assert (space + s)[1..] == space[1..] + s;
      TrimFront(space[1..], s);
    }
  }

  lemma {:induction false} TrimBack(s: string, space: string)
    requires Blank(space) && s != "" && !IsWhiteSpace(s[|s| - 1])
    ensures TrimEnd(s + space) == s
  {
    if space == "" {
      assert s + space == s;
    } else {
      assert (s + space)[..|s + space| - 1] == s + space[..|space| - 1];
      TrimBack(s, space[..|space| - 1]);
    }
  }

  lemma Trimmed(before: string, s: string, after: string)
    requires Blank(before) && Blank(after) && s != "" && NoSpace(s)
    ensures TrimEnd(TrimStart(before + s + after)) == s
  {
    assert before + s + after == before + (s + after);
    TrimFront(before, s + after);
    TrimBack(s, after);
  }

  /** An identifier, perhaps with spaces around it and after `repro=`. */
  ghost predicate IsSpelling(input: string, id: string) {
    exists before: string, after: string ::
      Blank(before) && Blank(after) && (input == before + id + after || input == before + ("repro=" + id) + after)
  }

  /** Parsing any spelling of any order of segments gives what the fields say, or nothing when they
      say nothing; of two segments with one key the later counts. */
  lemma ParseExactly(input: string, fields: seq<Field>, p: Params)
    requires fields != [] && forall i :: 0 <= i < |fields| ==> fields[i].key in KEYS && Bare(fields[i].value)
    requires IsSpelling(input, Write(fields))
    ensures Parse(input) == Some(p) <==> Says(AsMap(fields), p)
  {
    ParseOfSpelling(input, fields);
    FromFieldsExactly(AsMap(fields), p);
  }

  lemma ParseOfSpelling(input: string, fields: seq<Field>)
    requires fields != [] && forall i :: 0 <= i < |fields| ==> fields[i].key in KEYS && Bare(fields[i].value)
    requires IsSpelling(input, Write(fields))
    ensures Parse(input) == FromFields(AsMap(fields))
  {
    WrittenText(fields);
    CollectsWritten(fields);
    SpellingIsTrimmed(input, Write(fields));
    ParseOfTrimmed(input, Write(fields), Segments(fields), AsMap(fields));
  }

  ghost function Stripped(s: string): string {
    match StripPrefix(s, "repro=") case Some(rest) => rest case None => s
  }

  lemma SpellingIsTrimmed(input: string, id: string)
    requires IsSpelling(input, id) && NoSpace(id) && id != "" && StripPrefix(id, "repro=").None?
    ensures Stripped(TrimEnd(TrimStart(input))) == id
  {
    var before: string, after: string :|
      Blank(before) && Blank(after) && (input == before + id + after || input == before + ("repro=" + id) + after);
    if input == before + id + after {
      Trimmed(before, id, after);
    } else {
      var marked := "repro=" + id;
      Trimmed(before, marked, after);
      assert marked[..6] == "repro=" && marked[6..] == id;
    }
  }

  lemma ParseOfTrimmed(input: string, id: string, parts: seq<string>, fields: map<string, string>)
    requires Stripped(TrimEnd(TrimStart(input))) == id && StripPrefix(id, "failure-").Some?
    requires Split(id, '-') == ["failure"] + parts && CollectFields(parts) == Some(fields)
    ensures Parse(input) == FromFields(fields)
  {
    assert Split(id, '-')[1..] == parts;
  }

  /** What does not start with the word for a failure, or holds a segment of another form, is
      refused. */
  lemma OtherIdsAreRefused(id: string, parts: seq<string>, n: nat)
    requires NoSpace(id) && id != "" && StripPrefix(id, "repro=").None?
    requires StripPrefix(id, "failure-").None? || (Split(id, '-') == ["failure"] + parts && n < |parts| && MatchKey(parts[n], KEYS).None?)
    ensures Parse(id) == None
  {
    TrimKeeps(id);
    if StripPrefix(id, "failure-").Some? {
      assert Split(id, '-')[1..] == parts;
      UnknownSegment(parts, n);
    }
  }

  lemma {:induction false} UnknownSegment(parts: seq<string>, n: nat)
    requires n < |parts| && MatchKey(parts[n], KEYS).None?
    ensures CollectFields(parts) == None
  {
    if n < |parts| - 1 {
      UnknownSegment(parts[..|parts| - 1], n);
    }
  }
}

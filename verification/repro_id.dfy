/** Failure identifiers of the fuzz tests (examples/fuzz-case-repro.rs, `parse_repro_id`). */
module ReproId {
  import opened Options
  import opened Whitespace

  datatype Params = Params(kind: string, leaf: Option<string>, scalar: string, strategy: string,
                           b: nat, k: nat, size: nat, contentSeed: nat, querySeed: nat)

  datatype Field = Field(key: string, value: string)

  const WORD_LIMIT := 0x1_0000_0000_0000_0000

  /** In the order in which a segment is matched against them. */
  const KEYS: seq<string> := ["content_seed", "query_seed", "strategy", "kind", "leaf", "ty", "size", "b", "k"]

  // ---------------------------------------------------------------- text

  function Split(s: string, sep: char): (r: seq<string>)
    ensures r != []
  {
    if s == "" then [""]
    else
      var rest := Split(s[1..], sep);
      if s[0] == sep then [""] + rest else [[s[0]] + rest[0]] + rest[1..]
  }

  /** The parts, each preceded by the separator except the first. */
  function Join(parts: seq<string>, sep: char): string {
    if parts == [] then "" else if |parts| == 1 then parts[0] else parts[0] + [sep] + Join(parts[1..], sep)
  }

  predicate Without(s: string, c: char) {
    forall i :: 0 <= i < |s| ==> s[i] != c
  }

  lemma {:induction false} SplitOfPart(part: string, rest: string, sep: char)
    requires Without(part, sep)
    ensures Split(part, sep) == [part]
    ensures Split(part + [sep] + rest, sep) == [part] + Split(rest, sep)
  {
    if part == "" {
      assert (part + [sep] + rest)[1..] == rest;
    } else {
      SplitOfPart(part[1..], rest, sep);
      assert (part + [sep] + rest)[1..] == part[1..] + [sep] + rest;
      assert [part[0]] + part[1..] == part;
    }
  }

  /** Splitting undoes joining. */
  lemma {:induction false} SplitOfJoin(parts: seq<string>, sep: char)
    requires parts != [] && forall i :: 0 <= i < |parts| ==> Without(parts[i], sep)
    ensures Split(Join(parts, sep), sep) == parts
  {
    if |parts| == 1 {
      SplitOfPart(parts[0], "", sep);
    } else {
      SplitOfJoin(parts[1..], sep);
      SplitOfPart(parts[0], Join(parts[1..], sep), sep);
    }
  }

  function TrimStart(s: string): string {
    if s != "" && IsWhiteSpace(s[0]) then TrimStart(s[1..]) else s
  }

  function TrimEnd(s: string): string {
    if s != "" && IsWhiteSpace(s[|s| - 1]) then TrimEnd(s[..|s| - 1]) else s
  }

  function StripPrefix(s: string, prefix: string): Option<string> {
    if |prefix| <= |s| && s[..|prefix|] == prefix then Some(s[|prefix|..]) else None
  }

  function ToLower(s: string): (r: string)
    ensures |r| == |s|
  {
    seq(|s|, i requires 0 <= i < |s| => if 'A' <= s[i] <= 'Z' then s[i] - 'A' + 'a' else s[i])
  }

  function HyphensToUnderscores(s: string): (r: string)
    ensures |r| == |s|
  {
    seq(|s|, i requires 0 <= i < |s| => if s[i] == '-' then '_' else s[i])
  }

  // ---------------------------------------------------------------- numbers

  predicate IsDigit(c: char) {
    '0' <= c <= '9'
  }

  function Digit(c: char): nat
    requires IsDigit(c)
  {
    c as int - '0' as int
  }

  predicate AllDigits(s: string) {
    forall i :: 0 <= i < |s| ==> IsDigit(s[i])
  }

  function Value(s: string): nat
    requires AllDigits(s)
  {
    if s == "" then 0 else Value(s[..|s| - 1]) * 10 + Digit(s[|s| - 1])
  }

  /** `str::parse` for 64-bit unsigned integers. */
  function ParseUint(s: string): Option<nat> {
    var digits := if s != "" && s[0] == '+' then s[1..] else s;
    if digits != "" && AllDigits(digits) && Value(digits) < WORD_LIMIT then Some(Value(digits)) else None
  }

  function Decimal(n: nat): (s: string)
    ensures s != "" && AllDigits(s)
  {
    var last := [(n % 10) as char + '0'];
    if n < 10 then last else Decimal(n / 10) + last
  }

  lemma {:induction false} DecimalValue(n: nat)
    ensures Value(Decimal(n)) == n
  {
    var s := Decimal(n);
    if n >= 10 {
      DecimalValue(n / 10);
      assert s[..|s| - 1] == Decimal(n / 10);
    } else {
      assert s[..0] == "";
    }
  }

  lemma ParseOfDecimal(n: nat)
    requires n < WORD_LIMIT
    ensures ParseUint(Decimal(n)) == Some(n)
  {
    DecimalValue(n);
    assert IsDigit(Decimal(n)[0]);
  }

  // ---------------------------------------------------------------- the parser

  /** The first key that, followed by an underscore, starts the segment. */
  function MatchKey(part: string, keys: seq<string>): Option<Field> {
    if keys == [] then None
    else match StripPrefix(part, keys[0] + "_")
         case Some(value) => Some(Field(keys[0], value))
         case None => MatchKey(part, keys[1..])
  }

  function CollectFields(parts: seq<string>): Option<map<string, string>> {
    if parts == [] then Some(map[])
    else match CollectFields(parts[..|parts| - 1])
         case None => None
         case Some(m) =>
           match MatchKey(parts[|parts| - 1], KEYS)
           case None => None
           case Some(f) => Some(m[f.key := f.value])
  }

  function NormalizeKind(value: string): string {
    HyphensToUnderscores(ToLower(value))
  }

  function NormalizeStrategy(value: string): string {
    var lower := ToLower(value);
    if lower in ["donnellysimd", "donnelly_simd", "donnelly-simd"] then "donnelly_simd"
    else if lower in ["donnellysimdblock3", "donnelly_simd_block3", "donnelly-simd-block3"] then "donnelly_simd_block3"
    else if lower in ["donnellysimdblock4", "donnelly_simd_block4", "donnelly-simd-block4"] then "donnelly_simd_block4"
    else lower
  }

  function Number(fields: map<string, string>, key: string): Option<nat> {
    if key in fields then ParseUint(fields[key]) else None
  }

  function FromFields(fields: map<string, string>): Option<Params> {
    if "kind" !in fields || "ty" !in fields || "strategy" !in fields then None
    else
      var kind := NormalizeKind(fields["kind"]);
      var leaf := if "leaf" in fields then Some(ToLower(fields["leaf"])) else None;
      var b, k, size := Number(fields, "b"), Number(fields, "k"), Number(fields, "size");
      var contentSeed, querySeed := Number(fields, "content_seed"), Number(fields, "query_seed");
      if b.None? || k.None? || size.None? || contentSeed.None? || querySeed.None? then None
      else if StripPrefix(kind, "v6_").Some? && leaf.None? then None
      else Some(Params(kind, leaf, ToLower(fields["ty"]), NormalizeStrategy(fields["strategy"]),
                       b.value, k.value, size.value, contentSeed.value, querySeed.value))
  }

  /** `parse_repro_id`; every error is `None`. */
  function Parse(input: string): Option<Params> {
    var trimmed := TrimEnd(TrimStart(input));
    var id := match StripPrefix(trimmed, "repro=") case Some(rest) => rest case None => trimmed;
    if StripPrefix(id, "failure-").None? then None
    else match CollectFields(Split(id, '-')[1..])
         case None => None
         case Some(fields) => FromFields(fields)
  }

  // ---------------------------------------------------------------- writing

  function Segment(f: Field): string {
    f.key + "_" + f.value
  }

  function Segments(fields: seq<Field>): (r: seq<string>)
    ensures |r| == |fields| && forall i :: 0 <= i < |r| ==> r[i] == Segment(fields[i])
  {
    seq(|fields|, i requires 0 <= i < |fields| => Segment(fields[i]))
  }

  /** The documented form: `failure`, then `key_value` segments. */
  function Write(fields: seq<Field>): string {
    Join(["failure"] + Segments(fields), '-')
  }

  function FieldsOf(p: Params): map<string, string> {
    var required := map["kind" := p.kind, "ty" := p.scalar, "strategy" := p.strategy, "b" := Decimal(p.b), "k" := Decimal(p.k),
                        "size" := Decimal(p.size), "content_seed" := Decimal(p.contentSeed), "query_seed" := Decimal(p.querySeed)];
    if p.leaf.Some? then required["leaf" := p.leaf.value] else required
  }

  function AsMap(fields: seq<Field>): map<string, string> {
    if fields == [] then map[] else AsMap(fields[..|fields| - 1])[fields[|fields| - 1].key := fields[|fields| - 1].value]
  }

  /** Lower-case, without hyphens or spaces. */
  predicate Plain(s: string) {
    forall i :: 0 <= i < |s| ==> s[i] != '-' && !IsWhiteSpace(s[i]) && !('A' <= s[i] <= 'Z')
  }

  /** Already normalised, with numbers that fit and a leaf where one is demanded. */
  predicate Normal(p: Params) {
    && Plain(p.kind) && Plain(p.scalar) && Plain(p.strategy) && (p.leaf.Some? ==> Plain(p.leaf.value))
    && NormalizeStrategy(p.strategy) == p.strategy
    && (StripPrefix(p.kind, "v6_").Some? ==> p.leaf.Some?)
    && p.b < WORD_LIMIT && p.k < WORD_LIMIT && p.size < WORD_LIMIT
    && p.contentSeed < WORD_LIMIT && p.querySeed < WORD_LIMIT
  }

  // ---------------------------------------------------------------- round trip

  /** The two characters that start a key's segments; no two keys share them. */
  function Head(key: string): string
    requires key != ""
  {
    (key + "_")[..2]
  }

  lemma HeadsDiffer(i: nat, j: nat)
    requires i < j < |KEYS|
    ensures KEYS[i] != "" && KEYS[j] != "" && Head(KEYS[i]) != Head(KEYS[j])
  {
    var heads := ["co", "qu", "st", "ki", "le", "ty", "si", "b_", "k_"];
    assert forall n :: 0 <= n < 9 ==> KEYS[n] != "" && Head(KEYS[n]) == heads[n];
  }

  lemma HeadOfPrefix(part: string, key: string)
    requires key != "" && StripPrefix(part, key + "_").Some?
    ensures |part| >= 2 && part[..2] == Head(key)
  {
    var prefix := key + "_";
    assert part[..|prefix|] == prefix;
    assert part[..2] == prefix[..2];
  }

  /** A segment matches its own key and no earlier one. */
  lemma {:induction false} MatchesOwnKey(n: nat, value: string, from: nat)
    requires from <= n < |KEYS|
    ensures MatchKey(Segment(Field(KEYS[n], value)), KEYS[from..]) == Some(Field(KEYS[n], value))
    decreases n - from
  {
    var part, prefix := Segment(Field(KEYS[n], value)), KEYS[n] + "_";
    assert part[..|prefix|] == prefix && part[|prefix|..] == value;
    assert KEYS[from..][0] == KEYS[from] && KEYS[from..][1..] == KEYS[from + 1..];
    if from < n {
      HeadsDiffer(from, n);
      HeadOfPrefix(part, KEYS[n]);
      if StripPrefix(part, KEYS[from] + "_").Some? {
        HeadOfPrefix(part, KEYS[from]);
      }
      MatchesOwnKey(n, value, from + 1);
    }
  }

  lemma {:induction false} CollectsWritten(fields: seq<Field>)
    requires forall i :: 0 <= i < |fields| ==> fields[i].key in KEYS
    ensures CollectFields(Segments(fields)) == Some(AsMap(fields))
  {
    if fields != [] {
      var n := |fields| - 1;
      CollectsWritten(fields[..n]);
      assert Segments(fields)[..n] == Segments(fields[..n]);
      var i :| 0 <= i < |KEYS| && KEYS[i] == fields[n].key;
      MatchesOwnKey(i, fields[n].value, 0);
      assert KEYS[0..] == KEYS;
    }
  }

  predicate NoSpace(s: string) {
    forall i :: 0 <= i < |s| ==> !IsWhiteSpace(s[i])
  }

  lemma TrimKeeps(s: string)
    requires NoSpace(s)
    ensures TrimEnd(TrimStart(s)) == s
  {
  }

  lemma {:induction false} JoinHasNoSpace(parts: seq<string>)
    requires forall i :: 0 <= i < |parts| ==> NoSpace(parts[i])
    ensures NoSpace(Join(parts, '-'))
  {
    if |parts| > 1 {
      JoinHasNoSpace(parts[1..]);
    }
  }

  lemma KeysArePlain(key: string)
    requires key in KEYS
    ensures Without(key, '-') && NoSpace(key)
  {
    assert forall i :: 0 <= i < 9 ==> Without(KEYS[i], '-') && NoSpace(KEYS[i]);
  }

  /** Without hyphens or spaces, in any case. */
  predicate Bare(s: string) {
    Without(s, '-') && NoSpace(s)
  }

  lemma SegmentIsPlain(f: Field)
    requires f.key in KEYS && Bare(f.value)
    ensures Without(Segment(f), '-') && NoSpace(Segment(f))
  {
    KeysArePlain(f.key);
  }

  lemma PlainIsLower(s: string)
    requires Plain(s)
    ensures ToLower(s) == s && HyphensToUnderscores(s) == s
  {
  }

  lemma FieldsGiveParams(p: Params)
    requires Normal(p)
    ensures FromFields(FieldsOf(p)) == Some(p)
  {
    PlainIsLower(p.kind);
    PlainIsLower(p.scalar);
    if p.leaf.Some? { PlainIsLower(p.leaf.value); }
    ParseOfDecimal(p.b);
    ParseOfDecimal(p.k);
    ParseOfDecimal(p.size);
    ParseOfDecimal(p.contentSeed);
    ParseOfDecimal(p.querySeed);
    FieldValues(p);
  }

  lemma FieldValues(p: Params)
    ensures var m := FieldsOf(p);
            && "kind" in m && m["kind"] == p.kind && "ty" in m && m["ty"] == p.scalar
            && "strategy" in m && m["strategy"] == p.strategy
            && ("leaf" in m <==> p.leaf.Some?) && (p.leaf.Some? ==> m["leaf"] == p.leaf.value)
            && "b" in m && m["b"] == Decimal(p.b) && "k" in m && m["k"] == Decimal(p.k) && "size" in m && m["size"] == Decimal(p.size)
            && "content_seed" in m && m["content_seed"] == Decimal(p.contentSeed)
            && "query_seed" in m && m["query_seed"] == Decimal(p.querySeed)
  {
  }

  lemma WrittenText(fields: seq<Field>)
    requires fields != [] && forall i :: 0 <= i < |fields| ==> fields[i].key in KEYS && Bare(fields[i].value)
    ensures NoSpace(Write(fields))
    ensures StripPrefix(Write(fields), "failure-").Some? && StripPrefix(Write(fields), "repro=").None?
    ensures Split(Write(fields), '-') == ["failure"] + Segments(fields)
  {
    var parts := ["failure"] + Segments(fields);
    forall i | 0 <= i < |parts| ensures Without(parts[i], '-') && NoSpace(parts[i]) {
      if i > 0 { SegmentIsPlain(fields[i - 1]); }
    }
    SplitOfJoin(parts, '-');
    JoinHasNoSpace(parts);
    assert parts[1..] == Segments(fields);
    assert Write(fields) == "failure" + ['-'] + Join(parts[1..], '-');
    assert Write(fields)[..8] == "failure-";
    assert Write(fields)[0] == 'f';
  }

  lemma ParseOfId(id: string, parts: seq<string>, fields: map<string, string>)
    requires NoSpace(id) && StripPrefix(id, "failure-").Some? && StripPrefix(id, "repro=").None?
    requires Split(id, '-') == ["failure"] + parts && CollectFields(parts) == Some(fields)
    ensures Parse(id) == FromFields(fields)
  {
    TrimKeeps(id);
    assert Split(id, '-')[1..] == parts;
  }

  lemma PlainIsBare(fields: seq<Field>)
    requires forall i :: 0 <= i < |fields| ==> Plain(fields[i].value)
    ensures forall i :: 0 <= i < |fields| ==> Bare(fields[i].value)
  {
    forall i | 0 <= i < |fields| ensures Bare(fields[i].value) {
      assert Plain(fields[i].value);
    }
  }

  /** Parsing undoes writing, whatever the order of the segments. */
  lemma ParseOfWrite(p: Params, fields: seq<Field>)
    requires Normal(p) && AsMap(fields) == FieldsOf(p)
    requires forall i :: 0 <= i < |fields| ==> fields[i].key in KEYS && Plain(fields[i].value)
    ensures Parse(Write(fields)) == Some(p)
  {
    FieldValues(p);
    PlainIsBare(fields);
    WrittenText(fields);
    CollectsWritten(fields);
    ParseOfId(Write(fields), Segments(fields), FieldsOf(p));
    FieldsGiveParams(p);
  }
}

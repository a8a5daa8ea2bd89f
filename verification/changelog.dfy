/** Rewriting the introduction of the newest release (scripts/update_release_intro.py). Text is
    a string; the regular expressions are written out as searches. */
module Changelog {
  import opened Options
  import opened Whitespace

  const START := "<!-- release-intro:start -->"
  const END := "<!-- release-intro:end -->"

  predicate StartsAt(s: string, i: nat, p: string) {
    i + |p| <= |s| && forall j :: 0 <= j < |p| ==> s[i + j] == p[j]
  }

  /** `^` in multi-line mode. */
  predicate LineStart(s: string, i: nat) {
    i == 0 || (i <= |s| && s[i - 1] == '\n')
  }

  function EndOfLine(s: string, i: nat): (e: nat)
    requires i <= |s|
    ensures i <= e <= |s| && (e < |s| ==> s[e] == '\n') && forall j :: i <= j < e ==> s[j] != '\n'
    decreases |s| - i
  {
    if i == |s| || s[i] == '\n' then i else EndOfLine(s, i + 1)
  }

  // ---------------------------------------------------------------- headings

  /** `## \[[^\n]+\].*\n` at the start of a line. */
  ghost predicate IsRelease(s: string, i: nat)
    requires i <= |s|
  {
    && LineStart(s, i) && StartsAt(s, i, "## [") && EndOfLine(s, i) < |s|
    && exists p :: i + 5 <= p < EndOfLine(s, i) && s[p] == ']'
  }

  /** The end of the first release heading from `i` on. */
  ghost function HeadingEnd(s: string, i: nat): (h: Option<nat>)
    requires i <= |s|
    ensures h.Some? ==> i < h.value <= |s| && s[h.value - 1] == '\n'
    decreases |s| - i
  {
    if i == |s| then None else if IsRelease(s, i) then Some(EndOfLine(s, i) + 1) else HeadingEnd(s, i + 1)
  }

  /** The next `## ` line from `i` on, or the end of the text. */
  function NextH2(s: string, i: nat): (e: nat)
    requires i <= |s|
    ensures i <= e <= |s| && (e < |s| ==> LineStart(s, e) && StartsAt(s, e, "## "))
    ensures forall j :: i <= j < e ==> !(LineStart(s, j) && StartsAt(s, j, "## "))
    decreases |s| - i
  {
    if i == |s| || (LineStart(s, i) && StartsAt(s, i, "## ")) then i else NextH2(s, i + 1)
  }

  // ---------------------------------------------------------------- intro blocks

  /** The least position from `i` on where `p` starts. */
  function Find(s: string, i: nat, p: string): (r: Option<nat>)
    ensures r.Some? ==> i <= r.value && StartsAt(s, r.value, p) && forall j :: i <= j < r.value ==> !StartsAt(s, j, p)
    decreases |s| - i
  {
    if i >= |s| then None else if StartsAt(s, i, p) then Some(i) else Find(s, i + 1, p)
  }

  /** The end of a block whose start line is at `i`: as little as possible up to an end line,
      and an optional newline. */
  function BlockFrom(s: string, i: nat): (e: Option<nat>)
    ensures e.Some? ==> i < e.value <= |s|
  {
    if !StartsAt(s, i, START + "\n") then None
    else match Find(s, i + |START| + 1, "\n" + END)
         case None => None
         case Some(q) =>
           var e := q + 1 + |END|;
           Some(if e < |s| && s[e] == '\n' then e + 1 else e)
  }

  /** The end of a match at the front, where a newline before the block is optional. */
  function BlockEnd(s: string): (e: Option<nat>)
    ensures e.Some? ==> 0 < e.value <= |s|
  {
    BlockFrom(s, if s != "" && s[0] == '\n' then 1 else 0)
  }

  /** `INTRO_BLOCK_RE.sub("\n", s)`. */
  function Sub(s: string): string {
    if s == "" then ""
    else match BlockEnd(s)
         case Some(e) => "\n" + Sub(s[e..])
         case None => [s[0]] + Sub(s[1..])
  }

  function LStrip(s: string): (r: string)
    ensures r == "" || r[0] != '\n'
  {
    if s != "" && s[0] == '\n' then LStrip(s[1..]) else s
  }

  function RStrip(s: string): string {
    if s != "" && IsPythonSpace(s[|s| - 1]) then RStrip(s[..|s| - 1]) else s
  }

  /** `clean_intro_markers`. */
  function Clean(body: string): string {
    LStrip(Sub(body))
  }

  /** `render_intro_block`. */
  function Render(intro: string): string {
    var text := RStrip(intro);
    if text == "" then "" else START + "\n" + text + "\n" + END + "\n\n"
  }

  /** `update_changelog`; no release heading is `None`. */
  ghost function Update(changelog: string, intro: string): Option<string> {
    match HeadingEnd(changelog, 0)
    case None => None
    case Some(h) =>
      var e := NextH2(changelog, h);
      Some(changelog[..h] + NewBody(intro, changelog[h..e]) + changelog[e..])
  }

  function NewBody(intro: string, body: string): string {
    "\n" + Render(intro) + Clean(body)
  }

  // ---------------------------------------------------------------- cleaning undoes rendering

  ghost predicate Free(s: string, p: string) {
    forall i :: 0 <= i <= |s| ==> !StartsAt(s, i, p)
  }

  lemma StartsWithPart(s: string, i: nat, p: string, q: string)
    requires StartsAt(s, i, p + q)
    ensures StartsAt(s, i, p) && StartsAt(s, i + |p|, q)
  {
    forall j | 0 <= j < |p| ensures s[i + j] == p[j] {
      assert (p + q)[j] == p[j];
    }
    forall j | 0 <= j < |q| ensures s[i + |p| + j] == q[j] {
      assert s[i + (|p| + j)] == (p + q)[|p| + j];
    }
  }

  lemma StartsInTail(s: string, n: nat, j: nat, p: string)
    requires n <= |s|
    ensures StartsAt(s[n..], j, p) <==> StartsAt(s, n + j, p)
  {
    if StartsAt(s[n..], j, p) {
      forall k | 0 <= k < |p| ensures s[n + j + k] == p[k] {
        assert s[n..][j + k] == p[k];
      }
    }
    if StartsAt(s, n + j, p) {
      forall k | 0 <= k < |p| ensures s[n..][j + k] == p[k] {
        assert s[n + j + k] == p[k];
      }
    }
  }

  lemma {:induction false} SubOfFree(s: string)
    requires Free(s, START)
    ensures Sub(s) == s
  {
    if s != "" {
      var i := if s[0] == '\n' then 1 else 0;
      if StartsAt(s, i, START + "\n") {
        StartsWithPart(s, i, START, "\n");
      }
      FreeTail(s, 1, START);
      SubOfFree(s[1..]);
    }
  }

  lemma {:induction false} LStripIsTail(s: string)
    ensures |LStrip(s)| <= |s| && LStrip(s) == s[|s| - |LStrip(s)|..]
  {
    if s != "" && s[0] == '\n' {
      LStripIsTail(s[1..]);
      assert s[1..][|s| - 1 - |LStrip(s)|..] == s[|s| - |LStrip(s)|..];
    }
  }

  lemma FreeTail(s: string, n: nat, p: string)
    requires n <= |s| && Free(s, p)
    ensures Free(s[n..], p)
  {
    forall j | 0 <= j <= |s[n..]| ensures !StartsAt(s[n..], j, p) {
      StartsInTail(s, n, j, p);
    }
  }

  lemma FreeAfterNewline(s: string, p: string)
    requires Free(s, p) && p != "" && p[0] != '\n'
    ensures Free("\n" + s, p)
  {
    var t := "\n" + s;
    assert t[1..] == s;
    forall j | 0 <= j <= |t| ensures !StartsAt(t, j, p) {
      if j == 0 {
        assert t[0 + 0] != p[0];
      } else {
        StartsInTail(t, 1, j - 1, p);
      }
    }
  }

  /** The block written for an intro ends where it was closed, because the intro does not
      contain the end marker. */
  lemma WrittenBlockEnds(text: string, rest: string)
    requires Free(text, END)
    ensures BlockEnd("\n" + (START + "\n" + text + "\n" + END + "\n\n") + rest) == Some(1 + |START| + 1 + |text| + 1 + |END| + 1)
  {
    var s := "\n" + (START + "\n" + text + "\n" + END + "\n\n") + rest;
    var p := 1 + |START| + 1;
    WrittenParts(START, text, END, rest);
    assert s[p + |text|] == '\n';
    forall j | p <= j < p + |text| ensures !StartsAt(s, j, "\n" + END) {
      NoEarlierEnd(s, text, p, j);
    }
    FindIs(s, p, p + |text|, "\n" + END);
  }

  lemma WrittenParts(open: string, text: string, close: string, rest: string)
    ensures var s := "\n" + (open + "\n" + text + "\n" + close + "\n\n") + rest;
            var p := 1 + |open| + 1;
            && StartsAt(s, 1, open + "\n") && StartsAt(s, p + |text|, "\n" + close)
            && s[p..p + |text|] == text && s[p + |text| + 1 + |close|] == '\n'
            && s[p + |text| + 1 + |close| + 1..] == "\n" + rest
  {
    var s := "\n" + (open + "\n" + text + "\n" + close + "\n\n") + rest;
    var p := 1 + |open| + 1;
    assert s == ("\n" + (open + "\n")) + (text + ("\n" + close) + ("\n\n" + rest));
    assert s[1..p] == open + "\n";
    assert s[p..p + |text|] == text;
    assert s[p + |text|..p + |text| + 1 + |close|] == "\n" + close;
    assert s[p + |text| + 1 + |close|..] == "\n\n" + rest;
    SliceStarts(s, 1, p);
    SliceStarts(s, p + |text|, p + |text| + 1 + |close|);
  }

  lemma SliceStarts(s: string, i: nat, j: nat)
    requires i <= j <= |s|
    ensures StartsAt(s, i, s[i..j])
  {
  }

  lemma {:induction false} FindIs(s: string, i: nat, at: nat, p: string)
    requires i <= at && p != "" && StartsAt(s, at, p) && forall j :: i <= j < at ==> !StartsAt(s, j, p)
    ensures Find(s, i, p) == Some(at)
    decreases at - i
  {
    if i < at {
      FindIs(s, i + 1, at, p);
    }
  }

  /** A string without newlines that starts before a newline ends before it. */
  lemma EndsBeforeNewline(s: string, i: nat, m: nat, p: string)
    requires StartsAt(s, i, p) && i <= m < |s| && s[m] == '\n'
    requires forall k :: 0 <= k < |p| ==> p[k] != '\n'
    ensures i + |p| <= m
  {
    if m < i + |p| {
      SameChar(s, i, p, m - i);
    }
  }

  lemma SameChar(s: string, i: nat, p: string, k: nat)
    requires StartsAt(s, i, p) && k < |p|
    ensures s[i + k] == p[k]
  {
  }

  /** An end line that starts inside the text is an end marker of the text. */
  lemma EndIsInside(s: string, text: string, p: nat, j: nat)
    requires p + |text| < |s| && s[p..p + |text|] == text && s[p + |text|] == '\n' && p <= j < p + |text|
    requires StartsAt(s, j, "\n" + END)
    ensures StartsAt(text, j + 1 - p, END)
  {
    StartsWithPart(s, j, "\n", END);
    EndHasNoNewline();
    EndsBeforeNewline(s, j + 1, p + |text|, END);
    forall k | 0 <= k < |END| ensures text[j + 1 - p + k] == END[k] {
      assert s[p..p + |text|][j + 1 - p + k] == s[j + 1 + k];
    }
  }

  lemma NoEarlierEnd(s: string, text: string, p: nat, j: nat)
    requires p + |text| < |s| && s[p..p + |text|] == text && s[p + |text|] == '\n' && p <= j < p + |text|
    requires Free(text, END)
    ensures !StartsAt(s, j, "\n" + END)
  {
    if StartsAt(s, j, "\n" + END) {
      EndIsInside(s, text, p, j);
    }
  }

  lemma EndHasNoNewline()
    ensures forall i :: 0 <= i < |END| ==> END[i] != '\n'
    ensures forall i :: 0 <= i < |START| ==> START[i] != '\n'
  {
  }

  // ---------------------------------------------------------------- bodies with blocks in them

  /** Markers occur only in blocks of their own lines: every start marker begins a line and opens
      a block whose end marker ends its line. */
  ghost predicate WellMarked(body: string)
    decreases |body|
  {
    match Find(body, 0, START)
    case None => true
    case Some(i) =>
      LineStart(body, i) &&
      match BlockFrom(body, i)
      case None => false
      case Some(e) => (e == |body| || body[e - 1] == '\n') && WellMarked(body[e..])
  }

  lemma {:induction false} FindNone(s: string, i: nat, p: string, j: nat)
    requires Find(s, i, p) == None && i <= j && p != ""
    ensures !StartsAt(s, j, p)
    decreases |s| - i
  {
    if i < |s| && i < j {
      FindNone(s, i + 1, p, j);
    }
  }

  lemma {:induction false} FindInTail(s: string, i: nat, p: string)
    requires s != ""
    ensures Find(s[1..], i, p) == match Find(s, i + 1, p) case None => None case Some(q) => Some(q - 1)
    decreases |s| - i
  {
    if i + 1 < |s| {
      StartsInTail(s, 1, i, p);
      FindInTail(s, i + 1, p);
    }
  }

  lemma BlockInTail(s: string, i: nat)
    requires s != ""
    ensures BlockFrom(s[1..], i) == match BlockFrom(s, i + 1) case None => None case Some(e) => Some(e - 1)
  {
    StartsInTail(s, 1, i, START + "\n");
    FindInTail(s, i + |START| + 1, "\n" + END);
  }

  lemma BlockStarts(s: string, i: nat)
    requires BlockFrom(s, i).Some?
    ensures StartsAt(s, i, START)
  {
    StartsWithPart(s, i, START, "\n");
  }

  lemma StartIsNoNewline(s: string, i: nat)
    requires StartsAt(s, i, START)
    ensures i < |s| && s[i] != '\n'
  {
    assert s[i + 0] == START[0];
  }

  /** One step of the substitution where the front is not the start of a block. */
  lemma SubSkips(s: string)
    requires s != "" && !StartsAt(s, 0, START) && !StartsAt(s, 1, START)
    ensures Sub(s) == [s[0]] + Sub(s[1..])
  {
    if BlockFrom(s, 0).Some? {
      BlockStarts(s, 0);
    }
    if BlockFrom(s, 1).Some? {
      BlockStarts(s, 1);
    }
  }

  /** No start marker before `i`, and a block of its own lines at `i`. */
  ghost predicate FirstBlock(s: string, i: nat, e: nat) {
    && StartsAt(s, i, START) && LineStart(s, i) && BlockFrom(s, i) == Some(e)
    && forall j :: 0 <= j < i ==> !StartsAt(s, j, START)
  }

  /** The same, as one fact about the text. */
  ghost predicate HasFirstBlock(s: string, i: nat, e: nat) {
    forall t: string :: t == s ==> FirstBlock(t, i, e)
  }

  /** The substitution copies the text before the block, whose newline it keeps, and goes on
      after it. */
  ghost predicate Joins(s: string, i: nat, e: nat) {
    i <= e <= |s| && Sub(s) == UpToBlock(s, i) + Sub(s[e..])
  }

  ghost predicate JoinsAt(s: string, i: nat, e: nat) {
    forall t: string :: t == s ==> Joins(t, i, e)
  }

  lemma {:induction false} JoinsAtBlock(s: string, i: nat, e: nat)
    requires HasFirstBlock(s, i, e)
    ensures JoinsAt(s, i, e)
    decreases i, 1
  {
    if i <= 1 {
      SubMatches(s, i, e);
    } else {
      JoinsBeforeBlock(s, i, e);
    }
  }

  lemma {:induction false} JoinsBeforeBlock(s: string, i: nat, e: nat)
    requires i > 1 && HasFirstBlock(s, i, e)
    ensures JoinsAt(s, i, e)
    decreases i, 0
  {
    FirstBlockInTail(s, i, e);
    JoinsAtBlock(s[1..], i - 1, e - 1);
    SkipJoins(s, i, e);
  }

  lemma SubAtBlock(s: string, i: nat, e: nat)
    requires FirstBlock(s, i, e)
    ensures i <= e <= |s| && Sub(s) == UpToBlock(s, i) + Sub(s[e..])
  {
    JoinsAtBlock(s, i, e);
    assert Joins(s, i, e);
  }

  function UpToBlock(s: string, i: nat): string
    requires i <= |s|
  {
    if i == 0 then "\n" else s[..i]
  }

  lemma SubMatches(s: string, i: nat, e: nat)
    requires i <= 1 && HasFirstBlock(s, i, e)
    ensures JoinsAt(s, i, e)
  {
    assert FirstBlock(s, i, e);
    StartIsNoNewline(s, i);
    assert BlockEnd(s) == Some(e);
    if i == 1 {
      assert s[..1] == "\n";
    }
  }

  lemma SkipJoins(s: string, i: nat, e: nat)
    requires 1 < i < e <= |s| && HasFirstBlock(s, i, e) && JoinsAt(s[1..], i - 1, e - 1)
    ensures JoinsAt(s, i, e)
  {
    assert FirstBlock(s, i, e);
    SubSkips(s);
    assert Joins(s[1..], i - 1, e - 1);
    TailOfTail(s, i, e, Sub(s[e..]));
  }

  lemma TailOfTail(s: string, i: nat, e: nat, rest: string)
    requires 1 < i < e <= |s|
    ensures s[1..][e - 1..] == s[e..]
    ensures [s[0]] + (UpToBlock(s[1..], i - 1) + rest) == UpToBlock(s, i) + rest
  {
    assert [s[0]] + s[1..][..i - 1] == s[..i];
  }

  lemma FirstBlockInTail(s: string, i: nat, e: nat)
    requires i > 1 && HasFirstBlock(s, i, e)
    ensures i < e <= |s| && HasFirstBlock(s[1..], i - 1, e - 1)
  {
    assert FirstBlock(s, i, e);
    StartsInTail(s, 1, i - 1, START);
    BlockInTail(s, i - 1);
    assert s[1..][i - 2] == s[i - 1];
    forall j | 0 <= j < i - 1 ensures !StartsAt(s[1..], j, START) {
      StartsInTail(s, 1, j, START);
    }
  }

  /** Nothing without newlines starts in a text that ends a line and goes beyond it. */
  lemma FreeOfJoin(a: string, b: string, p: string)
    requires Free(a, p) && Free(b, p) && a != "" && a[|a| - 1] == '\n' && p != ""
    requires forall k :: 0 <= k < |p| ==> p[k] != '\n'
    ensures Free(a + b, p)
  {
    var s := a + b;
    assert s[..|a|] == a;
    forall i | 0 <= i <= |s| ensures !StartsAt(s, i, p) {
      if i < |a| {
        if StartsAt(s, i, p) {
          EndsBeforeNewline(s, i, |a| - 1, p);
          StartsInFront(s, |a|, i, p);
        }
      } else {
        assert s[|a|..] == b;
        StartsInTail(s, |a|, i - |a|, p);
      }
    }
  }

  lemma StartsInFront(s: string, n: nat, i: nat, p: string)
    requires n <= |s|
    ensures StartsAt(s[..n], i, p) <==> StartsAt(s, i, p) && i + |p| <= n
  {
    if StartsAt(s[..n], i, p) {
      forall k | 0 <= k < |p| ensures s[i + k] == p[k] {
        SameChar(s[..n], i, p, k);
      }
    }
    if StartsAt(s, i, p) && i + |p| <= n {
      forall k | 0 <= k < |p| ensures s[..n][i + k] == p[k] {
        SameChar(s, i, p, k);
      }
    }
  }

  lemma FreeFront(s: string, i: nat, p: string)
    requires i <= |s| && p != "" && forall j :: 0 <= j < i ==> !StartsAt(s, j, p)
    ensures Free(s[..i], p)
  {
    forall j | 0 <= j <= i ensures !StartsAt(s[..i], j, p) {
      StartsInFront(s, i, j, p);
    }
  }

  predicate EndsLine(s: string) {
    s != "" ==> s[|s| - 1] == '\n'
  }

  /** Substituting leaves no start marker, no new heading line, and a line end where there was
      one. */
  lemma {:induction false} SubOfMarked(body: string)
    requires WellMarked(body)
    ensures Free(Sub(body), START) && (NoH2(body) ==> NoH2(Sub(body))) && (EndsLine(body) ==> EndsLine(Sub(body)))
    decreases |body|
  {
    match Find(body, 0, START)
    case None =>
      AllFree(body);
    case Some(i) =>
      var e := BlockFrom(body, i).value;
      FirstIsFirst(body, i, e);
      SubOfMarked(body[e..]);
      SubOfBlock(body, i, e);
  }

  lemma SubOfBlock(body: string, i: nat, e: nat)
    requires FirstBlock(body, i, e) && (e == |body| || body[e - 1] == '\n')
    requires Free(Sub(body[e..]), START) && (NoH2(body[e..]) ==> NoH2(Sub(body[e..])))
    requires EndsLine(body[e..]) ==> EndsLine(Sub(body[e..]))
    ensures Free(Sub(body), START) && (NoH2(body) ==> NoH2(Sub(body))) && (EndsLine(body) ==> EndsLine(Sub(body)))
  {
    SubAtBlock(body, i, e);
    FrontOfMarked(body, i, e);
    JoinAfterBlock(UpToBlock(body, i), Sub(body[e..]), START);
  }

  lemma FirstIsFirst(body: string, i: nat, e: nat)
    requires Find(body, 0, START) == Some(i) && LineStart(body, i) && BlockFrom(body, i) == Some(e)
    ensures FirstBlock(body, i, e)
  {
  }

  lemma AllFree(body: string)
    requires Find(body, 0, START) == None
    ensures Free(body, START) && Sub(body) == body
  {
    forall j | 0 <= j <= |body| ensures !StartsAt(body, j, START) {
      FindNone(body, 0, START, j);
    }
    SubOfFree(body);
  }

  lemma FrontOfMarked(body: string, i: nat, e: nat)
    requires FirstBlock(body, i, e) && (e == |body| || body[e - 1] == '\n')
    ensures i < e <= |body| && Free(UpToBlock(body, i), START)
    ensures NoH2(body) ==> NoH2(UpToBlock(body, i)) && NoH2(body[e..])
    ensures var front := UpToBlock(body, i); front != "" && front[|front| - 1] == '\n'
    ensures EndsLine(body) ==> EndsLine(body[e..])
    ensures START != "" && forall k :: 0 <= k < |START| ==> START[k] != '\n'
  {
    FreeFront(body, i, START);
    EndHasNoNewline();
    FreeAfterNewline("", START);
    MarkerLines();
    if NoH2(body) {
      NoH2OfParts(body, i, e);
    }
  }

  lemma JoinAfterBlock(front: string, rest: string, p: string)
    requires Free(front, p) && Free(rest, p) && front != "" && front[|front| - 1] == '\n' && p != ""
    requires forall k :: 0 <= k < |p| ==> p[k] != '\n'
    ensures Free(front + rest, p)
    ensures NoH2(front) && NoH2(rest) ==> NoH2(front + rest)
    ensures EndsLine(rest) ==> EndsLine(front + rest)
  {
    FreeOfJoin(front, rest, p);
    if NoH2(front) && NoH2(rest) {
      NoH2OfJoin(front, rest);
    }
  }

  lemma NoH2OfParts(s: string, i: nat, e: nat)
    requires NoH2(s) && i <= e <= |s| && (e == |s| || LineStart(s, e))
    ensures NoH2(s[..i]) && NoH2(s[e..])
  {
    forall j | 0 <= j <= i && LineStart(s[..i], j) ensures !StartsAt(s[..i], j, "## ") {
      InsideSlice(s, 0, i, j, "## ");
      assert s[..i] == s[0..i];
    }
    forall j | 0 <= j <= |s[e..]| && LineStart(s[e..], j) ensures !StartsAt(s[e..], j, "## ") {
      StartsInTail(s, e, j, "## ");
      assert j > 0 ==> s[e..][j - 1] == s[e + j - 1];
    }
  }

  /** Cleaning a freshly written body gives back what it was written over. */
  lemma CleanOfNewBody(intro: string, body: string)
    requires WellMarked(body) && Free(RStrip(intro), END)
    ensures Clean(NewBody(intro, body)) == Clean(body)
  {
    var cleaned := Clean(body);
    CleanedIsFree(body);
    FreeAfterNewline(cleaned, START);
    SubOfFree("\n" + cleaned);
    StripNewlines(cleaned);
    var text := RStrip(intro);
    if text == "" {
      assert NewBody(intro, body) == "\n" + cleaned;
    } else {
      SubOfWritten(text, cleaned);
    }
  }

  lemma CleanedIsFree(body: string)
    requires WellMarked(body)
    ensures Free(Clean(body), START)
  {
    var swept := Sub(body);
    SubOfMarked(body);
    LStripIsTail(swept);
    FreeTail(swept, |swept| - |LStrip(swept)|, START);
  }

  lemma SubOfWritten(text: string, cleaned: string)
    requires Free(text, END)
    ensures Sub("\n" + (START + "\n" + text + "\n" + END + "\n\n") + cleaned) == "\n" + Sub("\n" + cleaned)
  {
    var s := "\n" + (START + "\n" + text + "\n" + END + "\n\n") + cleaned;
    WrittenBlockEnds(text, cleaned);
    WrittenParts(START, text, END, cleaned);
  }

  lemma {:induction false} FreeIsMarked(s: string)
    requires Free(s, START)
    ensures WellMarked(s)
  {
    assert Find(s, 0, START).None?;
  }

  /** What an update writes is well marked again. */
  lemma NewBodyIsMarked(intro: string, body: string)
    requires WellMarked(body) && Free(RStrip(intro), END)
    ensures WellMarked(NewBody(intro, body))
  {
    var text, cleaned := RStrip(intro), Clean(body);
    CleanedIsFree(body);
    FreeAfterNewline(cleaned, START);
    FreeIsMarked("\n" + cleaned);
    if text == "" {
      assert NewBody(intro, body) == "\n" + cleaned;
    } else {
      WrittenIsMarked(text, cleaned);
    }
  }

  lemma MarkedAt(s: string, i: nat, e: nat)
    requires FirstBlock(s, i, e) && (e == |s| || s[e - 1] == '\n') && e <= |s| && WellMarked(s[e..])
    ensures WellMarked(s)
  {
    FindIs(s, 0, i, START);
  }

  lemma MarkedAfterNewline(s: string, e: nat)
    requires s != "" && s[0] == '\n' && BlockEnd(s) == Some(e) && s[e - 1] == '\n' && WellMarked(s[e..])
    ensures WellMarked(s)
  {
    BlockStarts(s, 1);
    if StartsAt(s, 0, START) {
      StartIsNoNewline(s, 0);
    }
    MarkedAt(s, 1, e);
  }

  lemma WrittenIsMarked(text: string, cleaned: string)
    requires Free(text, END) && WellMarked("\n" + cleaned)
    ensures WellMarked("\n" + (START + "\n" + text + "\n" + END + "\n\n") + cleaned)
  {
    WrittenBlockEnds(text, cleaned);
    WrittenParts(START, text, END, cleaned);
    MarkedAfterNewline("\n" + (START + "\n" + text + "\n" + END + "\n\n") + cleaned,
                       1 + |START| + 1 + |text| + 1 + |END| + 1);
  }

  lemma StripNewlines(s: string)
    requires s == "" || s[0] != '\n'
    ensures LStrip("\n" + s) == s && LStrip("\n" + ("\n" + s)) == s
  {
    assert ("\n" + s)[1..] == s;
    assert ("\n" + ("\n" + s))[1..] == "\n" + s;
  }

  // ---------------------------------------------------------------- the same section is found again

  /** What a line start and a heading look at lies within any text that agrees up to the end of
      that line. */
  lemma {:induction false} SameLineEnd(s: string, t: string, i: nat, h: nat)
    requires i < h <= |s| && h <= |t| && s[..h] == t[..h] && s[h - 1] == '\n'
    ensures EndOfLine(s, i) == EndOfLine(t, i) < h
    decreases h - i
  {
    assert s[i] == s[..h][i] == t[..h][i] == t[i];
    if s[i] != '\n' {
      SameLineEnd(s, t, i + 1, h);
    }
  }

  lemma SameStart(s: string, t: string, i: nat, h: nat, p: string)
    requires i < h <= |s| && h <= |t| && s[..h] == t[..h] && s[h - 1] == '\n'
    requires forall k :: 0 <= k < |p| ==> p[k] != '\n'
    ensures StartsAt(s, i, p) <==> StartsAt(t, i, p)
  {
    assert t[h - 1] == t[..h][h - 1] == s[h - 1];
    if StartsAt(s, i, p) {
      EndsBeforeNewline(s, i, h - 1, p);
      forall k | 0 <= k < |p| ensures t[i + k] == p[k] {
        assert s[i + k] == s[..h][i + k] == t[..h][i + k];
      }
    }
    if StartsAt(t, i, p) {
      EndsBeforeNewline(t, i, h - 1, p);
      forall k | 0 <= k < |p| ensures s[i + k] == p[k] {
        assert t[i + k] == t[..h][i + k] == s[..h][i + k];
      }
    }
  }

  lemma SameRelease(s: string, t: string, i: nat, h: nat)
    requires i < h <= |s| && h <= |t| && s[..h] == t[..h] && s[h - 1] == '\n'
    ensures IsRelease(s, i) <==> IsRelease(t, i)
  {
    SameLineEnd(s, t, i, h);
    SameStart(s, t, i, h, "## [");
    assert forall j :: 0 <= j < h ==> s[j] == s[..h][j] == t[..h][j] == t[j];
  }

  lemma {:induction false} SameHeading(s: string, t: string, i: nat, h: nat)
    requires i <= |s| && HeadingEnd(s, i) == Some(h) && h <= |t| && s[..h] == t[..h]
    ensures HeadingEnd(t, i) == Some(h)
    decreases h - i
  {
    SameRelease(s, t, i, h);
    if IsRelease(s, i) {
      SameLineEnd(s, t, i, h);
    } else {
      SameHeading(s, t, i + 1, h);
    }
  }

  /** No line of the text is a second-level heading. */
  ghost predicate NoH2(s: string) {
    forall i :: 0 <= i <= |s| && LineStart(s, i) ==> !StartsAt(s, i, "## ")
  }

  /** The section found again after its body was replaced. */
  lemma SameSection(before: string, body: string, after: string)
    requires before == "" || before[|before| - 1] == '\n'
    requires NoH2(body) && (after != "" ==> StartsAt(after, 0, "## ") && body != "" && body[|body| - 1] == '\n')
    ensures NextH2(before + body + after, |before|) == |before| + |body|
  {
    var s := before + body + after;
    NoH2Within(before, body, after, s);
    if after != "" {
      AfterIsHeading(before + body, after);
    }
    SectionEnds(s, |before|, |before| + |body|);
  }

  lemma NoH2Within(before: string, body: string, after: string, s: string)
    requires (before == "" || before[|before| - 1] == '\n') && s == before + body + after
    requires NoH2(body) && (after != "" ==> body != "" && body[|body| - 1] == '\n')
    ensures forall i :: |before| <= i < |before| + |body| ==> !(LineStart(s, i) && StartsAt(s, i, "## "))
  {
    forall i | |before| <= i < |before| + |body| ensures !(LineStart(s, i) && StartsAt(s, i, "## ")) {
      if LineStart(s, i) && StartsAt(s, i, "## ") {
        H2IsInBody(before, body, after, i - |before|);
      }
    }
  }

  lemma SectionEnds(s: string, h: nat, e: nat)
    requires h <= e <= |s| && forall i :: h <= i < e ==> !(LineStart(s, i) && StartsAt(s, i, "## "))
    requires e < |s| ==> LineStart(s, e) && StartsAt(s, e, "## ")
    ensures NextH2(s, h) == e
  {
  }

  lemma AfterIsHeading(front: string, after: string)
    requires front != "" && front[|front| - 1] == '\n' && StartsAt(after, 0, "## ")
    ensures LineStart(front + after, |front|) && StartsAt(front + after, |front|, "## ")
  {
    assert (front + after)[|front|..] == after;
    StartsInTail(front + after, |front|, 0, "## ");
  }

  lemma H2IsInBody(before: string, body: string, after: string, i: nat)
    requires i < |body| && (after != "" ==> body[|body| - 1] == '\n')
    requires before == "" || before[|before| - 1] == '\n'
    requires LineStart(before + body + after, |before| + i) && StartsAt(before + body + after, |before| + i, "## ")
    ensures !NoH2(body)
  {
    var s, h := before + body + after, |before|;
    if after != "" {
      assert s[h + |body| - 1] == '\n';
      EndsBeforeNewline(s, h + i, h + |body| - 1, "## ");
    }
    forall k | 0 <= k < 3 ensures body[i + k] == "## "[k] {
      assert s[h + i + k] == body[i + k];
    }
    assert i > 0 ==> s[h + i - 1] == body[i - 1];
    assert LineStart(body, i) && StartsAt(body, i, "## ");
  }

  // ---------------------------------------------------------------- last write wins

  lemma NoH2OfJoin(a: string, b: string)
    requires NoH2(a) && NoH2(b) && a != "" && a[|a| - 1] == '\n'
    ensures NoH2(a + b)
  {
    var s := a + b;
    forall i | 0 <= i <= |s| && LineStart(s, i) ensures !StartsAt(s, i, "## ") {
      if i < |a| {
        SameStart(s, a, i, |a|, "## ");
        assert i > 0 ==> a[i - 1] == s[i - 1];
      } else {
        assert s[|a|..] == b;
        StartsInTail(s, |a|, i - |a|, "## ");
        assert i > |a| ==> s[i - 1] == b[i - |a| - 1];
        assert LineStart(b, i - |a|);
      }
    }
  }

  /** Texts without heading lines: a single line that starts with no hash, and tails of such
      texts that begin a line. */
  lemma NoH2OfLine(line: string)
    requires line != "" && line[0] != '#' && forall i :: 0 <= i < |line| ==> line[i] != '\n'
    ensures NoH2(line + "\n")
  {
    var s := line + "\n";
    forall i | 0 <= i <= |s| && LineStart(s, i) ensures !StartsAt(s, i, "## ") {
      if i == 0 {
        assert s[0 + 0] != "## "[0];
      } else {
        assert i == |s|;
      }
    }
  }

  lemma MarkerLines()
    ensures NoH2(START + "\n") && NoH2(END + "\n") && NoH2("\n") && NoH2("\n\n")
  {
    EndHasNoNewline();
    NoH2OfLine(START);
    NoH2OfLine(END);
    NewlinesHaveNoH2("\n");
    NewlinesHaveNoH2("\n\n");
  }

  lemma NewlinesHaveNoH2(s: string)
    requires forall i :: 0 <= i < |s| ==> s[i] == '\n'
    ensures NoH2(s)
  {
    forall i | 0 <= i <= |s| ensures !StartsAt(s, i, "## ") {
      if i < |s| {
        assert s[i + 0] != "## "[0];
      }
    }
  }

  /** A section has no heading line inside, nor has what is left of it after cleaning. */
  lemma {:induction false} LStripHasNoH2(s: string)
    requires NoH2(s)
    ensures NoH2(LStrip(s))
  {
    if s != "" && s[0] == '\n' {
      forall i | 0 <= i <= |s[1..]| && LineStart(s[1..], i) ensures !StartsAt(s[1..], i, "## ") {
        StartsInTail(s, 1, i, "## ");
        assert LineStart(s, i + 1);
      }
      LStripHasNoH2(s[1..]);
    }
  }

  lemma NewBodyHasNoH2(intro: string, body: string)
    requires WellMarked(body) && NoH2(body) && NoH2(RStrip(intro) + "\n")
    ensures NoH2(NewBody(intro, body))
  {
    var text, cleaned := RStrip(intro), Clean(body);
    SubOfMarked(body);
    LStripHasNoH2(Sub(body));
    MarkerLines();
    if text == "" {
      NoH2OfJoin("\n", cleaned);
      assert NewBody(intro, body) == "\n" + cleaned;
    } else {
      BlockHasNoH2(START + "\n", text + "\n", END + "\n");
      var block := "\n" + (START + "\n" + (text + "\n") + (END + "\n") + "\n");
      NoH2OfJoin(block, cleaned);
      BlockByLines(START, text, END);
      assert NewBody(intro, body) == block + cleaned;
    }
  }

  lemma BlockByLines(open: string, text: string, close: string)
    ensures open + "\n" + text + "\n" + close + "\n\n" == open + "\n" + (text + "\n") + (close + "\n") + "\n"
  {
  }

  lemma BlockHasNoH2(open: string, text: string, close: string)
    requires NoH2(open) && NoH2(text) && NoH2(close) && NoH2("\n")
    requires open != "" && open[|open| - 1] == '\n' && text != "" && text[|text| - 1] == '\n'
    requires close != "" && close[|close| - 1] == '\n'
    ensures NoH2("\n" + (open + text + close + "\n"))
    ensures var s := "\n" + (open + text + close + "\n"); s[|s| - 1] == '\n'
  {
    NoH2OfJoin(open, text);
    NoH2OfJoin(open + text, close);
    NoH2OfJoin(open + text + close, "\n");
    NoH2OfJoin("\n", open + text + close + "\n");
  }

  /** The markers in the release section of a changelog, if any, form blocks. */
  ghost predicate Marked(changelog: string) {
    HeadingEnd(changelog, 0).Some? ==>
      var h := HeadingEnd(changelog, 0).value;
      WellMarked(changelog[h..NextH2(changelog, h)])
  }

  /** An intro that contains neither the end marker nor a second-level heading. */
  ghost predicate Proper(intro: string) {
    Free(RStrip(intro), END) && NoH2(RStrip(intro) + "\n")
  }

  lemma SectionBody(c: string, h: nat)
    requires h <= |c| && LineStart(c, h)
    ensures NoH2(c[h..NextH2(c, h)])
  {
    var e := NextH2(c, h);
    forall i | 0 <= i <= |c[h..e]| && LineStart(c[h..e], i) ensures !StartsAt(c[h..e], i, "## ") {
      InsideSlice(c, h, e, i, "## ");
    }
  }

  lemma InsideSlice(c: string, h: nat, e: nat, i: nat, p: string)
    requires h <= e <= |c| && LineStart(c, h) && i <= e - h && p != ""
    ensures LineStart(c[h..e], i) ==> LineStart(c, h + i)
    ensures StartsAt(c[h..e], i, p) ==> StartsAt(c, h + i, p) && h + i < e
  {
    if StartsAt(c[h..e], i, p) {
      forall k | 0 <= k < |p| ensures c[h + i + k] == p[k] {
        assert c[h..e][i + k] == c[h + i + k];
      }
    }
    assert i > 0 ==> c[h..e][i - 1] == c[h + i - 1];
  }

  lemma NewBodyEndsLine(intro: string, body: string)
    requires WellMarked(body) && EndsLine(body)
    ensures NewBody(intro, body) != "" && NewBody(intro, body)[|NewBody(intro, body)| - 1] == '\n'
  {
    var cleaned := Clean(body);
    SubOfMarked(body);
    LStripIsTail(Sub(body));
    RenderEndsLine(intro);
    LastOfJoin("\n", Render(intro));
    LastOfJoin("\n" + Render(intro), cleaned);
  }

  lemma RenderEndsLine(intro: string)
    ensures Render(intro) != "" ==> Render(intro)[|Render(intro)| - 1] == '\n'
  {
  }

  lemma LastOfJoin(a: string, b: string)
    ensures b != "" ==> (a + b)[|a + b| - 1] == b[|b| - 1]
    ensures b == "" ==> a + b == a
  {
  }

  /** With a new body put between, the same heading and section are found. */
  lemma PutBetween(c: string, h: nat, e: nat, n: string)
    requires HeadingEnd(c, 0) == Some(h) && e == NextH2(c, h)
    requires NoH2(n) && (e < |c| ==> n != "" && n[|n| - 1] == '\n')
    ensures var u := c[..h] + n + c[e..];
            && HeadingEnd(u, 0) == Some(h) && NextH2(u, h) == h + |n|
            && u[..h] == c[..h] && u[h..h + |n|] == n && u[h + |n|..] == c[e..]
  {
    if e < |c| {
      StartsInTail(c, e, 0, "## ");
    }
    SameSection(c[..h], n, c[e..]);
    JoinedSlices(c[..h], n, c[e..]);
    SameHeading(c, c[..h] + n + c[e..], 0, h);
  }

  lemma SliceEndsLine(c: string, h: nat, e: nat)
    requires h <= e <= |c| && LineStart(c, e)
    ensures EndsLine(c[h..e])
  {
    assert h < e ==> c[h..e][e - h - 1] == c[e - 1];
  }

  /** The body written by an update can stand between. */
  lemma UpdatedBody(c: string, intro: string, h: nat, e: nat)
    requires HeadingEnd(c, 0) == Some(h) && e == NextH2(c, h) && Marked(c) && Proper(intro)
    ensures var n := NewBody(intro, c[h..e]); NoH2(n) && (e < |c| ==> n != "" && n[|n| - 1] == '\n')
  {
    var body := c[h..e];
    SectionBody(c, h);
    NewBodyHasNoH2(intro, body);
    if e < |c| {
      SliceEndsLine(c, h, e);
      NewBodyEndsLine(intro, body);
    }
  }

  lemma JoinedSlices(a: string, b: string, c: string)
    ensures var s := a + b + c;
            s[..|a|] == a && s[|a|..|a| + |b|] == b && s[|a| + |b|..] == c
  {
  }

  /** The texts agree up to the end of the first release heading, and from the next
      second-level heading on. */
  ghost predicate SameAround(c: string, u: string) {
    && HeadingEnd(c, 0).Some? && HeadingEnd(u, 0) == HeadingEnd(c, 0)
    && var h := HeadingEnd(c, 0).value;
       u[..h] == c[..h] && u[NextH2(u, h)..] == c[NextH2(c, h)..]
  }

  /** Last write wins: updating twice is updating once, with the second intro. Nothing around
      the release section changes. */
  lemma LastWriteWins(c: string, a: string, b: string)
    requires Update(c, a).Some? && Marked(c) && Proper(a)
    ensures Update(Update(c, a).value, b) == Update(c, b)
    ensures SameAround(c, Update(c, a).value)
  {
    var h := HeadingEnd(c, 0).value;
    var e := NextH2(c, h);
    UpdatedBody(c, a, h, e);
    PutBetween(c, h, e, NewBody(a, c[h..e]));
    CleanOfNewBody(a, c[h..e]);
  }

  ghost function UpdateAll(c: string, intros: seq<string>): Option<string> {
    if intros == [] then Some(c)
    else match UpdateAll(c, intros[..|intros| - 1])
         case None => None
         case Some(u) => Update(u, intros[|intros| - 1])
  }

  /** Any run of updates leaves what its last update alone would, and the text around the
      release section as it was. */
  lemma {:induction false} RunIsLastUpdate(c: string, intros: seq<string>)
    requires intros != [] && Marked(c) && HeadingEnd(c, 0).Some?
    requires forall i :: 0 <= i < |intros| ==> Proper(intros[i])
    ensures UpdateAll(c, intros) == Update(c, intros[|intros| - 1])
    ensures UpdateAll(c, intros).Some? && SameAround(c, UpdateAll(c, intros).value)
  {
    var front := intros[..|intros| - 1];
    LastWriteWins(c, intros[|intros| - 1], "");
    if front == [] {
      assert UpdateAll(c, front) == Some(c);
    } else {
      RunIsLastUpdate(c, front);
      LastWriteWins(c, front[|front| - 1], intros[|intros| - 1]);
    }
  }
}

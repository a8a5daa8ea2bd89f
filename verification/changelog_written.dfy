/** What an update of the changelog leaves in the release section: the intro, once, and the rest
    of the section (scripts/update_release_intro.py, `update_changelog`). */
module ChangelogWritten {
  import opened Options
  import opened Whitespace
  import opened Changelog

  // ---------------------------------------------------------------- stripping

  ghost predicate AllSpaces(s: string) {
    forall i :: 0 <= i < |s| ==> IsPythonSpace(s[i])
  }

  /** `rstrip` takes off the spaces at the end, and nothing else. */
  lemma {:induction false} RStripTakesSpaces(s: string)
    ensures var r := RStrip(s);
            && |r| <= |s| && r == s[..|r|] && AllSpaces(s[|r|..])
            && (r != "" ==> !IsPythonSpace(r[|r| - 1]))
  {
    if s != "" && IsPythonSpace(s[|s| - 1]) {
      var front := s[..|s| - 1];
      RStripTakesSpaces(front);
      var n := |RStrip(s)|;
      assert front[..n] == s[..n] && s[n..] == front[n..] + [s[|s| - 1]];
    } else {
      assert s[..|s|] == s;
    }
  }

  /** A text is blank exactly when nothing is left of it. */
  lemma BlankExactlyWhen(s: string)
    ensures RStrip(s) == "" <==> AllSpaces(s)
  {
    RStripTakesSpaces(s);
    var r := RStrip(s);
    if r == "" {
      assert s[0..] == s;
    } else {
      assert s[|r| - 1] == r[|r| - 1];
    }
  }

  /** `lstrip("\n")` takes off the newlines at the front, and nothing else. */
  lemma {:induction false} LStripTakesNewlines(s: string)
    ensures var n := |s| - |LStrip(s)|;
            && n >= 0 && LStrip(s) == s[n..] && (n < |s| ==> s[n] != '\n') && forall i :: 0 <= i < n ==> s[i] == '\n'
  {
    if s != "" && s[0] == '\n' {
      LStripTakesNewlines(s[1..]);
      var n := |s| - |LStrip(s)|;
      assert s[1..][n - 1..] == s[n..];
    }
  }

  // ---------------------------------------------------------------- blocks taken out

  /** The section without its blocks: each is left out with its lines, and one at the very front
      leaves a newline. */
  ghost function TakenOut(body: string): string
    decreases |body|
  {
    match Find(body, 0, START)
    case None => body
    case Some(i) =>
      match BlockFrom(body, i)
      case None => body
      case Some(e) => (if i == 0 then "\n" else body[..i]) + TakenOut(body[e..])
  }

  lemma {:induction false} SubTakesOut(body: string)
    requires WellMarked(body)
    ensures Sub(body) == TakenOut(body)
    decreases |body|
  {
    match Find(body, 0, START)
    case None =>
      AllFree(body);
    case Some(i) =>
      var e := BlockFrom(body, i).value;
      FirstIsFirst(body, i, e);
      SubTakesOut(body[e..]);
      SubAtBlock(body, i, e);
  }

  // ---------------------------------------------------------------- the written section

  /** The section that an intro is written over: its own text, without blocks and without newlines
      at the front. */
  ghost function Rest(section: string): string {
    LStrip(TakenOut(section))
  }

  function Block(text: string): string {
    START + "\n" + text + "\n" + END + "\n\n"
  }

  /** Exactly one block, in front after one newline, with the text between its markers. */
  ghost predicate HoldsIntro(section: string, text: string, rest: string) {
    && section == "\n" + Block(text) + rest
    && !StartsAt(section, 0, START) && Free(rest, START)
    && BlockFrom(section, 1) == Some(|Block(text)|) && section[|Block(text)|..] == "\n" + rest
    && section[1 + |START| + 1..1 + |START| + 1 + |text|] == text
  }

  lemma WrittenHoldsIntro(text: string, rest: string)
    requires Free(text, END) && Free(rest, START)
    ensures HoldsIntro("\n" + Block(text) + rest, text, rest)
  {
    WrittenBlockEnds(text, rest);
    WrittenParts(START, text, END, rest);
    NewlineIsNoStart("\n" + Block(text) + rest);
  }

  lemma NewlineIsNoStart(s: string)
    requires s != "" && s[0] == '\n'
    ensures !StartsAt(s, 0, START)
  {
    if StartsAt(s, 0, START) {
      StartIsNoNewline(s, 0);
    }
  }

  lemma NewBodyIs(intro: string, body: string)
    requires WellMarked(body) && Free(RStrip(intro), END)
    ensures var n := NewBody(intro, body);
            if AllSpaces(intro) then n == "\n" + Rest(body) && Free(n, START) else HoldsIntro(n, RStrip(intro), Rest(body))
  {
    BlankExactlyWhen(intro);
    SubTakesOut(body);
    CleanedIsFree(body);
    if AllSpaces(intro) {
      BlankIsFree(Rest(body));
      assert NewBody(intro, body) == "\n" + "" + Rest(body);
    } else {
      WrittenHoldsIntro(RStrip(intro), Rest(body));
    }
  }

  lemma BlankIsFree(rest: string)
    requires Free(rest, START)
    ensures Free("\n" + rest, START) && "\n" + "" + rest == "\n" + rest
  {
    EndHasNoNewline();
    FreeAfterNewline(rest, START);
  }

  /** After an update the release section holds the intro, in one block, and after it what it held
      besides blocks; a blank intro leaves no block. The text around the section stays. */
  lemma UpdateWritesIntro(c: string, intro: string)
    requires Marked(c) && Proper(intro) && HeadingEnd(c, 0).Some?
    ensures Update(c, intro).Some? && SameAround(c, Update(c, intro).value)
    ensures var u, h := Update(c, intro).value, HeadingEnd(c, 0).value;
            var section, was := u[h..NextH2(u, h)], c[h..NextH2(c, h)];
            if AllSpaces(intro) then section == "\n" + Rest(was) && Free(section, START)
            else HoldsIntro(section, RStrip(intro), Rest(was))
  {
    var h := HeadingEnd(c, 0).value;
    var e := NextH2(c, h);
    UpdatedBody(c, intro, h, e);
    PutBetween(c, h, e, NewBody(intro, c[h..e]));
    NewBodyIs(intro, c[h..e]);
  }

  // ---------------------------------------------------------------- the release heading

  ghost predicate NoReleaseLine(s: string) {
    forall i :: 0 <= i <= |s| && LineStart(s, i) ==> !StartsAt(s, i, "## [")
  }

  lemma {:induction false} SkipsTo(s: string, i: nat, at: nat)
    requires i <= at <= |s| && forall j :: i <= j < at ==> !IsRelease(s, j)
    ensures HeadingEnd(s, i) == HeadingEnd(s, at)
    decreases at - i
  {
    if i < at {
      SkipsTo(s, i + 1, at);
    }
  }

  lemma {:induction false} EndOfLineIs(s: string, i: nat, e: nat)
    requires i <= e < |s| && s[e] == '\n' && forall j :: i <= j < e ==> s[j] != '\n'
    ensures EndOfLine(s, i) == e
    decreases e - i
  {
    if i < e {
      EndOfLineIs(s, i + 1, e);
    }
  }

  function ReleaseLine(version: string, note: string): string {
    "## [" + version + "]" + note + "\n"
  }

  /** A non-empty version in brackets, and the rest of the line. */
  ghost predicate IsReleaseLine(s: string, i: nat, version: string, note: string) {
    && version != "" && '\n' !in version && '\n' !in note
    && var line := ReleaseLine(version, note); i + |line| <= |s| && s[i..i + |line|] == line
  }

  /** The first line that opens with a version in brackets is the heading that is found. */
  lemma ReleaseIsFound(before: string, version: string, note: string, after: string)
    requires NoReleaseLine(before) && EndsLine(before) && version != ""
    requires (forall i :: 0 <= i < |version| ==> version[i] != '\n') && forall i :: 0 <= i < |note| ==> note[i] != '\n'
    ensures var line := ReleaseLine(version, note);
            HeadingEnd(before + line + after, 0) == Some(|before| + |line|)
  {
    JoinedSlices(before, ReleaseLine(version, note), after);
    ReleaseAt(before + ReleaseLine(version, note) + after, before, version, note, 0);
  }

  lemma ReleaseAt(s: string, before: string, version: string, note: string, start: nat)
    requires NoReleaseLine(before) && EndsLine(before) && version != "" && start == 0
    requires (forall i :: 0 <= i < |version| ==> version[i] != '\n') && forall i :: 0 <= i < |note| ==> note[i] != '\n'
    requires |before| + |ReleaseLine(version, note)| <= |s| && s[..|before|] == before
    requires s[|before|..|before| + |ReleaseLine(version, note)|] == ReleaseLine(version, note)
    ensures HeadingEnd(s, start) == Some(|before| + |ReleaseLine(version, note)|)
  {
    LineStartsAfter(s, before);
    LineIsRelease(s, |before|, version, note);
    FirstIs(s, before, start, |before| + |ReleaseLine(version, note)|);
  }

  lemma LineStartsAfter(s: string, before: string)
    requires EndsLine(before) && |before| <= |s| && s[..|before|] == before
    ensures LineStart(s, |before|)
  {
    assert before != "" ==> s[|before| - 1] == before[|before| - 1];
  }

  lemma FirstIs(s: string, before: string, start: nat, e: nat)
    requires NoReleaseLine(before) && EndsLine(before) && |before| <= |s| && s[..|before|] == before
    requires IsRelease(s, |before|) && e == EndOfLine(s, |before|) + 1 && start == 0
    ensures HeadingEnd(s, start) == Some(e)
  {
    NoneBefore(before, s);
    SkipsTo(s, start, |before|);
    FoundAt(s, |before|, e);
  }

  lemma FoundAt(s: string, i: nat, e: nat)
    requires i <= |s| && IsRelease(s, i) && e == EndOfLine(s, i) + 1
    ensures HeadingEnd(s, i) == Some(e)
  {
  }

  lemma NoneBefore(before: string, s: string)
    requires NoReleaseLine(before) && EndsLine(before) && |before| <= |s| && s[..|before|] == before
    ensures forall j :: 0 <= j < |before| ==> !IsRelease(s, j)
  {
    var n := |before|;
    forall j | 0 <= j < n ensures !IsRelease(s, j) {
      if LineStart(s, j) {
        assert before[..n] == before;
        SameStart(before, s, j, n, "## [");
        assert j > 0 ==> before[j - 1] == s[j - 1];
        assert LineStart(before, j);
      }
    }
  }

  lemma LineIsRelease(s: string, i: nat, version: string, note: string)
    requires LineStart(s, i) && version != ""
    requires (forall j :: 0 <= j < |version| ==> version[j] != '\n') && forall j :: 0 <= j < |note| ==> note[j] != '\n'
    requires var line := ReleaseLine(version, note); i + |line| <= |s| && s[i..i + |line|] == line
    ensures IsRelease(s, i) && EndOfLine(s, i) == i + |ReleaseLine(version, note)| - 1
  {
    var line := ReleaseLine(version, note);
    var e := i + |line| - 1;
    assert forall j :: 0 <= j < |line| ==> s[i + j] == line[j];
    forall j | i <= j < e ensures s[j] != '\n' {
      assert s[j] == line[j - i];
    }
    assert s[e] == line[|line| - 1];
    EndOfLineIs(s, i, e);
    assert s[i + 4 + |version|] == line[4 + |version|] == ']';
    forall k | 0 <= k < 4 ensures s[i + k] == "## ["[k] {
      assert s[i + k] == line[k];
    }
  }

  /** A release heading is a line of this form and nothing else. */
  lemma ReleaseExactlyWhen(s: string, i: nat)
    requires i <= |s|
    ensures IsRelease(s, i) <==> LineStart(s, i) && exists version: string, note: string :: IsReleaseLine(s, i, version, note)
  {
    if IsRelease(s, i) {
      var e := EndOfLine(s, i);
      var p :| i + 5 <= p < e && s[p] == ']';
      var version, note := s[i + 4..p], s[p + 1..e];
      forall j | i <= j <= e ensures s[j] == ReleaseLine(version, note)[j - i] {
        assert j < i + 4 ==> s[j] == "## ["[j - i];
      }
      assert s[i..e + 1] == ReleaseLine(version, note);
      assert IsReleaseLine(s, i, version, note);
    }
    forall version: string, note: string | LineStart(s, i) && IsReleaseLine(s, i, version, note) ensures IsRelease(s, i) {
      LineIsRelease(s, i, version, note);
    }
  }
}

/**
 * The checklist document as `parse_current_step` reads it: lines are
 * stripped, `## ` and `### ` lines open a section and a subsection, and
 * every line carrying one of the three status glyphs becomes a step.
 */
module Checklist {
  import opened Text

  /** The glyph of a step in progress (U+1F504). */
  const InProgressGlyph: char := '\U{1F504}'
  /** The glyph of an incomplete step (U+274C). */
  const IncompleteGlyph: char := '\U{274C}'
  /** The glyph of a completed step (U+2713). */
  const CompleteGlyph: char := '\U{2713}'

  /** The steps file as the script finds it on disk: absent, failing to read (with the error text), or its text. */
  datatype StepsFile = Missing(reason: string) | Unreadable(reason: string) | Readable(content: string)

  datatype Status = InProgress | Incomplete | Complete

  /** One step: its 0-based line number in the document, its status and its path. */
  datatype Step = Step(line: nat, status: Status, path: seq<string>)

  /** The innermost headings seen so far. */
  datatype Headings = Headings(section: string, subsection: string)

  predicate HasGlyph(line: string) {
    InProgressGlyph in line || IncompleteGlyph in line || CompleteGlyph in line
  }

  /** The status of a step line: the in-progress glyph wins over the incomplete one, which wins over the complete one. */
  function StatusOf(line: string): Status {
    if InProgressGlyph in line then InProgress
    else if IncompleteGlyph in line then Incomplete
    else Complete
  }

  /** `line.replace('🔄', '').replace('❌', '').replace('✓', '')`. */
  function RemoveGlyphs(line: string): (r: string)
    ensures |r| <= |line|
    ensures !HasGlyph(r)
  {
    if line == [] then []
    else
      var rest := RemoveGlyphs(line[1..]);
      assert line == [line[0]] + line[1..];
      if line[0] in {InProgressGlyph, IncompleteGlyph, CompleteGlyph} then rest else [line[0]] + rest
  }

  /** The label of a step line: glyphs removed, then dashes, spaces and whitespace stripped from both ends. */
  function Label(line: string): string {
    Strip(Strip(RemoveGlyphs(line), DashOrSpace), Whitespace)
  }

  /** The section and subsection after reading one stripped line. */
  function Enter(h: Headings, line: string): Headings {
    if StartsWith(line, "## ") then Headings(Strip(line[3..], Whitespace), "")
    else if StartsWith(line, "### ") then Headings(h.section, Strip(line[4..], Whitespace))
    else h
  }

  /** The section and subsection after reading all of `lines`, starting with both empty. */
  function HeadingsAfter(lines: seq<string>): Headings {
    if lines == [] then Headings("", "")
    else Enter(HeadingsAfter(lines[..|lines| - 1]), Strip(lines[|lines| - 1], Whitespace))
  }

  /** The path of a step: the subsection appears only when it is not empty. */
  function PathOf(h: Headings, name: string): seq<string> {
    if h.subsection != "" then [h.section, h.subsection, name] else [h.section, name]
  }

  /** A raw line of the document is a step line. */
  predicate IsStepLine(raw: string) {
    HasGlyph(Strip(raw, Whitespace))
  }

  /** The step recorded for line `i`, with the headings as they stand once line `i` has been read. */
  function StepOf(lines: seq<string>, i: nat): Step
    requires i < |lines|
  {
    var line := Strip(lines[i], Whitespace);
    Step(i, StatusOf(line), PathOf(HeadingsAfter(lines[..i + 1]), Label(line)))
  }

  /** The steps of a document, in document order. */
  function ParseSteps(lines: seq<string>): seq<Step> {
    if lines == [] then []
    else
      var n := |lines| - 1;
      ParseSteps(lines[..n]) + (if IsStepLine(lines[n]) then [StepOf(lines, n)] else [])
  }

  /**
   * The scan of `parse_current_step`: one pass over the lines that keeps
   * the current section and subsection and appends a step for every line
   * carrying a glyph.
   */
  method CollectSteps(lines: seq<string>) returns (steps: seq<Step>)
    ensures steps == ParseSteps(lines)
  {
    var section, subsection := "", "";
    steps := [];
    var i := 0;
    while i < |lines|
      invariant 0 <= i <= |lines|
      invariant Headings(section, subsection) == HeadingsAfter(lines[..i])
      invariant steps == ParseSteps(lines[..i])
    {
      var line := Strip(lines[i], Whitespace);
      ParseOneMore(lines, i);
      if line != "" {
        if StartsWith(line, "## ") {
          section := Strip(line[3..], Whitespace);
          subsection := "";
        } else if StartsWith(line, "### ") {
          subsection := Strip(line[4..], Whitespace);
        }
        if HasGlyph(line) {
          var name := Label(line);
          var status := StatusOf(line);
          var path := if subsection != "" then [section, subsection, name] else [section, name];
          steps := steps + [Step(i, status, path)];
        }
      }
      i := i + 1;
    }
    assert lines[..i] == lines;
  }

  /** Stripping whitespace never removes a glyph, so a raw line is a step line exactly when it carries a glyph. */
  lemma StepLineIffGlyph(raw: string)
    ensures IsStepLine(raw) <==> HasGlyph(raw)
  {
    StripKeeps(raw, Whitespace, InProgressGlyph);
    StripKeeps(raw, Whitespace, IncompleteGlyph);
    StripKeeps(raw, Whitespace, CompleteGlyph);
  }

  /** Reading one more line extends the headings by `Enter` and the steps by that line's step, if any. */
  lemma ParseOneMore(lines: seq<string>, i: nat)
    requires i < |lines|
    ensures HeadingsAfter(lines[..i + 1]) == Enter(HeadingsAfter(lines[..i]), Strip(lines[i], Whitespace))
    ensures ParseSteps(lines[..i + 1]) ==
      ParseSteps(lines[..i]) + (if IsStepLine(lines[i]) then [StepOf(lines, i)] else [])
  {
    var p := lines[..i + 1];
    assert p[..i] == lines[..i];
    assert p[i] == lines[i];
    StepOfPrefix(lines, i + 1, i);
  }

  lemma StepOfPrefix(lines: seq<string>, n: nat, i: nat)
    requires i < n <= |lines|
    ensures StepOf(lines[..n], i) == StepOf(lines, i)
  {
    assert lines[..n][..i + 1] == lines[..i + 1];
  }

  /** Every step is the step of a step line: same line, status, label and headings. */
  lemma {:induction false} ParseStepsSound(lines: seq<string>)
    ensures forall k :: 0 <= k < |ParseSteps(lines)| ==>
      var s := ParseSteps(lines)[k];
      s.line < |lines| && IsStepLine(lines[s.line]) && s == StepOf(lines, s.line)
  {
    if lines != [] {
      var n := |lines| - 1;
      var init := lines[..n];
      ParseStepsSound(init);
      var prev := ParseSteps(init);
      var steps := ParseSteps(lines);
      assert steps[..|prev|] == prev;
      forall k | 0 <= k < |steps|
        ensures steps[k].line < |lines| && IsStepLine(lines[steps[k].line]) && steps[k] == StepOf(lines, steps[k].line)
      {
        if k < |prev| {
          assert steps[k] == prev[k];
          var i := prev[k].line;
          assert init[i] == lines[i];
          StepOfPrefix(lines, n, i);
        }
      }
    }
  }

  /** Steps come in document order. */
  lemma {:induction false} ParseStepsOrdered(lines: seq<string>)
    ensures forall k, j :: 0 <= k < j < |ParseSteps(lines)| ==> ParseSteps(lines)[k].line < ParseSteps(lines)[j].line
  {
    if lines != [] {
      var n := |lines| - 1;
      var init := lines[..n];
      ParseStepsOrdered(init);
      ParseStepsSound(init);
      var prev := ParseSteps(init);
      var steps := ParseSteps(lines);
      assert steps[..|prev|] == prev;
      forall k, j | 0 <= k < j < |steps| ensures steps[k].line < steps[j].line {
        assert steps[k] == prev[k];
        if j < |prev| {
          assert steps[j] == prev[j];
        }
      }
    }
  }

  /** Some step of `steps` was recorded for line `i`. */
  predicate HasStepFor(steps: seq<Step>, i: nat) {
    exists k :: 0 <= k < |steps| && steps[k].line == i
  }

  /** Every step line gives a step. */
  lemma {:induction false} ParseStepsComplete(lines: seq<string>)
    ensures forall i :: 0 <= i < |lines| && IsStepLine(lines[i]) ==> HasStepFor(ParseSteps(lines), i)
  {
    if lines != [] {
      var n := |lines| - 1;
      var init := lines[..n];
      ParseStepsComplete(init);
      var prev := ParseSteps(init);
      var steps := ParseSteps(lines);
      assert steps[..|prev|] == prev;
      forall i | 0 <= i < |lines| && IsStepLine(lines[i]) ensures HasStepFor(steps, i) {
        if i < n {
          assert init[i] == lines[i];
          assert HasStepFor(prev, i);
          var k :| 0 <= k < |prev| && prev[k].line == i;
          assert steps[k] == prev[k];
        } else {
          assert steps == prev + [StepOf(lines, n)];
          assert steps[|prev|] == StepOf(lines, n);
        }
      }
    }
  }

  /** The number of raw lines that carry a glyph. */
  function GlyphLineCount(lines: seq<string>): nat {
    if lines == [] then 0
    else GlyphLineCount(lines[..|lines| - 1]) + (if HasGlyph(lines[|lines| - 1]) then 1 else 0)
  }

  /** There are as many steps as lines carrying a glyph. */
  lemma {:induction false} StepCount(lines: seq<string>)
    ensures |ParseSteps(lines)| == GlyphLineCount(lines)
  {
    if lines != [] {
      StepCount(lines[..|lines| - 1]);
      StepLineIffGlyph(lines[|lines| - 1]);
    }
  }

  /** A stripped line opens a section. */
  predicate IsSectionLine(raw: string) {
    StartsWith(Strip(raw, Whitespace), "## ")
  }

  /** A stripped line opens a subsection. */
  predicate IsSubsectionLine(raw: string) {
    !IsSectionLine(raw) && StartsWith(Strip(raw, Whitespace), "### ")
  }

  predicate IsHeadingLine(raw: string) {
    IsSectionLine(raw) || IsSubsectionLine(raw)
  }

  /** The text after the `## ` or `### ` of a heading line. */
  function HeadingText(raw: string): string
    requires IsHeadingLine(raw)
  {
    var line := Strip(raw, Whitespace);
    if IsSectionLine(raw) then Strip(line[3..], Whitespace) else Strip(line[4..], Whitespace)
  }

  /** The section is the text of the latest `## ` line, and empty before the first one. */
  lemma {:induction false} SectionIsLatest(lines: seq<string>)
    ensures (forall j :: 0 <= j < |lines| ==> !IsSectionLine(lines[j])) ==> HeadingsAfter(lines).section == ""
    ensures forall j ::
      (0 <= j < |lines| && IsSectionLine(lines[j]) && forall m :: j < m < |lines| ==> !IsSectionLine(lines[m]))
      ==> HeadingsAfter(lines).section == HeadingText(lines[j])
  {
    if lines != [] {
      var n := |lines| - 1;
      var init := lines[..n];
      SectionIsLatest(init);
      assert HeadingsAfter(lines) == Enter(HeadingsAfter(init), Strip(lines[n], Whitespace));
      if !IsSectionLine(lines[n]) {
        assert HeadingsAfter(lines).section == HeadingsAfter(init).section;
        forall j | 0 <= j < n ensures init[j] == lines[j] { }
      }
    }
  }

  /**
   * The subsection is the text of the latest heading line when that is a
   * `### ` line, and empty when it is a `## ` line or there is none.
   */
  lemma {:induction false} SubsectionIsLatest(lines: seq<string>)
    ensures (forall j :: 0 <= j < |lines| ==> !IsHeadingLine(lines[j])) ==> HeadingsAfter(lines).subsection == ""
    ensures forall j ::
      (0 <= j < |lines| && IsHeadingLine(lines[j]) && forall m :: j < m < |lines| ==> !IsHeadingLine(lines[m]))
      ==> HeadingsAfter(lines).subsection == if IsSectionLine(lines[j]) then "" else HeadingText(lines[j])
  {
    if lines != [] {
      var n := |lines| - 1;
      var init := lines[..n];
      SubsectionIsLatest(init);
      assert HeadingsAfter(lines) == Enter(HeadingsAfter(init), Strip(lines[n], Whitespace));
      if !IsHeadingLine(lines[n]) {
        assert HeadingsAfter(lines).subsection == HeadingsAfter(init).subsection;
        forall j | 0 <= j < n ensures init[j] == lines[j] { }
      }
    }
  }
}

/**
 * The start-up diagnosis of the steps file (`validate_file_format`): one
 * pass that sorts every stripped line into exactly one bucket, then the
 * issues and warnings derived from the counts. Its buckets test the glyphs
 * in the opposite order to the parser and skip heading lines altogether.
 */
module Diagnostics {
  import opened Text
  import opened Wrappers
  import opened Checklist
  import opened Resolver

  const NoSectionsIssue: string := "No sections (##) found. File should have sections marked with ##"
  const NoMarkersIssue: string := "No progress (\U{1F504}) or incomplete (\U{274C}) markers found"
  const MultipleInProgressWarning: string := "Multiple in-progress (\U{1F504}) steps found: "
  const ReadErrorIssue: string := "Error reading file: "

  /** The bucket of one line: the first test of the `elif` chain that holds. */
  datatype LineKind = SectionLine | SubsectionLine | CompletedLine | IncompleteLine | ProgressLine | OtherLine

  function KindOf(raw: string): LineKind {
    KindOfStripped(Strip(raw, Whitespace))
  }

  function KindOfStripped(line: string): LineKind {
    if StartsWith(line, "## ") then SectionLine
    else if StartsWith(line, "### ") then SubsectionLine
    else if CompleteGlyph in line then CompletedLine
    else if IncompleteGlyph in line then IncompleteLine
    else if InProgressGlyph in line then ProgressLine
    else OtherLine
  }

  /** A bucket that counts as a step. */
  predicate IsStepKind(k: LineKind) {
    k == CompletedLine || k == IncompleteLine || k == ProgressLine
  }

  /** The counters and flags of the diagnosis. */
  datatype Tally = Tally(
    hasSections: bool,
    hasSubsections: bool,
    hasProgressMarkers: bool,
    hasIncompleteMarkers: bool,
    totalSteps: nat,
    inProgress: nat,
    completed: nat,
    incomplete: nat)

  const EmptyTally: Tally := Tally(false, false, false, false, 0, 0, 0, 0)

  /** The tally after one more line, of bucket `k`. */
  function Count(t: Tally, k: LineKind): Tally {
    Tally(
      t.hasSections || k == SectionLine,
      t.hasSubsections || k == SubsectionLine,
      t.hasProgressMarkers || k == ProgressLine,
      t.hasIncompleteMarkers || k == IncompleteLine,
      t.totalSteps + (if IsStepKind(k) then 1 else 0),
      t.inProgress + (if k == ProgressLine then 1 else 0),
      t.completed + (if k == CompletedLine then 1 else 0),
      t.incomplete + (if k == IncompleteLine then 1 else 0))
  }

  /** The bucket of every line of a document. */
  function KindsOf(lines: seq<string>): (r: seq<LineKind>)
    ensures |r| == |lines|
  {
    seq(|lines|, j requires 0 <= j < |lines| => KindOf(lines[j]))
  }

  lemma KindsOfSnoc(lines: seq<string>, i: nat)
    requires i < |lines|
    ensures KindsOf(lines[..i + 1]) == KindsOf(lines[..i]) + [KindOf(lines[i])]
  {
  }

  /**
   * The tally of the buckets of a document: the total is the sum of the
   * three step buckets, and each marker flag is set exactly when its bucket
   * is not empty.
   */
  function TallyOf(kinds: seq<LineKind>): (r: Tally)
    ensures r.totalSteps == r.inProgress + r.completed + r.incomplete
    ensures r.hasProgressMarkers <==> r.inProgress > 0
    ensures r.hasIncompleteMarkers <==> r.incomplete > 0
  {
    if kinds == [] then EmptyTally
    else
      var n := |kinds| - 1;
      Count(TallyOf(kinds[..n]), kinds[n])
  }

  /** Each flag and bucket is set exactly when some line falls in it. */
  lemma {:induction false} TallyFlags(kinds: seq<LineKind>)
    ensures TallyOf(kinds).inProgress > 0 <==> ProgressLine in kinds
    ensures TallyOf(kinds).incomplete > 0 <==> IncompleteLine in kinds
    ensures TallyOf(kinds).hasSections <==> SectionLine in kinds
  {
    if kinds != [] {
      var n := |kinds| - 1;
      TallyFlags(kinds[..n]);
      assert kinds == kinds[..n] + [kinds[n]];
    }
  }

  /** The outcome of `validate_file_format`: a report, or the error that stopped the read. */
  datatype Diagnosis =
    | Report(tally: Tally, issues: seq<string>, warnings: seq<string>)
    | Failure(error: string, issues: seq<string>)

  /** The critical issues: no section, and neither an in-progress nor an incomplete marker. */
  function IssuesOf(t: Tally): seq<string> {
    (if !t.hasSections then [NoSectionsIssue] else []) +
    (if !t.hasProgressMarkers && !t.hasIncompleteMarkers then [NoMarkersIssue] else [])
  }

  /** The non-critical warning: more than one line in progress. */
  function WarningsOf(t: Tally): seq<string> {
    if t.inProgress > 1 then [MultipleInProgressWarning + NatToString(t.inProgress)] else []
  }

  /** What `validate_file_format` returns for a file. */
  function DiagnosisOf(file: StepsFile): Diagnosis {
    match file
    case Readable(content) =>
      var t := TallyOf(KindsOf(SplitLines(content)));
      Report(t, IssuesOf(t), WarningsOf(t))
    case _ => Failure(file.reason, [ReadErrorIssue + file.reason])
  }

  /** The body of the loop of `validate_file_format`: the `elif` chain on one stripped line. */
  method CountLine(t: Tally, line: string) returns (t': Tally)
    ensures t' == Count(t, KindOfStripped(line))
  {
    t' := t;
    if StartsWith(line, "## ") {
      t' := t.(hasSections := true);
    } else if StartsWith(line, "### ") {
      t' := t.(hasSubsections := true);
    } else if CompleteGlyph in line {
      t' := t.(completed := t.completed + 1, totalSteps := t.totalSteps + 1);
    } else if IncompleteGlyph in line {
      t' := t.(hasIncompleteMarkers := true, incomplete := t.incomplete + 1, totalSteps := t.totalSteps + 1);
    } else if InProgressGlyph in line {
      t' := t.(hasProgressMarkers := true, inProgress := t.inProgress + 1, totalSteps := t.totalSteps + 1);
    }
  }

  /** The single pass of `validate_file_format`. */
  method ValidateFileFormat(file: StepsFile) returns (d: Diagnosis)
    ensures d == DiagnosisOf(file)
  {
    if !file.Readable? {
      return Failure(file.reason, [ReadErrorIssue + file.reason]);
    }
    var lines := SplitLines(file.content);
    var t := EmptyTally;
    var i := 0;
    while i < |lines|
      invariant 0 <= i <= |lines|
      invariant t == TallyOf(KindsOf(lines[..i]))
    {
      KindsOfSnoc(lines, i);
      var line := Strip(lines[i], Whitespace);
      t := CountLine(t, line);
      i := i + 1;
    }
    assert lines[..i] == lines;
    d := Report(t, IssuesOf(t), WarningsOf(t));
  }

  /** Some line of the document falls in bucket `k`. */
  predicate HasLineOfKind(lines: seq<string>, k: LineKind) {
    exists j :: 0 <= j < |lines| && KindOf(lines[j]) == k
  }

  lemma KindInDocument(lines: seq<string>, k: LineKind)
    ensures k in KindsOf(lines) <==> HasLineOfKind(lines, k)
  {
    if k in KindsOf(lines) {
      var j :| 0 <= j < |lines| && KindsOf(lines)[j] == k;
    }
    if HasLineOfKind(lines, k) {
      var j :| 0 <= j < |lines| && KindOf(lines[j]) == k;
      assert KindsOf(lines)[j] == k;
    }
  }

  /** A line is in the section bucket exactly when it opens a section for the parser too. */
  lemma SectionKindIff(raw: string)
    ensures KindOf(raw) == SectionLine <==> IsSectionLine(raw)
  {
  }

  /**
   * The two issue tests: a readable file has no issue exactly when some
   * line opens a section and some line is counted in progress or incomplete.
   */
  lemma NoIssuesIff(lines: seq<string>)
    ensures IssuesOf(TallyOf(KindsOf(lines))) == [] <==>
      (exists j :: 0 <= j < |lines| && IsSectionLine(lines[j])) &&
      (HasLineOfKind(lines, ProgressLine) || HasLineOfKind(lines, IncompleteLine))
  {
    var t := TallyOf(KindsOf(lines));
    TallyFlags(KindsOf(lines));
    if !t.hasSections {
      assert IssuesOf(t)[0] == NoSectionsIssue;
    } else if !t.hasProgressMarkers && !t.hasIncompleteMarkers {
      assert IssuesOf(t)[0] == NoMarkersIssue;
    }
    KindInDocument(lines, SectionLine);
    KindInDocument(lines, ProgressLine);
    KindInDocument(lines, IncompleteLine);
    forall j | 0 <= j < |lines| ensures KindOf(lines[j]) == SectionLine <==> IsSectionLine(lines[j]) {
      SectionKindIff(lines[j]);
    }
  }

  /** The positions of the buckets equal to `k`. */
  function PositionsOf(kinds: seq<LineKind>, k: LineKind): set<int> {
    set j | 0 <= j < |kinds| && kinds[j] == k
  }

  /** The in-progress counter is the number of lines in that bucket. */
  lemma {:induction false} InProgressCount(kinds: seq<LineKind>)
    ensures TallyOf(kinds).inProgress == |PositionsOf(kinds, ProgressLine)|
  {
    if kinds != [] {
      var n := |kinds| - 1;
      InProgressCount(kinds[..n]);
      var before := PositionsOf(kinds[..n], ProgressLine);
      assert PositionsOf(kinds, ProgressLine) == before + (if kinds[n] == ProgressLine then {n} else {});
      assert n !in before;
    }
  }

  /** The line numbers of a document whose line is counted as in progress. */
  function ProgressLineNumbers(lines: seq<string>): set<int> {
    set j | 0 <= j < |lines| && KindOf(lines[j]) == ProgressLine
  }

  /**
   * The warning of a readable file: it appears exactly when more than one
   * line is counted as in progress, and it gives the number of those lines.
   */
  lemma WarningIff(content: string)
    ensures var n := |ProgressLineNumbers(SplitLines(content))|;
      DiagnosisOf(Readable(content)).warnings ==
      if n > 1 then [MultipleInProgressWarning + NatToString(n)] else []
    ensures DiagnosisOf(Readable(content)).warnings != [] <==> |ProgressLineNumbers(SplitLines(content))| > 1
  {
    var lines := SplitLines(content);
    InProgressCount(KindsOf(lines));
    assert PositionsOf(KindsOf(lines), ProgressLine) == ProgressLineNumbers(lines);
  }

  /** A line is counted as a step exactly when it is not a heading and carries a glyph. */
  lemma StepKindIff(raw: string)
    ensures IsStepKind(KindOf(raw)) <==> !IsHeadingLine(raw) && HasGlyph(raw)
  {
    StepLineIffGlyph(raw);
  }

  /** The number of heading lines that also carry a glyph. */
  function HeadingGlyphCount(lines: seq<string>): nat {
    if lines == [] then 0
    else
      var n := |lines| - 1;
      HeadingGlyphCount(lines[..n]) + (if IsHeadingLine(lines[n]) && HasGlyph(lines[n]) then 1 else 0)
  }

  lemma {:induction false} GlyphLinesSplit(lines: seq<string>)
    ensures GlyphLineCount(lines) == TallyOf(KindsOf(lines)).totalSteps + HeadingGlyphCount(lines)
  {
    if lines != [] {
      var n := |lines| - 1;
      GlyphLinesSplit(lines[..n]);
      assert KindsOf(lines)[..n] == KindsOf(lines[..n]);
      assert KindsOf(lines)[n] == KindOf(lines[n]);
      StepKindIff(lines[n]);
    }
  }

  /**
   * The parser records a step for every line carrying a glyph, headings
   * included, while the diagnosis skips headings: the parser finds as many
   * steps as the diagnosis counts plus the heading lines that carry a glyph.
   */
  lemma ParsedStepsVersusTally(lines: seq<string>)
    ensures |ParseSteps(lines)| == TallyOf(KindsOf(lines)).totalSteps + HeadingGlyphCount(lines)
  {
    StepCount(lines);
    GlyphLinesSplit(lines);
  }

  /** The parser never calls a line that the diagnosis counts as in progress or incomplete complete. */
  lemma PendingLineIsOpenStep(raw: string)
    requires KindOf(raw) == IncompleteLine || KindOf(raw) == ProgressLine
    ensures IsStepLine(raw) && StatusOf(Strip(raw, Whitespace)) != Complete
  {
  }

  /** A readable file that passes the diagnosis without issues has a current step. */
  lemma NoIssuesHasCurrentStep(lines: seq<string>)
    requires IssuesOf(TallyOf(KindsOf(lines))) == []
    ensures Resolve(ParseSteps(lines)).Some?
  {
    NoIssuesIff(lines);
    var j :| 0 <= j < |lines| && (KindOf(lines[j]) == IncompleteLine || KindOf(lines[j]) == ProgressLine);
    PendingLineIsOpenStep(lines[j]);
    var steps := ParseSteps(lines);
    ParseStepsComplete(lines);
    var k :| 0 <= k < |steps| && steps[k].line == j;
    ParseStepsSound(lines);
    assert steps[k] == StepOf(lines, j);
    assert steps[k].status != Complete;
  }

  /**
   * The two passes disagree on precedence: a non-heading line carrying both
   * the complete and the in-progress glyph is counted as completed by the
   * diagnosis but recorded as in progress by the parser.
   */
  lemma PrecedenceDisagrees(raw: string)
    requires !IsHeadingLine(raw) && CompleteGlyph in raw && InProgressGlyph in raw
    ensures KindOf(raw) == CompletedLine
    ensures StatusOf(Strip(raw, Whitespace)) == InProgress
  {
    StripKeeps(raw, Whitespace, CompleteGlyph);
    StripKeeps(raw, Whitespace, InProgressGlyph);
  }

  /**
   * A heading line carrying a glyph is a step for the parser but is not
   * counted by the diagnosis.
   */
  lemma HeadingStepNotCounted(raw: string)
    requires IsHeadingLine(raw) && HasGlyph(raw)
    ensures IsStepLine(raw) && !IsStepKind(KindOf(raw))
  {
    StepLineIffGlyph(raw);
  }
}

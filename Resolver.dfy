/**
 * The choice of the current step among the parsed steps: the earliest step
 * in progress, else the earliest incomplete step, else none; its path is
 * joined with " > ".
 */
module Resolver {
  import opened Wrappers
  import opened Text
  import opened Checklist

  const PathSeparator: string := " > "

  /** The list comprehension `[s for s in steps if s.status == st]`. */
  function WithStatus(steps: seq<Step>, st: Status): (r: seq<Step>)
    ensures forall s :: s in r <==> s in steps && s.status == st
  {
    if steps == [] then []
    else (if steps[0].status == st then [steps[0]] else []) + WithStatus(steps[1..], st)
  }

  /**
   * `min(candidates, key=line)`: a candidate with the smallest line number
   * (the first such one, since a later candidate replaces the best so far
   * only when its line is strictly smaller).
   */
  function Earliest(candidates: seq<Step>): (r: Step)
    requires candidates != []
    ensures r in candidates
    ensures forall s :: s in candidates ==> r.line <= s.line
  {
    if |candidates| == 1 then candidates[0]
    else
      var best := Earliest(candidates[..|candidates| - 1]);
      var last := candidates[|candidates| - 1];
      assert candidates == candidates[..|candidates| - 1] + [last];
      if last.line < best.line then last else best
  }

  /**
   * `s` is the step the resolver must pick: it is in progress, or it is
   * incomplete and nothing is in progress; and no step of its status comes
   * before it.
   */
  predicate IsChosen(steps: seq<Step>, s: Step) {
    (s.status == InProgress || (s.status == Incomplete && forall t :: t in steps ==> t.status != InProgress)) &&
    forall t :: t in steps && t.status == s.status ==> s.line <= t.line
  }

  /** The selection at the end of `parse_current_step`. */
  function Resolve(steps: seq<Step>): (r: Option<string>)
    ensures r.None? <==> forall s :: s in steps ==> s.status == Complete
    ensures r.Some? ==> exists s :: s in steps && IsChosen(steps, s) && r.value == Join(s.path, PathSeparator)
  {
    var inProgress := WithStatus(steps, InProgress);
    if inProgress != [] then Some(Join(Earliest(inProgress).path, PathSeparator))
    else
      var incomplete := WithStatus(steps, Incomplete);
      if incomplete != [] then Some(Join(Earliest(incomplete).path, PathSeparator))
      else None
  }

  /**
   * The earliest step in progress is chosen, wherever the incomplete steps
   * are.
   */
  lemma ResolveEarliestInProgress(steps: seq<Step>, k: nat)
    requires k < |steps| && steps[k].status == InProgress
    requires forall j :: 0 <= j < |steps| && j != k && steps[j].status == InProgress ==> steps[k].line < steps[j].line
    ensures Resolve(steps) == Some(Join(steps[k].path, PathSeparator))
  {
    var s :| s in steps && IsChosen(steps, s) && Resolve(steps).value == Join(s.path, PathSeparator);
    var j :| 0 <= j < |steps| && steps[j] == s;
  }

  /** With nothing in progress, the earliest incomplete step is chosen. */
  lemma ResolveEarliestIncomplete(steps: seq<Step>, k: nat)
    requires k < |steps| && steps[k].status == Incomplete
    requires forall j :: 0 <= j < |steps| ==> steps[j].status != InProgress
    requires forall j :: 0 <= j < |steps| && j != k && steps[j].status == Incomplete ==> steps[k].line < steps[j].line
    ensures Resolve(steps) == Some(Join(steps[k].path, PathSeparator))
  {
    var s :| s in steps && IsChosen(steps, s) && Resolve(steps).value == Join(s.path, PathSeparator);
    var j :| 0 <= j < |steps| && steps[j] == s;
  }

  /**
   * On a document: the first step in progress, in document order, is the
   * current step; with none in progress, the first incomplete step is.
   */
  lemma CurrentStepOfDocument(lines: seq<string>, k: nat)
    requires k < |ParseSteps(lines)|
    requires ParseSteps(lines)[k].status != Complete
    requires forall j :: 0 <= j < k ==> ParseSteps(lines)[j].status != ParseSteps(lines)[k].status
    requires ParseSteps(lines)[k].status == Incomplete ==>
      forall j :: 0 <= j < |ParseSteps(lines)| ==> ParseSteps(lines)[j].status != InProgress
    ensures Resolve(ParseSteps(lines)) == Some(Join(ParseSteps(lines)[k].path, PathSeparator))
  {
    var steps := ParseSteps(lines);
    ParseStepsOrdered(lines);
    if steps[k].status == InProgress {
      ResolveEarliestInProgress(steps, k);
    } else {
      ResolveEarliestIncomplete(steps, k);
    }
  }
}

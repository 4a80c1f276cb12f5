/**
 * The per-step metrics table: one record per step name, at most one current
 * step, and the total of the recorded durations. Clock readings are whole
 * numbers passed in by the caller.
 */
module Metrics {
  import opened Wrappers

  /** The status text of a record that is still running. */
  const RunningStatus: string := "\U{1F504}"

  /** The status text `end_step` writes when none is given. */
  const DoneStatus: string := "\U{2713}"

  /** One row of the table: when the step started and ended, and what it did. */
  datatype StepMetrics = StepMetrics(
    stepName: string,
    startTime: int,
    endTime: Option<int>,
    status: string,
    duration: Option<int>,
    commandsExecuted: int,
    messagesSent: int)

  /** The record `start_step` puts in the table: started now, running, nothing counted yet. */
  function Started(name: string, now: int): (r: StepMetrics)
    ensures r.stepName == name && r.startTime == now && r.status == RunningStatus
    ensures r.endTime.None? && r.duration.None?
    ensures r.commandsExecuted == 0 && r.messagesSent == 0
  {
    StepMetrics(name, now, None, RunningStatus, None, 0, 0)
  }

  /** A record as `end_step` leaves it: ended now, with the given status and the elapsed time. */
  function Finished(m: StepMetrics, status: string, now: int): (r: StepMetrics)
    ensures r.endTime == Some(now) && r.status == status
    ensures r.duration == Some(now - m.startTime)
    ensures r.stepName == m.stepName && r.startTime == m.startTime
    ensures r.commandsExecuted == m.commandsExecuted && r.messagesSent == m.messagesSent
  {
    m.(endTime := Some(now), status := status, duration := Some(now - m.startTime))
  }

  /** What a record adds to the total: its duration when that is set and non-zero (truthy). */
  function Counted(m: StepMetrics): (d: int)
    ensures d != 0 ==> m.duration == Some(d)
    ensures m.duration.Some? && m.duration.value != 0 ==> d == m.duration.value
  {
    if m.duration.Some? && m.duration.value != 0 then m.duration.value else 0
  }

  /** The sum of `Counted` over the records under `keys`, in no particular order. */
  ghost function SumOver(steps: map<string, StepMetrics>, keys: set<string>): int
    requires keys <= steps.Keys
    decreases |keys|
  {
    if keys == {} then 0
    else
      var k :| k in keys;
      Counted(steps[k]) + SumOver(steps, keys - {k})
  }

  /** The total duration of the table: every counted duration, once. */
  ghost function TotalDuration(steps: map<string, StepMetrics>): int {
    SumOver(steps, steps.Keys)
  }

  /** The sum does not depend on the order the records are visited in: any one of them can be taken out first. */
  lemma {:induction false} SumOverRemove(steps: map<string, StepMetrics>, keys: set<string>, k: string)
    requires keys <= steps.Keys && k in keys
    ensures SumOver(steps, keys) == Counted(steps[k]) + SumOver(steps, keys - {k})
    decreases |keys|
  {
    var j :| j in keys && SumOver(steps, keys) == Counted(steps[j]) + SumOver(steps, keys - {j});
    if j != k {
      SumOverRemove(steps, keys - {j}, k);
      SumOverRemove(steps, keys - {k}, j);
      assert keys - {j} - {k} == keys - {k} - {j};
    }
  }

  /** Records outside `keys` do not enter the sum: changing one of them leaves it alone. */
  lemma {:induction false} SumOverIgnores(steps: map<string, StepMetrics>, keys: set<string>, k: string, m: StepMetrics)
    requires keys <= steps.Keys && k !in keys
    ensures SumOver(steps[k := m], keys) == SumOver(steps, keys)
    decreases |keys|
  {
    if keys != {} {
      var j :| j in keys && SumOver(steps, keys) == Counted(steps[j]) + SumOver(steps, keys - {j});
      SumOverRemove(steps[k := m], keys, j);
      SumOverIgnores(steps, keys - {j}, k, m);
    }
  }

  /** Replacing one record changes the total by exactly the difference of what the two records count. */
  lemma TotalAfterReplace(steps: map<string, StepMetrics>, k: string, m: StepMetrics)
    ensures TotalDuration(steps[k := m]) ==
      TotalDuration(steps) + Counted(m) - (if k in steps then Counted(steps[k]) else 0)
  {
    var updated := steps[k := m];
    var others := steps.Keys - {k};
    assert updated.Keys - {k} == others;
    SumOverRemove(updated, updated.Keys, k);
    SumOverIgnores(steps, others, k, m);
    if k in steps {
      SumOverRemove(steps, steps.Keys, k);
    } else {
      assert steps.Keys == others;
    }
  }

  /** When no duration is negative, neither is the total. */
  lemma {:induction false} SumOverNonNegative(steps: map<string, StepMetrics>, keys: set<string>)
    requires keys <= steps.Keys
    requires forall n :: n in keys && steps[n].duration.Some? ==> steps[n].duration.value >= 0
    ensures SumOver(steps, keys) >= 0
    decreases |keys|
  {
    if keys != {} {
      var j :| j in keys && SumOver(steps, keys) == Counted(steps[j]) + SumOver(steps, keys - {j});
      assert steps[j].duration.Some? ==> steps[j].duration.value >= 0;
      assert Counted(steps[j]) >= 0;
      SumOverNonNegative(steps, keys - {j});
      assert SumOver(steps, keys - {j}) >= 0;
    }
  }

  /** `if self.current_step and self.current_step in self.steps`: a non-empty current name with a record. */
  predicate IsOpen(steps: map<string, StepMetrics>, current: Option<string>) {
    current.Some? && current.value != "" && current.value in steps
  }

  /** The table after `end_step(status)`: the current record is finished, when there is one. */
  function AfterEnd(steps: map<string, StepMetrics>, current: Option<string>, status: string, now: int):
    (r: map<string, StepMetrics>)
    ensures r.Keys == steps.Keys
    ensures forall n :: n in steps && !(IsOpen(steps, current) && n == current.value) ==> r[n] == steps[n]
    ensures IsOpen(steps, current) ==> r[current.value] == Finished(steps[current.value], status, now)
  {
    if IsOpen(steps, current) then steps[current.value := Finished(steps[current.value], status, now)]
    else steps
  }

  /**
   * The table after `start_step(name)`: the open step, if any, is ended as
   * done, then `name` gets a fresh record, replacing any earlier record under
   * that name.
   */
  function AfterStart(steps: map<string, StepMetrics>, current: Option<string>, name: string, now: int):
    (r: map<string, StepMetrics>)
    ensures r.Keys == steps.Keys + {name}
    ensures r[name] == Started(name, now)
    ensures forall n :: n in steps && n != name && !(IsOpen(steps, current) && n == current.value) ==> r[n] == steps[n]
    ensures IsOpen(steps, current) && current.value != name ==>
      r[current.value] == Finished(steps[current.value], DoneStatus, now)
  {
    AfterEnd(steps, current, DoneStatus, now)[name := Started(name, now)]
  }

  /** The table after `update_step_metrics`: the current record takes the two counters, when there is one. */
  function AfterUpdate(steps: map<string, StepMetrics>, current: Option<string>, commands: int, messages: int):
    (r: map<string, StepMetrics>)
    ensures r.Keys == steps.Keys
    ensures forall n :: n in steps && !(IsOpen(steps, current) && n == current.value) ==> r[n] == steps[n]
    ensures IsOpen(steps, current) ==>
      r[current.value] == steps[current.value].(commandsExecuted := commands, messagesSent := messages)
  {
    if IsOpen(steps, current) then
      steps[current.value := steps[current.value].(commandsExecuted := commands, messagesSent := messages)]
    else steps
  }

  /**
   * A record is consistent: it is filed under its own name, it has a duration
   * exactly when it has an end time, and the duration is the time between
   * start and end.
   */
  predicate Consistent(steps: map<string, StepMetrics>) {
    forall n :: n in steps ==>
      steps[n].stepName == n &&
      steps[n].endTime.Some? == steps[n].duration.Some? &&
      (steps[n].endTime.Some? ==> steps[n].duration.value == steps[n].endTime.value - steps[n].startTime)
  }

  lemma EndKeepsConsistent(steps: map<string, StepMetrics>, current: Option<string>, status: string, now: int)
    requires Consistent(steps)
    ensures Consistent(AfterEnd(steps, current, status, now))
  {
  }

  lemma StartKeepsConsistent(steps: map<string, StepMetrics>, current: Option<string>, name: string, now: int)
    requires Consistent(steps)
    ensures Consistent(AfterStart(steps, current, name, now))
  {
    EndKeepsConsistent(steps, current, DoneStatus, now);
  }

  lemma UpdateKeepsConsistent(steps: map<string, StepMetrics>, current: Option<string>, commands: int, messages: int)
    requires Consistent(steps)
    ensures Consistent(AfterUpdate(steps, current, commands, messages))
  {
  }

  /** Ending the open step adds its elapsed time to the total, in place of what it counted before. */
  lemma TotalAfterEnd(steps: map<string, StepMetrics>, current: Option<string>, status: string, now: int)
    requires IsOpen(steps, current)
    ensures TotalDuration(AfterEnd(steps, current, status, now)) ==
      TotalDuration(steps) + (now - steps[current.value].startTime) - Counted(steps[current.value])
  {
    var c := current.value;
    TotalAfterReplace(steps, c, Finished(steps[c], status, now));
  }

  /**
   * Starting a step first ends the open step, which then counts its elapsed
   * time; the fresh record adds nothing of its own, and a restarted name
   * loses what its old record counted.
   */
  lemma TotalAfterStart(steps: map<string, StepMetrics>, current: Option<string>, name: string, now: int)
    ensures var ended := AfterEnd(steps, current, DoneStatus, now);
      TotalDuration(AfterStart(steps, current, name, now)) ==
      TotalDuration(ended) - (if name in steps then Counted(ended[name]) else 0)
    ensures !IsOpen(steps, current) ==>
      TotalDuration(AfterStart(steps, current, name, now)) ==
      TotalDuration(steps) - (if name in steps then Counted(steps[name]) else 0)
    ensures IsOpen(steps, current) && current.value != name ==>
      TotalDuration(AfterStart(steps, current, name, now)) ==
      TotalDuration(steps) + (now - steps[current.value].startTime) - Counted(steps[current.value])
      - (if name in steps then Counted(steps[name]) else 0)
    ensures IsOpen(steps, current) && current.value == name ==>
      TotalDuration(AfterStart(steps, current, name, now)) == TotalDuration(steps) - Counted(steps[name])
  {
    var ended := AfterEnd(steps, current, DoneStatus, now);
    TotalAfterReplace(ended, name, Started(name, now));
    if IsOpen(steps, current) {
      TotalAfterEnd(steps, current, DoneStatus, now);
    }
  }

  /**
   * `end_step` leaves the current step in place, so starting another step
   * after an explicit end ends the old step a second time: its status is
   * overwritten with the done mark and its end time with the later reading.
   */
  lemma StartAfterEndReendsStep(steps: map<string, StepMetrics>, a: string, b: string, status: string, t1: int, t2: int, t3: int)
    requires a != "" && a != b
    ensures var s1 := AfterStart(steps, None, a, t1);
      var s2 := AfterEnd(s1, Some(a), status, t2);
      var s3 := AfterStart(s2, Some(a), b, t3);
      s2[a].status == status && s2[a].endTime == Some(t2) &&
      s3[a].status == DoneStatus && s3[a].endTime == Some(t3) && s3[a].duration == Some(t3 - t1)
  {
  }

  /** The metrics of one project run. */
  class ProjectMetrics {
    var projectName: string
    var steps: map<string, StepMetrics>
    var currentStep: Option<string>

    /** Every record is consistent, and a non-empty current name has a record. */
    ghost predicate Valid()
      reads this
    {
      Consistent(steps) && (currentStep.Some? && currentStep.value != "" ==> currentStep.value in steps)
    }

    constructor(projectName: string)
      ensures this.projectName == projectName && steps == map[] && currentStep == None
      ensures Valid()
    {
      this.projectName := projectName;
      steps := map[];
      currentStep := None;
    }

    /** `end_step(status)`: finish the current record; the current name stays as it was. */
    method EndStep(status: string, now: int)
      requires Valid()
      modifies this
      ensures Valid()
      ensures projectName == old(projectName) && currentStep == old(currentStep)
      ensures steps == AfterEnd(old(steps), old(currentStep), status, now)
    {
      if currentStep.Some? && currentStep.value != "" && currentStep.value in steps {
        var name := currentStep.value;
        var step := steps[name];
        step := step.(endTime := Some(now), status := status);
        step := step.(duration := Some(now - step.startTime));
        steps := steps[name := step];
      }
      EndKeepsConsistent(old(steps), currentStep, status, now);
    }

    /** `start_step(name)`: end the open step as done, then make `name` current with a fresh record. */
    method StartStep(name: string, now: int)
      requires Valid()
      modifies this
      ensures Valid()
      ensures projectName == old(projectName) && currentStep == Some(name)
      ensures steps == AfterStart(old(steps), old(currentStep), name, now)
    {
      if currentStep.Some? && currentStep.value != "" {
        EndStep(DoneStatus, now);
      }
      currentStep := Some(name);
      steps := steps[name := StepMetrics(name, now, None, RunningStatus, None, 0, 0)];
      StartKeepsConsistent(old(steps), old(currentStep), name, now);
    }

    /** `update_step_metrics(commands, messages)`: copy the two counters into the current record. */
    method UpdateStepMetrics(commands: int, messages: int)
      requires Valid()
      modifies this
      ensures Valid()
      ensures projectName == old(projectName) && currentStep == old(currentStep)
      ensures steps == AfterUpdate(old(steps), old(currentStep), commands, messages)
    {
      if currentStep.Some? && currentStep.value != "" && currentStep.value in steps {
        var name := currentStep.value;
        steps := steps[name := steps[name].(commandsExecuted := commands, messagesSent := messages)];
      }
      UpdateKeepsConsistent(old(steps), currentStep, commands, messages);
    }

    /** `get_total_duration()`: add up the durations that are set and non-zero. */
    method GetTotalDuration() returns (total: int)
      ensures total == TotalDuration(steps)
    {
      total := 0;
      var rest := steps.Keys;
      while rest != {}
        invariant rest <= steps.Keys
        invariant total + SumOver(steps, rest) == TotalDuration(steps)
        decreases |rest|
      {
        var name :| name in rest;
        SumOverRemove(steps, rest, name);
        var step := steps[name];
        if step.duration.Some? && step.duration.value != 0 {
          total := total + step.duration.value;
        }
        rest := rest - {name};
      }
    }
  }
}

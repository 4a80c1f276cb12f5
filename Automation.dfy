/**
 * The automation object: the cached lookup of the current step in the steps
 * file, the button handler that drives the session state, and the runtime
 * clock text. The file, the clock and the success of the keystrokes are
 * inputs.
 */
module Automation {
  import opened Wrappers
  import opened Text
  import opened Checklist
  import opened Resolver
  import opened Buttons

  /** Seconds that must pass before the steps file is read again. */
  const CheckInterval: int := 1

  /** The current step a document names: the parse followed by the selection. */
  function CurrentStepOf(content: string): Option<string> {
    Resolve(ParseSteps(SplitLines(content)))
  }

  /** The fields the lookup reads and writes: the shown step, the time of the last read, the text last read. */
  datatype Cache = Cache(currentStep: Option<string>, lastFileCheck: int, lastFileContent: Option<string>)

  /** The state at start-up: no step, never read (time 0), no text. */
  const InitialCache: Cache := Cache(None, 0, None)

  /** What `parse_current_step` returns, and the cache it leaves. */
  datatype Lookup = Lookup(result: Option<string>, cache: Cache)

  /**
   * `parse_current_step` at time `now`: a missing file gives no step; within
   * the check interval, or when the text has not changed, the shown step is
   * returned; otherwise the text is parsed. A read error gives no step.
   */
  function LookupStep(c: Cache, file: StepsFile, now: int): (r: Lookup)
    ensures r.cache.currentStep == c.currentStep
    ensures r.cache.lastFileContent != c.lastFileContent ==> file.Readable? && r.cache.lastFileContent == Some(file.content)
    ensures r.result != c.currentStep && r.result.Some? ==>
      file.Readable? && r.result == CurrentStepOf(file.content) && r.cache.lastFileContent == Some(file.content)
    // a missing file gives no step and leaves the cache alone
    ensures file.Missing? ==> r == Lookup(None, c)
    // within the check interval the file is not read and the shown step is returned
    ensures !file.Missing? && now - c.lastFileCheck < CheckInterval ==> r == Lookup(c.currentStep, c)
    // once the interval has passed the time is recorded; a read error gives no step,
    // an unchanged text the shown step, and a changed text is recorded and parsed
    ensures !file.Missing? && now - c.lastFileCheck >= CheckInterval ==>
      r.cache.lastFileCheck == now &&
      (file.Unreadable? ==> r.result == None && r.cache.lastFileContent == c.lastFileContent) &&
      (file.Readable? && Some(file.content) == c.lastFileContent ==> r.result == c.currentStep) &&
      (file.Readable? && Some(file.content) != c.lastFileContent ==>
        r.result == CurrentStepOf(file.content) && r.cache.lastFileContent == Some(file.content))
  {
    if file.Missing? then Lookup(None, c)
    else if now - c.lastFileCheck < CheckInterval then Lookup(c.currentStep, c)
    else
      var checked := c.(lastFileCheck := now);
      match file
      case Unreadable(_) => Lookup(None, checked)
      case Readable(content) =>
        if Some(content) == c.lastFileContent then Lookup(c.currentStep, checked)
        else Lookup(CurrentStepOf(content), checked.(lastFileContent := Some(content)))
  }

  /** `update_status`'s use of the lookup: the step it returns becomes the shown step. */
  function Refresh(c: Cache, file: StepsFile, now: int): (r: Cache)
    // the shown step becomes none, stays, or is the step of the text just read
    ensures r.currentStep == None || r.currentStep == c.currentStep ||
      (file.Readable? && r.currentStep == CurrentStepOf(file.content) && r.lastFileContent == Some(file.content))
    // the text kept is the old one or the one just read
    ensures r.lastFileContent == c.lastFileContent || (file.Readable? && r.lastFileContent == Some(file.content))
    // the time of the last read moves to now exactly when the file exists and the interval has passed
    ensures r.lastFileCheck == if !file.Missing? && now - c.lastFileCheck >= CheckInterval then now else c.lastFileCheck
    // a missing file or a read error clears the shown step
    ensures file.Missing? || (file.Unreadable? && now - c.lastFileCheck >= CheckInterval) ==> r.currentStep == None
  {
    var l := LookupStep(c, file, now);
    l.cache.(currentStep := l.result)
  }

  /** Within the check interval nothing is read and nothing changes. */
  lemma RefreshWithinInterval(c: Cache, file: StepsFile, now: int)
    requires !file.Missing? && now - c.lastFileCheck < CheckInterval
    ensures Refresh(c, file, now) == c
  {
  }

  /** Once the interval has passed, a changed text is parsed and its current step is shown. */
  lemma RefreshChangedText(c: Cache, content: string, now: int)
    requires now - c.lastFileCheck >= CheckInterval && Some(content) != c.lastFileContent
    ensures Refresh(c, Readable(content), now) ==
      Cache(CurrentStepOf(content), now, Some(content))
  {
  }

  /**
   * Refreshing twice at the same time is refreshing once: the second lookup
   * finds the interval not yet passed, or the file still missing.
   */
  lemma RefreshIdempotent(c: Cache, file: StepsFile, now: int)
    ensures Refresh(Refresh(c, file, now), file, now) == Refresh(c, file, now)
  {
  }

  /**
   * The shown step is either none or the current step of the text last
   * read: refreshing never shows a step of some other text.
   */
  predicate Coherent(c: Cache) {
    c.currentStep == None || (c.lastFileContent.Some? && c.currentStep == CurrentStepOf(c.lastFileContent.value))
  }

  lemma RefreshKeepsCoherent(c: Cache, file: StepsFile, now: int)
    requires Coherent(c)
    ensures Coherent(Refresh(c, file, now))
  {
  }

  /**
   * The start-up check calls the lookup directly, which records the text
   * but not the step. A later refresh of the unchanged file then hits the
   * cache and shows no step, although the file has one.
   */
  lemma StartupCheckLeavesStepStale(content: string, t0: int, t1: int)
    requires CurrentStepOf(content).Some?
    requires t0 >= CheckInterval && t1 - t0 >= CheckInterval
    ensures LookupStep(InitialCache, Readable(content), t0).result == CurrentStepOf(content)
    ensures Refresh(LookupStep(InitialCache, Readable(content), t0).cache, Readable(content), t1).currentStep == None
  {
  }

  /**
   * A moment in which the file is missing clears the shown step without
   * forgetting the text; when the same text is back, the cache hides its step.
   */
  lemma MissingFileLeavesStepStale(c: Cache, reason: string, content: string, t1: int, t2: int)
    requires c.lastFileContent == Some(content) && c.currentStep == CurrentStepOf(content)
    ensures Refresh(Refresh(c, Missing(reason), t1), Readable(content), t2).currentStep == None
  {
  }

  /** Hours, minutes and seconds of an elapsed time. */
  datatype Clock = Clock(hours: int, minutes: int, seconds: int)

  /** Division by 60 is determined by a quotient and a remainder in range. */
  lemma DivMod60(x: int, q: int, r: int)
    requires 0 <= r < 60 && x == q * 60 + r
    ensures x / 60 == q && x % 60 == r
  {
    var q', r' := x / 60, x % 60;
    assert x == q' * 60 + r' && 0 <= r' < 60;
    assert (q - q') * 60 == r' - r;
  }

  /** `hours = s // 3600; minutes = (s % 3600) // 60; seconds = s % 60`. */
  function SplitSeconds(s: int): (r: Clock)
    ensures 0 <= r.minutes < 60 && 0 <= r.seconds < 60
    ensures r.hours * 3600 + r.minutes * 60 + r.seconds == s
    ensures s >= 0 ==> r.hours >= 0
  {
    var hours, rest := s / 3600, s % 3600;
    var minutes := rest / 60;
    DivMod60(s, hours * 60 + minutes, rest % 60);
    Clock(hours, minutes, s % 60)
  }

  /** The split is the only one with minutes and seconds in range. */
  lemma SplitSecondsUnique(s: int, c: Clock)
    requires 0 <= c.minutes < 60 && 0 <= c.seconds < 60
    requires c.hours * 3600 + c.minutes * 60 + c.seconds == s
    ensures SplitSeconds(s) == c
  {
    var r := SplitSeconds(s);
    var low := c.minutes * 60 + c.seconds;
    assert 0 <= low < 3600;
    assert 0 <= r.minutes * 60 + r.seconds < 3600;
    assert (r.hours - c.hours) * 3600 == low - (r.minutes * 60 + r.seconds);
    assert r.hours == c.hours;
    assert (r.minutes - c.minutes) * 60 == c.seconds - r.seconds;
  }

  /** `f"{n:02d}"`: at least two digits, zero-padded; a negative number keeps its sign. */
  function Pad2(n: int): (r: string)
    ensures |r| >= 2
    ensures 0 <= n < 100 ==> |r| == 2 && forall k :: 0 <= k < 2 ==> '0' <= r[k] <= '9'
  {
    if n < 0 then "-" + NatToString(-n)
    else if n < 10 then "0" + NatToString(n)
    else
      assert NatToString(n) == NatToString(n / 10) + ['0' + (n % 10) as char];
      NatToString(n)
  }

  /** The value of two decimal digits. */
  function Digits2(s: string): int
    requires |s| == 2
  {
    (s[0] as int - '0' as int) * 10 + (s[1] as int - '0' as int)
  }

  lemma Pad2Value(n: int)
    requires 0 <= n < 100
    ensures Digits2(Pad2(n)) == n
  {
    if n >= 10 {
      assert NatToString(n) == NatToString(n / 10) + ['0' + (n % 10) as char];
    }
  }

  /** `get_runtime`: "00:00:00" before the start time is set (or while it is 0), else the elapsed time. */
  function Runtime(startTime: Option<int>, now: int): (r: string)
    ensures startTime.None? || startTime.value == 0 ==> r == "00:00:00"
    // whatever the elapsed time, the text ends in ":mm:ss" after at least two characters of hours
    ensures |r| >= 8 && r[|r| - 6] == ':' && r[|r| - 3] == ':'
    // once started, the last two fields read back to the minutes and seconds of the elapsed time
    ensures startTime.Some? && startTime.value != 0 ==>
      Digits2(r[|r| - 5..|r| - 3]) * 60 + Digits2(r[|r| - 2..]) == (now - startTime.value) % 3600
  {
    if startTime.None? || startTime.value == 0 then "00:00:00"
    else
      var c := SplitSeconds(now - startTime.value);
      var h, m, sec := Pad2(c.hours), Pad2(c.minutes), Pad2(c.seconds);
      Pad2Value(c.minutes);
      Pad2Value(c.seconds);
      ClockTailLayout(h, m, sec);
      DivMod3600(now - startTime.value, c.hours, c.minutes * 60 + c.seconds);
      h + ":" + m + ":" + sec
  }

  /** The last five characters of "h:mm:ss" are the minutes and the seconds, whatever the width of the hours. */
  lemma ClockTailLayout(h: string, m: string, s: string)
    requires |h| >= 2 && |m| == 2 && |s| == 2
    ensures var r := h + ":" + m + ":" + s;
      |r| >= 8 && r[|r| - 6] == ':' && r[|r| - 3] == ':' && r[|r| - 5..|r| - 3] == m && r[|r| - 2..] == s
  {
    var r := h + ":" + m + ":" + s;
    assert r[|r| - 5..|r| - 3] == m;
    assert r[|r| - 2..] == s;
  }

  /** Division by 3600 is determined by a quotient and a remainder in range. */
  lemma DivMod3600(x: int, q: int, r: int)
    requires 0 <= r < 3600 && x == q * 3600 + r
    ensures x % 3600 == r
  {
    var q', r' := x / 3600, x % 3600;
    assert x == q' * 3600 + r' && 0 <= r' < 3600;
    assert (q - q') * 3600 == r' - r;
  }

  lemma HoursBelow100(s: int)
    requires 0 <= s < 360000
    ensures 0 <= SplitSeconds(s).hours < 100
  {
  }

  lemma ClockTextLayout(h: string, m: string, s: string)
    requires |h| == 2 && |m| == 2 && |s| == 2
    ensures var r := h + ":" + m + ":" + s;
      |r| == 8 && r[2] == ':' && r[5] == ':' && r[0..2] == h && r[3..5] == m && r[6..8] == s
  {
    var r := h + ":" + m + ":" + s;
    assert r[0..2] == h;
    assert r[3..5] == m;
    assert r[6..8] == s;
  }

  /**
   * Under 100 hours the runtime text is eight characters "hh:mm:ss" from
   * which the elapsed seconds can be read back.
   */
  lemma RuntimeReadsBack(start: int, now: int)
    requires start != 0 && 0 <= now - start < 360000
    ensures var r := Runtime(Some(start), now);
      |r| == 8 && r[2] == ':' && r[5] == ':' &&
      Digits2(r[0..2]) * 3600 + Digits2(r[3..5]) * 60 + Digits2(r[6..8]) == now - start
  {
    var c := SplitSeconds(now - start);
    HoursBelow100(now - start);
    var h, m, sec := Pad2(c.hours), Pad2(c.minutes), Pad2(c.seconds);
    assert Runtime(Some(start), now) == h + ":" + m + ":" + sec;
    ClockTextLayout(h, m, sec);
    Pad2Value(c.hours);
    Pad2Value(c.minutes);
    Pad2Value(c.seconds);
  }

  /** The automation's own state. */
  class CursorAutomation {
    var lastText: Option<string>
    var waitingForCompletion: bool
    var messagesSent: nat
    var commandsExecuted: nat
    var currentStep: Option<string>
    var lastFileCheck: int
    var lastFileContent: Option<string>
    var startTime: Option<int>

    /** The fields `handle_button` decides on. */
    function SessionState(): Session
      reads this
    {
      Session(lastText, waitingForCompletion, commandsExecuted, messagesSent)
    }

    /** The fields of the step lookup. */
    function CacheState(): Cache
      reads this
    {
      Cache(currentStep, lastFileCheck, lastFileContent)
    }

    constructor()
      ensures SessionState() == Initial && CacheState() == InitialCache && startTime == None
    {
      lastText := None;
      waitingForCompletion := false;
      messagesSent := 0;
      commandsExecuted := 0;
      currentStep := None;
      lastFileCheck := 0;
      lastFileContent := None;
      startTime := None;
    }

    /** `parse_current_step()`: the step lookup, which records the time and the text it read. */
    method ParseCurrentStep(file: StepsFile, now: int) returns (step: Option<string>)
      modifies this`lastFileCheck, this`lastFileContent
      ensures LookupStep(old(CacheState()), file, now) == Lookup(step, CacheState())
    {
      if file.Missing? {
        return None;
      }
      if now - lastFileCheck < CheckInterval {
        return currentStep;
      }
      lastFileCheck := now;
      if file.Unreadable? {
        return None;
      }
      if Some(file.content) == lastFileContent {
        return currentStep;
      }
      lastFileContent := Some(file.content);
      var steps := CollectSteps(SplitLines(file.content));
      step := Resolve(steps);
    }

    /** The step lookup of `update_status`: a different step becomes the shown step. */
    method RefreshCurrentStep(file: StepsFile, now: int)
      modifies this`currentStep, this`lastFileCheck, this`lastFileContent
      ensures CacheState() == Refresh(old(CacheState()), file, now)
    {
      var step := ParseCurrentStep(file, now);
      if step != currentStep {
        currentStep := step;
      }
    }

    /**
     * `handle_button(text)`, reading the steps file and the clock at `now`
     * whenever it updates the status line; `delivered` is whether the
     * keystrokes of the action it tries get through.
     */
    method HandleButton(text: string, delivered: bool, file: StepsFile, now: int) returns (outcome: Outcome)
      modifies this
      ensures var r := Dispatch(old(SessionState()), text, delivered);
        outcome == r.outcome && SessionState() == r.next
      ensures CacheState() == if outcome == Ignored then old(CacheState()) else Refresh(old(CacheState()), file, now)
      ensures startTime == old(startTime)
    {
      if text == "" {
        return Ignored;
      }
      ghost var c0 := CacheState();
      var isAccept := IsAccept(text);
      var isCompleted := IsCompleted(text);
      if isAccept && Some(text) != lastText {
        RefreshCurrentStep(file, now);
        if delivered {
          commandsExecuted := commandsExecuted + 1;
          RefreshCurrentStep(file, now);
          waitingForCompletion := true;
          outcome := AcceptPressed;
        } else {
          RefreshCurrentStep(file, now);
          outcome := AcceptFailed;
        }
        RefreshIdempotent(c0, file, now);
      } else if isCompleted && waitingForCompletion {
        RefreshCurrentStep(file, now);
        // type_continue_implementation: an error while typing leaves this method
        if !delivered {
          return ContinueRaised;
        }
        messagesSent := messagesSent + 1;
        RefreshCurrentStep(file, now);
        RefreshIdempotent(c0, file, now);
        waitingForCompletion := false;
        outcome := ContinueSent;
      } else if IsGenerating(text) {
        if Some(text) != lastText {
          RefreshCurrentStep(file, now);
          outcome := GeneratingNoted;
        } else {
          outcome := Ignored;
        }
      } else if IsCancel(text) {
        if Some(text) != lastText {
          RefreshCurrentStep(file, now);
          outcome := CancelNoted;
        } else {
          outcome := Ignored;
        }
      } else {
        outcome := Ignored;
      }
      lastText := Some(text);
    }
  }
}

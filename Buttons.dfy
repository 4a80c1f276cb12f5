/**
 * The button logic of `handle_button`: phrase tests on the recognised text
 * and the transition of the session state (debounce on the last text seen,
 * the wait-for-completion latch, the two counters) that one text sample
 * causes. The keystrokes themselves are an outside effect whose success or
 * failure is an input.
 */
module Buttons {
  import opened Wrappers
  import opened Text

  /** Texts that ask for a command to be run or a change to be accepted. */
  const AcceptPhrases: seq<string> :=
    ["run command", "run this command", "run the command", "accept", "accept all", "command", "command \U{2318}"]

  /** Texts that report that the running command has finished. */
  const CompletedPhrases: seq<string> := ["completed", "done", "success", "finished"]

  /** `any(phrase in text.lower() for phrase in phrases)`. */
  predicate MatchesAny(text: string, phrases: seq<string>) {
    exists k | 0 <= k < |phrases| :: Contains(Lower(text), phrases[k])
  }

  predicate IsAccept(text: string) {
    MatchesAny(text, AcceptPhrases)
  }

  predicate IsCompleted(text: string) {
    MatchesAny(text, CompletedPhrases)
  }

  /** The "busy" test: the text mentions generating or loading. */
  predicate IsGenerating(text: string) {
    Contains(Lower(text), "generating") || Contains(Lower(text), "loading")
  }

  /** The "dismiss" test: the text mentions cancel or skip. */
  predicate IsCancel(text: string) {
    Contains(Lower(text), "cancel") || Contains(Lower(text), "skip")
  }

  /**
   * Because the bare phrase "command" is in the list, the accept test
   * reduces to two words: a text is an accept text exactly when its lower
   * case holds "command" or "accept".
   */
  lemma AcceptIsCommandOrAccept(text: string)
    ensures IsAccept(text) <==> Contains(Lower(text), "command") || Contains(Lower(text), "accept")
  {
    var low := Lower(text);
    if Contains(low, "command") {
      assert Contains(low, AcceptPhrases[5]);
    } else if Contains(low, "accept") {
      assert Contains(low, AcceptPhrases[3]);
    }
    if IsAccept(text) {
      var k :| 0 <= k < |AcceptPhrases| && Contains(low, AcceptPhrases[k]);
      var p := AcceptPhrases[k];
      if k == 0 || k == 1 || k == 2 {
        if k == 0 {
          assert "run command"[4..] == "command";
          assert OccursAt(p, "command", 4);
        } else if k == 1 {
          assert "run this command"[9..] == "command";
          assert OccursAt(p, "command", 9);
        } else {
          assert "run the command"[8..] == "command";
          assert OccursAt(p, "command", 8);
        }
        ContainsTransitive(low, p, "command");
      } else if k == 3 || k == 4 {
        assert OccursAt(p, "accept", 0);
        ContainsTransitive(low, p, "accept");
      } else {
        assert OccursAt(p, "command", 0);
        ContainsTransitive(low, p, "command");
      }
    }
  }

  /** The state of the automation that `handle_button` reads and writes. */
  datatype Session = Session(
    lastText: Option<string>,
    waitingForCompletion: bool,
    commandsExecuted: nat,
    messagesSent: nat)

  /** The state at start-up: nothing seen, latch cleared, no command run and no message sent. */
  const Initial: Session := Session(None, false, 0, 0)

  /** What one text sample led to. */
  datatype Outcome =
    | Ignored          // empty, unknown or repeated busy/cancel text: no action
    | AcceptPressed    // Ctrl+Enter was sent
    | AcceptFailed     // sending Ctrl+Enter raised; the error was caught
    | ContinueSent     // the continue-implementation message was typed and submitted
    | ContinueRaised   // typing the message raised; the error leaves `handle_button`
    | GeneratingNoted  // a new busy text was logged
    | CancelNoted      // a new cancel/skip text was logged

  datatype Reaction = Reaction(next: Session, outcome: Outcome)

  /**
   * One call of `handle_button(text)`. `delivered` is whether the input
   * collaborator managed to send the keystrokes of the action tried.
   */
  function Dispatch(s: Session, text: string, delivered: bool): (r: Reaction)
    // the accept action is tried exactly on a new accept text
    ensures (r.outcome == AcceptPressed || r.outcome == AcceptFailed) <==>
      text != "" && IsAccept(text) && Some(text) != s.lastText
    // the continue action is tried exactly on a completed text while the latch is set, unless the accept action takes precedence
    ensures (r.outcome == ContinueSent || r.outcome == ContinueRaised) <==>
      text != "" && IsCompleted(text) && s.waitingForCompletion && !(IsAccept(text) && Some(text) != s.lastText)
    // a sent action counts once; nothing else moves the counters
    ensures r.next.commandsExecuted == s.commandsExecuted + (if r.outcome == AcceptPressed then 1 else 0)
    ensures r.next.messagesSent == s.messagesSent + (if r.outcome == ContinueSent then 1 else 0)
    // an action counts as sent exactly when its keystrokes got through
    ensures r.outcome == AcceptPressed || r.outcome == ContinueSent ==> delivered
    ensures r.outcome == AcceptFailed || r.outcome == ContinueRaised ==> !delivered
    // the latch is set after a sent command, cleared after a sent message, and is otherwise kept
    ensures r.next.waitingForCompletion ==
      if r.outcome == AcceptPressed then true
      else if r.outcome == ContinueSent then false
      else s.waitingForCompletion
    // the text is remembered whatever happened, unless it was empty or the error escaped
    ensures r.next.lastText == if text == "" || r.outcome == ContinueRaised then s.lastText else Some(text)
  {
    if text == "" then Reaction(s, Ignored)
    else
      var seen := s.(lastText := Some(text));
      if IsAccept(text) && Some(text) != s.lastText then
        if delivered then Reaction(seen.(commandsExecuted := s.commandsExecuted + 1, waitingForCompletion := true), AcceptPressed)
        else Reaction(seen, AcceptFailed)
      else if IsCompleted(text) && s.waitingForCompletion then
        if delivered then Reaction(seen.(messagesSent := s.messagesSent + 1, waitingForCompletion := false), ContinueSent)
        else Reaction(s, ContinueRaised)
      else if IsGenerating(text) then Reaction(seen, if Some(text) != s.lastText then GeneratingNoted else Ignored)
      else if IsCancel(text) then Reaction(seen, if Some(text) != s.lastText then CancelNoted else Ignored)
      else Reaction(seen, Ignored)
  }

  /** One text sample read from the screen and whether the keystrokes it calls for get through. */
  datatype Sample = Sample(text: string, delivered: bool)

  /**
   * The polling loop feeding samples to `handle_button` one after the other;
   * an error that escapes `handle_button` ends the loop.
   */
  function Replay(s: Session, samples: seq<Sample>): (r: Session)
    // neither counter decreases, and each sample fires at most one counted action
    ensures s.commandsExecuted <= r.commandsExecuted && s.messagesSent <= r.messagesSent
    ensures (r.commandsExecuted - s.commandsExecuted) + (r.messagesSent - s.messagesSent) <= |samples|
    // an escaping continue error ends the run with the session as it was before that sample
    ensures samples != [] && Dispatch(s, samples[0].text, samples[0].delivered).outcome == ContinueRaised ==> r == s
    decreases |samples|
  {
    if samples == [] then s
    else
      var r := Dispatch(s, samples[0].text, samples[0].delivered);
      if r.outcome == ContinueRaised then r.next else Replay(r.next, samples[1..])
  }

  /**
   * Every continue message and every set latch is paid for by a distinct
   * command: messages sent, plus one while the latch is set, never exceed
   * the commands executed.
   */
  predicate LatchBound(s: Session) {
    s.messagesSent + (if s.waitingForCompletion then 1 else 0) <= s.commandsExecuted
  }

  lemma {:induction false} ReplayKeepsLatchBound(s: Session, samples: seq<Sample>)
    requires LatchBound(s)
    ensures LatchBound(Replay(s, samples))
    ensures Replay(s, samples).commandsExecuted >= s.commandsExecuted
    ensures Replay(s, samples).messagesSent >= s.messagesSent
    decreases |samples|
  {
    if samples != [] {
      var r := Dispatch(s, samples[0].text, samples[0].delivered);
      if r.outcome != ContinueRaised {
        ReplayKeepsLatchBound(r.next, samples[1..]);
      }
    }
  }

  /** From start-up, no more continue messages are sent than commands are run. */
  lemma MessagesNeverExceedCommands(samples: seq<Sample>)
    ensures Replay(Initial, samples).messagesSent <= Replay(Initial, samples).commandsExecuted
  {
    ReplayKeepsLatchBound(Initial, samples);
  }

  /**
   * Debounce: the same text read twice in a row never fires the accept
   * action the second time, while two different accept texts each fire it.
   */
  lemma Debounce(s: Session, t: string, u: string)
    requires t != "" && u != "" && IsAccept(t) && IsAccept(u) && t != u
    requires Some(t) != s.lastText
    ensures Replay(s, [Sample(t, true), Sample(t, true)]).commandsExecuted == s.commandsExecuted + 1
    ensures Replay(s, [Sample(t, true), Sample(u, true)]).commandsExecuted == s.commandsExecuted + 2
  {
    var r := Dispatch(s, t, true);
    assert [Sample(t, true), Sample(t, true)][1..] == [Sample(t, true)];
    assert [Sample(t, true), Sample(u, true)][1..] == [Sample(u, true)];
    assert Replay(r.next, [Sample(t, true)]) == Dispatch(r.next, t, true).next;
    assert Replay(r.next, [Sample(u, true)]) == Dispatch(r.next, u, true).next;
  }

  /**
   * The fall-through of the `elif` chain: "command completed" read twice
   * while nothing is pending runs the command on the first read and, since
   * the repeated accept text falls through to the completed test, sends the
   * continue message on the second.
   */
  lemma RepeatedCommandCompletedContinues()
    ensures var s := Replay(Initial, [Sample("command completed", true)]);
      s.commandsExecuted == 1 && s.waitingForCompletion &&
      Dispatch(s, "command completed", true).outcome == ContinueSent
  {
    var t := "command completed";
    assert Lower(t) == t;
    assert OccursAt(Lower(t), AcceptPhrases[5], 0);
    assert OccursAt(Lower(t), CompletedPhrases[0], 8);
  }

  /** A run-command button is an accept text. */
  lemma RunCommandIsAccept()
    ensures IsAccept("Run Command")
  {
    assert Lower("Run Command") == "run command";
    assert OccursAt(Lower("Run Command"), AcceptPhrases[0], 0);
  }

  /** A completion notice is a completed text. */
  lemma CompletionNoticeIsCompleted()
    ensures IsCompleted("Task Done")
  {
    var low := Lower("Task Done");
    assert low == "task done";
    assert low[5..] == CompletedPhrases[1];
    assert OccursAt(low, CompletedPhrases[1], 5);
  }

  /** A generating notice is a busy text. */
  lemma GeneratingNoticeIsBusy()
    ensures IsGenerating("Generating response...")
  {
    var low := Lower("Generating response...");
    assert low == "generating response...";
    assert low[..10] == "generating";
    assert OccursAt(low, "generating", 0);
  }

  /** A phrase longer than the text does not occur in it. */
  lemma LongerNotContained(s: string, p: string)
    requires |s| < |p|
    ensures !Contains(s, p)
  {
  }

  /**
   * A text shorter than every phrase matches none of the tests: the shortest
   * phrases, "done" and "skip", have four characters.
   */
  lemma ShortTextIsUnknown(text: string)
    requires |text| < 4
    ensures !IsAccept(text) && !IsCompleted(text) && !IsGenerating(text) && !IsCancel(text)
  {
    var low := Lower(text);
    forall k | 0 <= k < |AcceptPhrases| ensures !Contains(low, AcceptPhrases[k]) {
      LongerNotContained(low, AcceptPhrases[k]);
    }
    forall k | 0 <= k < |CompletedPhrases| ensures !Contains(low, CompletedPhrases[k]) {
      LongerNotContained(low, CompletedPhrases[k]);
    }
  }
}

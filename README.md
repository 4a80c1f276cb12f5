# Cursor automation: checklist, button handler and metrics

This project models the decision logic of `cursor_automation.py`, a script that watches a screen region of the Cursor editor, presses the buttons the editor shows, and follows a markdown checklist of project steps. The model is written in Dafny and verified. It covers four parts of the script.

- **The checklist parser and current-step resolver** (`parse_current_step`).
  - Every line is stripped. `## ` lines open a section and `### ` lines open a subsection.
  - Every line that carries one of the glyphs 🔄 (in progress), ❌ (incomplete) or ✓ (complete) becomes a step, with a status, a label and a path.
  - The current step is the earliest step in progress. If none is in progress, it is the earliest incomplete step. Its path is joined with `" > "`.
  - The result sits behind a cache keyed on the time of the last read and the text last read.
- **The button handler** (`handle_button`, and the counter and latch effects of `type_continue_implementation`).
  - Texts are tested as case-insensitive substring matches.
  - An accept text that differs from the last text seen presses Ctrl+Enter. This counts a command and sets the wait-for-completion latch.
  - A completed text while the latch is set types the continue message. This counts a message and clears the latch.
  - Busy and cancel texts only update the status line.
- **The step metrics table** (`StepMetrics`, `ProjectMetrics`). This is a map from step name to record with one current step. It supports starting, ending and updating steps and totalling the durations.
- **The start-up diagnosis** (`validate_file_format`) and the runtime text (`get_runtime`).
  - The diagnosis is one pass that puts each line into one bucket through an `elif` chain, then derives issues and warnings from the counts.
  - The runtime text splits the elapsed seconds into hours, minutes and seconds.

Inputs the script takes from the outside world become parameters:
- the steps file, as `Missing`, `Unreadable` (with the error text) or `Readable` (with its text);
- the clock, as a whole number of seconds;
- the recognised button text, as a string;
- whether the synthetic keystrokes get through, as a boolean.

Modules:
- `Text`: Python string operations, namely `strip`, `splitlines`, `lower`, `in`, `startswith` and `join`.
- `Checklist`: the parser loop and its specification.
- `Resolver`: the selection.
- `Buttons`: the phrase tests and the pure transition `Dispatch`.
- `Metrics`: the metrics table.
- `Diagnostics`: the start-up diagnosis.
- `Automation`: the cache and the `CursorAutomation` class, which ties the file, the clock and the handler together.

Behaviour of the code that the model states rather than hides:
- **Heading lines with a glyph.** A heading line that carries a glyph is a heading and a step for the parser. The diagnosis does not count it.
- **Opposite precedence.** The parser ranks 🔄 over ❌ over ✓. The diagnosis tests ✓ first. So a line with both ✓ and 🔄 is "in progress" for the parser and "completed" for the diagnosis.
- **Re-ended steps.** `end_step` never clears the current step. A later `start_step` therefore ends the same step again and overwrites its status and end time.
- **Repeated accept texts.** An accept text equal to the last text falls through to the completed test. For example, "command completed" read twice runs the command and then sends the continue message.
- **The bare phrase "command".** Because "command" is in the phrase list, any text containing "command" or "accept" is an accept text.
- **Stale step after the start-up check.** The start-up check calls `parse_current_step` directly. That call records the file text but not the step. Later status updates on the unchanged file then hit the cache and show no step until the file changes.
- **Stale step after a missing file.** A moment with the file missing has the same effect: the step is cleared, the text is kept, and the unchanged file keeps showing no step.

Two behaviours a reader might not expect, where the model follows the code:
- **Continue-message errors.** An error while typing the continue message is not caught inside `handle_button` (`cursor_automation.py:383-388`; only the accept branch has a `try`). The error leaves the handler before `last_text` is updated and before the latch is cleared. The model's outcome for this is `ContinueRaised`, and `Replay` stops there.
- **Missing or unreadable file mid-run.** The step shown is not kept: the lookup returns `None`, and the status update shows no step (`cursor_automation.py:166-167`, `233-236`).

## Model

| member | source | states |
|---|---|---|
| Text.SplitLinesOfJoin | cursor_automation.py:184 | `splitlines` gives back lines joined by "\n", when no line holds a break and the last line is not empty |
| Text.StripKeeps | cursor_automation.py:192 | stripping removes only characters of the stripped class: every other character survives |
| Checklist.StepLineIffGlyph | cursor_automation.py:192-206 | a raw line is a step line exactly when it carries one of the three glyphs (stripping never removes a glyph) |
| Checklist.CollectSteps | cursor_automation.py:186-219 | the scan loop, tracking section and subsection and appending a step per glyph line, yields exactly `ParseSteps` of the lines |
| Checklist.ParseStepsSound | cursor_automation.py:206-219 | every recorded step comes from a step line and carries that line's number, status (🔄 over ❌ over ✓), label (glyphs removed, `- ` and whitespace stripped) and path |
| Checklist.ParseStepsComplete | cursor_automation.py:206-219 | every step line yields a step |
| Checklist.ParseStepsOrdered | cursor_automation.py:191-219 | steps come in strictly increasing line order |
| Checklist.StepCount | cursor_automation.py:206-219 | there are exactly as many steps as lines carrying a glyph |
| Checklist.SectionIsLatest | cursor_automation.py:199-201 | the section of a step is the text of the latest `## ` line, or empty before the first |
| Checklist.SubsectionIsLatest | cursor_automation.py:199-204 | the subsection is the text of the latest heading when that is a `### ` line, and empty after a `## ` line or before any heading |
| Resolver.WithStatus | cursor_automation.py:222 | the filter keeps exactly the steps of the given status |
| Resolver.Earliest | cursor_automation.py:225 | `min` by line returns a candidate whose line is not above any other candidate's |
| Resolver.Resolve | cursor_automation.py:221-236 | no step is chosen exactly when every step is complete; otherwise the chosen path is that of a step in progress, or of an incomplete step when none is in progress, with no earlier step of its status |
| Resolver.ResolveEarliestInProgress | cursor_automation.py:222-226 | the earliest step in progress is chosen wherever the incomplete steps are |
| Resolver.ResolveEarliestIncomplete | cursor_automation.py:229-232 | with nothing in progress the earliest incomplete step is chosen |
| Resolver.CurrentStepOfDocument | cursor_automation.py:186-236 | on a document, the first step in progress in document order (or, failing that, the first incomplete step) is the current step |
| Buttons.AcceptIsCommandOrAccept | cursor_automation.py:334-352 | because of the bare phrase "command", a text is an accept text exactly when its lower case holds "command" or "accept" |
| Buttons.Dispatch | cursor_automation.py:328-400 | the accept action is tried exactly on a new non-empty accept text; the continue action exactly on a completed text while the latch is set and the accept branch does not apply; counters move by one only for a sent action; an action is sent exactly when its keystrokes get through; the latch is set on a sent command and cleared on a sent message; the text is remembered unless empty or the continue error escaped |
| Buttons.Replay | cursor_automation.py:420-425 | over a run of polls neither counter decreases, each poll counts at most one action, and an escaping continue error ends the run with the session as it was |
| Buttons.ReplayKeepsLatchBound | cursor_automation.py:355-400 | over any run of samples, messages sent plus the set latch never exceed the commands executed, and neither counter decreases |
| Buttons.MessagesNeverExceedCommands | cursor_automation.py:355-388 | from start-up no more continue messages are sent than commands are run |
| Buttons.Debounce | cursor_automation.py:355-400 | the same accept text read twice fires once; two different accept texts fire twice |
| Buttons.RepeatedCommandCompletedContinues | cursor_automation.py:355-388 | "command completed" read twice from start-up runs the command and then sends the continue message |
| Buttons.RunCommandIsAccept | cursor_automation.py:334-352 | "Run Command" is an accept text (case-insensitive match) |
| Buttons.CompletionNoticeIsCompleted | cursor_automation.py:344-353 | "Task Done" is a completed text |
| Buttons.GeneratingNoticeIsBusy | cursor_automation.py:390 | "Generating response..." is a busy text |
| Buttons.ShortTextIsUnknown | cursor_automation.py:334-398 | every text of fewer than four characters, the length of the shortest phrases, passes none of the tests |
| Metrics.SumOverRemove | cursor_automation.py:73-77 | the total does not depend on the order in which records are visited |
| Metrics.TotalAfterReplace | cursor_automation.py:73-77 | replacing one record changes the total by the difference of what the two records count |
| Metrics.SumOverNonNegative | cursor_automation.py:73-77 | with no negative duration the total is not negative |
| Metrics.AfterEnd | cursor_automation.py:43-50 | ending changes only the current record, and only when the current name is non-empty and has a record |
| Metrics.AfterStart | cursor_automation.py:32-41 | starting ends the open step as done, then gives the new name a fresh record and leaves all other records alone |
| Metrics.AfterUpdate | cursor_automation.py:52-58 | updating copies the two counters into the current record only |
| Metrics.StartKeepsConsistent | cursor_automation.py:32-50 | starting keeps every record filed under its own name, with a duration exactly when it has an end time, equal to end minus start |
| Metrics.TotalAfterEnd | cursor_automation.py:43-77 | ending the open step adds its elapsed time to the total in place of what it counted before |
| Metrics.TotalAfterStart | cursor_automation.py:32-77 | starting a step first ends the open step, which then counts its elapsed time; the fresh record adds nothing, and a restarted name loses what it counted |
| Metrics.StartAfterEndReendsStep | cursor_automation.py:32-50 | after an explicit end, starting another step ends the old one again, overwriting its status and end time |
| Metrics.ProjectMetrics.constructor | cursor_automation.py:26-31 | a new table is empty with no current step |
| Metrics.ProjectMetrics.StartStep | cursor_automation.py:32-41 | the new name becomes current and the table becomes `AfterStart` of the old one |
| Metrics.ProjectMetrics.EndStep | cursor_automation.py:43-50 | the table becomes `AfterEnd` of the old one and the current name stays as it was |
| Metrics.ProjectMetrics.UpdateStepMetrics | cursor_automation.py:52-58 | the table becomes `AfterUpdate` of the old one |
| Metrics.ProjectMetrics.GetTotalDuration | cursor_automation.py:71-77 | the loop over the records returns the total duration |
| Diagnostics.TallyOf | cursor_automation.py:579-595 | the total is the sum of the three step buckets, and each marker flag is set exactly when its bucket is not empty |
| Diagnostics.TallyFlags | cursor_automation.py:579-595 | the in-progress, incomplete and section counts are set exactly when some line falls in that bucket |
| Diagnostics.ValidateFileFormat | cursor_automation.py:559-610 | the single pass returns `DiagnosisOf` the file: the tally, issues and warnings of a readable file, or the read error |
| Diagnostics.NoIssuesIff | cursor_automation.py:597-601 | a readable file has no issue exactly when some line opens a section and some line is counted in progress or incomplete |
| Diagnostics.CountLine | cursor_automation.py:581-595 | one line falls into the first bucket of the `elif` chain that holds, and only that bucket's counter and flag move |
| Diagnostics.InProgressCount | cursor_automation.py:579-595 | the in-progress counter equals the number of lines in that bucket |
| Diagnostics.WarningIff | cursor_automation.py:603-605 | a readable file gets the warning exactly when more than one of its lines is counted in progress, and the warning gives that number of lines |
| Diagnostics.StepKindIff | cursor_automation.py:579-595 | a line is counted as a step exactly when it is not a heading and carries a glyph |
| Diagnostics.ParsedStepsVersusTally | cursor_automation.py:579-595 | compared with the parser's loop at lines 199-219, the parser finds as many steps as the diagnosis counts plus the heading lines carrying a glyph |
| Diagnostics.NoIssuesHasCurrentStep | cursor_automation.py:579-601 | a readable file that passes the diagnosis without issues has a current step under the selection at lines 221-236 |
| Diagnostics.PrecedenceDisagrees | cursor_automation.py:585-595 | a non-heading line with both ✓ and 🔄 is counted completed by the diagnosis but recorded in progress by the parser |
| Diagnostics.HeadingStepNotCounted | cursor_automation.py:581-595 | a heading line carrying a glyph is a step for the parser but is not counted by the diagnosis |
| Automation.LookupStep | cursor_automation.py:163-236 | a missing file gives no step and changes nothing; within the check interval the shown step is returned unread; past it the time is recorded, a read error gives no step, an unchanged text the shown step, and a changed text is recorded and its current step returned; the lookup never changes the shown step itself |
| Automation.Refresh | cursor_automation.py:243-246 | the shown step becomes none, stays, or becomes the step of the text just read; a missing or unreadable file clears it; the read time moves to now exactly when the file exists and the interval has passed |
| Automation.RefreshWithinInterval | cursor_automation.py:169-171 | within the check interval nothing is read and nothing changes |
| Automation.RefreshChangedText | cursor_automation.py:169-184 | once the interval has passed, a changed text is parsed and its current step is shown |
| Automation.RefreshIdempotent | cursor_automation.py:169-173 | two status updates at the same time act as one |
| Automation.RefreshKeepsCoherent | cursor_automation.py:163-246 | a status update never shows a step other than that of the text last read |
| Automation.StartupCheckLeavesStepStale | cursor_automation.py:658 | after the start-up check's direct lookup, which records the text (line 183) but not the step, a later status update (lines 243-246) of the unchanged file shows no step though the file has one |
| Automation.MissingFileLeavesStepStale | cursor_automation.py:166-181 | a moment with the file missing clears the shown step, and the unchanged file then keeps showing none |
| Automation.SplitSeconds | cursor_automation.py:553-556 | minutes and seconds lie in 0..59 and recombine with the hours to the elapsed seconds |
| Automation.SplitSecondsUnique | cursor_automation.py:553-556 | that split is the only one with minutes and seconds in range |
| Automation.Pad2 | cursor_automation.py:557 | a number from 0 to 99 is written as exactly two digits |
| Automation.Pad2Value | cursor_automation.py:557 | the two digits read back to the number |
| Automation.Runtime | cursor_automation.py:549-557 | "00:00:00" before the start time is set or while it is 0; otherwise the text ends in ":mm:ss" whose fields read back to the elapsed time modulo one hour |
| Automation.RuntimeReadsBack | cursor_automation.py:549-557 | under 100 hours the runtime is "hh:mm:ss" and reads back to the elapsed seconds |
| Automation.CursorAutomation.constructor | cursor_automation.py:103-119 | nothing seen, latch cleared, zero counters, no step, never read |
| Automation.CursorAutomation.ParseCurrentStep | cursor_automation.py:163-236 | the method's result and cache fields are those of `LookupStep` |
| Automation.CursorAutomation.RefreshCurrentStep | cursor_automation.py:243-246 | the cache fields become `Refresh` of the old ones |
| Automation.CursorAutomation.HandleButton | cursor_automation.py:328-400 | outcome and session fields are those of `Dispatch`, including the message counter of `type_continue_implementation` (line 464); the step lookup is refreshed exactly when the status line is updated |

## Left out

- Screen capture and text recognition (`take_screenshot`, `get_button_text`, the OCR configuration loop, `seen_texts`) are foreign library calls. Their output is the text parameter.
- Keyboard and mouse input (`keyboard`, `pyautogui`, `select_region`, the sleeps) is replaced by the `delivered` flag.
- The selected-region bounding box is not modelled, because nothing in the core reads it.
- The console display, the logs and the metrics file are left out, because they are output only. This covers `update_status` rendering, `show_*`, `generate_report`, `clear_console`, `setup_logging`, `log_action` and `save_metrics`.
- `Metrics.ProjectMetrics.EndStep`, `StartStep` and `UpdateStepMetrics` do not model a failure of `save_metrics` while writing the file.
- `run` and its command thread are left out: they are polling, threads and console input. `Buttons.Replay` stands in for the sequence of polls.
- `handle_command` is left out. It calls `set_current_step` and `complete_current_step`, which do not exist, and falls back to a base class that has no such method.
- `type_complete_current_step` and `type_next_step` are never called, so they are left out.
- `setup.py` is installer plumbing and is left out.
- Timestamps are whole numbers rather than floating point.
- `Automation.Runtime` does not model the truncation of a fractional elapsed time by `int()`.
- `Automation.CursorAutomation.HandleButton` reads the clock once per call. The script reads it again after each sleep, so a second status update in the same call could fall outside the check interval.
- `Text.Lower` maps only the ASCII letters A-Z, not full Unicode case mapping.
- `Metrics.ProjectMetrics.GetTotalDuration` visits the records in an unspecified order rather than dictionary insertion order. `Metrics.SumOverRemove` shows that the order does not matter.
- `Metrics.TotalDuration` is a sum of whole numbers, so floating-point rounding is not modelled.
- The `except` around `parse_current_step` is not modelled. The parse and selection are total on any text, so a read error is the only failure, and it is `Unreadable`.

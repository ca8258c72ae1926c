# A verified model of the code-execution sandbox

The sandbox runs untrusted code blocks in long-lived Python subprocesses, one per session, and edits files for the same
sessions. This project models the four parts of it that carry protocol, state and time, and proves what they keep:

* **The wire protocol, down to bytes** (`Utf8`, `Decimal`, `Lines`, `Limits`, `Wire`, `Runner`, `RunnerPool`). Requests
  are a decimal length, a newline and UTF-8 source; answers are two tagged frames and a done line, found again by a
  line-driven reader, clipped to a byte budget. Bytes are integers below 256; a Dafny `char` is a Unicode scalar value,
  so a `string` is exactly a text that UTF-8 can encode. Decoding replaces every maximal ill-formed subpart by U+FFFD
  (RFC 3629 sections 3 and 4, Unicode Standard section 3.9).
* **The life of a runner process** (`Lifecycle`, `Pipes`, `Outcomes`, `RunnerProcesses`). Queued `execute` calls, one lock, a child that may
  die at any step, two pipes. Every schedule is a sequence of steps and a step that is not enabled changes nothing, so a
  statement about every sequence is a statement about every interleaving. The reference is a plain sequential
  interpreter that replays the history (`Replay`). User code is an arbitrary function from globals and source to new
  globals, two texts and a return code.
* **The text editor and its undo stacks** (`TextSearch`, `TextLines`, `TextEditor`). Files are bytes; reading decodes and
  translates CR LF and CR to LF; history is a stack of texts per path.
* **Sessions, teardown and garbage collection** (`Sessions`, `SessionManagers`), and **the shared workspace variable of
  bash calls** (`Bash`). A step is what a task does between two suspension points; for bash calls it is one access to
  the variable, switches to another call are steps of their own, and where they may fall is a condition on the run.

Where the source works step by step, the model does too: `Runner.Repl`, `RunnerPool.StreamReader`,
`RunnerProcesses.RunnerProcess`, `TextEditor.Editor`, `SessionManagers.SessionManager` and `Bash.Server` are classes
whose methods are proved against the specification functions and step systems above; what other tasks or the child do
at a suspension point is an arbitrary argument. `RunnerProcesses.RunnerProcess` and `SessionManagers.SessionManager` also
keep a record of the steps taken, and `Bash.Server` one of the writes made, which the source does not have.

Places where the code does less, or other, than its documentation says, each with an input and the exact condition:

* The response round trip loses one trailing newline, and a line of user output that equals a tag, or starts with the
  done tag and a space, is taken for protocol (`Wire.ForgedDone`). Texts come back exactly if no line reads as protocol
  (`Wire.ResponseRoundTrip`).
* After a printed done line the rest of the answer stays in the pipe and, while the child lives on, the next call, its
  own code not yet run, returns it (`Lifecycle.CrossTalk`, `Wire.ForgedAnswer`); the other tags only garble the texts of
  their own call. With the lock free the pipes of a living child are drained exactly if none of the codes it has answered
  printed a done line (`Pipes.PipesDrained`). Killing the child clears the pipes with it (`Lifecycle.TimeoutClears`), and
  from every spawning on everything starts over (`Lifecycle.StartsOver`).
* Clipping "to `max_bytes` bytes" may exceed the budget by two bytes, at every positive budget
  (`Limits.OvershootReached`). The budget is kept exactly if the cut falls on a character boundary or after three bytes
  of a four-byte character (`Limits.BudgetIsKept`).
* Inserting after an unterminated last line glues the payload to that line (`TextEditor.InsertGlues`); the lines are
  spliced exactly if the line before is terminated (`TextEditor.InsertSplices`).
* A reap removes a session that was overdue at its snapshot even if it has been touched since, in every run and no
  others (`Sessions.SweptRegardless`, `Sessions.PoppedWasOverdue`; `Sessions.TouchedTooLate` is an instance).
* `destroy` returns at once, the directory still on disk, when another task is tearing the session down
  (`Sessions.ReturnsBeforeRemoval`), and only if one was at the call (`SessionManagers.SessionManager.Destroy`).
* Undo brings back the text that was read, not the bytes: after an edit and its undo the file has its old bytes exactly
  if it held no CR (`TextEditor.UndoInvertsBytes`).
* Overlapping bash calls can leave a workspace behind in the shared variable (`Bash.LeftBehind`); the order of entries
  and returns decides alone (`Bash.RestoredExactly`).

## Model

| member | source | states |
|---|---|---|
| Utf8.RoundTrip | sandbox/runner_pool.py:223 | Decoding the encoding of any text gives the text back. |
| Utf8.DecodeConcat | sandbox/runner_pool.py:321 | Replacement decoding splits before a non-continuation byte and after an ASCII byte, for arbitrary bytes. |
| Utf8.DecodeOneLaw | sandbox/runner_pool.py:321 | A well-formed character is decoded; otherwise one U+FFFD stands for the longest part that begins a character, or for one byte if none does. |
| Decimal.ParseIntOfText | sandbox/runner.py:95-96 | Reading back the printed decimal form of any integer, negative ones included, gives the integer. |
| Decimal.IntTextIsCanonical | sandbox/runner.py:95-96 | Integers are printed with a minus sign if negative, without a plus sign or leading zeros. |
| Decimal.ParseNatReadsNumerals | sandbox/runner.py:125-130 | Exactly the digit strings with single underscores between digits are read as numbers. |
| Lines.LinewiseDecoding | sandbox/runner_pool.py:297-321 | For all byte strings, malformed ones included, decoding line by line gives exactly the lines of the decoded whole. |
| Limits.TruncationLaw | sandbox/limits.py:211-233 | Text that fits is untouched; otherwise the longest whole-character prefix that fits, at most one U+FFFD and the marker; at most 3 bytes unused, at most 2 bytes over, dropped + budget = full size. |
| Limits.FitIsLongest | sandbox/limits.py:229-232 | No longer prefix of the text would have fitted. |
| Limits.OvershootReached | sandbox/limits.py:229-232 | For every positive budget there is a text whose clipped form takes two bytes more than the budget. |
| Limits.BudgetIsKept | sandbox/limits.py:229-232 | Told from single bytes at the cut: clipped text keeps the budget if and only if the cut falls on a character boundary or after three bytes of a four-byte character, and exceeds it by two if and only if it falls after the first byte of a character. |
| Limits.NegativeBudget | sandbox/limits.py:224-232 | A negative budget cuts that many bytes from the end, or all, and reports size plus amount below zero. |
| Wire.ResponseRoundTrip | sandbox/runner_pool.py:294-359 | Reading what the runner wrote, followed by anything, returns both texts less one trailing newline, the code, and leaves exactly what followed, if and only if no line of either text reads as protocol. |
| Wire.NoisyRoundTrip | sandbox/runner_pool.py:321-360 | Complete non-protocol lines, even malformed ones, before, between and after the frames change nothing. |
| Wire.StaysInStep | sandbox/runner_pool.py:297-353 | Reading one answer always ends; it consumes exactly that answer if and only if no line of either text reads as the done line. |
| Wire.LeftoversAnswer | sandbox/runner_pool.py:346-354 | Else the rest is whole lines that the next reader takes for a complete answer. |
| Wire.ForgedDone | sandbox/runner_pool.py:346 | Printing one done line breaks both conditions. |
| Wire.ForgedAnswer | sandbox/runner_pool.py:297-354 | What becomes of such output: empty texts and code 0 for its own call, its stderr and its code for the next one. |
| Wire.ClassifyLaw | sandbox/runner_pool.py:324-350 | Which lines are taken for which tag, in the literal words of the wire, and what return code a done line gives, -1 if it holds no integer. |
| Wire.GarbledByTag | sandbox/runner_pool.py:324-345 | Of a stream with a printed tag line, what precedes an end tag or follows an opening tag comes back; an end of stdout printed on stderr also replaces stdout; nothing else changes. |
| Wire.StreamRoundTrip | sandbox/runner.py:158-160 | A stream of answers decodes one by one into the answers if and only if all of them are clean. |
| Wire.ReturnedIsPlain | sandbox/runner_pool.py:324-358 | Whatever the bytes, no returned text has a line that reads as protocol. |
| Wire.CutResponse | sandbox/runner_pool.py:297-303 | An answer without a done line in its texts, cut anywhere before its own done line, never reads as finished, not even with an unfinished last line. |
| Runner.Repl.ReadLine | sandbox/runner.py:63-72 | The byte loop consumes the first line and its newline and returns it without. |
| Runner.Repl.ReadExact | sandbox/runner.py:75-83 | However reads are split, the loop consumes and returns exactly the first n bytes, or all there are. |
| Runner.Repl.WriteFrame | sandbox/runner.py:86-92 | The four writes put exactly one frame, newline-padded, on the output. |
| Runner.Repl.RunLoop | sandbox/runner.py:99-160 | Whatever the chunking, the loop runs, answers, keeps as globals and exits with what the specification of its whole input says. |
| Runner.RequestFraming | sandbox/runner_pool.py:223-228 | The runner recovers exactly the code blocks sent and answers each as a plain sequential interpreter would. |
| Runner.CutRequest | sandbox/runner.py:132-135 | A request cut strictly inside is not run and the exit code is 2, if and only if the block is not empty. |
| Runner.CutStream | sandbox/runner.py:118-136 | A stream of nonempty requests cut anywhere: exactly the complete ones run; exit 0 between requests, else 2. |
| Runner.BlankHeaders | sandbox/runner.py:119-124 | A bare newline where a header is due ends the loop with exit 0; a line of spaces is skipped. |
| Runner.BlankHeader | sandbox/runner.py:122-124 | A header line of any mix of the nine ASCII space bytes other than the newline is skipped. |
| Runner.StrangeHeader | sandbox/runner.py:125-130 | A header with any byte other than digits, underscores, signs and spaces ends the process with 2, whatever follows. |
| Runner.NegativeHeader | sandbox/runner.py:132-135 | A negative length ends the process with 2. |
| Runner.Pipeline | sandbox/runner_pool.py:210-258 | Sending code blocks through the runner and reading the answers back yields the plain interpreter's outputs less one trailing newline each, if and only if all outputs are clean. |
| RunnerPool.StreamReader.ReadUntilDone | sandbox/runner_pool.py:288-360 | The reading loop returns what the specification reader returns and consumes exactly that much. |
| RunnerPool.OutcomeLaw | sandbox/runner_pool.py:243-284 | However a call ends, its streams obey the cap; wall_clock is tagged exactly on timeouts, memory, cpu and file_size exactly for their signals, output_bytes exactly when something was dropped and no other limit fired. |
| RunnerPool.OutcomeContents | sandbox/runner_pool.py:229-284 | For each ending, what stdout, stderr and the return code are: which text goes where, in which literal words, whole if it fits and else clipped with the number of bytes that went. |
| RunnerPool.ClippedIsCapped | sandbox/limits.py:86 | A clipped stream takes at most budget + 2 + the marker with its decimal digits. |
| Lifecycle.Refinement | sandbox/runner_pool.py:210-284 | In every interleaving: the history replays on a sequential interpreter reset only by failed calls and by deaths if and only if no call that returned an answer had printed a done line, and then with the lock free the child is as replayed and nothing is left in the pipes; unconditionally, each call ends at most once, with the outcome of its own end. |
| Lifecycle.StartsOver | sandbox/runner_pool.py:144-180 | The same of the history from any spawning on, with no regard to what was printed before it. |
| Pipes.PipesDrained | sandbox/runner_pool.py:217-258 | In every interleaving: with the lock free, a living child's pipes are empty and it waits for a header if and only if none of the codes answered since it was spawned printed a done line. |
| Pipes.AnswersAreDecoded | sandbox/runner_pool.py:297-354 | In step or not, the calls a living child has answered returned, in order, what reading the stream of all its responses gives. |
| Outcomes.OwnOutput | sandbox/runner_pool.py:238-284 | Counting from any spawning, as long as no answered call printed a done line: every answered call with clean output within the cap returned its own code's stdout and stderr, less one trailing newline each, and its return code, untagged. |
| Outcomes.CrashVerdict | sandbox/runner_pool.py:304-318 | In every interleaving, in step or not: a crash blames memory, cpu or file size exactly if the child had died of that signal and the death was noticed when the call read the end of file. |
| Outcomes.KilledWhileReading | sandbox/runner_pool.py:298-320 | A child that dies with any exit code while a call waits, noticed or not: what the history records and what the call returns. |
| Lifecycle.CrossTalk | sandbox/runner_pool.py:217-258 | Whatever the interpreter, if the first code prints a done line then for every second code some schedule makes the second call return the first one's leftovers, its own code unread in the pipe. |
| Lifecycle.TimeoutClears | sandbox/runner_pool.py:244-247 | After the same first call a timeout of the second one leaves no process and no pipes, although the run was out of step. |
| Lifecycle.AnswersInOrder | sandbox/runner.py:104-109 | Between failures the answers are what the reader makes of the responses of running the same blocks in order on one interpreter, and the very outputs exactly where these are clean. |
| Lifecycle.ReadStep | sandbox/runner_pool.py:297-358 | Reading one line, whole or a dead child's unfinished one, keeps the no-cross-talk invariant, unless it returns the answer of a call that printed a done line: then the history no longer replays. |
| Lifecycle.ChildKeepsAnswering | sandbox/runner.py:118-160 | Whatever the child does, read + in the pipe + still to be written stays this call's own answer. |
| Lifecycle.CallStep | sandbox/runner_pool.py:217-258 | The same of every step of the lock holder: start, send, broken pipe, read, end of file, timeout, stop. |
| RunnerProcesses.RunnerProcess.Start | sandbox/runner_pool.py:144-180 | Spawns unless a child is running as far as has been noticed; one step of the system. |
| RunnerProcesses.RunnerProcess.ReadUntilDone | sandbox/runner_pool.py:238-258 | For every behaviour of the child and every deadline the read ends this very call, in one of four ways, and frees the lock. |
| RunnerProcesses.RunnerProcess.Execute | sandbox/runner_pool.py:210-284 | A whole call is a run of the step system and returns what the history records for it; counted from any spawning, the history replays and the pipes are drained if and only if no call answered since had printed a done line, and then an answer is the code's own output; a crash blames the signal known at the end of file; a living child's pipes are drained if and only if no code it answered printed a done line. |
| TextSearch.CountOne | sandbox/text_editor.py:121-127 | The greedy count is 1 exactly when there is a leftmost match with none after it, and then only that match is replaced. |
| TextSearch.SwapBack | sandbox/text_editor.py:121-127 | Replacing back restores the text if and only if the new string is unique at the place of the edit. |
| TextSearch.CountOfNothing | sandbox/text_editor.py:121 | The empty old string counts one more than there are characters, so once only in the empty text. |
| TextSearch.CountIsReached | sandbox/text_editor.py:121 | The count is the number of some matches that do not overlap. |
| TextSearch.CountIsMost | sandbox/text_editor.py:121 | No matches that do not overlap are more. |
| TextLines.SplitLinesConcat | sandbox/text_editor.py:142 | splitlines composes where the first text ends a line. |
| TextLines.TenBreaks | sandbox/text_editor.py:142 | Between two letters exactly the ten line break characters end a line. |
| TextLines.CrLfIsOneBreak | sandbox/text_editor.py:142 | CR LF ends one line. |
| TextLines.SplitLinesAtLf | sandbox/text_editor.py:142 | Text with no line break other than LF is cut after each LF. |
| TextLines.BreakIsDropped | sandbox/text_editor.py:89 | Without its break a line is the part before it, for each of the ten and for CR LF. |
| TextLines.NormalizeLaw | sandbox/text_editor.py:86 | In text mode CR LF and CR alone read as LF, every other character as itself, part by part. |
| TextLines.SplitTake | sandbox/text_editor.py:142-148 | Leading and remaining lines rejoin to the text and split into themselves again. |
| TextEditor.StrReplaceLaw | sandbox/text_editor.py:115-128 | str_replace succeeds exactly when the match is unique, splices at that place, and is undone by its swap exactly when the new string is unique there. |
| TextEditor.InsertSplices | sandbox/text_editor.py:136-149 | The new lines are the first k, the payload's, the rest, if and only if k is 0 or line k is terminated; the view of that range then shows exactly the payload's lines. |
| TextEditor.InsertSplicesAtLf | sandbox/text_editor.py:136-149 | The same for text with no line break other than LF, in terms of LF alone: the new text, and when its lines are the first k, the payload's and the rest. |
| TextEditor.InsertGlues | sandbox/text_editor.py:141-148 | Inserting after the only, unterminated line of a file leaves one line and an empty view of the inserted range. |
| TextEditor.ViewsAdjoin | sandbox/text_editor.py:87-95 | Views of adjoining ranges make up the view of the whole range, with clamping and -1. |
| TextEditor.ViewShowsFile | sandbox/text_editor.py:84-96 | Viewing an existing file without a range shows its text, decoded and with newlines normalised. |
| TextEditor.ViewShowsRange | sandbox/text_editor.py:87-95 | Which lines each range shows, whatever its two numbers. |
| TextEditor.Refusals | sandbox/text_editor.py:99-160 | For each problem, exactly which commands in which states are refused with it; refused commands change nothing. |
| TextEditor.Successes | sandbox/text_editor.py:96-163 | What each successful command replies. |
| TextEditor.Editor.RunTextEditor | sandbox/text_editor.py:37-67 | The dispatched handlers, with their errors in their order, compute what the specification says of files, history and reply. |
| TextEditor.Editor.HandleInsert | sandbox/text_editor.py:131-149 | The in-place insertion and its three refusals, against the specification. |
| TextEditor.Editor.HandleUndo | sandbox/text_editor.py:152-163 | Pops the latest text and writes it back, or refuses on an empty history. |
| TextEditor.VersionsStep | sandbox/text_editor.py:110-167 | Each edit pushes one version and each undo pops one; every other command, and every command on another path, changes none. |
| TextEditor.CreateThenView | sandbox/text_editor.py:99-107 | Creating on a free path succeeds, writes exactly the text's encoding, keeps all histories, and is then shown normalised. |
| TextEditor.EditThenView | sandbox/text_editor.py:110-149 | After a successful edit the view is the edited form of what was viewed before. |
| TextEditor.RunThenView | sandbox/text_editor.py:84-96 | After every run of commands the view of a file is the latest of its versions. |
| TextEditor.UndoInverts | sandbox/text_editor.py:152-163 | If a run undoes its edits of a path, in any nesting and interleaving, the path's normalised text and history are back. |
| TextEditor.UndoInvertsBytes | sandbox/text_editor.py:157-163 | If there was such an edit, the bytes of the file are back if and only if it held no CR. |
| TextEditor.RunsAreSound | sandbox/text_editor.py:157-167 | From an empty history every run of commands keeps the histories sound, as the theorems on undo ask. |
| TextEditor.EditsThenUndos | sandbox/text_editor.py:157-167 | After any run with k successful edits of a path, k undos all succeed and restore the normalised original. |
| TextEditor.UndosShowOriginal | sandbox/text_editor.py:157-167 | After k successful edits and k undos the view is what it was. |
| Sessions.Teardown | sandbox/sessions.py:137-181 | In every interleaving each session is popped and removed at most once, by one task; created = live + being torn down + gone; directories are those of the first two; at most max_sessions are live. |
| Sessions.SweepTargets | sandbox/sessions.py:200-221 | A reap or shutdown never removes a session created after its snapshot, and none of its targets is in the map when it returns. |
| Sessions.GoneForGood | sandbox/sessions.py:165-170 | A session that has left the map never comes back, in any interleaving. |
| Sessions.ReturnsBeforeRemoval | sandbox/sessions.py:167-170 | Destroying a session that another task is tearing down returns while its directory is still there. |
| Sessions.ShutdownEmpties | sandbox/sessions.py:217-221 | A shutdown with no session created meanwhile ends with an empty map, and with no directory once no teardown is under way. |
| Sessions.GcSafety | sandbox/sessions.py:88-100 | No reap removes a session that is always within its idle timeout and its lifetime, in any interleaving. |
| Sessions.PoppedWasOverdue | sandbox/sessions.py:205-214 | In any interleaving, whatever a reap removes was idle or expired, as of a past clock reading, when that reap took its snapshot. |
| Sessions.SweptRegardless | sandbox/sessions.py:205-215 | In every run from a reap's snapshot on: when it has finished, none of the sessions overdue at the snapshot is in the map, however often touched since, and it has removed no others. |
| Sessions.TouchedTooLate | sandbox/sessions.py:205-214 | An instance: a session touched between the snapshot and its turn is removed although it is fresh. |
| Sessions.GcLag | sandbox/exec_server.py:140-149 | With sweeps at most G apart and lasting at most D, no session outlives lifetime + G + D after creation or idle timeout + G + D after its last touch. |
| Sessions.TimeoutsAsAsked | sandbox/sessions.py:152-159 | In every run a session keeps its creation time and the timeouts it was asked to have, 900 and 7200 seconds where none above 0 were. |
| Sessions.GcLagAsAsked | sandbox/exec_server.py:140-149 | The bound of `Sessions.GcLag` in terms of the timeouts asked for at creation. |
| Sessions.GcSafetyAsAsked | sandbox/sessions.py:88-100 | `Sessions.GcSafety` in terms of the timeouts asked for at creation. |
| SessionManagers.SessionManager.Create | sandbox/sessions.py:124-163 | Refuses exactly at the cap and changes nothing then; otherwise adds just one session, created and active now, with the idle timeout and lifetime asked for, or 900 and 7200 seconds, and its directory. |
| SessionManagers.SessionManager.Touch | sandbox/sessions.py:88-90 | Sets the last activity of the session to now and changes nothing else. |
| SessionManagers.SessionManager.DestroyNext | sandbox/sessions.py:165-181 | Whatever the others do while the runner is stopped: a session ever created is out of the map on return, and its directory is still there if and only if another task was already tearing it down at the call. |
| SessionManagers.SessionManager.Destroy | sandbox/sessions.py:165-181 | The same of one whole call. |
| SessionManagers.SessionManager.CollectOverdue | sandbox/sessions.py:206-210 | The loop lists exactly the idle or expired sessions, each once. |
| SessionManagers.SessionManager.ReapIdle | sandbox/sessions.py:200-215 | With others running at every suspension point, none of the returned ids is in the map on return. |
| SessionManagers.SessionManager.Shutdown | sandbox/sessions.py:217-221 | With others running at every suspension point but creating nothing, the map is empty on return. |
| Bash.Server.RunBashExecution | sandbox/exec_server.py:299-314 | The process starts in its own session's directory, and the variable ends as the call found it, whatever ran in between. |
| Bash.VariableFollows | sandbox/exec_server.py:306-314 | In every interleaving, wherever switches fall, the variable holds the value that the order of entries and returns determines. |
| Bash.StartsAtHome | sandbox/bash.py:19-28 | Wherever switches fall, a process starts in its own directory if all writes of other calls between its entry and its start are undone; and, other workspaces being different, only if. |
| Bash.Isolation | sandbox/bash.py:19-28 | In every interleaving that switches only at suspension points, every process starts in its own session's directory. |
| Bash.Stray | sandbox/bash.py:19 | One switch between setting and reading the variable would be enough to start in another session's directory. |
| Bash.StrayToDefault | sandbox/bash.py:19 | Where the variable is unset at that moment, the process starts in the default directory. |
| Bash.RestoredExactly | sandbox/exec_server.py:306-314 | With workspaces different from the original value, the variable is back if and only if the last write is the return of a call that began first or directly after the return of another such call; for equal workspaces this still suffices. |
| Bash.EveryOrderHappens | sandbox/exec_server.py:306-314 | Every order of entries and returns is that of a run that switches only at suspension points. |
| Bash.RestoredInReverse | sandbox/exec_server.py:306-314 | If calls return in the reverse of their starting order, the variable ends as it began. |
| Bash.NotOnlyInReverse | sandbox/exec_server.py:306-314 | Three calls that do not return in reverse order leave the variable as it was. |
| Bash.LeftBehind | sandbox/exec_server.py:306-314 | Two overlapping calls returning in starting order leave the first one's workspace in the variable. |

## Left out

- HTTP routing, request validation, status codes, telemetry, logging, file upload and listing, stub generation: plumbing, or library calls that are trivial to read.
- Real processes, signals and resource limits: a child may die at any step with any exit code, and after `stop` it is gone.
- Lifecycle.Refinement: assumes that only the runner writes to its stdout, and that the done line, one short write, arrives whole or not at all.
- `stop` called from outside while an `execute` is queued or running, task cancellation, and lines over the 16 MiB reader limit: excluded from the runs of `Lifecycle`.
- RunnerProcesses.RunnerProcess.Execute: the text drained after a timeout is an arbitrary argument; only its clipping is stated. Time is counted in suspensions of the reading loop, and the call is started with the lock free; queueing for it is in `Lifecycle`.
- Decimal.ParseIntOfText: the parser does not accept non-ASCII digits or spaces, which only a forged done line could hold, and knows no limit on the number of digits (CPython refuses beyond 4300; the run loop then dies, which `Lifecycle` covers as a death).
- RunnerPool.OutcomeContents: states the outcome for a `max_output_bytes` of 0 or more; what a negative one does to a text is in `Limits.NegativeBudget`.
- Lone surrogates in text and errors of the file system or of `mkdir`: excluded; removing a directory always succeeds.
- Path resolution, symbolic links, directories and their listing in the editor: paths are resolved ones and name files.
- Sessions.GcLag: needs nonnegative timeouts, as the HTTP interface demands, and a clock that does not run backwards.
- Session objects are values in the manager's map, keyed by fresh numbers in place of random names; the dict's insertion order is any order, and aliasing between a handler's session and the map's is not modelled.
- Cancellation of the GC task in the middle of a teardown: excluded, so nothing is claimed about what it would leave behind.
- Contents of bash output, its timeout and its kill: only where the process starts and what the variable holds.

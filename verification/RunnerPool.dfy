/** Outcomes of one execution, and the reader of one response (sandbox/runner_pool.py). */
module RunnerPool {
  import opened Utf8
  import opened Lines
  import opened Wrappers
  import opened Wire
  import opened Limits
  import Decimal

  datatype Outcome = Outcome(
    stdout: string, stderr: string, returnCode: int, timedOut: bool,
    limit: Option<LimitKind>, stdoutDropped: nat, stderrDropped: nat)

  /** The four ways an execution ends. */
  datatype Ending =
    | Answered(out: string, err: string, returnCode: int)
    | Crashed(out: string, err: string, exitCode: Option<int>)
    | TimedOut(partial: string, seconds: int)
    | PipeClosed

  const SIGKILL := 9
  const SIGXCPU := 24
  const SIGXFSZ := 25

  function ClassifySignalExit(exitCode: Option<int>): (kind: Option<LimitKind>) {
    if exitCode.None? || exitCode.value >= 0 then None
    else if -exitCode.value == SIGKILL then Some(Memory)
    else if -exitCode.value == SIGXCPU then Some(Cpu)
    else if -exitCode.value == SIGXFSZ then Some(FileSize)
    else None
  }

  function LimitName(kind: LimitKind): string {
    match kind
    case Memory => "memory"
    case Cpu => "cpu"
    case FileSize => "file_size"
    case OutputBytes => "output_bytes"
    case WallClock => "wall_clock"
  }

  /** What the reading loop returns when the stream ends before the done line. */
  function CrashOutcome(out: string, err: string, exitCode: Option<int>): Outcome {
    var kind := ClassifySignalExit(exitCode);
    var suffix :=
      if kind.Some? then "runner: killed by sandbox limit (" + LimitName(kind.value) + ")\n"
      else "runner: process exited unexpectedly\n";
    Outcome(out, err + suffix, -1, false, kind, 0, 0)
  }

  /** Clipping and tagging of whatever the reading loop returned. */
  function Clip(o: Outcome, maxBytes: int): Outcome {
    var (stdout, stdoutDropped) := TruncateOutput(o.stdout, maxBytes);
    var (stderr, stderrDropped) := TruncateOutput(o.stderr, maxBytes);
    var kind := if o.limit.None? && (stdoutDropped > 0 || stderrDropped > 0) then Some(OutputBytes) else o.limit;
    Outcome(stdout, stderr, o.returnCode, o.timedOut, kind, stdoutDropped, stderrDropped)
  }

  function Conclude(ending: Ending, maxBytes: int): (o: Outcome) {
    match ending
    case Answered(out, err, rc) => Clip(Outcome(out, err, rc, false, None, 0, 0), maxBytes)
    case Crashed(out, err, exitCode) => Clip(CrashOutcome(out, err, exitCode), maxBytes)
    case TimedOut(partial, seconds) =>
      var (stdout, dropped) := TruncateOutput(partial, maxBytes);
      Outcome(stdout, "runner: execution timed out after " + Decimal.IntText(seconds) + "s\n",
              -1, true, Some(WallClock), dropped, 0)
    case PipeClosed => Outcome("", "runner: pipe closed before send\n", -1, false, None, 0, 0)
  }

  /** A stream within the cap, or clipped and marked with the number of bytes that went. */
  predicate Capped(text: string, dropped: nat, maxBytes: nat) {
    |Encode(text)| <= if dropped == 0 then maxBytes else maxBytes + 2 + |Marker(dropped)|
  }

  lemma ClippedIsCapped(text: string, maxBytes: nat)
    ensures var (clipped, dropped) := TruncateOutput(text, maxBytes); Capped(clipped, dropped, maxBytes)
  {
    hide Encode, TruncateOutput, Clipped, Fit, Marker;
    TruncationLaw(text, maxBytes);
    var over := |Encode(text)| - maxBytes;
    if over > 0 {
      EncodeConcat(Clipped(text, maxBytes), Marker(over));
      MarkerSize(over);
    }
  }

  lemma MarkerSize(dropped: nat)
    ensures |Encode(Marker(dropped))| == |Marker(dropped)|
  {
    hide Encode, Decimal.Digits;
    var s := Marker(dropped);
    var head, digits, tail := "\n... [output truncated by sandbox: ", Decimal.Digits(dropped), " bytes elided]";
    assert Ascii(head) && Ascii(digits) && Ascii(tail);
    assert s == head + digits + tail;
    EncodeAscii(head);
    EncodeAscii(digits);
    EncodeAscii(tail);
    EncodeConcat(head, digits);
    EncodeConcat(head + digits, tail);
  }

  /** Whatever ends an execution, its streams respect the output cap and its tag says what happened: wall_clock on
      timeouts only, a resource when its signal killed the child, output_bytes exactly when something was clipped and
      nothing else is to blame. */
  lemma OutcomeLaw(ending: Ending, maxBytes: nat)
    ensures var o := Conclude(ending, maxBytes);
            && Capped(o.stdout, o.stdoutDropped, maxBytes)
            && (ending.Answered? || ending.Crashed? ==> Capped(o.stderr, o.stderrDropped, maxBytes))
            && (o.timedOut <==> ending.TimedOut?)
            && (o.limit == Some(WallClock) <==> ending.TimedOut?)
            && (o.limit == Some(Memory) <==> ending.Crashed? && ending.exitCode == Some(-9))
            && (o.limit == Some(Cpu) <==> ending.Crashed? && ending.exitCode == Some(-24))
            && (o.limit == Some(FileSize) <==> ending.Crashed? && ending.exitCode == Some(-25))
            && (o.limit == Some(OutputBytes) <==>
                && (o.stdoutDropped > 0 || o.stderrDropped > 0)
                && !ending.TimedOut?
                && (ending.Crashed? ==> ClassifySignalExit(ending.exitCode).None?))
            && (!ending.Answered? ==> o.returnCode == -1)
  {
    hide Encode, TruncateOutput, Marker, Decimal.IntText;
    match ending {
      case Answered(out, err, rc) =>
        ClippedIsCapped(out, maxBytes);
        ClippedIsCapped(err, maxBytes);
      case Crashed(out, err, exitCode) =>
        var o := CrashOutcome(out, err, exitCode);
        ClippedIsCapped(o.stdout, maxBytes);
        ClippedIsCapped(o.stderr, maxBytes);
      case TimedOut(partial, seconds) =>
        ClippedIsCapped(partial, maxBytes);
      case PipeClosed =>
        EmptyIsShort();
    }
  }

  /** A stream is shown as it is if it fits, and else clipped, with the number of bytes that went in the marker. */
  predicate Shows(shown: string, dropped: nat, text: string, maxBytes: nat) {
    if |Encode(text)| <= maxBytes then shown == text && dropped == 0
    else
      && dropped == |Encode(text)| - maxBytes
      && shown == Clipped(text, maxBytes) + "\n... [output truncated by sandbox: " + Decimal.IntText(dropped)
                  + " bytes elided]"
  }

  /** What the caller is told of each ending. */
  predicate Reports(o: Outcome, ending: Ending, maxBytes: nat) {
    match ending
    case Answered(out, err, returnCode) =>
      && Shows(o.stdout, o.stdoutDropped, out, maxBytes)
      && Shows(o.stderr, o.stderrDropped, err, maxBytes)
      && o.returnCode == returnCode
    case Crashed(out, err, exitCode) =>
      && Shows(o.stdout, o.stdoutDropped, out, maxBytes)
      && Shows(o.stderr, o.stderrDropped,
               err + if exitCode == Some(-9) then "runner: killed by sandbox limit (memory)\n"
                     else if exitCode == Some(-24) then "runner: killed by sandbox limit (cpu)\n"
                     else if exitCode == Some(-25) then "runner: killed by sandbox limit (file_size)\n"
                     else "runner: process exited unexpectedly\n",
               maxBytes)
    case TimedOut(partial, seconds) =>
      && Shows(o.stdout, o.stdoutDropped, partial, maxBytes)
      && o.stderr == "runner: execution timed out after " + Decimal.IntText(seconds) + "s\n" && o.stderrDropped == 0
    case PipeClosed =>
      && o.stdout == "" && o.stdoutDropped == 0
      && o.stderr == "runner: pipe closed before send\n" && o.stderrDropped == 0
  }

  lemma ClippedIsShown(text: string, maxBytes: nat)
    ensures var (shown, dropped) := TruncateOutput(text, maxBytes); Shows(shown, dropped, text, maxBytes)
  {
    hide Encode, TruncateOutput, Clipped, Fit, Decimal.Digits;
    TruncationLaw(text, maxBytes);
  }

  /** The contents of an outcome, for each ending: which text goes to which stream, and in what words. */
  lemma OutcomeContents(ending: Ending, maxBytes: nat)
    ensures Reports(Conclude(ending, maxBytes), ending, maxBytes)
  {
    hide TruncateOutput, Shows, Decimal.IntText;
    match ending {
      case Answered(out, err, _) =>
        ClippedIsShown(out, maxBytes);
        ClippedIsShown(err, maxBytes);
      case Crashed(out, err, exitCode) =>
        ClippedIsShown(out, maxBytes);
        ClippedIsShown(CrashOutcome(out, err, exitCode).stderr, maxBytes);
        SuffixOf(out, err, exitCode);
      case TimedOut(partial, _) =>
        ClippedIsShown(partial, maxBytes);
      case PipeClosed =>
    }
  }

  lemma SuffixOf(out: string, err: string, exitCode: Option<int>)
    ensures CrashOutcome(out, err, exitCode).stderr ==
            err + if exitCode == Some(-9) then "runner: killed by sandbox limit (memory)\n"
                  else if exitCode == Some(-24) then "runner: killed by sandbox limit (cpu)\n"
                  else if exitCode == Some(-25) then "runner: killed by sandbox limit (file_size)\n"
                  else "runner: process exited unexpectedly\n"
  {
    assert "runner: killed by sandbox limit (" + "memory" + ")\n" == "runner: killed by sandbox limit (memory)\n";
    assert "runner: killed by sandbox limit (" + "cpu" + ")\n" == "runner: killed by sandbox limit (cpu)\n";
    assert "runner: killed by sandbox limit (" + "file_size" + ")\n"
        == "runner: killed by sandbox limit (file_size)\n";
  }

  lemma EmptyIsShort()
    ensures Encode("") == []
  {
  }

  lemma ParseStep(p: Parser, bs: seq<Byte>)
    ensures var raw := bs[..LineLength(bs, NEWLINE)];
            if raw == [] then Parse(p, bs) == Eof(p) && bs == []
            else
              var step := StepLine(p, Decode(raw));
              Parse(p, bs) ==
              if step.Finish? then Done(p.out, p.err, step.returnCode, bs[|raw|..]) else Parse(step.next, bs[|raw|..])
  {
    hide Decode, Classify;
  }

  /** The pool's end of the runner's stdout, and the loop that reads one response from it. */
  class StreamReader {
    var data: seq<Byte>

    constructor (data: seq<Byte>)
      ensures this.data == data
    {
      this.data := data;
    }

    method ReadLine() returns (raw: seq<Byte>)
      modifies this
      ensures raw == old(data)[..LineLength(old(data), NEWLINE)]
      ensures data == old(data)[|raw|..]
    {
      var n := LineLength(data, NEWLINE);
      raw, data := data[..n], data[n..];
    }

    /** `_read_until_done` on a stream whose whole contents are `data`; None when it ends before the done line. */
    method ReadUntilDone() returns (code: Option<int>, out: string, err: string)
      modifies this
      ensures var r := Parse(START, old(data));
              if r.Done? then code == Some(r.returnCode) && out == r.out && err == r.err && data == r.rest
              else code == None && out == r.last.out && err == r.last.err && data == []
    {
      hide Decode, RStripNewlines, Decimal.ParseInt, Parse, LineLength, Join;
      var section := Outside;
      var sectionBuf: seq<string> := [];
      out, err := "", "";
      while true
        invariant Parse(Parser(section, sectionBuf, out, err), data) == Parse(START, old(data))
        decreases |data|
      {
        ParseStep(Parser(section, sectionBuf, out, err), data);
        var raw := ReadLine();
        if raw == [] {
          return None, out, err;
        }
        var line := Decode(raw);
        var stripped := RStripNewlines(line);
        if stripped == STDOUT_TAG {
          section, sectionBuf := InStdout, [];
          continue;
        }
        if stripped == STDOUT_END {
          out := Join(sectionBuf);
          if out != [] && out[|out| - 1] == '\n' {
            out := out[..|out| - 1];
          }
          section := Outside;
          continue;
        }
        if stripped == STDERR_TAG {
          section, sectionBuf := InStderr, [];
          continue;
        }
        if stripped == STDERR_END {
          err := Join(sectionBuf);
          if err != [] && err[|err| - 1] == '\n' {
            err := err[..|err| - 1];
          }
          section := Outside;
          continue;
        }
        if DONE_TAG <= stripped {
          var rc := Decimal.ParseInt(stripped[|DONE_TAG|..]);
          return Some(if rc.Some? then rc.value else -1), out, err;
        }
        if section != Outside {
          sectionBuf := sectionBuf + [line];
        }
      }
    }
  }
}

/** The response half of the wire protocol: what the runner writes and how the pool reads it back. */
module Wire {
  import opened Utf8
  import opened Lines
  import opened Wrappers
  import Decimal

  const STDOUT_TAG: string := "---SBX_STDOUT---"
  const STDOUT_END: string := "---SBX_STDOUT_END---"
  const STDERR_TAG: string := "---SBX_STDERR---"
  const STDERR_END: string := "---SBX_STDERR_END---"
  const DONE_TAG: string := "---SBX_DONE--- "

  //
  // Writing
  //

  function Padded(data: string): string {
    if data != [] && data[|data| - 1] == '\n' then data else data + "\n"
  }

  function FrameText(tag: string, endTag: string, data: string): string {
    (tag + "\n") + Padded(data) + (endTag + "\n")
  }

  function FramesText(out: string, err: string): string {
    FrameText(STDOUT_TAG, STDOUT_END, out) + FrameText(STDERR_TAG, STDERR_END, err)
  }

  function DoneText(returnCode: int): string {
    DONE_TAG + Decimal.IntText(returnCode) + "\n"
  }

  function ResponseBytes(out: string, err: string, returnCode: int): seq<Byte> {
    Encode(FramesText(out, err)) + Encode(DoneText(returnCode))
  }

  //
  // Reading
  //

  datatype Section = Outside | InStdout | InStderr

  /** The local variables of the reading loop. */
  datatype Parser = Parser(section: Section, buf: seq<string>, out: string, err: string)

  const START: Parser := Parser(Outside, [], "", "")

  datatype Step = More(next: Parser) | Finish(returnCode: int)

  datatype Parsed = Done(out: string, err: string, returnCode: int, rest: seq<Byte>) | Eof(last: Parser)

  function RStripNewlines(s: string): string {
    if s != [] && s[|s| - 1] == '\n' then RStripNewlines(s[..|s| - 1]) else s
  }

  function DropOneNewline(s: string): string {
    if s != [] && s[|s| - 1] == '\n' then s[..|s| - 1] else s
  }

  datatype Kind = StdoutTag | StdoutEnd | StderrTag | StderrEnd | DoneLine(returnCode: int) | OrdinaryLine

  /** What the reader takes a line for, its newline stripped. */
  function Classify(line: string): Kind {
    var stripped := RStripNewlines(line);
    if stripped == STDOUT_TAG then StdoutTag
    else if stripped == STDOUT_END then StdoutEnd
    else if stripped == STDERR_TAG then StderrTag
    else if stripped == STDERR_END then StderrEnd
    else if DONE_TAG <= stripped then
      DoneLine(match Decimal.ParseInt(stripped[|DONE_TAG|..]) case Some(n) => n case None => -1)
    else OrdinaryLine
  }

  function StepLine(p: Parser, line: string): Step {
    match Classify(line)
    case StdoutTag => More(p.(section := InStdout, buf := []))
    case StdoutEnd => More(p.(out := DropOneNewline(Join(p.buf)), section := Outside))
    case StderrTag => More(p.(section := InStderr, buf := []))
    case StderrEnd => More(p.(err := DropOneNewline(Join(p.buf)), section := Outside))
    case DoneLine(returnCode) => Finish(returnCode)
    case OrdinaryLine => More(if p.section != Outside then p.(buf := p.buf + [line]) else p)
  }

  /** Reads lines up to the done line or the end of the stream. */
  function Parse(p: Parser, bs: seq<Byte>): (r: Parsed)
    ensures r.Done? ==> |r.rest| < |bs|
    decreases |bs|
  {
    if bs == [] then Eof(p)
    else
      var n := LineLength(bs, NEWLINE);
      var step := StepLine(p, Decode(bs[..n]));
      if step.Finish? then Done(p.out, p.err, step.returnCode, bs[n..]) else Parse(step.next, bs[n..])
  }

  //
  // Lines that the reader takes for protocol
  //

  predicate Plain(lines: seq<string>) {
    forall i | 0 <= i < |lines| :: Classify(lines[i]).OrdinaryLine?
  }

  /** Output none of whose lines reads as protocol. */
  predicate Clean(data: string) {
    Plain(Split(Padded(data), '\n'))
  }

  //
  // Reading back what was written
  //

  /** Plain text is collected inside a section and dropped outside. */
  function Absorb(p: Parser, text: string): Parser {
    if p.section == Outside then p else p.(buf := p.buf + Split(text, '\n'))
  }

  /** One whole line is one step of the reader, whatever follows it. */
  lemma ParseLine(p: Parser, line: seq<Byte>, rest: seq<Byte>)
    requires IsLine(line, NEWLINE)
    ensures Parse(p, line + rest) ==
            var step := StepLine(p, Decode(line));
            if step.Finish? then Done(p.out, p.err, step.returnCode, rest) else Parse(step.next, rest)
  {
    SplitCons(line, rest, NEWLINE);
    assert (line + rest)[..|line|] == line;
    assert (line + rest)[|line|..] == rest;
  }

  lemma {:induction false} ParsePlain(p: Parser, bs: seq<Byte>, rest: seq<Byte>)
    requires Terminated(bs, NEWLINE) && Plain(Split(Decode(bs), '\n'))
    ensures Parse(p, bs + rest) == Parse(Absorb(p, Decode(bs)), rest)
    decreases |bs|
  {
    hide DecodeOne, LineLength, Parse, Classify;
    if bs == [] {
      assert bs + rest == rest;
      assert p.buf + [] == p.buf;
    } else {
      var line, more := FirstLine(bs);
      PlainCons(p, line, more, rest);
      var q := if p.section == Outside then p else p.(buf := p.buf + [Decode(line)]);
      ParsePlain(q, more, rest);
      assert p.buf + [Decode(line)] + Split(Decode(more), '\n') == p.buf + ([Decode(line)] + Split(Decode(more), '\n'));
    }
  }

  lemma PlainCons(p: Parser, line: seq<Byte>, more: seq<Byte>, rest: seq<Byte>)
    requires IsLine(line, NEWLINE) && Plain([Decode(line)] + Split(Decode(more), '\n'))
    ensures Plain(Split(Decode(more), '\n'))
    ensures Parse(p, line + more + rest) ==
            Parse(if p.section == Outside then p else p.(buf := p.buf + [Decode(line)]), more + rest)
  {
    hide Decode, DecodeOne, LineLength, Split, Parse, Classify;
    var text, texts := Decode(line), Split(Decode(more), '\n');
    assert Classify(([text] + texts)[0]).OrdinaryLine?;
    assert forall i | 0 <= i < |texts| :: texts[i] == ([text] + texts)[i + 1];
    assert line + more + rest == line + (more + rest);
    ParseLine(p, line, more + rest);
  }

  lemma EncodedLine(s: string)
    requires forall i | 0 <= i < |s| :: s[i] != '\n'
    ensures IsLine(Encode(s + "\n"), NEWLINE)
    ensures RStripNewlines(s + "\n") == s
    ensures Decode(Encode(s + "\n")) == s + "\n"
  {
    hide Encode, Decode, EncodeChar, DecodeOne, LineLength;
    EncodeTerminated(s);
    EncodeWithoutNewline(s);
    var bs := Encode(s) + [NEWLINE];
    LineLengthIs(bs, NEWLINE, |bs|);
    RoundTrip(s + "\n");
    assert (s + "\n")[..|s|] == s;
  }

  /** Reading one frame of clean data leaves the data, less one trailing newline, in its variable. */
  lemma ParseFrame(p: Parser, data: string, isErr: bool, rest: seq<Byte>)
    requires p.section == Outside && Clean(data)
    ensures var text := if isErr then FrameText(STDERR_TAG, STDERR_END, data)
                        else FrameText(STDOUT_TAG, STDOUT_END, data);
            var lines := Split(Padded(data), '\n');
            var q := if isErr then Parser(Outside, lines, p.out, DropOneNewline(data))
                     else Parser(Outside, lines, DropOneNewline(data), p.err);
            Parse(p, Encode(text) + rest) == Parse(q, rest)
  {
    hide Encode, Decode, DecodeOne, EncodeChar, LineLength, Split, Parse, Classify, Padded;
    var tag, endTag := if isErr then STDERR_TAG else STDOUT_TAG, if isErr then STDERR_END else STDOUT_END;
    var tagBytes, body, endBytes := Encode(tag + "\n"), Encode(Padded(data)), Encode(endTag + "\n");
    FrameBytes(tag, endTag, data);
    assert tagBytes + body + endBytes + rest == tagBytes + (body + (endBytes + rest));
    TagLines();
    ParseLine(p, tagBytes, body + (endBytes + rest));
    var inside := Parser(if isErr then InStderr else InStdout, [], p.out, p.err);
    PaddedBytes(data);
    ParsePlain(inside, body, endBytes + rest);
    var lines := Split(Padded(data), '\n');
    assert [] + lines == lines;
    JoinSplit(Padded(data), '\n');
    ParseLine(inside.(buf := lines), endBytes, rest);
  }

  lemma FrameBytes(tag: string, endTag: string, data: string)
    ensures Encode(FrameText(tag, endTag, data)) ==
            Encode(tag + "\n") + Encode(Padded(data)) + Encode(endTag + "\n")
  {
    hide Encode;
    EncodeConcat(tag + "\n", Padded(data));
    EncodeConcat(tag + "\n" + Padded(data), endTag + "\n");
  }

  /** Each tag line is one line on the wire and is recognised as what it is. */
  lemma TagLines()
    ensures forall tag | tag in {STDOUT_TAG, STDOUT_END, STDERR_TAG, STDERR_END} ::
              var bs := Encode(tag + "\n");
              && IsLine(bs, NEWLINE)
              && Classify(Decode(bs)) ==
                 if tag == STDOUT_TAG then StdoutTag else if tag == STDOUT_END then StdoutEnd
                 else if tag == STDERR_TAG then StderrTag else StderrEnd
  {
    hide Encode, Decode, EncodeChar, DecodeOne, LineLength;
    EncodedLine(STDOUT_TAG);
    EncodedLine(STDOUT_END);
    EncodedLine(STDERR_TAG);
    EncodedLine(STDERR_END);
  }

  lemma PaddedBytes(data: string)
    ensures Terminated(Encode(Padded(data)), NEWLINE)
    ensures Decode(Encode(Padded(data))) == Padded(data)
    ensures DropOneNewline(Padded(data)) == DropOneNewline(data)
  {
    hide Encode, Decode, EncodeChar, DecodeOne;
    var s := Padded(data);
    RoundTrip(s);
    assert s == s[..|s| - 1] + "\n";
    EncodeTerminated(s[..|s| - 1]);
  }

  lemma DoneLineBytes(returnCode: int)
    ensures IsLine(Encode(DoneText(returnCode)), NEWLINE)
    ensures Classify(Decode(Encode(DoneText(returnCode)))) == DoneLine(returnCode)
  {
    hide Encode, Decode, EncodeChar, DecodeOne, LineLength, Decimal.ParseInt;
    var digits := Decimal.IntText(returnCode);
    var body := DONE_TAG + digits;
    Decimal.ParseIntOfText(returnCode);
    assert forall i | 0 <= i < |digits| :: digits[i] != '\n';
    assert forall i | 0 <= i < |DONE_TAG| :: DONE_TAG[i] != '\n';
    EncodedLine(body);
    assert body[|DONE_TAG|..] == digits;
    assert body[7] == 'D';
  }

  lemma ParseDone(p: Parser, returnCode: int, rest: seq<Byte>)
    ensures Parse(p, Encode(DoneText(returnCode)) + rest) == Done(p.out, p.err, returnCode, rest)
  {
    hide Encode, Decode, EncodeChar, DecodeOne, LineLength, Parse, Classify, DoneText;
    DoneLineBytes(returnCode);
    ParseLine(p, Encode(DoneText(returnCode)), rest);
  }

  /** Clean output comes back less one trailing newline, with its return code, and nothing after the response is
      touched, even with plain noise before, between and after the two frames. */
  lemma NoisyRoundTrip(out: string, err: string, returnCode: int,
                       n0: seq<Byte>, n1: seq<Byte>, n2: seq<Byte>, rest: seq<Byte>)
    requires Clean(out) && Clean(err)
    requires forall n | n in [n0, n1, n2] :: Terminated(n, NEWLINE) && Plain(Split(Decode(n), '\n'))
    ensures Parse(START, n0 + Encode(FrameText(STDOUT_TAG, STDOUT_END, out)) + n1
                         + Encode(FrameText(STDERR_TAG, STDERR_END, err)) + n2
                         + Encode(DoneText(returnCode)) + rest)
         == Done(DropOneNewline(out), DropOneNewline(err), returnCode, rest)
  {
    hide Encode, Decode, Split, Parse, FrameText, DoneText, Clean, Plain, Terminated;
    var f0, f1 := Encode(FrameText(STDOUT_TAG, STDOUT_END, out)), Encode(FrameText(STDERR_TAG, STDERR_END, err));
    var tail := n2 + (Encode(DoneText(returnCode)) + rest);
    assert n0 in [n0, n1, n2] && n1 in [n0, n1, n2] && n2 in [n0, n1, n2];
    assert n0 + f0 + n1 + f1 + n2 + Encode(DoneText(returnCode)) + rest == n0 + (f0 + (n1 + (f1 + tail)));
    ParsePlain(START, n0, f0 + (n1 + (f1 + tail)));
    ParseFrame(START, out, false, n1 + (f1 + tail));
    var p := Parser(Outside, Split(Padded(out), '\n'), DropOneNewline(out), "");
    ParsePlain(p, n1, f1 + tail);
    ParseFrame(p, err, true, tail);
    var q := Parser(Outside, Split(Padded(err), '\n'), DropOneNewline(out), DropOneNewline(err));
    ParsePlain(q, n2, Encode(DoneText(returnCode)) + rest);
    ParseDone(q, returnCode, rest);
  }

  lemma CleanRoundTrip(out: string, err: string, returnCode: int, rest: seq<Byte>)
    requires Clean(out) && Clean(err)
    ensures Parse(START, ResponseBytes(out, err, returnCode) + rest)
         == Done(DropOneNewline(out), DropOneNewline(err), returnCode, rest)
  {
    hide Encode, DecodeOne, Parse, FrameText, DoneText, Clean;
    var f0, f1 := FrameText(STDOUT_TAG, STDOUT_END, out), FrameText(STDERR_TAG, STDERR_END, err);
    EncodeConcat(f0, f1);
    var none: seq<Byte> := [];
    assert Decode(none) == "";
    assert none + Encode(f0) + none + Encode(f1) + none + Encode(DoneText(returnCode)) + rest
        == ResponseBytes(out, err, returnCode) + rest;
    NoisyRoundTrip(out, err, returnCode, none, none, none, rest);
  }

  //
  // Reading in parts
  //

  /** Reading resumes after any number of whole lines. */
  lemma {:induction false} ParseAppend(p: Parser, a: seq<Byte>, q: Parser, b: seq<Byte>)
    requires Terminated(a, NEWLINE) && Parse(p, a) == Eof(q)
    ensures Parse(p, a + b) == Parse(q, b)
    decreases |a|
  {
    hide Decode, Classify, LineLength;
    if a == [] {
      assert a + b == b;
    } else {
      var line, more := WholeLine(a);
      assert line + more + b == line + (more + b);
      ParseLine(p, line, more);
      ParseLine(p, line, more + b);
      ParseAppend(StepLine(p, Decode(line)).next, more, q, b);
    }
  }

  lemma WholeLine(bs: seq<Byte>) returns (line: seq<Byte>, rest: seq<Byte>)
    requires bs != [] && Terminated(bs, NEWLINE)
    ensures bs == line + rest && IsLine(line, NEWLINE) && Terminated(rest, NEWLINE)
  {
    var n := LineLength(bs, NEWLINE);
    line, rest := bs[..n], bs[n..];
    LineLengthIs(line, NEWLINE, n);
  }

  predicate OpensDone(line: seq<Byte>) {
    Encode(DONE_TAG) <= line
  }

  lemma {:induction false} AsciiPrefix(a: string, bs: seq<Byte>)
    requires Ascii(a)
    ensures a <= Decode(bs) <==> Encode(a) <= bs
  {
    if a != [] && bs != [] {
      var (c, n) := DecodeOne(bs);
      assert Encode(a) == [a[0] as int] + Encode(a[1..]);
      assert c == a[0] <==> bs[0] == a[0] as int;
      if c == a[0] {
        AsciiPrefix(a[1..], bs[1..]);
        assert Decode(bs) == [c] + Decode(bs[1..]);
        assert a <= Decode(bs) <==> a[1..] <= Decode(bs[1..]);
        assert bs == [bs[0]] + bs[1..];
      }
    }
  }

  lemma {:induction false} StripPrefix(a: string, s: string)
    requires a != [] && a[|a| - 1] != '\n'
    ensures a <= RStripNewlines(s) <==> a <= s
  {
    if s != [] && s[|s| - 1] == '\n' {
      StripPrefix(a, s[..|s| - 1]);
    }
  }

  /** A line ends the response exactly when its bytes open with the done tag, finished or not. */
  lemma DoneByBytes(line: seq<Byte>)
    ensures Classify(Decode(line)).DoneLine? <==> OpensDone(line)
  {
    hide Encode, Decode, RStripNewlines, Decimal.ParseInt;
    AsciiPrefix(DONE_TAG, line);
    StripPrefix(DONE_TAG, Decode(line));
    assert DONE_TAG[7] == 'D';
  }

  predicate NoDone(bs: seq<Byte>)
    decreases |bs|
  {
    bs == [] || (!OpensDone(bs[..LineLength(bs, NEWLINE)]) && NoDone(bs[LineLength(bs, NEWLINE)..]))
  }

  lemma {:induction false} EofIffNoDone(p: Parser, bs: seq<Byte>)
    ensures Parse(p, bs).Eof? <==> NoDone(bs)
    decreases |bs|
  {
    hide Decode, Classify, LineLength, OpensDone;
    if bs != [] {
      var n := LineLength(bs, NEWLINE);
      DoneByBytes(bs[..n]);
      var step := StepLine(p, Decode(bs[..n]));
      if step.More? {
        EofIffNoDone(step.next, bs[n..]);
      }
    }
  }

  lemma {:induction false} NoDonePrefix(bs: seq<Byte>, k: nat)
    requires NoDone(bs) && k <= |bs|
    ensures NoDone(bs[..k])
    decreases |bs|
  {
    hide Encode;
    if k > 0 {
      var n := LineLength(bs, NEWLINE);
      if k <= n {
        LineLengthIs(bs[..k], NEWLINE, k);
        assert bs[..k][..k] <= bs[..n];
        assert bs[..k][k..] == [];
      } else {
        LineLengthIs(bs[..k], NEWLINE, n);
        assert bs[..k][..n] == bs[..n];
        assert bs[..k][n..] == bs[n..][..k - n];
        NoDonePrefix(bs[n..], k - n);
      }
    }
  }

  /** Output none of whose lines reads as the done line. */
  predicate NeverDone(data: string) {
    NoDoneLine(Split(Padded(data), '\n'))
  }

  predicate NoDoneLine(lines: seq<string>) {
    forall i | 0 <= i < |lines| :: !Classify(lines[i]).DoneLine?
  }

  lemma {:induction false} NoDoneByLines(bs: seq<Byte>)
    requires Terminated(bs, NEWLINE)
    ensures NoDone(bs) <==> NoDoneLine(Split(Decode(bs), '\n'))
    decreases |bs|
  {
    hide Decode, DecodeOne, Classify, LineLength, OpensDone, Split;
    if bs == [] {
      NoLines();
    } else {
      var line, rest := FirstLine(bs);
      FirstLineLength(line, rest);
      DoneByBytes(line);
      NoDoneByLines(rest);
      var texts := Split(Decode(rest), '\n');
      assert ([Decode(line)] + texts)[0] == Decode(line);
      assert forall i | 0 <= i < |texts| :: texts[i] == ([Decode(line)] + texts)[i + 1];
    }
  }

  lemma NoLines()
    ensures Split(Decode([]), '\n') == []
  {
  }

  lemma FirstLineLength(line: seq<Byte>, rest: seq<Byte>)
    requires IsLine(line, NEWLINE)
    ensures LineLength(line + rest, NEWLINE) == |line|
    ensures (line + rest)[..|line|] == line && (line + rest)[|line|..] == rest
  {
    SplitCons(line, rest, NEWLINE);
  }

  lemma {:induction false} NoDoneConcat(a: seq<Byte>, b: seq<Byte>)
    requires Terminated(a, NEWLINE)
    ensures NoDone(a + b) <==> NoDone(a) && NoDone(b)
    decreases |a|
  {
    hide LineLength, OpensDone;
    if a == [] {
      assert a + b == b;
    } else {
      var line, rest := WholeLine(a);
      assert a + b == line + (rest + b);
      FirstLineLength(line, rest);
      FirstLineLength(line, rest + b);
      NoDoneConcat(rest, b);
    }
  }

  lemma TagIsNotDone(tag: string)
    requires tag in {STDOUT_TAG, STDOUT_END, STDERR_TAG, STDERR_END}
    ensures var bs := Encode(tag + "\n"); NoDone(bs) && Terminated(bs, NEWLINE)
  {
    hide Encode, Decode, Classify, LineLength, OpensDone;
    TagLines();
    var bs, none: seq<Byte> := Encode(tag + "\n"), [];
    assert bs + none == bs;
    FirstLineLength(bs, none);
    DoneByBytes(bs);
  }

  lemma FrameNeverDone(tag: string, endTag: string, data: string)
    requires tag in {STDOUT_TAG, STDERR_TAG} && endTag in {STDOUT_END, STDERR_END}
    ensures var bs := Encode(FrameText(tag, endTag, data));
            Terminated(bs, NEWLINE) && (NoDone(bs) <==> NeverDone(data))
  {
    hide Encode, Decode, NoDone, Split, FrameText, Padded, NoDoneLine;
    FrameBytes(tag, endTag, data);
    TagIsNotDone(tag);
    TagIsNotDone(endTag);
    PaddedBytes(data);
    var a, b, c := Encode(tag + "\n"), Encode(Padded(data)), Encode(endTag + "\n");
    NoDoneByLines(b);
    NoDoneConcat(a, b);
    NoDoneConcat(a + b, c);
  }

  /** Whether the frames hold a done line is a matter of the two texts alone. */
  lemma FramesNeverDone(out: string, err: string)
    ensures var bs := Encode(FramesText(out, err));
            Terminated(bs, NEWLINE) && (NoDone(bs) <==> NeverDone(out) && NeverDone(err))
  {
    hide Encode, NoDone, FrameText, NeverDone;
    var f0, f1 := FrameText(STDOUT_TAG, STDOUT_END, out), FrameText(STDERR_TAG, STDERR_END, err);
    EncodeConcat(f0, f1);
    FrameNeverDone(STDOUT_TAG, STDOUT_END, out);
    FrameNeverDone(STDERR_TAG, STDERR_END, err);
    NoDoneConcat(Encode(f0), Encode(f1));
  }

  /** A reader that has finished is not disturbed by what comes after. */
  lemma {:induction false} DoneStays(p: Parser, a: seq<Byte>, b: seq<Byte>)
    requires Terminated(a, NEWLINE) && Parse(p, a).Done?
    ensures var r := Parse(p, a); Parse(p, a + b) == Done(r.out, r.err, r.returnCode, r.rest + b)
    ensures Terminated(Parse(p, a).rest, NEWLINE)
    decreases |a|
  {
    hide Decode, Classify, LineLength;
    var line, more := WholeLine(a);
    assert line + more + b == line + (more + b);
    ParseLine(p, line, more);
    ParseLine(p, line, more + b);
    if StepLine(p, Decode(line)).More? {
      DoneStays(StepLine(p, Decode(line)).next, more, b);
    }
  }

  /** Staying in step, exactly: reading one response always ends, and it consumes that response and not a byte less if
      and only if neither text has a line that reads as the done line. Other protocol lines only garble the texts. */
  lemma StaysInStep(out: string, err: string, returnCode: int, rest: seq<Byte>)
    ensures var r := Parse(START, ResponseBytes(out, err, returnCode) + rest);
            && r.Done?
            && (r.rest == rest <==> NeverDone(out) && NeverDone(err))
  {
    hide Encode, Parse, NoDone, FramesText, DoneText, NeverDone;
    var body, done := Encode(FramesText(out, err)), Encode(DoneText(returnCode));
    FramesNeverDone(out, err);
    EofIffNoDone(START, body);
    var r := Parse(START, body);
    assert body + done + rest == body + (done + rest);
    if r.Eof? {
      ParseAppend(START, body, r.last, done + rest);
      ParseDone(r.last, returnCode, rest);
    } else {
      DoneStays(START, body, done + rest);
      DoneLineBytes(returnCode);
    }
  }

  /** What a forged done line leaves unread is whole lines with a done line among them: the next reader takes them for
      an answer. */
  lemma LeftoversAnswer(out: string, err: string, returnCode: int, p: Parser)
    requires !(NeverDone(out) && NeverDone(err))
    ensures var r := Parse(START, ResponseBytes(out, err, returnCode));
            r.Done? && r.rest != [] && Terminated(r.rest, NEWLINE) && Parse(p, r.rest).Done?
  {
    hide Encode, Parse, NoDone, FramesText, DoneText, NeverDone;
    var body, done, none: seq<Byte> := Encode(FramesText(out, err)), Encode(DoneText(returnCode)), [];
    FramesNeverDone(out, err);
    EofIffNoDone(START, body);
    DoneStays(START, body, done);
    DoneLineBytes(returnCode);
    var r := Parse(START, body);
    assert done + none == done;
    ParseDone(p, returnCode, none);
    EofIffNoDone(p, done);
    NoDoneConcat(r.rest, done);
    EofIffNoDone(p, r.rest + done);
  }

  /** One printed line is enough to lose step, and to be read back as nothing. */
  lemma ForgedDone()
    ensures var forged := DONE_TAG + "0\n"; !NeverDone(forged) && !Clean(forged)
  {
    hide Classify, LineLength, Split;
    var line := DONE_TAG + "0\n";
    ForgedIsDone();
    assert forall i | 0 <= i < |line| - 1 :: line[i] != '\n';
    LineLengthIs(line, '\n', |line|);
    assert line + "" == line;
    SplitCons(line, "", '\n');
    assert Padded(line) == line && Split(line, '\n')[0] == line;
  }

  lemma ForgedIsDone()
    ensures Classify(DONE_TAG + "0\n").DoneLine?
  {
    hide Decimal.ParseInt;
    var line := DONE_TAG + "0\n";
    assert line[..|line| - 1] == DONE_TAG + "0";
    assert RStripNewlines(DONE_TAG + "0") == DONE_TAG + "0";
    assert line[7] == 'D';
  }

  /** What each line is taken for, in the words of the wire. */
  lemma ClassifyLaw(body: string)
    requires '\n' !in body
    ensures var kind := Classify(body + "\n");
            && (kind == StdoutTag <==> body == "---SBX_STDOUT---")
            && (kind == StdoutEnd <==> body == "---SBX_STDOUT_END---")
            && (kind == StderrTag <==> body == "---SBX_STDERR---")
            && (kind == StderrEnd <==> body == "---SBX_STDERR_END---")
            && (kind.DoneLine? <==> "---SBX_DONE--- " <= body)
            && (kind.DoneLine? ==>
                  kind.returnCode == match Decimal.ParseInt(body[15..]) case Some(n) => n case None => -1)
  {
    hide Decimal.ParseInt;
    assert (body + "\n")[..|body|] == body;
    assert RStripNewlines(body) == body;
    assert DONE_TAG == "---SBX_DONE--- " && |DONE_TAG| == 15;
    assert DONE_TAG[7] == 'D' && STDOUT_TAG[7] == 'S' && STDOUT_END[7] == 'S';
    assert STDERR_TAG[7] == 'S' && STDERR_END[7] == 'S';
    assert STDOUT_TAG[9] == 'D' && STDERR_TAG[9] == 'D';
    assert STDOUT_TAG[10] == 'O' && STDERR_TAG[10] == 'E' && STDOUT_END[10] == 'O' && STDERR_END[10] == 'E';
    assert |STDOUT_TAG| == |STDERR_TAG| && |STDOUT_END| == |STDERR_END| && |STDOUT_TAG| != |STDOUT_END|;
  }

  /** What becomes of it: the first reader returns nothing and code 0, the second one the first call's stderr. */
  lemma ForgedAnswer(err: string, returnCode: int)
    requires Clean(err)
    ensures var r := Parse(START, ResponseBytes(DONE_TAG + "0\n", err, returnCode));
            && r.Done? && r.out == "" && r.err == ""
            && Parse(START, r.rest) == Done("", DropOneNewline(err), returnCode, [])
  {
    hide Encode, Decode, DecodeOne, Parse, Classify, LineLength, Clean, Split, DoneText;
    var forged := DONE_TAG + "0\n";
    var tag, line, end := Encode(STDOUT_TAG + "\n"), Encode(forged), Encode(STDOUT_END + "\n");
    var frame, done := Encode(FrameText(STDERR_TAG, STDERR_END, err)), Encode(DoneText(returnCode));
    assert Padded(forged) == forged;
    FrameBytes(STDOUT_TAG, STDOUT_END, forged);
    EncodeConcat(FrameText(STDOUT_TAG, STDOUT_END, forged), FrameText(STDERR_TAG, STDERR_END, err));
    var rest, none: seq<Byte> := end + (frame + done), [];
    assert ResponseBytes(forged, err, returnCode) == tag + (line + rest);
    TagLines();
    ParseLine(START, tag, line + rest);
    ForgedIsDone();
    EncodedLine(DONE_TAG + "0");
    assert DONE_TAG + "0" + "\n" == forged;
    ParseLine(START.(section := InStdout), line, rest);
    ParseLine(START, end, frame + done);
    assert done + none == done;
    ParseFrame(START, err, true, done);
    ParseDone(Parser(Outside, Split(Padded(err), '\n'), "", DropOneNewline(err)), returnCode, none);
  }

  /** What is left of text with one tag line in it: what follows an opening tag, what precedes a closing one. */
  function Garbled(before: string, tag: string, after: string): string {
    DropOneNewline(if tag in {STDOUT_TAG, STDERR_TAG} then (if after == "" then "" else Padded(after)) else before)
  }

  /** Reading a frame whose data holds a tag line. A printed end of the other stream closes the section, and overwrites
      what that stream had. */
  lemma ParseGarbledFrame(p: Parser, before: string, tag: string, after: string, isErr: bool, rest: seq<Byte>)
    returns (q: Parser)
    requires p.section == Outside && tag in {STDOUT_TAG, STDOUT_END, STDERR_TAG, STDERR_END}
    requires Terminated(before, '\n') && Plain(Split(before, '\n'))
    requires after == "" || Clean(after)
    ensures var data := before + (tag + "\n") + after;
            var text := if isErr then FrameText(STDERR_TAG, STDERR_END, data)
                        else FrameText(STDOUT_TAG, STDOUT_END, data);
            Parse(p, Encode(text) + rest) == Parse(q, rest)
    ensures q.section == Outside
    ensures q.out == if !isErr then Garbled(before, tag, after)
                     else if tag == STDOUT_END then DropOneNewline(before) else p.out
    ensures q.err == if isErr then Garbled(before, tag, after)
                     else if tag == STDERR_END then DropOneNewline(before) else p.err
  {
    hide Encode, Decode, DecodeOne, EncodeChar, LineLength, Split, Parse, Classify;
    var data := before + (tag + "\n") + after;
    var tail := if after == "" then "" else Padded(after);
    var open, close := if isErr then STDERR_TAG else STDOUT_TAG, if isErr then STDERR_END else STDOUT_END;
    var a, b, c := Encode(before), Encode(tag + "\n"), Encode(tail);
    var end := Encode(close + "\n");
    PaddedGarbled(before, tag, after);
    FrameBytes(open, close, data);
    EncodeConcat(before + (tag + "\n"), tail);
    EncodeConcat(before, tag + "\n");
    var opening := Encode(open + "\n");
    assert opening + (a + b + c) + end + rest == opening + (a + (b + (c + (end + rest))));
    TagLines();
    TerminatedBytes(before);
    TerminatedBytes(tail);
    ParseLine(p, opening, a + (b + (c + (end + rest))));
    var p1 := Parser(if isErr then InStderr else InStdout, [], p.out, p.err);
    ParsePlain(p1, a, b + (c + (end + rest)));
    var lines := Split(before, '\n');
    assert [] + lines == lines;
    JoinSplit(before, '\n');
    var p2 := p1.(buf := lines);
    ParseLine(p2, b, c + (end + rest));
    var p3 := StepLine(p2, Decode(b)).next;
    PlainTail(after);
    ParsePlain(p3, c, end + rest);
    var p4 := Absorb(p3, tail);
    assert [] + Split(tail, '\n') == Split(tail, '\n');
    JoinSplit(tail, '\n');
    ParseLine(p4, end, rest);
    q := StepLine(p4, Decode(end)).next;
  }

  lemma PlainTail(after: string)
    requires after == "" || Clean(after)
    ensures Plain(Split(if after == "" then "" else Padded(after), '\n'))
  {
  }

  lemma PaddedGarbled(before: string, tag: string, after: string)
    ensures Padded(before + (tag + "\n") + after) == before + (tag + "\n") + if after == "" then "" else Padded(after)
  {
    var data := before + (tag + "\n") + after;
    if after == "" {
      assert data == before + (tag + "\n");
      assert data[|data| - 1] == '\n';
    } else {
      assert data[|data| - 1] == after[|after| - 1];
      assert data + "\n" == before + (tag + "\n") + (after + "\n");
    }
  }

  lemma TerminatedBytes(s: string)
    requires Terminated(s, '\n')
    ensures Terminated(Encode(s), NEWLINE) && Decode(Encode(s)) == s
  {
    hide Encode, Decode, EncodeChar, DecodeOne;
    RoundTrip(s);
    if s != "" {
      EncodeTerminated(s[..|s| - 1]);
      assert s == s[..|s| - 1] + "\n";
    } else {
      EncodeNothing();
    }
  }

  lemma EncodeNothing()
    ensures Encode("") == []
  {
  }

  /** Printing one of the four tags garbles the texts and nothing else: of the stream it is printed on, what precedes an
      end tag or follows an opening tag comes back; an end tag of stdout printed on stderr also replaces stdout. */
  lemma GarbledByTag(before: string, tag: string, after: string, other: string, isErr: bool, returnCode: int,
                     rest: seq<Byte>)
    requires tag in {STDOUT_TAG, STDOUT_END, STDERR_TAG, STDERR_END}
    requires Terminated(before, '\n') && Plain(Split(before, '\n')) && Clean(other)
    requires after == "" || Clean(after)
    ensures var data := before + (tag + "\n") + after;
            var out, err := if isErr then other else data, if isErr then data else other;
            Parse(START, ResponseBytes(out, err, returnCode) + rest) ==
            if isErr then
              Done(DropOneNewline(if tag == STDOUT_END then before else other), Garbled(before, tag, after), returnCode,
                   rest)
            else Done(Garbled(before, tag, after), DropOneNewline(other), returnCode, rest)
  {
    if isErr {
      GarbledOnStderr(before, tag, after, other, returnCode, rest);
    } else {
      GarbledOnStdout(before, tag, after, other, returnCode, rest);
    }
  }

  lemma ResponseParts(out: string, err: string, returnCode: int, rest: seq<Byte>)
    ensures ResponseBytes(out, err, returnCode) + rest
         == Encode(FrameText(STDOUT_TAG, STDOUT_END, out))
            + (Encode(FrameText(STDERR_TAG, STDERR_END, err)) + (Encode(DoneText(returnCode)) + rest))
  {
    hide Encode, FrameText, DoneText;
    EncodeConcat(FrameText(STDOUT_TAG, STDOUT_END, out), FrameText(STDERR_TAG, STDERR_END, err));
  }

  lemma GarbledOnStdout(before: string, tag: string, after: string, err: string, returnCode: int, rest: seq<Byte>)
    requires tag in {STDOUT_TAG, STDOUT_END, STDERR_TAG, STDERR_END}
    requires Terminated(before, '\n') && Plain(Split(before, '\n')) && Clean(err)
    requires after == "" || Clean(after)
    ensures Parse(START, ResponseBytes(before + (tag + "\n") + after, err, returnCode) + rest)
         == Done(Garbled(before, tag, after), DropOneNewline(err), returnCode, rest)
  {
    hide Encode, Split, Parse, FrameText, DoneText, Garbled, Clean, DropOneNewline, Plain, Terminated, ResponseBytes;
    ResponseParts(before + (tag + "\n") + after, err, returnCode, rest);
    var last := Encode(DoneText(returnCode)) + rest;
    var p := ParseGarbledFrame(START, before, tag, after, false,
                               Encode(FrameText(STDERR_TAG, STDERR_END, err)) + last);
    ParseFrame(p, err, true, last);
    ParseDone(Parser(Outside, Split(Padded(err), '\n'), p.out, DropOneNewline(err)), returnCode, rest);
  }

  lemma GarbledOnStderr(before: string, tag: string, after: string, out: string, returnCode: int, rest: seq<Byte>)
    requires tag in {STDOUT_TAG, STDOUT_END, STDERR_TAG, STDERR_END}
    requires Terminated(before, '\n') && Plain(Split(before, '\n')) && Clean(out)
    requires after == "" || Clean(after)
    ensures Parse(START, ResponseBytes(out, before + (tag + "\n") + after, returnCode) + rest)
         == Done(DropOneNewline(if tag == STDOUT_END then before else out), Garbled(before, tag, after), returnCode,
                 rest)
  {
    hide Encode, Split, Parse, FrameText, DoneText, Garbled, Clean, DropOneNewline, Plain, Terminated, ResponseBytes;
    var err := before + (tag + "\n") + after;
    ResponseParts(out, err, returnCode, rest);
    var last := Encode(DoneText(returnCode)) + rest;
    ParseFrame(START, out, false, Encode(FrameText(STDERR_TAG, STDERR_END, err)) + last);
    var p := Parser(Outside, Split(Padded(out), '\n'), DropOneNewline(out), "");
    var q := ParseGarbledFrame(p, before, tag, after, true, last);
    ParseDone(q, returnCode, rest);
  }

  /** No part of a response that stops before the done line finishes the reader. */
  lemma CutResponse(out: string, err: string, k: nat, p: Parser)
    requires NeverDone(out) && NeverDone(err) && k <= |Encode(FramesText(out, err))|
    ensures Parse(p, Encode(FramesText(out, err))[..k]).Eof?
  {
    hide Encode, Parse, NeverDone, NoDone, FramesText;
    FramesNeverDone(out, err);
    var bs := Encode(FramesText(out, err));
    NoDonePrefix(bs, k);
    EofIffNoDone(p, bs[..k]);
  }

  lemma ParseNothing(p: Parser)
    ensures Parse(p, []) == Eof(p)
  {
  }

  //
  // What never comes back
  //

  /** Every buffered line is whole and ordinary, and so is every line of what was already stored. */
  predicate Ordinary(p: Parser) {
    && (forall i | 0 <= i < |p.buf| :: IsLine(p.buf[i], '\n') && Classify(p.buf[i]).OrdinaryLine?)
    && Plain(Split(p.out + "\n", '\n'))
    && Plain(Split(p.err + "\n", '\n'))
  }

  lemma StoredIsPlain(buf: seq<string>)
    requires forall i | 0 <= i < |buf| :: IsLine(buf[i], '\n') && Classify(buf[i]).OrdinaryLine?
    ensures Plain(Split(DropOneNewline(Join(buf)) + "\n", '\n'))
  {
    hide Classify, LineLength, Split, Join, DropOneNewline;
    SplitJoin(buf, '\n');
    var text := Join(buf);
    BlankLine();
    RestoreNewline(text);
  }

  lemma RestoreNewline(text: string)
    requires Terminated(text, '\n')
    ensures DropOneNewline(text) + "\n" == if text == "" then "" + "\n" else text
  {
  }

  lemma BlankLine()
    ensures Plain(Split("" + "\n", '\n'))
  {
    hide Classify;
    SplitCons("\n", "", '\n');
    assert "\n" + "" == "\n" && "" + "\n" == "\n";
    assert RStripNewlines("\n") == "";
    BlankIsOrdinary();
  }

  lemma BlankIsOrdinary()
    ensures Classify("\n").OrdinaryLine?
  {
  }

  lemma StepStaysOrdinary(p: Parser, line: string)
    requires Ordinary(p) && IsLine(line, '\n') && StepLine(p, line).More?
    ensures Ordinary(StepLine(p, line).next)
  {
    hide Classify, DropOneNewline, Join, Split, LineLength, Plain;
    StoredIsPlain(p.buf);
  }

  lemma OrdinaryIsPlain(p: Parser)
    requires Ordinary(p)
    ensures Plain(Split(p.out + "\n", '\n')) && Plain(Split(p.err + "\n", '\n'))
  {
  }

  /** Whatever the bytes, no text the reader returns has a line that reads as protocol. */
  lemma {:induction false} ReturnedIsPlain(p: Parser, bs: seq<Byte>)
    requires Ordinary(p)
    ensures var r := Parse(p, bs);
            r.Done? ==> Plain(Split(r.out + "\n", '\n')) && Plain(Split(r.err + "\n", '\n'))
    decreases |bs|
  {
    hide Decode, DecodeOne, Ordinary, StepLine, Plain, Split;
    if bs != [] {
      var n := LineLength(bs, NEWLINE);
      var step := StepLine(p, Decode(bs[..n]));
      OrdinaryIsPlain(p);
      if step.More? && n < |bs| {
        LineLengthIs(bs[..n], NEWLINE, n);
        DecodeLine(bs[..n]);
        StepStaysOrdinary(p, Decode(bs[..n]));
        ReturnedIsPlain(step.next, bs[n..]);
      }
    }
  }

  /** The response round trip, exactly: the written response reads back as both texts less one trailing newline
      if and only if no line of either text reads as protocol. */
  lemma ResponseRoundTrip(out: string, err: string, returnCode: int, rest: seq<Byte>)
    ensures Parse(START, ResponseBytes(out, err, returnCode) + rest)
         == Done(DropOneNewline(out), DropOneNewline(err), returnCode, rest)
       <==> Clean(out) && Clean(err)
  {
    hide Encode, Decode, DecodeOne, Parse, Classify, ResponseBytes, Split;
    if Clean(out) && Clean(err) {
      CleanRoundTrip(out, err, returnCode, rest);
    } else {
      UncleanIsGarbled(Response(out, err, returnCode), rest);
    }
  }

  datatype Response = Response(out: string, err: string, returnCode: int)

  function StreamBytes(rs: seq<Response>): seq<Byte> {
    if rs == [] then [] else ResponseBytes(rs[0].out, rs[0].err, rs[0].returnCode) + StreamBytes(rs[1..])
  }

  /** One call after another, each starting with a fresh reader where the previous one stopped. */
  function ParseStream(bs: seq<Byte>): seq<Response>
    decreases |bs|
  {
    var r := Parse(START, bs);
    if r.Eof? then [] else [Response(r.out, r.err, r.returnCode)] + ParseStream(r.rest)
  }

  function Echo(r: Response): Response {
    Response(DropOneNewline(r.out), DropOneNewline(r.err), r.returnCode)
  }

  function Echoes(rs: seq<Response>): (echoes: seq<Response>)
    ensures |echoes| == |rs|
    ensures forall i | 0 <= i < |rs| :: echoes[i] == Echo(rs[i])
  {
    seq(|rs|, i requires 0 <= i < |rs| => Echo(rs[i]))
  }

  predicate AllClean(rs: seq<Response>) {
    forall i | 0 <= i < |rs| :: Clean(rs[i].out) && Clean(rs[i].err)
  }

  /** A stream of responses decodes one by one into the responses if and only if all of them are clean. */
  lemma {:induction false} StreamRoundTrip(rs: seq<Response>)
    ensures ParseStream(StreamBytes(rs)) == Echoes(rs) <==> AllClean(rs)
  {
    hide Encode, Decode, DecodeOne, ResponseBytes, Clean, Parse, DropOneNewline;
    if rs == [] {
      ParseNothing(START);
    } else {
      var tail := rs[1..];
      assert forall i | 0 <= i < |tail| :: tail[i] == rs[i + 1];
      assert Echoes(rs)[1..] == Echoes(tail);
      if Clean(rs[0].out) && Clean(rs[0].err) {
        CleanRoundTrip(rs[0].out, rs[0].err, rs[0].returnCode, StreamBytes(tail));
        StreamRoundTrip(tail);
        assert ParseStream(StreamBytes(rs))[1..] == ParseStream(StreamBytes(tail));
      } else {
        UncleanIsGarbled(rs[0], StreamBytes(tail));
      }
    }
  }

  lemma UncleanIsGarbled(r: Response, rest: seq<Byte>)
    requires !(Clean(r.out) && Clean(r.err))
    ensures var p := Parse(START, ResponseBytes(r.out, r.err, r.returnCode) + rest);
            p.Done? ==> Response(p.out, p.err, p.returnCode) != Echo(r)
  {
    hide Encode, Decode, DecodeOne, Parse, Classify, ResponseBytes, Split;
    assert DropOneNewline(r.out) + "\n" == Padded(r.out);
    assert DropOneNewline(r.err) + "\n" == Padded(r.err);
    BlankLine();
    ReturnedIsPlain(START, ResponseBytes(r.out, r.err, r.returnCode) + rest);
  }
}

/** The runner's side of the protocol: framed requests in, framed responses out (sandbox/runner.py).
    User code is an arbitrary function from globals and source text to new globals and captured output. */
module Runner {
  import opened Utf8
  import opened Lines
  import opened Wrappers
  import opened Wire
  import Decimal

  datatype Ran<G> = Ran(globals: G, out: string, err: string, returnCode: int)

  //
  // Requests
  //

  function HeaderText(bytes: nat): string {
    Decimal.IntText(bytes) + "\n"
  }

  function Request(code: string): seq<Byte> {
    Encode(HeaderText(|Encode(code)|)) + Encode(code)
  }

  function Requests(codes: seq<string>): seq<Byte> {
    if codes == [] then [] else Request(codes[0]) + Requests(codes[1..])
  }

  //
  // The read loop
  //

  predicate IsSpace(c: char) {
    Decimal.IsIntSpace(c) || '\U{1C}' <= c <= '\U{1F}'
  }

  /** Every header byte is decoded on its own. */
  function HeaderChars(bs: seq<Byte>): (s: string)
    ensures |s| == |bs|
    ensures forall i | 0 <= i < |bs| :: s[i] == if bs[i] < 0x80 then bs[i] as char else REPLACEMENT
  {
    seq(|bs|, i requires 0 <= i < |bs| => if bs[i] < 0x80 then bs[i] as char else REPLACEMENT)
  }

  /** The first line without its newline. */
  function LineBody(bs: seq<Byte>): seq<Byte> {
    var n := LineLength(bs, NEWLINE);
    if n > 0 && bs[n - 1] == NEWLINE then bs[..n - 1] else bs[..n]
  }

  function AtMost(bs: seq<Byte>, n: int): (k: nat)
    ensures k <= |bs|
  {
    if n <= 0 then 0 else if n <= |bs| then n else |bs|
  }

  datatype Block = Quit(exit: int) | Skip(rest: seq<Byte>) | Run(code: string, rest: seq<Byte>)

  /** What the loop does next when `bs` is all the input there will ever be. */
  function NextBlock(bs: seq<Byte>): (b: Block)
    ensures b.Skip? || b.Run? ==> |b.rest| < |bs|
  {
    var header, rest := HeaderChars(LineBody(bs)), bs[LineLength(bs, NEWLINE)..];
    if header == [] then Quit(0)
    else
      var stripped := Decimal.Strip(header, IsSpace);
      if stripped == [] then Skip(rest)
      else
        match Decimal.ParseInt(stripped)
        case None => Quit(2)
        case Some(n) =>
          var k := AtMost(rest, n);
          if k != n then Quit(2) else Run(Decode(rest[..k]), rest[k..])
  }

  datatype Served<G> = Served(codes: seq<string>, written: seq<Byte>, globals: G, exit: int)

  function Serve<G>(exec: (G, string) -> Ran<G>, g: G, bs: seq<Byte>): Served<G>
    decreases |bs|
  {
    var b := NextBlock(bs);
    if b.Quit? then Served([], [], g, b.exit)
    else if b.Skip? then Serve(exec, g, b.rest)
    else
      var ran := exec(g, b.code);
      var more := Serve(exec, ran.globals, b.rest);
      var written := ResponseBytes(ran.out, ran.err, ran.returnCode) + more.written;
      Served([b.code] + more.codes, written, more.globals, more.exit)
  }

  /** A plain sequential interpreter. */
  function RunAll<G>(exec: (G, string) -> Ran<G>, g: G, codes: seq<string>): (G, seq<Response>) {
    if codes == [] then (g, [])
    else
      var ran := exec(g, codes[0]);
      var (last, more) := RunAll(exec, ran.globals, codes[1..]);
      (last, [Response(ran.out, ran.err, ran.returnCode)] + more)
  }

  /** The runner process as it is written: byte and short-read loops over `os.read`, writes one after another. */
  class Repl<G> {
    const exec: (G, string) -> Ran<G>
    var input: seq<Byte>
    var output: seq<Byte>
    var userGlobals: G
    ghost var ran: seq<string>

    constructor (exec: (G, string) -> Ran<G>, initial: G, input: seq<Byte>)
      ensures this.exec == exec && this.input == input && output == [] && userGlobals == initial && ran == []
    {
      this.exec, this.input, this.output, this.userGlobals, this.ran := exec, input, [], initial, [];
    }

    /** `os.read`: any nonempty amount up to n, nothing only at the end of the input. */
    method OsRead(n: nat) returns (chunk: seq<Byte>)
      modifies this`input
      ensures old(input) == chunk + input
      ensures |chunk| <= n
      ensures chunk == [] ==> n == 0 || old(input) == []
    {
      if n == 0 || input == [] {
        return [];
      }
      var k :| 1 <= k <= n && k <= |input|;
      chunk, input := input[..k], input[k..];
    }

    method ReadLine() returns (text: string)
      modifies this`input
      ensures text == HeaderChars(LineBody(old(input)))
      ensures input == old(input)[LineLength(old(input), NEWLINE)..]
    {
      ghost var all := input;
      var chars: seq<Byte> := [];
      while true
        invariant all == chars + input
        invariant NEWLINE !in chars
        decreases |input|
      {
        var b := OsRead(1);
        if b == [] || b[0] == NEWLINE {
          FirstLineIs(all, chars, b, input);
          return HeaderChars(chars);
        }
        chars := chars + b;
      }
    }

    method ReadExact(n: int) returns (buf: seq<Byte>)
      modifies this`input
      ensures buf == old(input)[..AtMost(old(input), n)]
      ensures input == old(input)[AtMost(old(input), n)..]
    {
      ghost var all := input;
      buf := [];
      while |buf| < n
        invariant all == buf + input
        invariant |buf| <= n || buf == []
        decreases n - |buf|
      {
        var chunk := OsRead(n - |buf|);
        if chunk == [] {
          break;
        }
        buf := buf + chunk;
      }
    }

    method WriteOut(text: string)
      modifies this`output
      ensures output == old(output) + Encode(text)
    {
      output := output + Encode(text);
    }

    method WriteFrame(tag: string, endTag: string, data: string)
      modifies this`output
      ensures output == old(output) + Encode(FrameText(tag, endTag, data))
    {
      hide Encode;
      WriteOut(tag + "\n");
      WriteOut(data);
      if !(data != [] && data[|data| - 1] == '\n') {
        WriteOut("\n");
      }
      WriteOut(endTag + "\n");
      EncodeConcat(data, "\n");
      FrameBytes(tag, endTag, data);
    }

    method WriteDone(returnCode: int)
      modifies this`output
      ensures output == old(output) + Encode(DoneText(returnCode))
    {
      WriteOut(DONE_TAG + Decimal.IntText(returnCode) + "\n");
    }

    /** One header line and, if it announces a block, the block. */
    method ReadBlock() returns (block: Block)
      modifies this`input
      ensures block == NextBlock(old(input))
      ensures !block.Quit? ==> input == block.rest
    {
      hide Decode, HeaderChars, LineBody, LineLength, AtMost, Decimal.ParseInt, Decimal.Strip;
      var header := ReadLine();
      if header == "" {
        return Quit(0);
      }
      header := Decimal.Strip(header, IsSpace);
      if header == "" {
        return Skip(input);
      }
      var byteLength := Decimal.ParseInt(header);
      if byteLength == None {
        return Quit(2);
      }
      var codeBytes := ReadExact(byteLength.value);
      if |codeBytes| != byteLength.value {
        return Quit(2);
      }
      return Run(Decode(codeBytes), input);
    }

    method ExecuteBlock(code: string)
      modifies this`output, this`userGlobals, this`ran
      ensures var result := exec(old(userGlobals), code);
              && userGlobals == result.globals
              && output == old(output) + ResponseBytes(result.out, result.err, result.returnCode)
      ensures ran == old(ran) + [code]
    {
      hide Encode, FrameText, DoneText;
      var result := exec(userGlobals, code);
      userGlobals, ran := result.globals, ran + [code];
      WriteFrame(STDOUT_TAG, STDOUT_END, result.out);
      WriteFrame(STDERR_TAG, STDERR_END, result.err);
      WriteDone(result.returnCode);
      EncodeConcat(FrameText(STDOUT_TAG, STDOUT_END, result.out), FrameText(STDERR_TAG, STDERR_END, result.err));
    }

    /** The process's main loop does exactly what `Serve` says of its whole input. */
    method RunLoop() returns (exit: int)
      modifies this
      ensures var served := Serve(exec, old(userGlobals), old(input));
              && ran == old(ran) + served.codes
              && output == old(output) + served.written
              && userGlobals == served.globals
              && exit == served.exit
    {
      hide NextBlock, ResponseBytes;
      ghost var all := Serve(exec, userGlobals, input);
      while true
        invariant var now := Serve(exec, userGlobals, input);
                  && ran + now.codes == old(ran) + all.codes
                  && output + now.written == old(output) + all.written
                  && now.globals == all.globals
                  && now.exit == all.exit
        decreases |input|
      {
        var block := ReadBlock();
        if block.Quit? {
          return block.exit;
        }
        if block.Run? {
          ExecuteBlock(block.code);
        }
      }
    }
  }

  lemma FirstLineIs(all: seq<Byte>, chars: seq<Byte>, b: seq<Byte>, rest: seq<Byte>)
    requires all == chars + b + rest && NEWLINE !in chars
    requires b == [NEWLINE] || (b == [] && rest == [])
    ensures LineBody(all) == chars && rest == all[LineLength(all, NEWLINE)..]
  {
    if all != [] {
      LineLengthIs(all, NEWLINE, |chars + b|);
    }
  }

  //
  // Framing
  //

  predicate AllDigits(s: string) {
    s != [] && forall i | 0 <= i < |s| :: Decimal.IsDigit(s[i])
  }

  lemma HeaderBytes(digits: string)
    requires AllDigits(digits)
    ensures HeaderChars(Encode(digits)) == digits
    ensures NEWLINE !in Encode(digits)
  {
    hide Encode, EncodeChar;
    EncodeAscii(digits);
    assert forall i | 0 <= i < |digits| :: HeaderChars(Encode(digits))[i] == digits[i];
  }

  lemma StripDigits(digits: string)
    requires AllDigits(digits)
    ensures Decimal.Strip(digits, IsSpace) == digits
  {
    assert !IsSpace(digits[0]) && !IsSpace(digits[|digits| - 1]);
  }

  /** A decimal header line announces what it says, wherever the input stops afterwards. */
  lemma BlockAfterHeader(n: nat, rest: seq<Byte>)
    ensures NextBlock(Encode(HeaderText(n)) + rest) ==
            if n <= |rest| then Run(Decode(rest[..n]), rest[n..]) else Quit(2)
  {
    hide Encode, Decode, DecodeOne, EncodeChar, HeaderChars, LineLength, Decimal.Strip, Decimal.ParseInt;
    var digits := Decimal.Digits(n);
    HeaderBytes(digits);
    StripDigits(digits);
    EncodeTerminated(digits);
    var all := Encode(HeaderText(n)) + rest;
    FirstLineIs(all, Encode(digits), [NEWLINE], rest);
    Decimal.ParseIntOfText(n);
    assert Decimal.IntText(n) == digits;
  }

  lemma NextRequest(code: string, rest: seq<Byte>)
    ensures NextBlock(Request(code) + rest) == Run(code, rest)
  {
    hide Encode, Decode, NextBlock;
    var payload := Encode(code);
    assert Request(code) + rest == Encode(HeaderText(|payload|)) + (payload + rest);
    BlockAfterHeader(|payload|, payload + rest);
    assert (payload + rest)[..|payload|] == payload && (payload + rest)[|payload|..] == rest;
    RoundTrip(code);
  }

  /** However the stream is chunked, the runner executes exactly the code blocks that were sent, as a plain
      sequential interpreter would, answers each, and exits cleanly at the end of its input. */
  lemma {:induction false} RequestFraming<G>(exec: (G, string) -> Ran<G>, g: G, codes: seq<string>, rest: seq<Byte>)
    ensures var served := Serve(exec, g, Requests(codes) + rest);
            var (last, responses) := RunAll(exec, g, codes);
            var more := Serve(exec, last, rest);
            served == Served(codes + more.codes, StreamBytes(responses) + more.written, more.globals, more.exit)
  {
    hide Encode, Decode, NextBlock, ResponseBytes, Request;
    if codes == [] {
      assert Requests(codes) + rest == rest;
    } else {
      var tail := codes[1..];
      assert Requests(codes) + rest == Request(codes[0]) + (Requests(tail) + rest);
      NextRequest(codes[0], Requests(tail) + rest);
      RequestFraming(exec, exec(g, codes[0]).globals, tail, rest);
    }
  }

  /** A bare newline where a header is due ends the loop cleanly, whatever follows; a line of spaces is skipped. */
  lemma BlankHeaders(spaces: nat, rest: seq<Byte>)
    ensures NextBlock([NEWLINE] + rest) == Quit(0)
    ensures spaces > 0 ==> NextBlock(seq(spaces, _ => 0x20) + [NEWLINE] + rest) == Skip(rest)
  {
    hide LineLength;
    FirstLineIs([NEWLINE] + rest, [], [NEWLINE], rest);
    var blanks: seq<Byte> := seq(spaces, _ => 0x20);
    FirstLineIs(blanks + [NEWLINE] + rest, blanks, [NEWLINE], rest);
    StripSpaces(HeaderChars(blanks));
  }

  lemma {:induction false} StripSpaces(s: string)
    requires forall i | 0 <= i < |s| :: s[i] == ' '
    ensures Decimal.Strip(s, IsSpace) == ""
  {
    if s != "" {
      StripSpaces(s[1..]);
    }
  }

  /** The bytes of a header that are spaces: TAB to CR but for the newline, FS to US, and the blank. */
  predicate IsBlankByte(b: Byte) {
    9 <= b <= 13 || 28 <= b <= 32
  }

  /** A header line of such bytes, whichever, is skipped. */
  lemma BlankHeader(line: seq<Byte>, rest: seq<Byte>)
    requires line != [] && NEWLINE !in line && forall i | 0 <= i < |line| :: IsBlankByte(line[i])
    ensures NextBlock(line + [NEWLINE] + rest) == Skip(rest)
  {
    hide LineLength;
    FirstLineIs(line + [NEWLINE] + rest, line, [NEWLINE], rest);
    StripBlanks(HeaderChars(line));
  }

  lemma {:induction false} StripBlanks(s: string)
    requires forall i | 0 <= i < |s| :: IsSpace(s[i])
    ensures Decimal.Strip(s, IsSpace) == ""
  {
    if s != "" {
      StripBlanks(s[1..]);
    }
  }

  /** A header that holds any other byte than digits, underscores, signs and spaces, or a byte outside ASCII, ends the
      process with exit code 2, whatever follows. */
  lemma StrangeHeader(line: seq<Byte>, i: nat, rest: seq<Byte>)
    requires NEWLINE !in line && i < |line|
    requires !IsBlankByte(line[i]) && !(48 <= line[i] <= 57) && line[i] !in {43, 45, 95}
    ensures NextBlock(line + [NEWLINE] + rest) == Quit(2)
  {
    hide LineLength, Decimal.ParseInt, Decimal.Strip;
    FirstLineIs(line + [NEWLINE] + rest, line, [NEWLINE], rest);
    var header := HeaderChars(line);
    Decimal.StripKeeps(header, IsSpace, i);
    var stripped := Decimal.Strip(header, IsSpace);
    var j :| 0 <= j < |stripped| && stripped[j] == header[i];
    Decimal.StrangeIsNoInt(stripped, j);
  }

  /** So does a negative length. */
  lemma NegativeHeader(n: int, rest: seq<Byte>)
    requires n < 0
    ensures NextBlock(Encode(Decimal.IntText(n)) + [NEWLINE] + rest) == Quit(2)
  {
    hide LineLength, Decimal.ParseInt, Decimal.Strip, Encode, EncodeChar, Decimal.Digits;
    var text := Decimal.IntText(n);
    assert text == "-" + Decimal.Digits(-n);
    EncodeAscii(text);
    var line := Encode(text);
    assert HeaderChars(line) == text;
    FirstLineIs(line + [NEWLINE] + rest, line, [NEWLINE], rest);
    StripNothing(text);
    Decimal.ParseIntOfText(n);
  }

  lemma StripNothing(s: string)
    requires s != "" && !IsSpace(s[0]) && !IsSpace(s[|s| - 1])
    ensures Decimal.Strip(s, IsSpace) == s
  {
  }

  lemma {:induction false} DigitsPrefix(n: nat, c: nat) returns (m: nat)
    requires n > 0 && 0 < c <= |Decimal.Digits(n)|
    ensures m > 0 && Decimal.Digits(n)[..c] == Decimal.Digits(m)
  {
    if c == |Decimal.Digits(n)| {
      m := n;
    } else {
      m := DigitsPrefix(n / 10, c);
    }
  }

  /** A header cut before its newline still parses, as a number of bytes that is not there. */
  lemma CutHeader(n: nat, c: nat)
    requires n > 0 && 0 < c <= |Decimal.Digits(n)| && c <= |Encode(HeaderText(n))|
    ensures NextBlock(Encode(HeaderText(n))[..c]) == Quit(2)
  {
    hide Encode, Decode, DecodeOne, EncodeChar, HeaderChars, LineLength;
    hide Decimal.Strip, Decimal.ParseInt, Decimal.Digits;
    var m := DigitsPrefix(n, c);
    var digits := Decimal.Digits(m);
    HeaderBytes(digits);
    StripDigits(digits);
    EncodeTerminated(Decimal.Digits(n));
    var rest := Decimal.Digits(n)[c..];
    assert Decimal.Digits(n) == digits + rest;
    EncodeConcat(digits, rest);
    EncodeAscii(digits);
    var all := Encode(digits);
    assert Encode(HeaderText(n))[..c] == all;
    FirstLineIs(all, all, [], []);
    Decimal.ParseIntOfText(m);
  }

  /** A request cut anywhere inside is never run, and the runner exits with 2; only an empty block has no inside:
      its header runs it even without the newline. */
  lemma CutRequest<G>(exec: (G, string) -> Ran<G>, g: G, code: string, cut: nat)
    requires 0 < cut < |Request(code)|
    ensures Serve(exec, g, Request(code)[..cut]) == Served([], [], g, 2) <==> code != ""
  {
    hide Encode, Decode, NextBlock, ResponseBytes;
    var payload := Encode(code);
    var header := Encode(HeaderText(|payload|));
    EncodeTerminated(Decimal.Digits(|payload|));
    EncodeAscii(Decimal.Digits(|payload|));
    if code == "" {
      EmptyRequest(cut);
    } else {
      EncodeNonempty(code);
      if cut < |header| {
        assert Request(code)[..cut] == header[..cut];
        CutHeader(|payload|, cut);
      } else {
        assert Request(code)[..cut] == header + payload[..cut - |header|];
        BlockAfterHeader(|payload|, payload[..cut - |header|]);
      }
    }
  }

  lemma EncodeNonempty(code: string)
    requires code != ""
    ensures Encode(code) != []
  {
  }

  lemma EmptyRequest(cut: nat)
    requires 0 < cut < |Request("")|
    ensures NextBlock(Request("")[..cut]) == Run("", [])
  {
    hide DecodeOne, EncodeChar, HeaderChars, LineLength, Decimal.Strip, Decimal.ParseInt;
    EncodeTerminated("0");
    HeaderBytes("0");
    StripDigits("0");
    EncodeAscii("0");
    assert Decimal.Digits(0) == "0";
    var all := Encode("0");
    assert Request("")[..cut] == all;
    FirstLineIs(all, all, [], []);
    Decimal.ParseIntOfText(0);
  }

  lemma RequestsTake(codes: seq<string>, k: nat)
    requires 0 < k <= |codes|
    ensures Requests(codes[..k]) == Request(codes[0]) + Requests(codes[1..][..k - 1])
  {
    hide Request;
    assert codes[..k][1..] == codes[1..][..k - 1];
  }

  lemma ServeOne<G>(exec: (G, string) -> Ran<G>, g: G, code: string, rest: seq<Byte>)
    ensures var more := Serve(exec, exec(g, code).globals, rest);
            var served := Serve(exec, g, Request(code) + rest);
            served.codes == [code] + more.codes && served.exit == more.exit
  {
    hide NextBlock, Request;
    NextRequest(code, rest);
  }

  /** Cutting a whole stream of nonempty requests anywhere: the complete ones run, nothing else does, and the exit
      code tells whether the cut fell between requests. */
  lemma {:induction false} CutStream<G>(exec: (G, string) -> Ran<G>, g: G, codes: seq<string>, cut: nat)
    returns (k: nat)
    requires forall i | 0 <= i < |codes| :: codes[i] != ""
    requires cut <= |Requests(codes)|
    ensures k <= |codes| && |Requests(codes[..k])| <= cut
    ensures k < |codes| ==> cut < |Requests(codes[..k + 1])|
    ensures var served := Serve(exec, g, Requests(codes)[..cut]);
            && served.codes == codes[..k]
            && served.exit == if cut == |Requests(codes[..k])| then 0 else 2
  {
    hide NextBlock, Serve, Request;
    if codes == [] {
      k := 0;
      ServeNothing(exec, g);
    } else {
      var tail, first := codes[1..], Request(codes[0]);
      RequestsTake(codes, 1);
      if cut < |first| {
        k := 0;
        assert Requests(codes)[..cut] == first[..cut];
        if cut == 0 {
          ServeNothing(exec, g);
        } else {
          CutRequest(exec, g, codes[0], cut);
        }
      } else {
        var j := CutStream(exec, exec(g, codes[0]).globals, tail, cut - |first|);
        k := j + 1;
        assert Requests(codes)[..cut] == first + Requests(tail)[..cut - |first|];
        ServeOne(exec, g, codes[0], Requests(tail)[..cut - |first|]);
        RequestsTake(codes, k);
        assert codes[..k] == [codes[0]] + tail[..j];
        if k < |codes| {
          RequestsTake(codes, k + 1);
        }
      }
    }
  }

  lemma ServeNothing<G>(exec: (G, string) -> Ran<G>, g: G)
    ensures Serve(exec, g, []) == Served([], [], g, 0)
  {
  }

  /** Both directions together: sending any code blocks and reading the answers back one call after another yields
      what a plain interpreter returns, each text less one trailing newline, if and only if every output is clean. */
  lemma Pipeline<G>(exec: (G, string) -> Ran<G>, g: G, codes: seq<string>)
    ensures var responses := RunAll(exec, g, codes).1;
            ParseStream(Serve(exec, g, Requests(codes)).written) == Echoes(responses) <==> AllClean(responses)
  {
    hide Serve, RunAll, ParseStream, Requests, AllClean, StreamBytes, Echoes;
    var (last, responses) := RunAll(exec, g, codes);
    RequestFraming(exec, g, codes, []);
    ServeNothing(exec, last);
    assert Requests(codes) + [] == Requests(codes);
    assert StreamBytes(responses) + [] == StreamBytes(responses);
    StreamRoundTrip(responses);
  }
}

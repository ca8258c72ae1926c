/** Lines of a byte stream or of a text, cut after a one-element newline. */
module Lines {
  import opened Utf8

  /** Length of the first line, its newline included. */
  function LineLength<T(==)>(s: seq<T>, nl: T): (n: nat)
    ensures n <= |s| && (s != [] ==> n > 0)
    ensures forall i | 0 <= i < n - 1 :: s[i] != nl
    ensures n < |s| ==> s[n - 1] == nl
  {
    if s == [] then 0 else if s[0] == nl then 1 else 1 + LineLength(s[1..], nl)
  }

  function Split<T(==)>(s: seq<T>, nl: T): (lines: seq<seq<T>>)
    decreases |s|
  {
    if s == [] then [] else var n := LineLength(s, nl); [s[..n]] + Split(s[n..], nl)
  }

  function Join<T>(lines: seq<seq<T>>): seq<T> {
    if lines == [] then [] else lines[0] + Join(lines[1..])
  }

  /** One whole line: a single newline, at the end. */
  predicate IsLine<T(==)>(s: seq<T>, nl: T) {
    s != [] && LineLength(s, nl) == |s| && s[|s| - 1] == nl
  }

  /** Empty, or ending with a newline. */
  predicate Terminated<T(==)>(s: seq<T>, nl: T) {
    s == [] || s[|s| - 1] == nl
  }

  lemma {:induction false} LineLengthIs<T>(s: seq<T>, nl: T, n: nat)
    requires 0 < n <= |s| && (forall i | 0 <= i < n - 1 :: s[i] != nl)
    requires s[n - 1] == nl || n == |s|
    ensures LineLength(s, nl) == n
  {
    if n > 1 {
      LineLengthIs(s[1..], nl, n - 1);
    }
  }

  lemma SplitCons<T>(line: seq<T>, rest: seq<T>, nl: T)
    requires IsLine(line, nl)
    ensures LineLength(line + rest, nl) == |line|
    ensures Split(line + rest, nl) == [line] + Split(rest, nl)
  {
    LineLengthIs(line + rest, nl, |line|);
    assert (line + rest)[..|line|] == line;
    assert (line + rest)[|line|..] == rest;
  }

  lemma {:induction false} JoinConcat<T>(a: seq<seq<T>>, b: seq<seq<T>>)
    ensures Join(a + b) == Join(a) + Join(b)
  {
    if a == [] {
      assert a + b == b;
    } else {
      JoinConcat(a[1..], b);
      assert (a + b)[0] == a[0] && (a + b)[1..] == a[1..] + b;
      assert a[0] + Join(a[1..]) + Join(b) == a[0] + (Join(a[1..]) + Join(b));
    }
  }

  lemma {:induction false} JoinSplit<T>(s: seq<T>, nl: T)
    ensures Join(Split(s, nl)) == s
    decreases |s|
  {
    if s != [] {
      var n := LineLength(s, nl);
      JoinSplit(s[n..], nl);
      assert s == s[..n] + s[n..];
      assert Split(s, nl)[1..] == Split(s[n..], nl);
    }
  }

  lemma {:induction false} SplitJoin<T>(lines: seq<seq<T>>, nl: T)
    requires forall i | 0 <= i < |lines| :: IsLine(lines[i], nl)
    ensures Split(Join(lines), nl) == lines
    ensures Terminated(Join(lines), nl)
    ensures lines != [] ==> Join(lines) != []
  {
    if lines != [] {
      SplitJoin(lines[1..], nl);
      SplitCons(lines[0], Join(lines[1..]), nl);
    }
  }

  lemma {:induction false} DecodeWithoutNewline(bs: seq<Byte>)
    requires forall i | 0 <= i < |bs| :: bs[i] != NEWLINE
    ensures forall i | 0 <= i < |Decode(bs)| :: Decode(bs)[i] != '\n'
    decreases |bs|
  {
    if bs != [] {
      var (c, n) := DecodeOne(bs);
      assert c != '\n';
      DecodeWithoutNewline(bs[n..]);
    }
  }

  /** A whole line of bytes decodes to a whole line of text, and an unfinished one has no newline at all. */
  lemma DecodeLine(bs: seq<Byte>)
    requires bs != [] && LineLength(bs, NEWLINE) == |bs|
    ensures LineLength(Decode(bs), '\n') == |Decode(bs)| && Decode(bs) != []
    ensures IsLine(Decode(bs), '\n') <==> IsLine(bs, NEWLINE)
  {
    var n := |bs| - 1;
    if bs[n] == NEWLINE {
      DecodeConcat(bs[..n], bs[n..]);
      assert bs == bs[..n] + bs[n..];
      assert Decode(bs[n..]) == ['\n'];
      DecodeWithoutNewline(bs[..n]);
    } else {
      DecodeWithoutNewline(bs);
    }
    LineLengthIs(Decode(bs), '\n', |Decode(bs)|);
  }

  /** The first line of a terminated stream, and what decoding makes of it and of the rest. */
  lemma FirstLine(bs: seq<Byte>) returns (line: seq<Byte>, rest: seq<Byte>)
    requires bs != [] && Terminated(bs, NEWLINE)
    ensures bs == line + rest && IsLine(line, NEWLINE) && Terminated(rest, NEWLINE)
    ensures Decode(bs) == Decode(line) + Decode(rest)
    ensures Split(Decode(bs), '\n') == [Decode(line)] + Split(Decode(rest), '\n')
  {
    hide Decode, DecodeOne;
    var n := LineLength(bs, NEWLINE);
    line, rest := bs[..n], bs[n..];
    LineLengthIs(line, NEWLINE, n);
    DecodeLine(line);
    DecodeConcat(line, rest);
    SplitCons(Decode(line), Decode(rest), '\n');
  }

  lemma {:induction false} EncodeWithoutNewline(s: string)
    requires forall i | 0 <= i < |s| :: s[i] != '\n'
    ensures forall i | 0 <= i < |Encode(s)| :: Encode(s)[i] != NEWLINE
  {
    if s != [] {
      EncodeWithoutNewline(s[1..]);
    }
  }

  lemma EncodeTerminated(s: string)
    ensures Encode(s + "\n") == Encode(s) + [NEWLINE]
  {
    EncodeConcat(s, "\n");
    assert "\n"[1..] == "";
    assert Encode("\n") == EncodeChar('\n') + Encode("");
  }

  function DecodeEach(lines: seq<seq<Byte>>): (texts: seq<string>)
    ensures |texts| == |lines| && forall i | 0 <= i < |lines| :: texts[i] == Decode(lines[i])
  {
    if lines == [] then [] else [Decode(lines[0])] + DecodeEach(lines[1..])
  }

  /** Decoding line by line is decoding the whole: malformed input included, the decoded lines are the lines of
      the decoded stream, so their concatenation is the decoded stream. */
  lemma {:induction false} LinewiseDecoding(bs: seq<Byte>)
    ensures DecodeEach(Split(bs, NEWLINE)) == Split(Decode(bs), '\n')
    ensures Join(DecodeEach(Split(bs, NEWLINE))) == Decode(bs)
    decreases |bs|
  {
    JoinSplit(Decode(bs), '\n');
    if bs != [] {
      var n := LineLength(bs, NEWLINE);
      var line, rest := bs[..n], bs[n..];
      assert bs == line + rest;
      LineLengthIs(line, NEWLINE, n);
      DecodeLine(line);
      if rest == [] {
        assert bs == line;
        var text := Decode(bs);
        assert text[..|text|] == text;
        assert Split(text, '\n') == [text] + Split(text[|text|..], '\n');
        assert Split(bs, NEWLINE) == [bs];
      } else {
        DecodeConcat(line, rest);
        SplitCons(Decode(line), Decode(rest), '\n');
        LinewiseDecoding(rest);
      }
    }
  }
}

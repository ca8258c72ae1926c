/** `str.splitlines`, and the newline translation of files read in text mode. */
module TextLines {
  import opened Lines

  //
  // splitlines
  //

  predicate IsBreak(c: char) {
    || '\n' <= c <= '\r'
    || '\U{1C}' <= c <= '\U{1E}'
    || c in {'\U{85}', '\U{2028}', '\U{2029}'}
  }

  /** Length of the first line, its break included; CR LF is one break. */
  function LineEnd(s: string): (n: nat)
    ensures n <= |s| && (s != [] ==> n > 0)
  {
    if s == [] then 0
    else if s[0] == '\r' && |s| > 1 && s[1] == '\n' then 2
    else if IsBreak(s[0]) then 1
    else 1 + LineEnd(s[1..])
  }

  /** With the breaks kept. */
  function SplitLines(s: string): seq<string>
    decreases |s|
  {
    if s == [] then [] else var n := LineEnd(s); [s[..n]] + SplitLines(s[n..])
  }

  function WithoutBreak(line: string): string {
    var n := |line|;
    if n > 1 && line[n - 2] == '\r' && line[n - 1] == '\n' then line[..n - 2]
    else if n > 0 && IsBreak(line[n - 1]) then line[..n - 1]
    else line
  }

  function WithoutBreaks(lines: seq<string>): (r: seq<string>)
    ensures |r| == |lines| && forall i | 0 <= i < |lines| :: r[i] == WithoutBreak(lines[i])
  {
    if lines == [] then [] else [WithoutBreak(lines[0])] + WithoutBreaks(lines[1..])
  }

  /** Ends where a line ends. */
  predicate AtLineEnd(s: string) {
    s == [] || IsBreak(s[|s| - 1])
  }

  /** The boundary between the two texts does not fall inside a CR LF. */
  predicate NoSplitCrLf(a: string, b: string) {
    a != [] && b != [] ==> !(a[|a| - 1] == '\r' && b[0] == '\n')
  }

  lemma {:induction false} JoinSplitLines(s: string)
    ensures Join(SplitLines(s)) == s
    decreases |s|
  {
    if s != [] {
      var n := LineEnd(s);
      JoinSplitLines(s[n..]);
      assert s == s[..n] + s[n..];
      assert SplitLines(s)[1..] == SplitLines(s[n..]);
    }
  }

  lemma {:induction false} LineEndConcat(a: string, b: string)
    requires a != [] && AtLineEnd(a) && NoSplitCrLf(a, b)
    ensures LineEnd(a + b) == LineEnd(a)
    ensures AtLineEnd(a[LineEnd(a)..]) && NoSplitCrLf(a[LineEnd(a)..], b)
  {
    assert (a + b)[1..] == a[1..] + b;
    if !IsBreak(a[0]) {
      LineEndConcat(a[1..], b);
    }
  }

  lemma SplitFirst(s: string)
    ensures s != [] ==> SplitLines(s) == [s[..LineEnd(s)]] + SplitLines(s[LineEnd(s)..])
    ensures s == [] ==> SplitLines(s) == []
  {
    hide LineEnd;
  }

  /** Splitting composes where the first text ends a line. */
  lemma {:induction false} SplitLinesConcat(a: string, b: string)
    requires AtLineEnd(a) && NoSplitCrLf(a, b)
    ensures SplitLines(a + b) == SplitLines(a) + SplitLines(b)
    decreases |a|
  {
    hide IsBreak, AtLineEnd, NoSplitCrLf, LineEnd, SplitLines;
    SplitFirst(a);
    if a == [] {
      assert a + b == b;
    } else {
      var n := LineEnd(a);
      LineEndConcat(a, b);
      SplitFirst(a + b);
      assert (a + b)[..n] == a[..n] && (a + b)[n..] == a[n..] + b;
      SplitLinesConcat(a[n..], b);
    }
  }

  lemma {:induction false} LineEndIsBreak(s: string)
    ensures LineEnd(s) < |s| ==> IsBreak(s[LineEnd(s) - 1])
  {
    if s != [] && !IsBreak(s[0]) {
      LineEndIsBreak(s[1..]);
    }
  }

  /** Every line but the last ends with a break, and no line is empty. */
  lemma {:induction false} AllButLastEnd(s: string)
    ensures forall i | 0 <= i < |SplitLines(s)| :: SplitLines(s)[i] != []
    ensures forall i | 0 <= i < |SplitLines(s)| - 1 :: AtLineEnd(SplitLines(s)[i])
    decreases |s|
  {
    hide IsBreak;
    if s != [] {
      var n := LineEnd(s);
      LineEndIsBreak(s);
      AllButLastEnd(s[n..]);
    }
  }

  /** Splitting and rejoining any number of leading lines. */
  lemma {:induction false} SplitTake(s: string, k: nat)
    requires k <= |SplitLines(s)|
    ensures s == Join(SplitLines(s)[..k]) + Join(SplitLines(s)[k..])
    ensures SplitLines(Join(SplitLines(s)[..k])) == SplitLines(s)[..k]
    ensures SplitLines(Join(SplitLines(s)[k..])) == SplitLines(s)[k..]
    decreases |s|
  {
    hide IsBreak, WithoutBreak;
    var lines := SplitLines(s);
    JoinSplitLines(s);
    assert lines == lines[..k] + lines[k..];
    JoinConcat(lines[..k], lines[k..]);
    if k == 0 {
      assert lines[k..] == lines;
    } else {
      var n := LineEnd(s);
      SplitTake(s[n..], k - 1);
      assert lines[k..] == lines[1..][k - 1..] && lines[..k] == [s[..n]] + lines[1..][..k - 1];
      FirstLineAlone(s, Join(lines[1..][..k - 1]));
    }
  }

  /** Cutting a text after its first line and putting some later text behind it keeps the first line. */
  lemma FirstLineAlone(s: string, tail: string)
    requires s != [] && tail <= s[LineEnd(s)..]
    ensures SplitLines(s[..LineEnd(s)] + tail) == [s[..LineEnd(s)]] + SplitLines(tail)
  {
    hide LineEnd, SplitLines, IsBreak;
    var n := LineEnd(s);
    var t := s[..n] + tail;
    assert t == s[..n + |tail|];
    LineEndPrefix(s, n + |tail|);
    SplitFirst(t);
    assert t[..n] == s[..n] && t[n..] == tail;
  }

  lemma {:induction false} LineEndPrefix(s: string, k: nat)
    requires LineEnd(s) <= k <= |s|
    ensures LineEnd(s[..k]) == LineEnd(s)
  {
    if s != [] && !IsBreak(s[0]) {
      assert s[..k][1..] == s[1..][..k - 1];
      LineEndPrefix(s[1..], k - 1);
    }
  }

  /** The ten characters that end a line, told by their effect: LF, VT, FF, CR, FS, GS, RS, NEL, LS, PS. */
  lemma TenBreaks(c: char)
    ensures var ten := {'\n', '\U{B}', '\U{C}', '\r', '\U{1C}', '\U{1D}', '\U{1E}', '\U{85}', '\U{2028}',
                        '\U{2029}'};
            SplitLines("x" + [c] + "y") == if c in ten then ["x" + [c], "y"] else ["x" + [c] + "y"]
  {
    var s := "x" + [c] + "y";
    assert s[1..] == [c] + "y" && ([c] + "y")[1..] == "y" && "y"[1..] == "";
    assert LineEnd("y") == 1;
    SplitFirst("y");
    SplitFirst("");
    SplitFirst(s);
    if IsBreak(c) {
      assert LineEnd([c] + "y") == 1;
      assert LineEnd(s) == 2;
      assert s[..2] == "x" + [c] && s[2..] == "y" && "y"[..1] == "y" && "y"[1..] == "";
    } else {
      assert LineEnd([c] + "y") == 2;
      assert LineEnd(s) == 3;
      assert s[..3] == s && s[3..] == "";
    }
  }

  /** CR LF is one break. */
  lemma CrLfIsOneBreak()
    ensures SplitLines("x\r\ny") == ["x\r\n", "y"]
  {
    var s := "x\r\ny";
    assert s[1..] == "\r\ny" && LineEnd("\r\ny") == 2;
    assert LineEnd(s) == 3 && s[..3] == "x\r\n" && s[3..] == "y";
    assert "y"[..1] == "y" && "y"[1..] == "" && LineEnd("y") == 1;
    SplitFirst(s);
    SplitFirst("y");
    SplitFirst("");
  }

  /** Text whose only line breaks are LF. */
  predicate OnlyLf(s: string) {
    forall i | 0 <= i < |s| ::
      s[i] !in {'\U{B}', '\U{C}', '\r', '\U{1C}', '\U{1D}', '\U{1E}', '\U{85}', '\U{2028}', '\U{2029}'}
  }

  /** The lines of such text are those cut after each LF. */
  lemma {:induction false} SplitLinesAtLf(s: string)
    requires OnlyLf(s)
    ensures SplitLines(s) == Split(s, '\n')
    decreases |s|
  {
    hide IsBreak;
    if s != [] {
      LineEndAtLf(s);
      SplitLinesAtLf(s[LineEnd(s)..]);
    }
  }

  lemma {:induction false} LineEndAtLf(s: string)
    requires OnlyLf(s)
    ensures LineEnd(s) == LineLength(s, '\n')
  {
    if s != [] && s[0] != '\n' {
      LineEndAtLf(s[1..]);
    }
  }

  /** A line without its break is the part before it. */
  lemma BreakIsDropped(body: string, c: char)
    requires body == "" || body[|body| - 1] != '\r'
    ensures WithoutBreak(body + "\r\n") == body
    ensures c in {'\n', '\U{B}', '\U{C}', '\r', '\U{1C}', '\U{1D}', '\U{1E}', '\U{85}', '\U{2028}', '\U{2029}'} ==>
              WithoutBreak(body + [c]) == body
    ensures (forall i | 0 <= i < |body| :: !IsBreak(body[i])) ==> WithoutBreak(body) == body
  {
    assert (body + "\r\n")[..|body|] == body && (body + [c])[..|body|] == body;
  }

  //
  // Text-mode reading
  //

  /** CR LF and CR become LF. */
  function Normalize(s: string): string {
    if s == [] then []
    else if s[0] == '\r' then
      ['\n'] + Normalize(if |s| > 1 && s[1] == '\n' then s[2..] else s[1..])
    else [s[0]] + Normalize(s[1..])
  }

  /** Reading in text mode, told on its parts: CR LF and a CR alone become LF, anything else stays, and what is not
      inside a CR LF is read part by part. */
  lemma NormalizeLaw(a: string, c: char, b: string)
    ensures Normalize("\r\n") == "\n" && Normalize("\r") == "\n"
    ensures c != '\r' ==> Normalize([c]) == [c]
    ensures NoSplitCrLf(a, b) ==> Normalize(a + b) == Normalize(a) + Normalize(b)
  {
    assert "\r\n"[2..] == "" && "\r"[1..] == "" && [c][1..] == [];
    if NoSplitCrLf(a, b) {
      NormalizeConcat(a, b);
    }
  }

  predicate NoCr(s: string) {
    forall i | 0 <= i < |s| :: s[i] != '\r'
  }

  lemma {:induction false} NormalizeHasNoCr(s: string)
    ensures NoCr(Normalize(s))
    decreases |s|
  {
    if s != [] {
      NormalizeHasNoCr(if s[0] == '\r' && |s| > 1 && s[1] == '\n' then s[2..] else s[1..]);
    }
  }

  lemma {:induction false} NormalizeNothing(s: string)
    requires NoCr(s)
    ensures Normalize(s) == s
  {
    if s != [] {
      NormalizeNothing(s[1..]);
    }
  }

  lemma {:induction false} NormalizeConcat(a: string, b: string)
    requires NoSplitCrLf(a, b)
    ensures Normalize(a + b) == Normalize(a) + Normalize(b)
    decreases |a|
  {
    if a == [] {
      assert a + b == b;
    } else {
      assert (a + b)[1..] == a[1..] + b;
      if a[0] == '\r' && |a| > 1 && a[1] == '\n' {
        assert (a + b)[2..] == a[2..] + b;
        NormalizeConcat(a[2..], b);
      } else {
        NormalizeConcat(a[1..], b);
      }
    }
  }
}

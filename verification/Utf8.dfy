/** UTF-8 as the program uses it: strict encoding of text, and decoding of arbitrary bytes with every
    maximal ill-formed subpart replaced by U+FFFD (RFC 3629 sections 3 and 4; Unicode Standard section 3.9).

    Text is a `string`: a Dafny `char` is exactly a Unicode scalar value. */
module Utf8 {
  type Byte = b: int | 0 <= b < 256

  const REPLACEMENT: char := '\U{FFFD}'
  const NEWLINE: Byte := 10

  function EncodeChar(c: char): (bs: seq<Byte>)
    ensures 1 <= |bs| <= 4
  {
    var v := c as int;
    if v < 0x80 then [v]
    else if v < 0x800 then [0xC0 + v / 0x40, 0x80 + v % 0x40]
    else if v < 0x10000 then [0xE0 + v / 0x40 / 0x40, 0x80 + v / 0x40 % 0x40, 0x80 + v % 0x40]
    else [0xF0 + v / 0x40 / 0x40 / 0x40, 0x80 + v / 0x40 / 0x40 % 0x40, 0x80 + v / 0x40 % 0x40, 0x80 + v % 0x40]
  }

  function Encode(s: string): seq<Byte> {
    if s == [] then [] else EncodeChar(s[0]) + Encode(s[1..])
  }

  predicate Continuation(b: Byte) {
    0x80 <= b < 0xC0
  }

  /** How many bytes the sequence opened by this byte has; 1 also for bytes that open nothing. */
  function SequenceLength(b: Byte): (n: nat) {
    if 0xC2 <= b < 0xE0 then 2 else if 0xE0 <= b < 0xF0 then 3 else if 0xF0 <= b < 0xF5 then 4 else 1
  }

  /** The second bytes that keep the sequence free of overlong forms, surrogates and values past U+10FFFF. */
  predicate SecondByte(first: Byte, b: Byte) {
    && Continuation(b)
    && (first == 0xE0 ==> 0xA0 <= b)
    && (first == 0xED ==> b < 0xA0)
    && (first == 0xF0 ==> 0x90 <= b)
    && (first == 0xF4 ==> b < 0x90)
  }

  /** The first character of a nonempty byte string and the number of bytes it takes. */
  function DecodeOne(bs: seq<Byte>): (r: (char, nat))
    requires bs != []
    ensures 1 <= r.1 <= |bs| && r.1 <= 4
  {
    var n, lead: int := SequenceLength(bs[0]), bs[0];
    if n == 1 then (if lead < 0x80 then lead as char else REPLACEMENT, 1)
    else if |bs| < 2 || !SecondByte(bs[0], bs[1]) then (REPLACEMENT, 1)
    else
      var b1: int := bs[1];
      if n == 2 then (((lead - 0xC0) * 0x40 + (b1 - 0x80)) as char, 2)
      else if |bs| < 3 || !Continuation(bs[2]) then (REPLACEMENT, 2)
      else
        var b2: int := bs[2];
        if n == 3 then (((lead - 0xE0) * 0x1000 + (b1 - 0x80) * 0x40 + (b2 - 0x80)) as char, 3)
        else if |bs| < 4 || !Continuation(bs[3]) then (REPLACEMENT, 3)
        else
          var b3: int := bs[3];
          (((lead - 0xF0) * 0x40000 + (b1 - 0x80) * 0x1000 + (b2 - 0x80) * 0x40 + (b3 - 0x80)) as char, 4)
  }

  function Decode(bs: seq<Byte>): string {
    if bs == [] then "" else var (c, n) := DecodeOne(bs); [c] + Decode(bs[n..])
  }

  /** Strict decoding succeeds on exactly the encodings of texts. */
  predicate WellFormed(bs: seq<Byte>) {
    Encode(Decode(bs)) == bs
  }

  lemma {:induction false} EncodeConcat(s: string, t: string)
    ensures Encode(s + t) == Encode(s) + Encode(t)
  {
    hide EncodeChar;
    if s == [] {
      assert s + t == t;
    } else {
      EncodeConcat(s[1..], t);
      assert (s + t)[1..] == s[1..] + t;
    }
  }

  lemma DecodeOneOfChar(c: char, rest: seq<Byte>)
    ensures DecodeOne(EncodeChar(c) + rest) == (c, |EncodeChar(c)|)
  {
    var v, es := c as int, EncodeChar(c);
    var q := v / 0x40;
    assert v == q * 0x40 + v % 0x40;
    assert q == q / 0x40 * 0x40 + q % 0x40;
    var bs := es + rest;
    assert bs[..|es|] == es;
    assert bs[0] == es[0];
    if |es| == 2 {
      assert bs[1] == es[1];
    } else if |es| == 3 {
      assert bs[1] == es[1] && bs[2] == es[2];
    } else if |es| == 4 {
      assert bs[1] == es[1] && bs[2] == es[2] && bs[3] == es[3];
      assert q / 0x40 == q / 0x40 / 0x40 * 0x40 + q / 0x40 % 0x40;
    }
  }

  /** Cutting inside a character leaves one maximal subpart, which decodes to one U+FFFD. */
  lemma DecodeOneOfCut(c: char, k: nat)
    requires 0 < k < |EncodeChar(c)|
    ensures DecodeOne(EncodeChar(c)[..k]) == (REPLACEMENT, k)
  {
  }

  lemma DecodeChar(c: char, rest: seq<Byte>)
    ensures Decode(EncodeChar(c) + rest) == [c] + Decode(rest)
  {
    DecodeOneOfChar(c, rest);
    var n := |EncodeChar(c)|;
    assert (EncodeChar(c) + rest)[n..] == rest;
  }

  lemma {:induction false} DecodeEncoded(s: string, rest: seq<Byte>)
    ensures Decode(Encode(s) + rest) == s + Decode(rest)
  {
    if s == [] {
      assert Encode(s) + rest == rest;
    } else {
      var first, tail := EncodeChar(s[0]), Encode(s[1..]);
      assert Encode(s) + rest == first + (tail + rest);
      DecodeChar(s[0], tail + rest);
      DecodeEncoded(s[1..], rest);
    }
  }

  lemma RoundTrip(s: string)
    ensures Decode(Encode(s)) == s
    ensures WellFormed(Encode(s))
  {
    DecodeEncoded(s, []);
    assert Encode(s) + [] == Encode(s);
  }

  /** A character is not changed by what follows it, unless a continuation byte follows an unfinished sequence. */
  lemma DecodeOneConcat(a: seq<Byte>, b: seq<Byte>)
    requires a != []
    requires (b != [] ==> !Continuation(b[0])) || a[|a| - 1] < 0x80
    ensures DecodeOne(a + b) == DecodeOne(a)
  {
    var ab := a + b;
    assert ab[0] == a[0];
    assert |a| > 1 ==> ab[1] == a[1];
    assert |a| > 2 ==> ab[2] == a[2];
    assert |a| > 3 ==> ab[3] == a[3];
    assert b != [] ==> ab[|a|] == b[0];
  }

  /** Decoding splits before a non-continuation byte and after an ASCII byte. */
  lemma {:induction false} DecodeConcat(a: seq<Byte>, b: seq<Byte>)
    requires (b != [] ==> !Continuation(b[0])) || (a != [] && a[|a| - 1] < 0x80)
    ensures Decode(a + b) == Decode(a) + Decode(b)
    decreases |a|
  {
    hide DecodeOne;
    if a == [] {
      assert a + b == b;
    } else {
      var (c, n) := DecodeOne(a);
      DecodeOneConcat(a, b);
      assert (a + b)[n..] == a[n..] + b;
      if n == |a| {
        assert a[n..] + b == b;
      } else {
        DecodeConcat(a[n..], b);
      }
    }
  }

  /** The bytes are those of a character, or the first few of one. */
  ghost predicate BeginsChar(bs: seq<Byte>) {
    exists c: char :: bs <= EncodeChar(c)
  }

  ghost predicate HoldsChar(bs: seq<Byte>) {
    exists c: char :: EncodeChar(c) <= bs
  }

  lemma TwoBytes(b0: Byte, b1: Byte)
    requires SequenceLength(b0) == 2 && Continuation(b1)
    ensures EncodeChar(DecodeOne([b0, b1]).0) == [b0, b1]
  {
  }

  lemma ThreeBytes(b0: Byte, b1: Byte, b2: Byte)
    requires SequenceLength(b0) == 3 && SecondByte(b0, b1) && Continuation(b2)
    ensures EncodeChar(DecodeOne([b0, b1, b2]).0) == [b0, b1, b2]
  {
    var q := (b0 - 0xE0) * 0x40 + (b1 - 0x80);
    var v := q * 0x40 + (b2 - 0x80);
    assert DecodeOne([b0, b1, b2]).0 as int == v;
    assert v / 0x40 == q && v % 0x40 == b2 - 0x80;
    assert q / 0x40 == b0 - 0xE0 && q % 0x40 == b1 - 0x80;
  }

  lemma FourBytes(b0: Byte, b1: Byte, b2: Byte, b3: Byte)
    requires SequenceLength(b0) == 4 && SecondByte(b0, b1) && Continuation(b2) && Continuation(b3)
    ensures EncodeChar(DecodeOne([b0, b1, b2, b3]).0) == [b0, b1, b2, b3]
  {
    var p := (b0 - 0xF0) * 0x40 + (b1 - 0x80);
    var q := p * 0x40 + (b2 - 0x80);
    var v := q * 0x40 + (b3 - 0x80);
    assert DecodeOne([b0, b1, b2, b3]).0 as int == v;
    assert v / 0x40 == q && v % 0x40 == b3 - 0x80;
    assert q / 0x40 == p && q % 0x40 == b2 - 0x80;
    assert p / 0x40 == b0 - 0xF0 && p % 0x40 == b1 - 0x80;
  }

  /** What is not an ill-formed subpart is a character's encoding. */
  lemma DecodedIsChar(bs: seq<Byte>)
    requires bs != []
    ensures var (c, n) := DecodeOne(bs);
            || EncodeChar(c) == bs[..n]
            || (c == REPLACEMENT && n < 4 && (n == 1 || BeginsChar(bs[..n])))
  {
    var n := SequenceLength(bs[0]);
    if n == 1 {
      assert bs[..1] == [bs[0]];
    } else if |bs| >= 2 && SecondByte(bs[0], bs[1]) {
      if n == 2 {
        TwoBytes(bs[0], bs[1]);
        assert bs[..2] == [bs[0], bs[1]];
      } else if n == 3 {
        var b2 := if |bs| >= 3 && Continuation(bs[2]) then bs[2] else 0x80;
        ThreeBytes(bs[0], bs[1], b2);
        assert bs[..2] == [bs[0], bs[1]] <= EncodeChar(DecodeOne([bs[0], bs[1], b2]).0);
        assert |bs| >= 3 ==> bs[..3] == [bs[0], bs[1], bs[2]];
      } else {
        var b2 := if |bs| >= 3 && Continuation(bs[2]) then bs[2] else 0x80;
        var b3 := if |bs| >= 4 && Continuation(bs[3]) then bs[3] else 0x80;
        FourBytes(bs[0], bs[1], b2, b3);
        var es := EncodeChar(DecodeOne([bs[0], bs[1], b2, b3]).0);
        assert bs[..2] == [bs[0], bs[1]] <= es;
        assert |bs| >= 3 && Continuation(bs[2]) ==> bs[..3] == [bs[0], bs[1], b2] <= es;
        assert |bs| >= 4 ==> bs[..4] == [bs[0], bs[1], bs[2], bs[3]];
      }
    }
  }

  /** Where decoding gives a subpart up, no character goes on. */
  lemma GivenUp(bs: seq<Byte>, c: char)
    requires bs != [] && DecodeOne(bs).1 < |bs| && bs[..DecodeOne(bs).1 + 1] <= EncodeChar(c)
    ensures EncodeChar(c) <= bs || EncodeChar(DecodeOne(bs).0) == bs[..DecodeOne(bs).1]
  {
    var es, k := EncodeChar(c), DecodeOne(bs).1 + 1;
    assert bs[..k] == es[..k];
    if k == |es| {
      assert es <= bs;
    } else {
      DecodeOneOfCut(c, k);
      assert bs[0] == es[0] && (k > 1 ==> bs[1] == es[1]) && (k > 2 ==> bs[2] == es[2]);
      DecodedIsChar(bs);
    }
  }

  /** Decoding, exactly as the Unicode Standard has it: a well-formed character is decoded; otherwise one U+FFFD stands
      for the maximal subpart, the longest part that begins a character, or for one byte if there is none. */
  lemma DecodeOneLaw(bs: seq<Byte>)
    requires bs != []
    ensures var (c, n) := DecodeOne(bs);
            && (HoldsChar(bs) ==> EncodeChar(c) == bs[..n])
            && (!HoldsChar(bs) ==>
                  && c == REPLACEMENT && (n == 1 || BeginsChar(bs[..n]))
                  && (n < |bs| ==> !BeginsChar(bs[..n + 1])))
  {
    hide EncodeChar, DecodeOne;
    var (c, n) := DecodeOne(bs);
    if HoldsChar(bs) {
      var d: char :| EncodeChar(d) <= bs;
      DecodeOneOfChar(d, bs[|EncodeChar(d)|..]);
      assert bs == EncodeChar(d) + bs[|EncodeChar(d)|..];
    } else {
      DecodedIsChar(bs);
      assert bs[..n] <= bs;
      if n < |bs| && BeginsChar(bs[..n + 1]) {
        var d: char :| bs[..n + 1] <= EncodeChar(d);
        GivenUp(bs, d);
      }
    }
  }

  predicate Ascii(s: string) {
    forall i | 0 <= i < |s| :: s[i] as int < 0x80
  }

  lemma {:induction false} EncodeAscii(s: string)
    requires Ascii(s)
    ensures |Encode(s)| == |s|
    ensures forall i | 0 <= i < |s| :: Encode(s)[i] == s[i] as int
  {
    if s != [] {
      EncodeAscii(s[1..]);
      assert Encode(s) == [s[0] as int] + Encode(s[1..]);
    }
  }
}

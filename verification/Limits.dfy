/** Limit kinds and the clipping of captured output (sandbox/limits.py). */
module Limits {
  import opened Utf8
  import Decimal

  datatype LimitKind = Memory | Cpu | FileSize | OutputBytes | WallClock

  function Marker(dropped: nat): string {
    "\n... [output truncated by sandbox: " + Decimal.Digits(dropped) + " bytes elided]"
  }

  /** `bs[:n]`, where a negative bound counts from the end. */
  function SliceTo(bs: seq<Byte>, n: int): seq<Byte> {
    if n > |bs| then bs else if n >= 0 then bs[..n] else if |bs| + n >= 0 then bs[..|bs| + n] else []
  }

  function TruncateOutput(text: string, maxBytes: int): (r: (string, nat)) {
    var encoded := Encode(text);
    if |encoded| <= maxBytes then (text, 0)
    else
      var dropped := |encoded| - maxBytes;
      (Decode(SliceTo(encoded, maxBytes)) + Marker(dropped), dropped)
  }

  /** How many leading characters of the text have an encoding of at most `budget` bytes together. */
  function Fit(text: string, budget: nat): (k: nat)
    ensures k <= |text|
  {
    if text == [] || |EncodeChar(text[0])| > budget then 0
    else 1 + Fit(text[1..], budget - |EncodeChar(text[0])|)
  }

  /** What clipping leaves of the text: the longest prefix that fits, and one U+FFFD if a character was cut. */
  function Clipped(text: string, budget: nat): string {
    var kept := text[..Fit(text, budget)];
    if |Encode(kept)| == budget then kept else kept + [REPLACEMENT]
  }

  lemma {:induction false} FitIsLongest(text: string, budget: nat)
    ensures |Encode(text[..Fit(text, budget)])| <= budget
    ensures forall j | Fit(text, budget) < j <= |text| :: |Encode(text[..j])| > budget
    ensures Fit(text, budget) < |text| ==> budget <= |Encode(text[..Fit(text, budget)])| + 3
  {
    if text != [] {
      var first := |EncodeChar(text[0])|;
      forall j | 0 < j <= |text| ensures |Encode(text[..j])| == first + |Encode(text[1..][..j - 1])| {
        assert text[..j][1..] == text[1..][..j - 1];
      }
      if first <= budget {
        FitIsLongest(text[1..], budget - first);
        forall j | Fit(text, budget) < j <= |text| ensures |Encode(text[..j])| > budget {
          assert |Encode(text[1..][..j - 1])| > budget - first;
        }
      }
    }
  }

  /** Cutting an encoded text anywhere inside it and decoding gives the clipped text. */
  lemma {:induction false} DecodeCut(text: string, budget: nat)
    requires budget < |Encode(text)|
    ensures Decode(Encode(text)[..budget]) == Clipped(text, budget)
  {
    var es, tail := EncodeChar(text[0]), Encode(text[1..]);
    if |es| <= budget {
      DecodeCut(text[1..], budget - |es|);
      assert Encode(text)[..budget] == es + tail[..budget - |es|];
      DecodeChar(text[0], tail[..budget - |es|]);
      var kept := text[..Fit(text, budget)];
      assert kept[1..] == text[1..][..Fit(text[1..], budget - |es|)];
      assert kept == [text[0]] + kept[1..];
    } else if budget > 0 {
      DecodeOneOfCut(text[0], budget);
      assert Encode(text)[..budget] == es[..budget];
    }
  }

  /** The law of truncation: text that fits is untouched; otherwise the clipped text is the longest prefix that
      fits plus at most one U+FFFD, at most three bytes of budget are wasted, and it takes at most two too many. */
  lemma TruncationLaw(text: string, maxBytes: nat)
    ensures |Encode(text)| <= maxBytes ==> TruncateOutput(text, maxBytes) == (text, 0)
    ensures |Encode(text)| > maxBytes ==>
              var dropped := |Encode(text)| - maxBytes;
              && TruncateOutput(text, maxBytes) == (Clipped(text, maxBytes) + Marker(dropped), dropped)
              && maxBytes <= |Encode(text[..Fit(text, maxBytes)])| + 3
              && |Encode(Clipped(text, maxBytes))| <= maxBytes + 2
  {
    if |Encode(text)| > maxBytes {
      DecodeCut(text, maxBytes);
      FitIsLongest(text, maxBytes);
      var kept := text[..Fit(text, maxBytes)];
      assert Fit(text, maxBytes) == |text| ==> kept == text;
      EncodeConcat(kept, [REPLACEMENT]);
      assert |Encode([REPLACEMENT])| == 3;
    }
  }

  /** Where the cut falls, told from single bytes of the encoded text: on a character boundary if the first byte that
      goes is no continuation byte, after three bytes of a four-byte character if the third last byte that stays opens
      one, and else after one byte of a character if the last byte that stays is no continuation byte. */
  lemma {:induction false} CutBytes(text: string, budget: nat)
    requires budget < |Encode(text)|
    ensures var k := |Encode(text[..Fit(text, budget)])|;
            && (k == budget <==> !Continuation(Encode(text)[budget]))
            && (k + 3 == budget <==> budget >= 3 && Encode(text)[budget - 3] >= 0xF0)
            && (k + 1 == budget <==>
                  budget >= 1 && Continuation(Encode(text)[budget]) && !Continuation(Encode(text)[budget - 1]))
  {
    hide Fit, EncodeChar;
    var es, tail := EncodeChar(text[0]), Encode(text[1..]);
    FitCons(text, budget);
    CharBytes(text[0]);
    if |es| <= budget {
      CutBytes(text[1..], budget - |es|);
      FitIsLongest(text[1..], budget - |es|);
      assert Encode(text)[budget] == tail[budget - |es|];
      assert budget >= 3 ==>
          Encode(text)[budget - 3] == if budget - 3 < |es| then es[budget - 3] else tail[budget - |es| - 3];
      assert budget >= 1 ==>
          Encode(text)[budget - 1] == if budget - 1 < |es| then es[budget - 1] else tail[budget - |es| - 1];
    } else {
      assert Encode(text)[budget] == es[budget];
      assert budget >= 3 ==> Encode(text)[budget - 3] == es[budget - 3];
      assert budget >= 1 ==> Encode(text)[budget - 1] == es[budget - 1];
    }
  }

  lemma FitCons(text: string, budget: nat)
    requires text != []
    ensures var n := |EncodeChar(text[0])|;
            |Encode(text[..Fit(text, budget)])| ==
            if n <= budget then n + |Encode(text[1..][..Fit(text[1..], budget - n)])| else 0
  {
    hide EncodeChar;
    var k := Fit(text, budget);
    if k > 0 {
      assert text[..k][1..] == text[1..][..k - 1];
    }
  }

  lemma CharBytes(c: char)
    ensures var es := EncodeChar(c);
            && !Continuation(es[0])
            && (forall i | 0 < i < |es| :: Continuation(es[i]))
            && (es[0] >= 0xF0 <==> |es| == 4)
  {
  }

  /** The budget is kept, exactly: clipped text takes at most `maxBytes` bytes if and only if the cut falls on a
      character boundary or after three bytes of a four-byte character. It takes two bytes too many exactly if the cut
      falls after the first byte of a character, and one too many in the cases that are left. */
  lemma BudgetIsKept(text: string, maxBytes: nat)
    requires |Encode(text)| > maxBytes
    ensures var bytes, size := Encode(text), |Encode(Clipped(text, maxBytes))|;
            && (size <= maxBytes <==>
                  !Continuation(bytes[maxBytes]) || (maxBytes >= 3 && bytes[maxBytes - 3] >= 0xF0))
            && size <= maxBytes + 2
            && (size == maxBytes + 2 <==>
                  maxBytes >= 1 && Continuation(bytes[maxBytes]) && !Continuation(bytes[maxBytes - 1]))
  {
    hide Fit, EncodeChar, Continuation;
    CutBytes(text, maxBytes);
    FitIsLongest(text, maxBytes);
    var kept := text[..Fit(text, maxBytes)];
    assert Fit(text, maxBytes) == |text| ==> kept == text;
    EncodeConcat(kept, [REPLACEMENT]);
    ReplacementSize();
  }

  lemma ReplacementSize()
    ensures |Encode([REPLACEMENT])| == 3
  {
    assert Encode([REPLACEMENT]) == EncodeChar(REPLACEMENT) + Encode([REPLACEMENT][1..]);
  }

  /** A negative budget is taken for a slice bound that counts from the end: text that long loses its last bytes, and
      all of it if it has no more; the number that is told is the size plus the amount the budget is below zero. */
  lemma NegativeBudget(text: string, below: nat)
    requires below > 0
    ensures var size := |Encode(text)|;
            var kept := if below < size then Clipped(text, size - below) else "";
            TruncateOutput(text, 0 - below) == (kept + Marker(size + below), size + below)
  {
    hide EncodeChar, Clipped, Marker;
    if below < |Encode(text)| {
      DecodeCut(text, |Encode(text)| - below);
    }
  }

  /** The two extra bytes are reached at every positive budget. */
  lemma OvershootReached(maxBytes: nat) returns (text: string)
    requires maxBytes > 0
    ensures |Encode(text)| > maxBytes
    ensures |Encode(Clipped(text, maxBytes))| == maxBytes + 2
  {
    var run := seq(maxBytes - 1, _ => 'a');
    text := run + ['\U{E9}'];
    EncodeAscii(run);
    EncodeConcat(run, ['\U{E9}']);
    assert |Encode(['\U{E9}'])| == 2;
    FitIsLongest(text, maxBytes);
    var k := Fit(text, maxBytes);
    assert text[..|text|] == text;
    assert text[..|run|] == run && |Encode(text[..|run|])| <= maxBytes;
    assert text[..k] == run;
    EncodeConcat(run, [REPLACEMENT]);
    assert |Encode([REPLACEMENT])| == 3;
  }
}

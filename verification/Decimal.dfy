/** Decimal integers as they are printed by f-strings and read back by `int()`. */
module Decimal {
  import opened Wrappers

  function DigitChar(d: nat): char
    requires d < 10
  {
    ('0' as int + d) as char
  }

  predicate IsDigit(c: char) {
    '0' <= c <= '9'
  }

  function Digits(n: nat): (s: string)
    ensures |s| >= 1 && forall i | 0 <= i < |s| :: IsDigit(s[i])
  {
    if n < 10 then [DigitChar(n)] else Digits(n / 10) + [DigitChar(n % 10)]
  }

  function IntText(n: int): (s: string) {
    if n < 0 then "-" + Digits(-n) else Digits(n)
  }

  predicate IsIntSpace(c: char) {
    c == ' ' || '\t' <= c <= '\r'
  }

  function Strip(s: string, space: char -> bool): (t: string)
    decreases |s|
  {
    if s == [] then s
    else if space(s[0]) then Strip(s[1..], space)
    else if space(s[|s| - 1]) then Strip(s[..|s| - 1], space)
    else s
  }

  /** Digits with single underscores allowed between them. */
  function ParseNat(s: string): (r: Option<nat>)
    decreases |s|
  {
    if s == [] || !IsDigit(s[|s| - 1]) then None
    else
      var d, front := s[|s| - 1] as int - '0' as int, s[..|s| - 1];
      if front == [] then Some(d)
      else
        match ParseNat(if front[|front| - 1] == '_' then front[..|front| - 1] else front)
        case None => None
        case Some(n) => Some(10 * n + d)
  }

  /** `int(s)`, with None for ValueError. */
  function ParseInt(s: string): (r: Option<int>) {
    var t := Strip(s, IsIntSpace);
    if t == [] then None
    else if t[0] == '-' then match ParseNat(t[1..]) case None => None case Some(n) => var m: int := n; Some(-m)
    else if t[0] == '+' then match ParseNat(t[1..]) case None => None case Some(n) => Some(n)
    else match ParseNat(t) case None => None case Some(n) => Some(n)
  }

  lemma {:induction false} ParseNatOfDigits(n: nat)
    ensures ParseNat(Digits(n)) == Some(n)
  {
    if n >= 10 {
      ParseNatOfDigits(n / 10);
      var s := Digits(n);
      assert s[..|s| - 1] == Digits(n / 10);
      assert s[|s| - 1] == DigitChar(n % 10);
    }
  }

  lemma ParseIntOfText(n: int)
    ensures ParseInt(IntText(n)) == Some(n)
  {
    var m: nat := if n < 0 then -n else n;
    ParseNatOfDigits(m);
    assert n < 0 ==> IntText(n)[1..] == Digits(m);
  }

  /** Printed integers are canonical: a minus sign only for negative ones, no plus sign, no leading zeros. */
  lemma {:induction false} DigitsAreCanonical(n: nat)
    ensures |Digits(n)| > 1 ==> Digits(n)[0] != '0'
    ensures Digits(n)[0] == '0' <==> n == 0
  {
    if n >= 10 {
      DigitsAreCanonical(n / 10);
    }
  }

  lemma IntTextIsCanonical(n: int)
    ensures var s := IntText(n);
            var digits := if n < 0 then s[1..] else s;
            && (n < 0 <==> s[0] == '-')
            && digits != "" && (forall i | 0 <= i < |digits| :: '0' <= digits[i] <= '9')
            && (|digits| > 1 ==> digits[0] != '0')
  {
    DigitsAreCanonical(if n < 0 then -n else n);
  }

  /** A numeral: digits, with single underscores between them. */
  predicate Numeral(s: string) {
    && s != "" && '0' <= s[0] <= '9' && '0' <= s[|s| - 1] <= '9'
    && (forall i | 0 <= i < |s| :: '0' <= s[i] <= '9' || s[i] == '_')
    && (forall i | 0 <= i < |s| - 1 :: s[i] == '_' ==> s[i + 1] != '_')
  }

  /** Exactly the numerals are read. */
  lemma {:induction false} ParseNatReadsNumerals(s: string)
    ensures ParseNat(s).Some? <==> Numeral(s)
    decreases |s|
  {
    if s != "" && IsDigit(s[|s| - 1]) {
      var front := s[..|s| - 1];
      if front != "" {
        var next := if front[|front| - 1] == '_' then front[..|front| - 1] else front;
        ParseNatReadsNumerals(next);
        assert forall i | 0 <= i < |next| :: next[i] == s[i];
        if Numeral(s) {
          var k := |front| - 2;
          if front[k + 1] == '_' {
            assert k >= 0 && s[k + 1] == '_';
            assert s[k] != '_';
          }
          assert next != "" && next[|next| - 1] == s[|next| - 1];
        }
        if Numeral(next) {
          assert forall i | 0 <= i < |s| :: i < |next| || i == |s| - 1 || (i == |next| && s[i] == '_');
        }
      }
    }
  }

  /** Underscores between digits do not count, and neither does a plus sign. */
  lemma UnderscoreAndPlus(s: string, d: char, n: nat)
    requires IsDigit(d)
    ensures s != "" && s[|s| - 1] != '_' ==> ParseNat(s + "_" + [d]) == ParseNat(s + [d])
    ensures ParseInt("+" + Digits(n)) == Some(n)
  {
    if s != "" && s[|s| - 1] != '_' {
      UnderscoreIsSkipped(s, d);
    }
    PlusIsSkipped(n);
  }

  /** Reading digit by digit from the back. */
  lemma ParseNatLast(s: string, front: string)
    requires |s| > 1 && IsDigit(s[|s| - 1]) && front == s[..|s| - 1]
    ensures var rest := ParseNat(if front[|front| - 1] == '_' then front[..|front| - 1] else front);
            && (ParseNat(s).Some? <==> rest.Some?)
            && (rest.Some? ==> ParseNat(s) == Some(10 * rest.value + (s[|s| - 1] as int - '0' as int)))
  {
  }

  lemma UnderscoreIsSkipped(s: string, d: char)
    requires IsDigit(d) && s != "" && s[|s| - 1] != '_'
    ensures ParseNat(s + "_" + [d]) == ParseNat(s + [d])
  {
    hide ParseNat, IsDigit;
    var a, b := s + "_" + [d], s + [d];
    assert a[..|a| - 1] == s + "_" && b[..|b| - 1] == s;
    ParseNatLast(a, s + "_");
    ParseNatLast(b, s);
    assert (s + "_")[..|s|] == s;
  }

  lemma PlusIsSkipped(n: nat)
    ensures ParseInt("+" + Digits(n)) == Some(n)
  {
    hide ParseNat, Digits;
    var t := "+" + Digits(n);
    ParseNatOfDigits(n);
    assert t[1..] == Digits(n);
    StripNone(t, IsIntSpace);
  }

  lemma StripNone(s: string, space: char -> bool)
    requires s != "" && !space(s[0]) && !space(s[|s| - 1])
    ensures Strip(s, space) == s
  {
  }

  lemma {:induction false} StripKeeps(s: string, space: char -> bool, i: nat)
    requires i < |s| && !space(s[i])
    ensures s[i] in Strip(s, space)
    decreases |s|
  {
    if space(s[0]) {
      assert s[1..][i - 1] == s[i];
      StripKeeps(s[1..], space, i - 1);
    } else if space(s[|s| - 1]) {
      assert s[..|s| - 1][i] == s[i];
      StripKeeps(s[..|s| - 1], space, i);
    }
  }

  /** Anything that holds a character other than digits, underscores, signs and spaces is no integer. */
  lemma StrangeIsNoInt(s: string, i: nat)
    requires i < |s| && !IsIntSpace(s[i]) && !IsDigit(s[i]) && s[i] !in {'_', '+', '-'}
    ensures ParseInt(s) == None
  {
    StripKeeps(s, IsIntSpace, i);
    var t := Strip(s, IsIntSpace);
    ParseNatReadsNumerals(t);
    if t != [] {
      ParseNatReadsNumerals(t[1..]);
      var j :| 0 <= j < |t| && t[j] == s[i];
      assert j > 0 ==> t[1..][j - 1] == s[i];
    }
  }
}

/** `str.count` and `str.replace`: greedy, left to right, never overlapping. */
module TextSearch {
  import opened Wrappers

  predicate MatchAt(text: string, pattern: string, i: int) {
    0 <= i && i + |pattern| <= |text| && text[i..i + |pattern|] == pattern
  }

  lemma MatchShift(text: string, pattern: string, start: nat, j: int)
    requires start <= j && start <= |text|
    ensures MatchAt(text, pattern, j) <==> MatchAt(text[start..], pattern, j - start)
  {
    if j + |pattern| <= |text| {
      assert text[j..j + |pattern|] == text[start..][j - start..j - start + |pattern|];
    }
  }

  /** The leftmost match. */
  function Find(text: string, pattern: string): (r: Option<nat>) {
    if pattern <= text then Some(0)
    else if text == "" then None
    else
      var r := Find(text[1..], pattern);
      if r.None? then None else Some(r.value + 1)
  }

  lemma {:induction false} FindIsLeftmost(text: string, pattern: string)
    ensures var r := Find(text, pattern);
            && (r.Some? ==>
                  MatchAt(text, pattern, r.value) && forall j | 0 <= j < r.value :: !MatchAt(text, pattern, j))
            && (r.None? ==> forall j | 0 <= j :: !MatchAt(text, pattern, j))
  {
    hide MatchAt;
    MatchStart(text, pattern);
    if !(pattern <= text) {
      if text == "" {
        NoMatchInNothing(pattern);
      } else {
        FindIsLeftmost(text[1..], pattern);
        forall j | 0 < j ensures MatchAt(text, pattern, j) <==> MatchAt(text[1..], pattern, j - 1) {
          MatchShift(text, pattern, 1, j);
        }
      }
    }
  }

  lemma MatchStart(text: string, pattern: string)
    ensures MatchAt(text, pattern, 0) <==> pattern <= text
  {
  }

  lemma NoMatchInNothing(pattern: string)
    requires pattern != ""
    ensures forall j :: !MatchAt("", pattern, j)
  {
  }

  function Count(text: string, pattern: string): nat {
    if pattern == "" then |text| + 1
    else
      FindIsLeftmost(text, pattern);
      var r := Find(text, pattern);
      if r.None? then 0 else 1 + Count(text[r.value + |pattern|..], pattern)
  }

  function ReplaceAll(text: string, pattern: string, newStr: string): string {
    if pattern == "" then (if text == "" then newStr else newStr + [text[0]] + ReplaceAll(text[1..], pattern, newStr))
    else
      FindIsLeftmost(text, pattern);
      var r := Find(text, pattern);
      if r.None? then text
      else text[..r.value] + newStr + ReplaceAll(text[r.value + |pattern|..], pattern, newStr)
  }

  /** Places where the pattern occurs, from left to right, none overlapping the one before it. */
  predicate Disjoint(text: string, pattern: string, places: seq<nat>) {
    && (forall i | 0 <= i < |places| :: MatchAt(text, pattern, places[i]))
    && (forall i, j | 0 <= i < j < |places| :: places[i] + |pattern| <= places[j])
  }

  function Shift(places: seq<nat>, n: nat): (r: seq<nat>)
    ensures |r| == |places| && forall i | 0 <= i < |places| :: r[i] == places[i] + n
  {
    if places == [] then [] else [places[0] + n] + Shift(places[1..], n)
  }

  function ShiftBack(places: seq<nat>, n: nat): (r: seq<nat>)
    requires forall i | 0 <= i < |places| :: places[i] >= n
    ensures |r| == |places| && forall i | 0 <= i < |places| :: r[i] == places[i] - n
  {
    if places == [] then [] else [places[0] - n] + ShiftBack(places[1..], n)
  }

  /** The count is reached by disjoint matches. */
  lemma {:induction false} CountIsReached(text: string, pattern: string) returns (places: seq<nat>)
    requires pattern != ""
    ensures Disjoint(text, pattern, places) && |places| == Count(text, pattern)
    decreases |text|
  {
    hide MatchAt;
    FindIsLeftmost(text, pattern);
    var r := Find(text, pattern);
    if r.None? {
      places := [];
    } else {
      MatchFits(text, pattern, r.value);
      var start := r.value + |pattern|;
      var more := CountIsReached(text[start..], pattern);
      places := [r.value] + Shift(more, start);
      forall i | 0 < i < |places| ensures MatchAt(text, pattern, places[i]) {
        MatchShift(text, pattern, start, places[i]);
      }
    }
  }

  lemma MatchFits(text: string, pattern: string, i: int)
    ensures MatchAt(text, pattern, i) ==> 0 <= i && i + |pattern| <= |text|
  {
  }

  /** No disjoint matches are more than the count: greedily from the left one finds as many as there can be. */
  lemma {:induction false} CountIsMost(text: string, pattern: string, places: seq<nat>)
    requires pattern != "" && Disjoint(text, pattern, places)
    ensures |places| <= Count(text, pattern)
    decreases |text|
  {
    hide MatchAt;
    FindIsLeftmost(text, pattern);
    var r := Find(text, pattern);
    if places != [] {
      assert MatchAt(text, pattern, places[0]);
      MatchFits(text, pattern, r.value);
      var start := r.value + |pattern|;
      var more := ShiftBack(places[1..], start);
      forall i | 0 <= i < |more| ensures MatchAt(text[start..], pattern, more[i]) {
        MatchShift(text, pattern, start, places[i + 1]);
      }
      CountIsMost(text[start..], pattern, more);
    }
  }

  /** The match at i is the leftmost one, and there is none in the text that follows it. Matches that overlap it
      from the right do not matter. */
  predicate UniqueAt(text: string, pattern: string, i: nat) {
    && MatchAt(text, pattern, i)
    && (forall j | 0 <= j < i :: !MatchAt(text, pattern, j))
    && (forall j | i + |pattern| <= j < |text| :: !MatchAt(text, pattern, j))
  }

  function Spliced(text: string, i: nat, n: nat, newStr: string): string
    requires i + n <= |text|
  {
    text[..i] + newStr + text[i + n..]
  }

  lemma UniqueByFind(text: string, pattern: string, i: nat)
    requires pattern != ""
    ensures UniqueAt(text, pattern, i) <==>
            Find(text, pattern) == Some(i) && i + |pattern| <= |text| && Find(text[i + |pattern|..], pattern).None?
  {
    hide Find, MatchAt;
    FindIsLeftmost(text, pattern);
    MatchFits(text, pattern, i);
    if i + |pattern| <= |text| {
      var start := i + |pattern|;
      FindIsLeftmost(text[start..], pattern);
      forall j | start <= j
        ensures MatchAt(text, pattern, j) <==> MatchAt(text[start..], pattern, j - start)
        ensures MatchAt(text, pattern, j) ==> j < |text|
      {
        MatchShift(text, pattern, start, j);
        MatchFits(text, pattern, j);
      }
      var r := Find(text[start..], pattern);
      if r.Some? {
        assert MatchAt(text[start..], pattern, start + r.value - start);
        assert MatchAt(text, pattern, start + r.value);
      } else {
        forall j | start <= j ensures !MatchAt(text, pattern, j) {
          assert !MatchAt(text[start..], pattern, j - start);
        }
      }
    }
  }

  /** The count is one exactly when there is a unique place for the replacement, and then that place alone changes. */
  lemma CountOne(text: string, pattern: string, newStr: string)
    requires pattern != ""
    ensures Count(text, pattern) == 1 <==> exists i: nat :: UniqueAt(text, pattern, i)
    ensures forall i: nat | UniqueAt(text, pattern, i) ::
              ReplaceAll(text, pattern, newStr) == Spliced(text, i, |pattern|, newStr)
  {
    hide UniqueAt;
    FindIsLeftmost(text, pattern);
    var r := Find(text, pattern);
    if r.Some? {
      UniqueByFind(text, pattern, r.value);
    }
    forall i: nat | UniqueAt(text, pattern, i)
      ensures r == Some(i) && Count(text, pattern) == 1
      ensures i + |pattern| <= |text| && ReplaceAll(text, pattern, newStr) == Spliced(text, i, |pattern|, newStr)
    {
      UniqueByFind(text, pattern, i);
    }
  }

  /** Replacing back with the strings swapped succeeds and restores the text exactly when the new string is unique
      at the place of the edit. */
  lemma SwapBack(text: string, pattern: string, newStr: string, i: nat)
    requires pattern != "" && newStr != "" && UniqueAt(text, pattern, i)
    ensures var edited := Spliced(text, i, |pattern|, newStr);
            Count(edited, newStr) == 1 && ReplaceAll(edited, newStr, pattern) == text <==> UniqueAt(edited, newStr, i)
  {
    hide Count, ReplaceAll;
    var edited := Spliced(text, i, |pattern|, newStr);
    CountOne(edited, newStr, pattern);
    assert edited[i..i + |newStr|] == newStr;
    assert Spliced(edited, i, |newStr|, pattern) == text;
    if Count(edited, newStr) == 1 && ReplaceAll(edited, newStr, pattern) == text {
      var k: nat :| UniqueAt(edited, newStr, k);
      assert Spliced(edited, k, |newStr|, pattern)[k..k + |pattern|] == pattern;
      assert MatchAt(text, pattern, k) && MatchAt(edited, newStr, i);
    }
  }

  /** The empty string is found once only in the empty text. */
  lemma CountOfNothing(text: string, newStr: string)
    ensures Count(text, "") == 1 <==> text == ""
    ensures Count(text, "") == |text| + 1
    ensures ReplaceAll("", "", newStr) == newStr
    ensures text != "" ==> ReplaceAll(text, "", newStr) == newStr + [text[0]] + ReplaceAll(text[1..], "", newStr)
  {
  }
}

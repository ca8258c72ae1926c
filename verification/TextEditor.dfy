/** The text editor of one session and its undo history (sandbox/text_editor.py). Paths are resolved already. */
module TextEditor {
  import opened Utf8
  import opened Lines
  import opened Wrappers
  import opened TextLines
  import opened TextSearch
  import Decimal

  datatype Command =
    | View(path: string, viewRange: Option<(int, int)>)
    | Create(path: string, fileText: Option<string>)
    | StrReplace(path: string, oldStr: Option<string>, newStr: Option<string>)
    | Insert(path: string, insertLine: Option<int>, newStr: Option<string>)
    | UndoEdit(path: string)

  datatype Problem =
    | MissingArgument
    | FileNotFound
    | AlreadyExists
    | NotUtf8
    | NoMatch
    | Ambiguous(n: nat)
    | OutOfRange
    | NothingToUndo

  datatype Reply = Done(stdout: string) | Refused(problem: Problem)

  /** Bytes on disk, and for each path the texts to go back to, the latest last. */
  datatype State = State(files: map<string, seq<Byte>>, undo: map<string, seq<string>>)

  //
  // What each command computes
  //

  /** Reading in text mode, malformed bytes replaced. */
  function ReadText(bs: seq<Byte>): string {
    Normalize(Decode(bs))
  }

  function History(s: State, path: string): seq<string> {
    if path in s.undo then s.undo[path] else []
  }

  function Payload(newStr: string): string {
    if newStr != [] && newStr[|newStr| - 1] == '\n' then newStr else newStr + "\n"
  }

  function InsertAt(text: string, k: nat, payload: string): string
    requires k <= |SplitLines(text)|
  {
    var lines := SplitLines(text);
    Join(lines[..k] + [payload] + lines[k..])
  }

  function JoinLines(lines: seq<string>): string {
    if lines == [] then "" else if |lines| == 1 then lines[0] else lines[0] + "\n" + JoinLines(lines[1..])
  }

  /** `lines[start:end]`; a negative end counts from the back. */
  function Slice(lines: seq<string>, start: nat, end: int): seq<string> {
    var stop := if end < 0 then |lines| + end else end;
    var stop' := if stop > |lines| then |lines| else stop;
    if start >= stop' then [] else lines[start..stop']
  }

  function ViewText(text: string, viewRange: Option<(int, int)>): string {
    if viewRange.None? then text
    else
      var lines := WithoutBreaks(SplitLines(text));
      var (first, last) := viewRange.value;
      var end := if last == -1 then |lines| else last;
      var start := if first < 1 then 1 else first;
      JoinLines(Slice(lines, start - 1, if end > |lines| then |lines| else end))
  }

  /** The new text of an edit of `text`, or why it is refused. */
  function Edited(text: string, c: Command): (string, Option<Problem>)
    requires Complete(c) && (c.StrReplace? || c.Insert?)
  {
    if c.StrReplace? then
      var n := Count(text, c.oldStr.value);
      if n == 0 then (text, Some(NoMatch))
      else if n > 1 then (text, Some(Ambiguous(n)))
      else (ReplaceAll(text, c.oldStr.value, c.newStr.value), None)
    else if c.insertLine.value < 0 || c.insertLine.value > |SplitLines(text)| then (text, Some(OutOfRange))
    else (InsertAt(text, c.insertLine.value, Payload(c.newStr.value)), None)
  }

  predicate Complete(c: Command) {
    match c
    case StrReplace(_, o, n) => o.Some? && n.Some?
    case Insert(_, l, n) => l.Some? && n.Some?
    case Create(_, t) => t.Some?
    case _ => true
  }

  function Message(c: Command): string {
    match c
    case Create(path, _) => "File created: " + path + "\n"
    case StrReplace(path, _, _) => "Edited " + path + "\n"
    case Insert(path, _, _) => "Inserted into " + path + "\n"
    case UndoEdit(path) => "Reverted " + path + "\n"
    case View(_, _) => ""
  }

  function Apply(s: State, c: Command): (State, Reply) {
    if !Complete(c) then (s, Refused(MissingArgument))
    else
      match c
      case View(path, viewRange) =>
        if path !in s.files then (s, Refused(FileNotFound))
        else (s, Done(ViewText(ReadText(s.files[path]), viewRange)))
      case Create(path, fileText) =>
        if path in s.files then (s, Refused(AlreadyExists))
        else (s.(files := s.files[path := Encode(fileText.value)]), Done(Message(c)))
      case UndoEdit(path) =>
        var h := History(s, path);
        if h == [] then (s, Refused(NothingToUndo))
        else
          (State(s.files[path := Encode(h[|h| - 1])], s.undo[path := h[..|h| - 1]]), Done(Message(c)))
      case _ =>
        if c.path !in s.files then (s, Refused(FileNotFound))
        else if !WellFormed(s.files[c.path]) then (s, Refused(NotUtf8))
        else
          var text := ReadText(s.files[c.path]);
          var (newText, problem) := Edited(text, c);
          if problem.Some? then (s, Refused(problem.value))
          else
            (State(s.files[c.path := Encode(newText)], s.undo[c.path := History(s, c.path) + [text]]), Done(Message(c)))
  }

  /** The handlers, rewriting files and pushing and popping history in place. */
  class Editor {
    var files: map<string, seq<Byte>>
    var undoStack: map<string, seq<string>>

    constructor (files: map<string, seq<Byte>>)
      ensures this.files == files && undoStack == map[]
    {
      this.files, undoStack := files, map[];
    }

    function Abs(): State
      reads this
    {
      State(files, undoStack)
    }

    method HandleView(c: Command) returns (r: Reply)
      requires c.View?
      ensures (Abs(), r) == Apply(Abs(), c)
    {
      if c.path !in files {
        return Refused(FileNotFound);
      }
      var text := ReadText(files[c.path]);
      if c.viewRange.Some? {
        var (start, end) := c.viewRange.value;
        var lines := WithoutBreaks(SplitLines(text));
        if end == -1 {
          end := |lines|;
        }
        start := if start < 1 then 1 else start;
        end := if end > |lines| then |lines| else end;
        text := JoinLines(Slice(lines, start - 1, end));
      }
      return Done(text);
    }

    method HandleCreate(c: Command) returns (r: Reply)
      requires c.Create?
      modifies this
      ensures (Abs(), r) == Apply(old(Abs()), c)
    {
      if c.fileText == None {
        return Refused(MissingArgument);
      }
      if c.path in files {
        return Refused(AlreadyExists);
      }
      files := files[c.path := Encode(c.fileText.value)];
      return Done("File created: " + c.path + "\n");
    }

    method PushUndo(path: string, previous: string)
      modifies this
      ensures files == old(files)
      ensures undoStack == old(undoStack)[path := History(old(Abs()), path) + [previous]]
    {
      if path !in undoStack {
        undoStack := undoStack[path := []];
      }
      undoStack := undoStack[path := undoStack[path] + [previous]];
    }

    method HandleStrReplace(c: Command) returns (r: Reply)
      requires c.StrReplace?
      modifies this
      ensures (Abs(), r) == Apply(old(Abs()), c)
    {
      if c.oldStr == None || c.newStr == None {
        return Refused(MissingArgument);
      }
      if c.path !in files {
        return Refused(FileNotFound);
      }
      if !WellFormed(files[c.path]) {
        return Refused(NotUtf8);
      }
      var text := ReadText(files[c.path]);
      var occurrences := Count(text, c.oldStr.value);
      if occurrences == 0 {
        return Refused(NoMatch);
      }
      if occurrences > 1 {
        return Refused(Ambiguous(occurrences));
      }
      PushUndo(c.path, text);
      files := files[c.path := Encode(ReplaceAll(text, c.oldStr.value, c.newStr.value))];
      return Done("Edited " + c.path + "\n");
    }

    method HandleInsert(c: Command) returns (r: Reply)
      requires c.Insert?
      modifies this
      ensures (Abs(), r) == Apply(old(Abs()), c)
    {
      if c.newStr == None || c.insertLine == None {
        return Refused(MissingArgument);
      }
      if c.path !in files {
        return Refused(FileNotFound);
      }
      if !WellFormed(files[c.path]) {
        return Refused(NotUtf8);
      }
      var text := ReadText(files[c.path]);
      var lines := SplitLines(text);
      if c.insertLine.value < 0 || c.insertLine.value > |lines| {
        return Refused(OutOfRange);
      }
      PushUndo(c.path, text);
      var payload := if c.newStr.value != [] && c.newStr.value[|c.newStr.value| - 1] == '\n' then c.newStr.value
                     else c.newStr.value + "\n";
      lines := lines[..c.insertLine.value] + [payload] + lines[c.insertLine.value..];
      files := files[c.path := Encode(Join(lines))];
      return Done("Inserted into " + c.path + "\n");
    }

    method HandleUndo(c: Command) returns (r: Reply)
      requires c.UndoEdit?
      modifies this
      ensures (Abs(), r) == Apply(old(Abs()), c)
    {
      if c.path !in undoStack || undoStack[c.path] == [] {
        return Refused(NothingToUndo);
      }
      var history := undoStack[c.path];
      var previous := history[|history| - 1];
      undoStack := undoStack[c.path := history[..|history| - 1]];
      files := files[c.path := Encode(previous)];
      return Done("Reverted " + c.path + "\n");
    }

    method RunTextEditor(c: Command) returns (r: Reply)
      modifies this
      ensures (Abs(), r) == Apply(old(Abs()), c)
    {
      match c {
        case View(_, _) => r := HandleView(c);
        case Create(_, _) => r := HandleCreate(c);
        case StrReplace(_, _, _) => r := HandleStrReplace(c);
        case Insert(_, _, _) => r := HandleInsert(c);
        case UndoEdit(_) => r := HandleUndo(c);
      }
    }
  }

  //
  // Replies
  //

  /** When a command succeeds, and else which problem is named: the first that applies, in this order. */
  lemma Refusals(s: State, c: Command)
    ensures var r, exists_ := Apply(s, c).1, c.path in s.files;
            var readable := exists_ && WellFormed(s.files[c.path]);
            && (r == Refused(MissingArgument) <==>
                  || (c.Create? && c.fileText.None?)
                  || (c.StrReplace? && (c.oldStr.None? || c.newStr.None?))
                  || (c.Insert? && (c.insertLine.None? || c.newStr.None?)))
            && (r == Refused(FileNotFound) <==> Complete(c) && !exists_ && (c.View? || c.StrReplace? || c.Insert?))
            && (r == Refused(AlreadyExists) <==> Complete(c) && exists_ && c.Create?)
            && (r == Refused(NotUtf8) <==> Complete(c) && exists_ && !readable && (c.StrReplace? || c.Insert?))
            && (r == Refused(NoMatch) <==>
                  Complete(c) && readable && c.StrReplace? && Count(ReadText(s.files[c.path]), c.oldStr.value) == 0)
            && (r.Refused? && r.problem.Ambiguous? <==>
                  Complete(c) && readable && c.StrReplace? && Count(ReadText(s.files[c.path]), c.oldStr.value) > 1)
            && (r.Refused? && r.problem.Ambiguous? ==>
                  r.problem.n == Count(ReadText(s.files[c.path]), c.oldStr.value))
            && (r == Refused(OutOfRange) <==>
                  && Complete(c) && readable && c.Insert?
                  && !(0 <= c.insertLine.value <= |SplitLines(ReadText(s.files[c.path]))|))
            && (r == Refused(NothingToUndo) <==> c.UndoEdit? && (c.path !in s.undo || s.undo[c.path] == []))
            && (r.Refused? ==> Apply(s, c).0 == s)
  {
    hide Encode, Decode, Normalize, SplitLines, Count, ReplaceAll, ViewText, InsertAt, WellFormed;
  }

  /** A successful command says so, in these words. */
  lemma Successes(s: State, c: Command)
    ensures var r := Apply(s, c).1;
            r.Done? ==>
              match c
              case View(path, viewRange) => path in s.files && r.stdout == ViewText(ReadText(s.files[path]), viewRange)
              case Create(path, _) => r.stdout == "File created: " + path + "\n"
              case StrReplace(path, _, _) => r.stdout == "Edited " + path + "\n"
              case Insert(path, _, _) => r.stdout == "Inserted into " + path + "\n"
              case UndoEdit(path) => r.stdout == "Reverted " + path + "\n"
  {
    hide Encode, Decode, Normalize, SplitLines, Count, ReplaceAll, ViewText, InsertAt, WellFormed;
  }

  /** Viewing a whole file shows its text, malformed bytes replaced and CR LF and CR read as LF, and changes nothing. */
  lemma ViewShowsFile(s: State, path: string)
    requires path in s.files
    ensures Apply(s, View(path, None)) == (s, Done(Normalize(Decode(s.files[path]))))
  {
    hide Decode, Normalize;
  }

  /** Which lines a view shows, as the part from `start` up to `stop` of them, counted from 0: a first line below 1 is
      line 1; a last line past the end is the end; -1 is the last line, and below that as many lines are left out at the
      end as the number says. */
  function Shown(n: nat, first: int, last: int): (r: (nat, nat))
    ensures r.0 <= r.1 <= n
  {
    var start := if first < 1 then 0 else first - 1;
    var stop := if last == -1 || last > n then n else if last >= 0 then last else n + last;
    if start < stop then (start, stop) else (0, 0)
  }

  /** Viewing a range shows those lines, without their breaks, separated by LF, and changes nothing. */
  lemma ViewShowsRange(s: State, path: string, first: int, last: int)
    requires path in s.files
    ensures var lines := WithoutBreaks(SplitLines(Normalize(Decode(s.files[path]))));
            var (start, stop) := Shown(|lines|, first, last);
            Apply(s, View(path, Some((first, last)))) == (s, Done(JoinLines(lines[start..stop])))
  {
    hide Decode, Normalize, SplitLines, WithoutBreaks;
    var lines := WithoutBreaks(SplitLines(Normalize(Decode(s.files[path]))));
    var (start, stop) := Shown(|lines|, first, last);
    if start == stop {
      assert lines[start..stop] == [];
    }
  }

  //
  // Insertion
  //

  lemma {:induction false} JoinAtLineEnd(lines: seq<string>)
    requires forall i | 0 <= i < |lines| :: lines[i] != []
    ensures lines != [] ==> Join(lines) != [] && (AtLineEnd(Join(lines)) <==> AtLineEnd(lines[|lines| - 1]))
    ensures lines == [] ==> Join(lines) == []
  {
    if lines != [] {
      JoinAtLineEnd(lines[1..]);
    }
  }

  /** The text read back after an insertion. */
  lemma InsertedText(text: string, k: nat, newStr: string)
    requires NoCr(text) && k <= |SplitLines(text)|
    ensures var lines, payload := SplitLines(text), Payload(newStr);
            && text == Join(lines[..k]) + Join(lines[k..])
            && NoCr(Join(lines[..k])) && NoCr(Join(lines[k..]))
            && Normalize(InsertAt(text, k, payload)) == Join(lines[..k]) + Normalize(payload) + Join(lines[k..])
            && Normalize(payload) != [] && AtLineEnd(Normalize(payload)) && NoCr(Normalize(payload))
  {
    hide SplitLines, IsBreak;
    var lines, payload := SplitLines(text), Payload(newStr);
    SplitTake(text, k);
    var before, after := Join(lines[..k]), Join(lines[k..]);
    assert NoCr(before) by { assert forall i | 0 <= i < |before| :: before[i] == text[i]; }
    assert NoCr(after) by { assert forall i | 0 <= i < |after| :: after[i] == text[|before| + i]; }
    JoinConcat(lines[..k] + [payload], lines[k..]);
    JoinConcat(lines[..k], [payload]);
    assert Join([payload]) == payload + Join([payload][1..]) == payload;
    NormalizeConcat(before + payload, after);
    NormalizeConcat(before, payload);
    NormalizeNothing(before);
    NormalizeNothing(after);
    NormalizeHasNoCr(payload);
    PayloadEnds(payload);
  }

  lemma PayloadEnds(payload: string)
    requires payload != [] && payload[|payload| - 1] == '\n'
    ensures Normalize(payload) != [] && AtLineEnd(Normalize(payload))
  {
    hide Normalize;
    var n := |payload| - 1;
    NewlinesNormalize();
    var a, b := if n > 0 && payload[n - 1] == '\r' then payload[..n - 1] else payload[..n],
                if n > 0 && payload[n - 1] == '\r' then "\r\n" else "\n";
    assert payload == a + b;
    NormalizeConcat(a, b);
  }

  lemma NewlinesNormalize()
    ensures Normalize("\r\n") == "\n" && Normalize("\n") == "\n"
  {
    NormalizeNothing("\n");
    assert "\r\n"[2..] == "";
  }

  /** Inserting after line k splices the payload's lines in between the first k lines and the rest, and viewing that
      range shows exactly them, if and only if k is 0 or line k ends with a line break. */
  lemma InsertSplices(text: string, k: nat, newStr: string)
    requires NoCr(text) && k <= |SplitLines(text)|
    ensures var lines, inserted := SplitLines(text), SplitLines(Normalize(Payload(newStr)));
            var result := Normalize(InsertAt(text, k, Payload(newStr)));
            && (SplitLines(result) == lines[..k] + inserted + lines[k..] <==> k == 0 || AtLineEnd(lines[k - 1]))
            && (k == 0 || AtLineEnd(lines[k - 1]) ==>
                  ViewText(result, Some((k + 1, k + |inserted|))) == JoinLines(WithoutBreaks(inserted)))
  {
    hide SplitLines, IsBreak, AtLineEnd, InsertAt, Normalize, Payload, ViewText, NoCr;
    var lines, payload := SplitLines(text), Normalize(Payload(newStr));
    var inserted, result := SplitLines(payload), Normalize(InsertAt(text, k, Payload(newStr)));
    InsertedText(text, k, newStr);
    SplitTake(text, k);
    AllButLastEnd(text);
    AllButLastEnd(payload);
    AllButLastEnd(result);
    JoinAtLineEnd(lines[..k]);
    JoinSplitLines(payload);
    assert inserted != [];
    if k == 0 || AtLineEnd(lines[k - 1]) {
      var before, after := Join(lines[..k]), Join(lines[k..]);
      NothingAtLineEnd();
      NoCrNoSplit(before, payload + after);
      NoCrNoSplit(payload, after);
      assert before + payload + after == before + (payload + after);
      SplitLinesConcat(before, payload + after);
      SplitLinesConcat(payload, after);
      assert SplitLines(result) == lines[..k] + inserted + lines[k..];
      ViewOfSplice(result, lines[..k], inserted, lines[k..]);
    } else {
      assert k < |SplitLines(result)| ==> AtLineEnd(SplitLines(result)[k - 1]);
    }
  }

  /** The same for text whose only line breaks are LF, in terms of LF alone. */
  lemma InsertSplicesAtLf(text: string, k: nat, newStr: string)
    requires OnlyLf(text) && OnlyLf(newStr) && k <= |Split(text, '\n')|
    ensures k <= |SplitLines(text)|
    ensures var payload := if Terminated(newStr, '\n') && newStr != "" then newStr else newStr + "\n";
            var lines, result := Split(text, '\n'), Normalize(InsertAt(text, k, Payload(newStr)));
            && result == Join(lines[..k]) + payload + Join(lines[k..])
            && (Split(result, '\n') == lines[..k] + Split(payload, '\n') + lines[k..]
                <==> k == 0 || Terminated(lines[k - 1], '\n'))
  {
    hide SplitLines, Split, Normalize, IsBreak;
    var payload := Payload(newStr);
    SplitLinesAtLf(text);
    SplitLinesAtLf(payload);
    NoCrInLf(text);
    NoCrInLf(payload);
    NormalizeNothing(payload);
    InsertedText(text, k, newStr);
    InsertSplices(text, k, newStr);
    var lines, result := Split(text, '\n'), Normalize(InsertAt(text, k, payload));
    JoinSplitLines(text);
    assert text == Join(lines[..k]) + Join(lines[k..]);
    OnlyLfConcat(Join(lines[..k]), Join(lines[k..]), payload);
    SplitLinesAtLf(result);
    if k > 0 {
      JoinedLine(lines, k - 1);
      LfEnds(text, lines[k - 1]);
    }
  }

  lemma NoCrInLf(s: string)
    requires OnlyLf(s)
    ensures NoCr(s)
  {
  }

  lemma OnlyLfConcat(a: string, b: string, c: string)
    requires OnlyLf(a + b) && OnlyLf(c)
    ensures OnlyLf(a + c + b)
  {
    assert forall i | 0 <= i < |a| :: (a + b)[i] == a[i];
    assert forall i | 0 <= i < |b| :: (a + b)[|a| + i] == b[i];
  }

  /** A line is a part of the joined text. */
  lemma {:induction false} JoinedLine(lines: seq<string>, i: nat)
    requires i < |lines|
    ensures forall c | c in lines[i] :: c in Join(lines)
  {
    if i > 0 {
      JoinedLine(lines[1..], i - 1);
    }
  }

  lemma LfEnds(text: string, line: string)
    requires OnlyLf(text) && forall c | c in line :: c in text
    ensures AtLineEnd(line) <==> Terminated(line, '\n')
  {
    if line != "" {
      var c := line[|line| - 1];
      assert c in text;
      assert c == '\n' || !IsBreak(c);
    }
  }

  /** One unterminated line is enough: inserting "b" after the only line of "a" leaves one line, and the view of line 2,
      where it should be, is empty. */
  lemma InsertGlues()
    ensures SplitLines("a") == ["a"]
    ensures var result := Normalize(InsertAt("a", 1, Payload("b")));
            SplitLines(result) == ["ab\n"] && ViewText(result, Some((2, 2))) == ""
  {
    hide SplitLines, Normalize, IsBreak, WithoutBreaks, Join;
    OneLine("a");
    OneLine("ab\n");
    assert ["a"][..1] + ["b\n"] + ["a"][1..] == ["a", "b\n"];
    JoinTwo("a", "b\n");
    assert "a" + "b\n" == "ab\n" && "b" + "\n" == "b\n";
    NormalizeNothing("ab\n");
  }

  lemma JoinTwo(a: string, b: string)
    ensures Join([a, b]) == a + b
  {
    assert Join([a, b]) == a + Join([a, b][1..]) == a + Join([b]);
    assert Join([b]) == b + Join([b][1..]) == b;
  }

  lemma OneLine(s: string)
    requires s in ["a", "ab\n"]
    ensures SplitLines(s) == [s]
  {
    hide IsBreak;
    assert !IsBreak('a') && !IsBreak('b') && IsBreak('\n') by { Letters(); }
    assert LineEnd("a"[1..]) == 0;
    assert LineEnd("ab\n"[1..][1..]) == 1;
    assert LineEnd(s) == |s|;
    assert s[..|s|] == s && s[|s|..] == [];
    SplitFirst(s);
    SplitFirst(s[|s|..]);
  }

  lemma Letters()
    ensures !IsBreak('a') && !IsBreak('b') && IsBreak('\n')
  {
  }

  lemma NothingAtLineEnd()
    ensures AtLineEnd([])
  {
  }

  lemma NoCrNoSplit(a: string, b: string)
    requires NoCr(a)
    ensures NoSplitCrLf(a, b)
  {
  }

  lemma ViewOfSplice(text: string, before: seq<string>, inserted: seq<string>, after: seq<string>)
    requires SplitLines(text) == before + inserted + after && inserted != []
    ensures ViewText(text, Some((|before| + 1, |before| + |inserted|))) == JoinLines(WithoutBreaks(inserted))
  {
    hide SplitLines, WithoutBreak, JoinLines;
    var all := before + inserted + after;
    var lines := WithoutBreaks(all);
    var shown := lines[|before|..|before| + |inserted|];
    assert forall i | 0 <= i < |inserted| :: all[|before| + i] == inserted[i];
    assert shown == WithoutBreaks(inserted);
    assert Slice(lines, |before|, |before| + |inserted|) == shown;
  }

  lemma {:induction false} JoinLinesConcat(a: seq<string>, b: seq<string>)
    requires a != [] && b != []
    ensures JoinLines(a + b) == JoinLines(a) + "\n" + JoinLines(b)
  {
    if |a| > 1 {
      JoinLinesConcat(a[1..], b);
      assert (a + b)[1..] == a[1..] + b;
      assert a[0] + "\n" + (JoinLines(a[1..]) + "\n" + JoinLines(b))
          == a[0] + "\n" + JoinLines(a[1..]) + "\n" + JoinLines(b);
    } else {
      assert (a + b)[1..] == b;
    }
  }

  lemma ViewOfRange(lines: seq<string>, text: string, first: int, last: int)
    requires lines == WithoutBreaks(SplitLines(text)) && (last == -1 || last >= 0)
    ensures var start := if first < 1 then 0 else first - 1;
            var stop := if last == -1 || last > |lines| then |lines| else last;
            ViewText(text, Some((first, last))) == JoinLines(if start < stop then lines[start..stop] else [])
  {
    hide SplitLines, WithoutBreak, JoinLines;
  }

  /** Views of adjoining ranges put together are the view of the whole range; a start before the first line and an end
      after the last are as good as the first and the last, and -1 stands for the last. */
  lemma ViewsAdjoin(text: string, first: int, k: int, last: int)
    requires var n := |SplitLines(text)|;
             first <= k < (if last == -1 then n else last) && 1 <= k < n
    ensures ViewText(text, Some((first, k))) + "\n" + ViewText(text, Some((k + 1, last)))
         == ViewText(text, Some((first, last)))
  {
    hide SplitLines, WithoutBreak, ViewText, JoinLines;
    var lines := WithoutBreaks(SplitLines(text));
    var start, stop := if first < 1 then 0 else first - 1, if last == -1 || last > |lines| then |lines| else last;
    ViewOfRange(lines, text, first, k);
    ViewOfRange(lines, text, k + 1, last);
    ViewOfRange(lines, text, first, last);
    JoinLinesConcat(lines[start..k], lines[k..stop]);
    assert lines[start..stop] == lines[start..k] + lines[k..stop];
  }

  //
  // Replacement
  //

  /** Replacing is refused unless the count is one; then the one place found is replaced, and the replacement can be
      taken back by the swapped command exactly when the new string is unique at that place. */
  lemma StrReplaceLaw(text: string, path: string, oldStr: string, newStr: string)
    requires oldStr != ""
    ensures var (result, problem) := Edited(text, StrReplace(path, Some(oldStr), Some(newStr)));
            && (problem.None? <==> exists i: nat :: UniqueAt(text, oldStr, i))
            && (forall i: nat | UniqueAt(text, oldStr, i) ::
                  && result == Spliced(text, i, |oldStr|, newStr)
                  && (newStr != "" ==>
                        (Edited(result, StrReplace(path, Some(newStr), Some(oldStr))) == (text, None)
                         <==> UniqueAt(result, newStr, i))))
  {
    hide UniqueAt, Spliced, Count, ReplaceAll;
    CountOne(text, oldStr, newStr);
    forall i: nat | UniqueAt(text, oldStr, i)
      ensures Count(text, oldStr) == 1
      ensures newStr != "" ==>
                var result := ReplaceAll(text, oldStr, newStr);
                Count(result, newStr) == 1 && ReplaceAll(result, newStr, oldStr) == text
                <==> UniqueAt(result, newStr, i)
    {
      if newStr != "" {
        SwapBack(text, oldStr, newStr, i);
      }
    }
  }

  //
  // Undo over whole runs
  //

  /** The history of a path followed by its current text. */
  function Versions(s: State, path: string): seq<string> {
    History(s, path) + if path in s.files then [ReadText(s.files[path])] else []
  }

  /** Texts to go back to are texts that were read, and only existing files have any. */
  predicate Sound(s: State) {
    forall path | path in s.undo && s.undo[path] != [] ::
      path in s.files && forall i | 0 <= i < |s.undo[path]| :: NoCr(s.undo[path][i])
  }

  datatype Effect = Keep | Push | Pop | Begin

  /** What a command does to the versions of a path, judged by its reply alone. */
  function EffectOn(s: State, c: Command, path: string): Effect {
    if c.path != path || Apply(s, c).1.Refused? || c.View? then Keep
    else if c.UndoEdit? then Pop
    else if c.Create? then Begin
    else Push
  }

  /** Each successful edit pushes the text then read from the file, each successful undo pops one, creating a file
      begins with it, and everything else, on this path or another, changes nothing. */
  lemma VersionsStep(s: State, c: Command, path: string)
    requires Sound(s)
    ensures var t := Apply(s, c).0;
            && Sound(t)
            && (path in s.files ==> path in t.files)
            && var v, w := Versions(s, path), Versions(t, path);
              match EffectOn(s, c, path)
              case Keep => w == v && (path in s.files ==> t.files[path] == s.files[path])
              case Push =>
                && |v| > 0 && (c.StrReplace? || c.Insert?) && Complete(c)
                && w == v + [Normalize(Edited(v[|v| - 1], c).0)]
              case Pop => |v| > 1 && w == v[..|v| - 1] && t.files[path] == Encode(w[|w| - 1])
              case Begin => v == [] && Complete(c) && c.Create? && w == [Normalize(c.fileText.value)]
  {
    hide Encode, Decode, Normalize, Edited, ViewText, NoCr, WellFormed;
    var t := Apply(s, c).0;
    if c.UndoEdit? && History(s, c.path) != [] {
      var h := History(s, c.path);
      RoundTrip(h[|h| - 1]);
      NormalizeNothing(h[|h| - 1]);
    } else if c.path in s.files {
      NormalizeHasNoCr(Decode(s.files[c.path]));
      if Complete(c) && (c.StrReplace? || c.Insert?) {
        RoundTrip(Edited(ReadText(s.files[c.path]), c).0);
      }
    } else if c.Create? && Complete(c) {
      RoundTrip(c.fileText.value);
    }
  }

  function RunCommands(s: State, cs: seq<Command>): State
    decreases |cs|
  {
    if cs == [] then s else RunCommands(Apply(s, cs[0]).0, cs[1..])
  }

  /** Along the run every undo of this path takes back an edit of the run made `depth` levels up, and none is left
      over at the end. Commands on other paths, refused commands and views may come anywhere in between. */
  predicate Balanced(s: State, cs: seq<Command>, path: string, depth: nat)
    decreases |cs|
  {
    if cs == [] then depth == 0
    else
      var t := Apply(s, cs[0]).0;
      match EffectOn(s, cs[0], path)
      case Push => Balanced(t, cs[1..], path, depth + 1)
      case Pop => depth > 0 && Balanced(t, cs[1..], path, depth - 1)
      case _ => Balanced(t, cs[1..], path, depth)
  }

  lemma {:induction false} BalancedRun(s: State, cs: seq<Command>, path: string, depth: nat)
    requires Sound(s) && path in s.files
    requires Balanced(s, cs, path, depth) && |Versions(s, path)| > depth
    ensures var v, t := Versions(s, path), RunCommands(s, cs);
            Sound(t) && path in t.files && Versions(t, path) == v[..|v| - depth]
    decreases |cs|
  {
    hide Apply, EffectOn, Sound, Versions;
    VersionsAreSome(s, path);
    if cs != [] {
      var t, e := Apply(s, cs[0]).0, EffectOn(s, cs[0], path);
      VersionsStep(s, cs[0], path);
      BalancedRun(t, cs[1..], path, if e.Push? then depth + 1 else if e.Pop? then depth - 1 else depth);
    }
  }

  lemma VersionsAreSome(s: State, path: string)
    requires path in s.files
    ensures Versions(s, path) != [] && Versions(s, path)[|Versions(s, path)| - 1] == ReadText(s.files[path])
  {
  }

  /** Undo is a true inverse over whole runs: if every edit of a path is undone, in any nesting and with anything
      else in between, the path has its old history and its old text, newlines normalised, back. */
  lemma UndoInverts(s: State, cs: seq<Command>, path: string)
    requires Sound(s) && path in s.files && Balanced(s, cs, path, 0)
    ensures var t := RunCommands(s, cs);
            && path in t.files && ReadText(t.files[path]) == ReadText(s.files[path])
            && Versions(t, path) == Versions(s, path)
  {
    hide ReadText, Versions, Balanced, RunCommands, Sound;
    VersionsAreSome(s, path);
    BalancedRun(s, cs, path, 0);
    VersionsAreSome(RunCommands(s, cs), path);
  }

  /** The file holds the encoding of just what is read from it. */
  predicate Written(s: State, path: string) {
    path in s.files && s.files[path] == Encode(ReadText(s.files[path]))
  }

  lemma EffectOnBytes(s: State, c: Command, path: string)
    requires Sound(s) && path in s.files
    ensures var t := Apply(s, c).0;
            match EffectOn(s, c, path)
            case Keep => path in t.files && t.files[path] == s.files[path]
            case Push => WellFormed(s.files[path])
            case Pop => Written(t, path)
            case Begin => false
  {
    hide Encode, Decode, Normalize, Edited, ViewText, NoCr;
    VersionsAreSome(s, path);
    VersionsStep(s, c, path);
    var t := Apply(s, c).0;
    if path in t.files {
      VersionsAreSome(t, path);
    }
  }

  lemma {:induction false} LastUndoWrites(s: State, cs: seq<Command>, path: string, depth: nat)
    requires Sound(s) && path in s.files && |Versions(s, path)| > depth && Balanced(s, cs, path, depth)
    requires depth > 0 || Edits(s, cs, path) > 0 || Written(s, path)
    ensures Written(RunCommands(s, cs), path)
    decreases |cs|
  {
    hide Apply, EffectOn, Sound, Versions, Encode, ReadText;
    if cs != [] {
      var t, e := Apply(s, cs[0]).0, EffectOn(s, cs[0], path);
      VersionsAreSome(s, path);
      VersionsStep(s, cs[0], path);
      EffectOnBytes(s, cs[0], path);
      LastUndoWrites(t, cs[1..], path, if e.Push? then depth + 1 else if e.Pop? then depth - 1 else depth);
    }
  }

  lemma {:induction false} EditedIsWellFormed(s: State, cs: seq<Command>, path: string)
    requires Sound(s) && path in s.files && Balanced(s, cs, path, 0) && Edits(s, cs, path) > 0
    ensures WellFormed(s.files[path])
    decreases |cs|
  {
    hide Apply, EffectOn, Sound, WellFormed;
    if cs != [] {
      EffectOnBytes(s, cs[0], path);
      VersionsStep(s, cs[0], path);
      if EffectOn(s, cs[0], path).Keep? {
        EditedIsWellFormed(Apply(s, cs[0]).0, cs[1..], path);
      }
    }
  }

  /** The bytes, exactly: if a run undoes its edits of a path, and there was one, the file has its old bytes back if and
      only if it held no CR. Undo writes back what was read. */
  lemma UndoInvertsBytes(s: State, cs: seq<Command>, path: string)
    requires Sound(s) && path in s.files && Balanced(s, cs, path, 0) && Edits(s, cs, path) > 0
    ensures var t := RunCommands(s, cs);
            path in t.files && (t.files[path] == s.files[path] <==> NoCr(Decode(s.files[path])))
  {
    hide Encode, Decode, Normalize, Versions, Balanced, RunCommands, Sound, Edits, NoCr;
    VersionsAreSome(s, path);
    LastUndoWrites(s, cs, path, 0);
    UndoInverts(s, cs, path);
    EditedIsWellFormed(s, cs, path);
    var text := Decode(s.files[path]);
    RoundTrip(text);
    RoundTrip(Normalize(text));
    NormalizeHasNoCr(text);
    if NoCr(text) {
      NormalizeNothing(text);
    }
  }

  function Repeat(c: Command, n: nat): seq<Command> {
    if n == 0 then [] else [c] + Repeat(c, n - 1)
  }

  lemma UndoSucceeds(s: State, path: string)
    requires path in s.files
    ensures EffectOn(s, UndoEdit(path), path).Pop? <==> |Versions(s, path)| > 1
  {
  }

  lemma {:induction false} UndosPop(s: State, path: string, n: nat)
    requires Sound(s) && path in s.files && |Versions(s, path)| > n
    ensures var v, t := Versions(s, path), RunCommands(s, Repeat(UndoEdit(path), n));
            path in t.files && Versions(t, path) == v[..|v| - n]
    ensures Balanced(s, Repeat(UndoEdit(path), n), path, n)
    decreases n
  {
    hide Apply, EffectOn, Sound, Versions;
    if n > 0 {
      var t := Apply(s, UndoEdit(path)).0;
      UndoSucceeds(s, path);
      VersionsStep(s, UndoEdit(path), path);
      UndosPop(t, path, n - 1);
    }
  }

  /** How many edits of the path succeed along the run. */
  function Edits(s: State, cs: seq<Command>, path: string): nat
    decreases |cs|
  {
    if cs == [] then 0
    else (if EffectOn(s, cs[0], path).Push? then 1 else 0) + Edits(Apply(s, cs[0]).0, cs[1..], path)
  }

  lemma {:induction false} EditsPush(s: State, cs: seq<Command>, path: string)
    requires Sound(s) && path in s.files
    requires forall i | 0 <= i < |cs| :: cs[i] != UndoEdit(path)
    ensures var v, t := Versions(s, path), RunCommands(s, cs);
            && Sound(t) && path in t.files
            && |Versions(t, path)| == |v| + Edits(s, cs, path) && v <= Versions(t, path)
    decreases |cs|
  {
    hide Apply, Sound, Versions;
    if cs != [] {
      VersionsAreSome(s, path);
      VersionsStep(s, cs[0], path);
      EditsPush(Apply(s, cs[0]).0, cs[1..], path);
    }
  }

  /** k successful edits and then k undos: every undo succeeds and the normalised original is back. */
  lemma EditsThenUndos(s: State, cs: seq<Command>, path: string)
    requires Sound(s) && path in s.files
    requires forall i | 0 <= i < |cs| :: cs[i] != UndoEdit(path)
    ensures var edited := RunCommands(s, cs);
            var t := RunCommands(edited, Repeat(UndoEdit(path), Edits(s, cs, path)));
            && path in t.files && ReadText(t.files[path]) == ReadText(s.files[path])
            && Versions(t, path) == Versions(s, path)
  {
    hide ReadText, Versions, RunCommands, Edits, Sound;
    var edited := RunCommands(s, cs);
    VersionsAreSome(s, path);
    EditsPush(s, cs, path);
    UndosPop(edited, path, Edits(s, cs, path));
    VersionsAreSome(RunCommands(edited, Repeat(UndoEdit(path), Edits(s, cs, path))), path);
  }

  /** What was created is shown, in text mode, and is on disk byte for byte. */
  lemma CreateThenView(s: State, path: string, text: string)
    requires path !in s.files
    ensures var (t, r) := Apply(s, Create(path, Some(text)));
            && r.Done? && t.files == s.files[path := Encode(text)] && t.undo == s.undo
            && Apply(t, View(path, None)) == (t, Done(Normalize(text)))
  {
    hide Encode, Decode, Normalize;
    RoundTrip(text);
  }

  /** After every run of commands, viewing a file shows the latest of its versions. */
  lemma RunThenView(s: State, cs: seq<Command>, path: string)
    requires path in RunCommands(s, cs).files
    ensures var t := RunCommands(s, cs);
            && Versions(t, path) != []
            && Apply(t, View(path, None)).1 == Done(Versions(t, path)[|Versions(t, path)| - 1])
  {
    hide RunCommands, ReadText, Versions;
    var t := RunCommands(s, cs);
    VersionsAreSome(t, path);
  }

  /** A successful edit of a file is shown at once: the text it was viewed as before, edited. */
  lemma EditThenView(s: State, c: Command)
    requires Sound(s) && (c.StrReplace? || c.Insert?) && Apply(s, c).1.Done?
    ensures var t, before := Apply(s, c).0, Apply(s, View(c.path, None)).1;
            && before.Done? && Complete(c)
            && Apply(t, View(c.path, None)).1 == Done(Normalize(Edited(before.stdout, c).0))
  {
    hide Encode, Decode, Normalize, Edited, WellFormed;
    RoundTrip(Edited(ReadText(s.files[c.path]), c).0);
  }

  /** k successful edits and then k undos: the view is what it was. */
  lemma UndosShowOriginal(s: State, cs: seq<Command>, path: string)
    requires Sound(s) && path in s.files
    requires forall i | 0 <= i < |cs| :: cs[i] != UndoEdit(path)
    ensures var t := RunCommands(RunCommands(s, cs), Repeat(UndoEdit(path), Edits(s, cs, path)));
            Apply(t, View(path, None)).1 == Apply(s, View(path, None)).1 && Apply(s, View(path, None)).1.Done?
  {
    hide RunCommands, Sound, Edits, Decode, Normalize, Versions;
    EditsThenUndos(s, cs, path);
  }

  /** A session starts with no history, and every command keeps it sound. */
  lemma {:induction false} RunsAreSound(files: map<string, seq<Byte>>, cs: seq<Command>)
    ensures Sound(RunCommands(State(files, map[]), cs))
  {
    SoundRun(State(files, map[]), cs);
  }

  lemma {:induction false} SoundRun(s: State, cs: seq<Command>)
    requires Sound(s)
    ensures Sound(RunCommands(s, cs))
    decreases |cs|
  {
    hide Apply, Sound;
    if cs != [] {
      VersionsStep(s, cs[0], cs[0].path);
      SoundRun(Apply(s, cs[0]).0, cs[1..]);
    }
  }
}

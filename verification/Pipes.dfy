/** The pipes between calls, by counting alone: what a living child has been sent, has answered and still holds, whether
    or not the calls are in step (sandbox/runner_pool.py, sandbox/runner.py). */
module Pipes {
  import opened Utf8
  import opened Lines
  import opened Wrappers
  import opened Wire
  import opened Runner
  import opened RunnerPool
  import opened Lifecycle

  //
  // What the history says since the child was spawned
  //

  /** The codes of the calls that returned an answer. */
  function AnsweredSince(log: seq<Event>): seq<string> {
    if log == [] then []
    else
      var n := |log| - 1;
      if log[n].Spawned? then []
      else AnsweredSince(log[..n]) + if log[n].Ended? && log[n].ending.Answered? then [log[n].code] else []
  }

  /** Their answers. */
  function AnswersSince(log: seq<Event>): seq<Response> {
    if log == [] then []
    else
      var n := |log| - 1;
      if log[n].Spawned? then []
      else
        AnswersSince(log[..n]) +
        if log[n].Ended? && log[n].ending.Answered? then
          [Response(log[n].ending.out, log[n].ending.err, log[n].ending.returnCode)]
        else []
  }

  /** The bytes they were read from. */
  function ConsumedSince(log: seq<Event>): seq<Byte> {
    if log == [] then []
    else
      var n := |log| - 1;
      if log[n].Spawned? then []
      else ConsumedSince(log[..n]) + if log[n].Ended? && log[n].ending.Answered? then log[n].seen else []
  }

  /** Each answer is what the reader makes of its bytes, all of them. */
  predicate ReadSince(log: seq<Event>) {
    if log == [] then true
    else
      var n := |log| - 1;
      log[n].Spawned? || (ReadSince(log[..n]) && (log[n].Ended? && log[n].ending.Answered? ==> ReadWhole(log[n])))
  }

  predicate ReadWhole(e: Event)
    requires e.Ended? && e.ending.Answered?
  {
    && Terminated(e.seen, NEWLINE)
    && Parse(START, e.seen) == Done(e.ending.out, e.ending.err, e.ending.returnCode, [])
  }

  //
  // Counting done lines
  //

  function DoneLines(bs: seq<Byte>): nat
    decreases |bs|
  {
    if bs == [] then 0
    else
      var n := LineLength(bs, NEWLINE);
      (if OpensDone(bs[..n]) then 1 else 0) + DoneLines(bs[n..])
  }

  lemma {:induction false} DoneLinesConcat(a: seq<Byte>, b: seq<Byte>)
    requires Terminated(a, NEWLINE)
    ensures DoneLines(a + b) == DoneLines(a) + DoneLines(b)
    decreases |a|
  {
    hide LineLength, OpensDone;
    if a == [] {
      assert a + b == b;
    } else {
      var line, rest := WholeLine(a);
      assert a + b == line + (rest + b);
      FirstLineLength(line, rest);
      FirstLineLength(line, rest + b);
      DoneLinesConcat(rest, b);
    }
  }

  lemma {:induction false} NoDoneLines(bs: seq<Byte>)
    ensures NoDone(bs) <==> DoneLines(bs) == 0
    decreases |bs|
  {
    hide OpensDone;
    if bs != [] {
      NoDoneLines(bs[LineLength(bs, NEWLINE)..]);
    }
  }

  /** What makes one answer, and nothing more, holds one done line. */
  lemma {:induction false} OneAnswer(p: Parser, bs: seq<Byte>)
    requires Parse(p, bs).Done? && Parse(p, bs).rest == []
    ensures DoneLines(bs) == 1
    decreases |bs|
  {
    hide Decode, Classify, LineLength, OpensDone;
    var n := LineLength(bs, NEWLINE);
    DoneByBytes(bs[..n]);
    var step := StepLine(p, Decode(bs[..n]));
    if step.More? {
      OneAnswer(step.next, bs[n..]);
    }
  }

  lemma {:induction false} ConsumedDoneLines(log: seq<Event>)
    requires ReadSince(log)
    ensures Terminated(ConsumedSince(log), NEWLINE)
    ensures DoneLines(ConsumedSince(log)) == |AnsweredSince(log)|
    ensures |AnswersSince(log)| == |AnsweredSince(log)|
  {
    hide DoneLines, Parse;
    NoDoneLines([]);
    if log != [] && !log[|log| - 1].Spawned? {
      var n := |log| - 1;
      ConsumedDoneLines(log[..n]);
      var before := ConsumedSince(log[..n]);
      assert before + [] == before;
      if log[n].Ended? && log[n].ending.Answered? {
        OneAnswer(START, log[n].seen);
        DoneLinesConcat(before, log[n].seen);
      }
    }
  }

  predicate NeverDoneIn(rs: seq<Response>) {
    forall i | 0 <= i < |rs| :: NeverDone(rs[i].out) && NeverDone(rs[i].err)
  }

  lemma ResponseDoneLines(r: Response)
    ensures var bs := ResponseBytes(r.out, r.err, r.returnCode);
            && Terminated(bs, NEWLINE) && bs != []
            && DoneLines(bs) >= 1
            && (DoneLines(bs) == 1 <==> NeverDone(r.out) && NeverDone(r.err))
  {
    hide Encode, Decode, Classify, DoneLines, NoDone, FramesText, DoneText, NeverDone, LineLength, Parse;
    var body, done := Encode(FramesText(r.out, r.err)), Encode(DoneText(r.returnCode));
    FramesNeverDone(r.out, r.err);
    NoDoneLines(body);
    DoneLineBytes(r.returnCode);
    var none: seq<Byte> := [];
    assert done + none == done;
    ParseDone(START, r.returnCode, none);
    OneAnswer(START, done);
    DoneLinesConcat(body, done);
  }

  /** A stream of responses holds at least one done line for each, and exactly one for each if and only if none was
      printed. */
  lemma {:induction false} StreamDoneLines(rs: seq<Response>)
    ensures Terminated(StreamBytes(rs), NEWLINE)
    ensures DoneLines(StreamBytes(rs)) >= |rs|
    ensures DoneLines(StreamBytes(rs)) == |rs| <==> NeverDoneIn(rs)
  {
    hide DoneLines, ResponseBytes, NeverDone;
    if rs == [] {
      NoDoneLines([]);
    } else {
      var first, tail := ResponseBytes(rs[0].out, rs[0].err, rs[0].returnCode), StreamBytes(rs[1..]);
      ResponseDoneLines(rs[0]);
      StreamDoneLines(rs[1..]);
      DoneLinesConcat(first, tail);
      assert forall i | 0 < i < |rs| :: rs[i] == rs[1..][i - 1];
    }
  }

  //
  // Streams and runs, taken in parts
  //

  lemma {:induction false} StreamConcat(a: seq<Response>, b: seq<Response>)
    ensures StreamBytes(a + b) == StreamBytes(a) + StreamBytes(b)
  {
    hide ResponseBytes;
    if a == [] {
      assert a + b == b;
    } else {
      assert (a + b)[1..] == a[1..] + b;
      StreamConcat(a[1..], b);
      var first := ResponseBytes(a[0].out, a[0].err, a[0].returnCode);
      assert first + (StreamBytes(a[1..]) + StreamBytes(b)) == first + StreamBytes(a[1..]) + StreamBytes(b);
    }
  }

  lemma {:induction false} RunConcat<G>(exec: (G, string) -> Ran<G>, g: G, a: seq<string>, b: seq<string>)
    ensures var (h, rs) := RunAll(exec, g, a);
            var (last, more) := RunAll(exec, h, b);
            RunAll(exec, g, a + b) == (last, rs + more)
    ensures |RunAll(exec, g, a).1| == |a|
  {
    if a == [] {
      assert a + b == b;
      var more := RunAll(exec, g, b).1;
      assert [] + more == more;
    } else {
      assert (a + b)[1..] == a[1..] + b;
      var ran := exec(g, a[0]);
      RunConcat(exec, ran.globals, a[1..], b);
      var first, rs := [Response(ran.out, ran.err, ran.returnCode)], RunAll(exec, ran.globals, a[1..]).1;
      var more := RunAll(exec, RunAll(exec, ran.globals, a[1..]).0, b).1;
      assert first + (rs + more) == first + rs + more;
    }
  }

  lemma {:induction false} RequestsConcat(a: seq<string>, b: seq<string>)
    ensures Requests(a + b) == Requests(a) + Requests(b)
  {
    hide Request;
    if a == [] {
      assert a + b == b;
    } else {
      assert (a + b)[1..] == a[1..] + b;
      RequestsConcat(a[1..], b);
      assert Request(a[0]) + (Requests(a[1..]) + Requests(b)) == Request(a[0]) + Requests(a[1..]) + Requests(b);
    }
  }

  lemma RequestsAreSome(codes: seq<string>)
    ensures Requests(codes) == [] <==> codes == []
  {
    hide Request;
    if codes != [] {
      RequestHasLine(codes[0]);
    }
  }

  //
  // The books balance at every step
  //

  /** What has been read of the answer that is due. */
  function InHand<G>(s: Pool<G>): seq<Byte> {
    if s.holder.Some? && s.holder.value.phase.Reading? then s.holder.value.phase.seen else []
  }

  /** The codes sent to this child. */
  function SentSince<G>(s: Pool<G>): seq<string> {
    AnsweredSince(s.log) + if s.holder.Some? && s.holder.value.phase.Reading? then [s.holder.value.code] else []
  }

  function Pending<G>(work: Work<G>): seq<Byte> {
    if work.Responding? then work.body + work.done else []
  }

  /** The child has run the first k codes it was sent; the others are in its stdin; and what was read, is in the pipe or
      is still to be written is the stream of its responses. */
  ghost predicate ChildBalanced<G>(env: Env<G>, c: Child<G>, sent: seq<string>, consumed: seq<Byte>, k: nat) {
    && k <= |sent|
    && c.stdin == Requests(sent[k..])
    && (c.work.Responding? ==> c.work.done != [])
    && var (g, rs) := RunAll(env.exec, env.initial, sent[..k]);
      && c.work.globals == g
      && consumed + c.stdout + Pending(c.work) == StreamBytes(rs)
  }

  predicate HeldByReader(holder: Option<Holder>) {
    holder.Some? && holder.value.phase.Reading? ==>
      var phase := holder.value.phase;
      Terminated(phase.seen, NEWLINE) && Parse(START, phase.seen) == Eof(phase.parser)
  }

  predicate Living<G>(s: Pool<G>) {
    s.child.Some? && s.child.value.status.Alive?
  }

  /** The books of a living child balance. */
  ghost predicate Balanced<G>(env: Env<G>, s: Pool<G>, k: nat) {
    Living(s) ==>
      && ChildBalanced(env, s.child.value, SentSince(s), ConsumedSince(s.log) + InHand(s), k)
      && ReadSince(s.log)
      && HeldByReader(s.holder)
  }

  lemma ComputeBalanced<G>(env: Env<G>, c: Child<G>, sent: seq<string>, consumed: seq<Byte>, k: nat)
    requires ChildBalanced(env, c, sent, consumed, k) && c.work.Waiting? && NEWLINE in c.stdin && c.status.Alive?
    ensures k < |sent| && ChildBalanced(env, NextChild(env, c, Compute), sent, consumed, k + 1)
  {
    hide Encode, Request, NextBlock, FramesText, DoneText;
    var code, rest := sent[k], sent[k + 1..];
    assert sent[k..][0] == code && sent[k..][1..] == rest;
    NextRequest(code, Requests(rest));
    DoneIsSome(env.exec(RunAll(env.exec, env.initial, sent[..k]).0, code).returnCode);
    RunConcat(env.exec, env.initial, sent[..k], [code]);
    assert sent[..k + 1] == sent[..k] + [code];
    var (g, rs) := RunAll(env.exec, env.initial, sent[..k]);
    var ran := env.exec(g, code);
    var response := Response(ran.out, ran.err, ran.returnCode);
    assert [code][1..] == [];
    assert RunAll(env.exec, g, [code]) == (ran.globals, [response] + []);
    StreamConcat(rs, [response] + []);
    StreamOfOne(response);
    var bytes := ResponseBytes(ran.out, ran.err, ran.returnCode);
    assert consumed + c.stdout + [] == consumed + c.stdout;
    assert consumed + c.stdout + bytes == StreamBytes(rs) + bytes;
  }

  lemma DoneIsSome(returnCode: int)
    ensures Encode(DoneText(returnCode)) != []
  {
    hide Encode, Decode, Classify, LineLength, DoneText;
    DoneLineBytes(returnCode);
  }

  lemma StreamOfOne(r: Response)
    ensures StreamBytes([r] + []) == ResponseBytes(r.out, r.err, r.returnCode)
  {
    hide ResponseBytes;
    assert ([r] + [])[1..] == [];
    assert ResponseBytes(r.out, r.err, r.returnCode) + [] == ResponseBytes(r.out, r.err, r.returnCode);
  }

  lemma ChildStepBalanced<G>(env: Env<G>, c: Child<G>, a: ChildAction, sent: seq<string>, consumed: seq<Byte>, k: nat)
    returns (k': nat)
    requires ChildBalanced(env, c, sent, consumed, k) && c.status.Alive?
    ensures NextChild(env, c, a).status.Alive? ==> ChildBalanced(env, NextChild(env, c, a), sent, consumed, k')
  {
    hide NextBlock, Encode, FramesText, DoneText, Requests, RunAll, StreamBytes;
    k' := k;
    var next := NextChild(env, c, a);
    match a
    case Compute =>
      if c.work.Waiting? && NEWLINE in c.stdin && next != c {
        ComputeBalanced(env, c, sent, consumed, k);
        k' := k + 1;
      }
    case Emit(n) =>
      if next != c {
        assert c.work.body == c.work.body[..n] + c.work.body[n..];
        assert consumed + next.stdout + Pending(next.work) == consumed + c.stdout + Pending(c.work);
      }
    case EmitDone =>
      if next != c {
        assert consumed + next.stdout + Pending(next.work) == consumed + c.stdout + Pending(c.work);
      }
    case _ =>
  }

  lemma SinceSnoc(log: seq<Event>, e: Event)
    ensures var answered := e.Ended? && e.ending.Answered?;
            && AnsweredSince(log + [e]) ==
               (if e.Spawned? then [] else AnsweredSince(log) + if answered then [e.code] else [])
            && ConsumedSince(log + [e]) ==
               (if e.Spawned? then [] else ConsumedSince(log) + if answered then e.seen else [])
            && (ReadSince(log + [e]) <==> e.Spawned? || (ReadSince(log) && (answered ==> ReadWhole(e))))
  {
    hide ReadWhole;
    assert (log + [e])[..|log|] == log;
  }

  lemma SpawnBalanced<G>(env: Env<G>)
    ensures ChildBalanced(env, Child(Alive, [], [], Waiting(env.initial)), [], [], 0)
  {
  }

  lemma StartBalanced<G(!new)>(env: Env<G>, s: Pool<G>, k: nat) returns (k': nat)
    requires Balanced(env, s, k) && s.holder.Some? && s.holder.value.phase.Locked?
    ensures Balanced(env, Next(env, s, Call(CallAction.Start)), k')
  {
    hide ChildBalanced, AnsweredSince, ConsumedSince, ReadSince, Parse;
    var t := Next(env, s, Call(CallAction.Start));
    k' := k;
    if t.log != s.log {
      SinceSnoc(s.log, Spawned);
      SpawnBalanced(env);
      var none: seq<Byte>, nobody: seq<string> := [], [];
      assert none + none == none && nobody + nobody == nobody;
      k' := 0;
    }
  }

  lemma MoreSent<G>(env: Env<G>, c: Child<G>, sent: seq<string>, code: string, consumed: seq<Byte>, k: nat)
    requires ChildBalanced(env, c, sent, consumed, k)
    ensures ChildBalanced(env, c.(stdin := c.stdin + Request(code)), sent + [code], consumed, k)
  {
    hide Request, RunAll, StreamBytes;
    RequestsConcat(sent[k..], [code]);
    assert (sent + [code])[k..] == sent[k..] + [code] && (sent + [code])[..k] == sent[..k];
    assert [code][1..] == [] && Request(code) + [] == Request(code);
  }

  lemma SendBalanced<G(!new)>(env: Env<G>, s: Pool<G>, k: nat)
    requires Balanced(env, s, k) && s.holder.Some? && s.holder.value.phase.Started?
    ensures Balanced(env, Next(env, s, Call(Send)), k)
  {
    hide AnsweredSince, ConsumedSince, ReadSince, Parse, ChildBalanced, Request;
    if Living(s) {
      var sent := AnsweredSince(s.log);
      assert sent + [] == sent;
      MoreSent(env, s.child.value, sent, s.holder.value.code, ConsumedSince(s.log) + [], k);
      ParseNothing(START);
    }
  }

  lemma MoreConsumed<G>(env: Env<G>, c: Child<G>, sent: seq<string>, consumed: seq<Byte>, n: nat, k: nat)
    requires ChildBalanced(env, c, sent, consumed, k) && n <= |c.stdout|
    ensures ChildBalanced(env, c.(stdout := c.stdout[n..]), sent, consumed + c.stdout[..n], k)
  {
    hide Requests, RunAll, StreamBytes;
    assert c.stdout == c.stdout[..n] + c.stdout[n..];
    assert consumed + c.stdout[..n] + c.stdout[n..] + Pending(c.work) == consumed + c.stdout + Pending(c.work);
  }

  /** What reading the next whole line comes to, in the pipe and in the reader. */
  lemma LineRead<G(!new)>(env: Env<G>, s: Pool<G>, k: nat)
    requires Balanced(env, s, k) && Living(s) && s.holder.Some? && s.holder.value.phase.Reading?
    requires NEWLINE in s.child.value.stdout
    ensures var h, c := s.holder.value, s.child.value;
            var n := LineLength(c.stdout, NEWLINE);
            var line, parser, seen := c.stdout[..n], h.phase.parser, h.phase.seen;
            var step := StepLine(parser, Decode(line));
            && ChildBalanced(env, c.(stdout := c.stdout[n..]), AnsweredSince(s.log) + [h.code],
                             ConsumedSince(s.log) + (seen + line), k)
            && Terminated(seen + line, NEWLINE)
            && (step.More? ==> Parse(START, seen + line) == Eof(step.next))
            && (step.Finish? ==> Parse(START, seen + line) == Done(parser.out, parser.err, step.returnCode, []))
  {
    hide AnsweredSince, ConsumedSince, ReadSince, Parse, ChildBalanced, Decode, StepLine, LineLength;
    var h, c := s.holder.value, s.child.value;
    var n := LineLength(c.stdout, NEWLINE);
    var line, seen := c.stdout[..n], h.phase.seen;
    WholeLineIs(c.stdout);
    var none: seq<Byte> := [];
    assert line + none == line;
    ReadWholeLine(h.phase.parser, seen, line, none, seen + line);
    MoreConsumed(env, c, SentSince(s), ConsumedSince(s.log) + seen, n, k);
    assert ConsumedSince(s.log) + seen + line == ConsumedSince(s.log) + (seen + line);
  }

  lemma ReadBalanced<G(!new)>(env: Env<G>, s: Pool<G>, k: nat)
    requires Balanced(env, s, k) && s.holder.Some? && s.holder.value.phase.Reading?
    ensures Balanced(env, Next(env, s, Call(Read)), k)
  {
    hide AnsweredSince, ConsumedSince, ReadSince, Parse, ChildBalanced, Decode, StepLine, LineLength, Conclude;
    hide ReadWhole, Terminated;
    if Living(s) && NEWLINE in s.child.value.stdout {
      LineRead(env, s, k);
      var t := Next(env, s, Call(Read));
      var h, stdout := s.holder.value, s.child.value.stdout;
      var parser, line := h.phase.parser, stdout[..LineLength(stdout, NEWLINE)];
      var step := StepLine(parser, Decode(line));
      if step.Finish? {
        var e := Ended(h.task, h.code, h.phase.seen + line, Answered(parser.out, parser.err, step.returnCode));
        SinceSnoc(s.log, e);
        WholeIsRead(e);
        assert ConsumedSince(t.log) + InHand(t) == ConsumedSince(t.log) && SentSince(t) == AnsweredSince(t.log);
      }
    }
  }

  lemma WholeIsRead(e: Event)
    requires e.Ended? && e.ending.Answered? && Terminated(e.seen, NEWLINE)
    requires Parse(START, e.seen) == Done(e.ending.out, e.ending.err, e.ending.returnCode, [])
    ensures ReadWhole(e)
  {
  }

  lemma StepBalanced<G(!new)>(env: Env<G>, s: Pool<G>, a: Action, k: nat) returns (k': nat)
    requires Balanced(env, s, k)
    ensures Balanced(env, Next(env, s, a), k')
  {
    hide ChildBalanced, AnsweredSince, ConsumedSince, ReadSince, Parse, NextChild;
    hide LineLength, StepLine, Decode, Conclude;
    k' := k;
    match a
    case Submit(_, _) =>
    case Acquire(_) =>
    case Process(step) =>
      if s.child.Some? {
        NextStatus(env, s.child.value, step);
        assert s.log + [] == s.log;
        if Living(s) {
          k' := ChildStepBalanced(env, s.child.value, step, SentSince(s), ConsumedSince(s.log) + InHand(s), k);
        }
      }
    case Call(call) =>
      if s.holder.Some? {
        var phase := s.holder.value.phase;
        if phase.Locked? && call.Start? {
          k' := StartBalanced(env, s, k);
        } else if phase.Started? && call.Send? {
          SendBalanced(env, s, k);
        } else if phase.Reading? && call.Read? {
          ReadBalanced(env, s, k);
        }
      }
  }

  lemma {:induction false} RunBalanced<G(!new)>(env: Env<G>, s: Pool<G>, schedule: seq<Action>, k: nat)
    returns (k': nat)
    requires Balanced(env, s, k)
    ensures Balanced(env, RunSchedule(env, s, schedule), k')
    decreases |schedule|
  {
    hide Next, Balanced;
    if schedule == [] {
      k' := k;
    } else {
      k' := StepBalanced(env, s, schedule[0], k);
      k' := RunBalanced(env, Next(env, s, schedule[0]), schedule[1..], k');
    }
  }

  //
  // The theorems
  //

  /** Nothing sent and nothing written is left in either pipe, and the child waits for a header. */
  predicate Drained<G>(c: Child<G>) {
    c.stdin == [] && c.stdout == [] && c.work.Waiting?
  }

  /** The responses to the answered calls' codes, run in order since the child was spawned. */
  function ResponsesSince<G>(env: Env<G>, log: seq<Event>): seq<Response> {
    RunAll(env.exec, env.initial, AnsweredSince(log)).1
  }

  /** What is left after some whole lines of a stream ends with the stream's last line. */
  lemma RestEndsAlike(front: seq<Byte>, last: seq<Byte>, consumed: seq<Byte>, rest: seq<Byte>)
    requires front + last == consumed + rest && rest != []
    requires Terminated(front, NEWLINE) && IsLine(last, NEWLINE) && Terminated(consumed, NEWLINE)
    ensures |rest| >= |last|
    ensures var n := |rest| - |last|; Terminated(rest[..n], NEWLINE) && rest == rest[..n] + last
  {
    hide LineLength;
    var all, d := front + last, |consumed|;
    assert all[..d] == consumed && all[d..] == rest;
    InsideLine(last);
    assert forall i | |front| <= i < |all| - 1 :: all[i] == last[i - |front|];
    assert d > 0 ==> all[d - 1] == consumed[d - 1];
    assert d <= |front|;
    assert all[d..] == front[d..] + last;
    assert rest[..|rest| - |last|] == front[d..];
  }

  lemma InsideLine(line: seq<Byte>)
    requires IsLine(line, NEWLINE)
    ensures forall i | 0 <= i < |line| - 1 :: line[i] != NEWLINE
  {
  }

  lemma DoneLineCounts(front: seq<Byte>, returnCode: int)
    requires Terminated(front, NEWLINE)
    ensures DoneLines(front + Encode(DoneText(returnCode))) > 0
  {
    hide Encode, Decode, Classify, DoneLines, DoneText, LineLength, Parse;
    var done, none: seq<Byte> := Encode(DoneText(returnCode)), [];
    assert done + none == done;
    ParseDone(START, returnCode, none);
    OneAnswer(START, done);
    DoneLinesConcat(front, done);
  }

  /** A stream of responses is whole lines and then the done line of the last one. */
  lemma StreamEndsInDone(rs: seq<Response>)
    requires rs != []
    ensures var done := Encode(DoneText(rs[|rs| - 1].returnCode));
            && IsLine(done, NEWLINE) && |done| <= |StreamBytes(rs)|
            && var front := StreamBytes(rs)[..|StreamBytes(rs)| - |done|];
              Terminated(front, NEWLINE) && StreamBytes(rs) == front + done
  {
    hide Encode, Decode, Classify, DoneLines, FramesText, DoneText, NeverDone, LineLength, NoDone, StreamBytes;
    var n := |rs| - 1;
    var r := rs[n];
    assert rs == rs[..n] + ([r] + []);
    StreamConcat(rs[..n], [r] + []);
    StreamOfOne(r);
    StreamDoneLines(rs[..n]);
    var body, done := Encode(FramesText(r.out, r.err)), Encode(DoneText(r.returnCode));
    var front := StreamBytes(rs[..n]) + body;
    assert StreamBytes(rs[..n]) + (body + done) == front + done;
    assert (front + done)[..|front|] == front;
    FramesNeverDone(r.out, r.err);
    DoneLineBytes(r.returnCode);
  }

  lemma RestHasDone(rs: seq<Response>, consumed: seq<Byte>, rest: seq<Byte>)
    requires consumed + rest == StreamBytes(rs) && Terminated(consumed, NEWLINE) && rest != []
    ensures DoneLines(rest) > 0
  {
    hide Encode, DoneLines, DoneText, LineLength;
    if rs != [] {
      StreamEndsInDone(rs);
      var done := Encode(DoneText(rs[|rs| - 1].returnCode));
      RestEndsAlike(StreamBytes(rs)[..|StreamBytes(rs)| - |done|], done, consumed, rest);
      DoneLineCounts(rest[..|rest| - |done|], rs[|rs| - 1].returnCode);
    }
  }

  lemma DrainedIsInStep<G>(env: Env<G>, s: Pool<G>, k: nat)
    requires Balanced(env, s, k) && Living(s) && s.holder.None?
    ensures Drained(s.child.value) ==> NeverDoneIn(ResponsesSince(env, s.log))
  {
    hide ReadWhole, RunAll, StreamBytes, NeverDoneIn, Requests, DoneLines, AnsweredSince, ConsumedSince;
    var c, sent, consumed := s.child.value, SentSince(s), ConsumedSince(s.log);
    assert sent == AnsweredSince(s.log) && consumed + InHand(s) == consumed;
    if Drained(c) {
      RequestsAreSome(sent[k..]);
      assert k == |sent| && sent[..k] == sent;
      assert consumed + c.stdout + Pending(c.work) == consumed;
      ConsumedDoneLines(s.log);
      StreamDoneLines(ResponsesSince(env, s.log));
      RunConcat(env.exec, env.initial, sent, []);
    }
  }

  lemma PendingIsSome<G>(work: Work<G>)
    ensures work.Responding? && work.done != [] ==> Pending(work) != []
  {
  }

  lemma InStepIsDrained<G>(env: Env<G>, s: Pool<G>, k: nat)
    requires Balanced(env, s, k) && Living(s) && s.holder.None?
    ensures NeverDoneIn(ResponsesSince(env, s.log)) ==> Drained(s.child.value)
  {
    hide ReadWhole, RunAll, StreamBytes, Requests, DoneLines, AnsweredSince, ConsumedSince, NeverDone;
    var c, sent, consumed := s.child.value, SentSince(s), ConsumedSince(s.log);
    assert sent == AnsweredSince(s.log) && consumed + InHand(s) == consumed;
    var rest := c.stdout + Pending(c.work);
    assert consumed + c.stdout + Pending(c.work) == consumed + rest;
    if NeverDoneIn(ResponsesSince(env, s.log)) {
      RunConcat(env.exec, env.initial, sent[..k], sent[k..]);
      assert sent[..k] + sent[k..] == sent;
      var rs := RunAll(env.exec, env.initial, sent[..k]).1;
      assert forall i | 0 <= i < |rs| :: rs[i] == ResponsesSince(env, s.log)[i];
      ConsumedDoneLines(s.log);
      StreamDoneLines(rs);
      DoneLinesConcat(consumed, rest);
      assert k == |sent| && DoneLines(rest) == 0;
      if rest != [] {
        RestHasDone(rs, consumed, rest);
      }
      assert |rest| == |c.stdout| + |Pending(c.work)|;
      PendingIsSome(c.work);
      RequestsAreSome(sent[k..]);
    }
  }

  /** The pipes, exactly: when the lock is free, a living child's pipes are drained and it waits for a header if and
      only if none of the codes answered since it was spawned printed a done line. What happened before is past. */
  lemma PipesDrained<G(!new)>(env: Env<G>, schedule: seq<Action>)
    ensures var s := RunSchedule(env, Initial(), schedule);
            s.holder.None? && Living(s) ==> (Drained(s.child.value) <==> NeverDoneIn(ResponsesSince(env, s.log)))
  {
    hide RunSchedule, Drained, NeverDoneIn, ResponsesSince, ChildBalanced;
    var k := RunBalanced(env, Initial(), schedule, 0);
    var s := RunSchedule(env, Initial(), schedule);
    if s.holder.None? && Living(s) {
      DrainedIsInStep(env, s, k);
      InStepIsDrained(env, s, k);
    }
  }

  lemma NextInStream(e: Event, rest: seq<Byte>)
    requires e.Ended? && e.ending.Answered? && ReadWhole(e)
    ensures ParseStream(e.seen + rest)
         == [Response(e.ending.out, e.ending.err, e.ending.returnCode)] + ParseStream(rest)
  {
    hide Parse, Terminated;
    DoneStays(START, e.seen, rest);
    assert [] + rest == rest;
  }

  /** Reading the bytes of the answers again, whatever follows them, gives the answers. */
  lemma {:induction false} ReadAgain(log: seq<Event>, rest: seq<Byte>)
    requires ReadSince(log)
    ensures ParseStream(ConsumedSince(log) + rest) == AnswersSince(log) + ParseStream(rest)
    decreases |log|
  {
    hide ParseStream, ReadWhole;
    assert [] + rest == rest && [] + ParseStream(rest) == ParseStream(rest);
    if log != [] && !log[|log| - 1].Spawned? {
      var n := |log| - 1;
      var e, before, answers := log[n], ConsumedSince(log[..n]), AnswersSince(log[..n]);
      if e.Ended? && e.ending.Answered? {
        ReadAgain(log[..n], e.seen + rest);
        NextInStream(e, rest);
        assert before + e.seen + rest == before + (e.seen + rest);
        var answer := [Response(e.ending.out, e.ending.err, e.ending.returnCode)];
        assert answers + (answer + ParseStream(rest)) == answers + answer + ParseStream(rest);
      } else {
        ReadAgain(log[..n], rest);
        assert before + [] == before && answers + [] == answers;
      }
    }
  }

  lemma AnswersOf<G>(env: Env<G>, s: Pool<G>, k: nat)
    requires Balanced(env, s, k) && Living(s) && s.holder.None?
    ensures |AnswersSince(s.log)| == |AnsweredSince(s.log)|
    ensures AnswersSince(s.log) <= ParseStream(StreamBytes(ResponsesSince(env, s.log)))
  {
    hide AnsweredSince, ConsumedSince, AnswersSince, ReadSince, RunAll, StreamBytes, Requests, ParseStream, DoneLines;
    var c, sent, consumed := s.child.value, SentSince(s), ConsumedSince(s.log);
    assert sent == AnsweredSince(s.log) && consumed + InHand(s) == consumed;
    ConsumedDoneLines(s.log);
    RunConcat(env.exec, env.initial, sent[..k], sent[k..]);
    assert sent[..k] + sent[k..] == sent;
    var (g, rs) := RunAll(env.exec, env.initial, sent[..k]);
    var more := RunAll(env.exec, g, sent[k..]).1;
    StreamConcat(rs, more);
    var rest := c.stdout + Pending(c.work) + StreamBytes(more);
    assert consumed + rest == consumed + c.stdout + Pending(c.work) + StreamBytes(more);
    ReadAgain(s.log, rest);
  }

  /** In step or not, with the lock free and the child living the calls answered since it was spawned have returned, in
      order, the first items that reading the stream of all their responses gives, one for each call. */
  lemma AnswersAreDecoded<G(!new)>(env: Env<G>, schedule: seq<Action>)
    ensures var s := RunSchedule(env, Initial(), schedule);
            s.holder.None? && Living(s) ==>
              && |AnswersSince(s.log)| == |AnsweredSince(s.log)|
              && AnswersSince(s.log) <= ParseStream(StreamBytes(ResponsesSince(env, s.log)))
  {
    hide RunSchedule, ResponsesSince, ParseStream, StreamBytes, AnswersSince, AnsweredSince, ChildBalanced;
    var k := RunBalanced(env, Initial(), schedule, 0);
    var s := RunSchedule(env, Initial(), schedule);
    if s.holder.None? && Living(s) {
      AnswersOf(env, s, k);
    }
  }
}

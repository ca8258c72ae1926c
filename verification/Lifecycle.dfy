/** One `RunnerProcess` as a step system: queued `execute` calls, one lock, one child process that may die at any
    step, two pipes. As long as no answered call printed a done line it refines a plain sequential interpreter that is
    reset when, and only when, a call fails or the child died (sandbox/runner_pool.py, sandbox/runner.py). */
module Lifecycle {
  import opened Utf8
  import opened Lines
  import opened Wrappers
  import opened Wire
  import opened Runner
  import opened RunnerPool
  import Decimal

  //
  // State
  //

  /** A dead child is a zombie until its exit code has been noticed (`returncode` is no longer None). */
  datatype Status = Alive | Zombie(exitCode: int) | Noticed(exitCode: int)

  datatype Work<G> = Waiting(globals: G) | Responding(globals: G, body: seq<Byte>, done: seq<Byte>)

  datatype Child<G> = Child(status: Status, stdin: seq<Byte>, stdout: seq<Byte>, work: Work<G>)

  /** Where the holder of the lock is in `execute`. `seen` is what it has read so far. */
  datatype Phase =
    | Locked
    | Started
    | Reading(parser: Parser, seen: seq<Byte>)
    | Closing(parser: Parser, seen: seq<Byte>, exitCode: Option<int>)

  datatype Holder = Holder(task: nat, code: string, phase: Phase)

  /** History: children spawned, their deaths and the notices of them, ends of file that were read, calls that ended. */
  datatype Event =
    | Spawned
    | Died(exitCode: int)
    | Noted
    | HitEof
    | Ended(task: nat, code: string, seen: seq<Byte>, ending: Ending)

  datatype Pool<G> = Pool(
    child: Option<Child<G>>, holder: Option<Holder>, waiting: map<nat, string>,
    calls: map<nat, string>, results: map<nat, Outcome>, log: seq<Event>)

  datatype Env<!G> = Env(exec: (G, string) -> Ran<G>, initial: G, maxBytes: int)

  function Initial<G>(): Pool<G> {
    Pool(None, None, map[], map[], map[], [])
  }

  //
  // Steps. A step that is not enabled changes nothing.
  //

  datatype ChildAction = Compute | Emit(n: nat) | EmitDone | Die(exitCode: int) | Notice

  datatype CallAction =
    | Start
    | Send
    | SendFails
    | Read
    | ReadEof
    | CloseDead
    | Expire(partial: string, seconds: int)

  datatype Action =
    | Submit(task: nat, code: string)
    | Acquire(task: nat)
    | Call(call: CallAction)
    | Process(step: ChildAction)

  function Next<G>(env: Env<G>, s: Pool<G>, a: Action): Pool<G> {
    match a
    case Submit(task, code) =>
      if task in s.calls then s else s.(calls := s.calls[task := code], waiting := s.waiting[task := code])
    case Acquire(task) =>
      if s.holder.Some? || task !in s.waiting then s
      else s.(holder := Some(Holder(task, s.waiting[task], Locked)), waiting := s.waiting - {task})
    case Call(call) => if s.holder.None? then s else NextHolder(env, s, s.holder.value, call)
    case Process(step) =>
      if s.child.None? then s
      else
        var status := s.child.value.status;
        s.(child := Some(NextChild(env, s.child.value, step)),
           log := s.log + if step.Die? && status.Alive? then [Died(step.exitCode)]
                          else if step.Notice? && status.Zombie? then [Noted]
                          else [])
  }

  /** The child process: it may compute an answer once a whole request is in its pipe, writes the two frames in
      pieces of any size and the done line in one piece, and may die at any moment. */
  function NextChild<G>(env: Env<G>, c: Child<G>, a: ChildAction): Child<G> {
    match a
    case Compute =>
      var block := NextBlock(c.stdin);
      if c.status.Alive? && c.work.Waiting? && NEWLINE in c.stdin && block.Run? then
        var ran := env.exec(c.work.globals, block.code);
        c.(stdin := block.rest,
           work := Responding(ran.globals, Encode(FramesText(ran.out, ran.err)), Encode(DoneText(ran.returnCode))))
      else c
    case Emit(n) =>
      if c.status.Alive? && c.work.Responding? && n <= |c.work.body| then
        c.(stdout := c.stdout + c.work.body[..n], work := c.work.(body := c.work.body[n..]))
      else c
    case EmitDone =>
      if c.status.Alive? && c.work.Responding? && c.work.body == [] then
        c.(stdout := c.stdout + c.work.done, work := Waiting(c.work.globals))
      else c
    case Die(exitCode) => if c.status.Alive? then c.(status := Zombie(exitCode)) else c
    case Notice => if c.status.Zombie? then c.(status := Noticed(c.status.exitCode)) else c
  }

  /** The call that holds the lock. */
  function NextHolder<G>(env: Env<G>, s: Pool<G>, h: Holder, a: CallAction): Pool<G> {
    match h.phase
    case Locked =>
      if a != Start then s
      else if s.child.Some? && !s.child.value.status.Noticed? then s.(holder := Some(h.(phase := Started)))
      else s.(child := Some(Child(Alive, [], [], Waiting(env.initial))), holder := Some(h.(phase := Started)),
              log := s.log + [Spawned])
    case Started =>
      if s.child.None? then s
      else
        var c := s.child.value;
        if a == Send then
          s.(child := Some(if c.status.Alive? then c.(stdin := c.stdin + Request(h.code)) else c),
             holder := Some(h.(phase := Reading(START, []))))
        else if a == SendFails && !c.status.Alive? then End(env, s, h, None, [], PipeClosed)
        else s
    case Reading(parser, seen) =>
      if s.child.None? then s
      else
        var c := s.child.value;
        if a == Read && (NEWLINE in c.stdout || (!c.status.Alive? && c.stdout != [])) then
          var n := LineLength(c.stdout, NEWLINE);
          var rest := c.(stdout := c.stdout[n..]);
          var step := StepLine(parser, Decode(c.stdout[..n]));
          if step.Finish? then
            End(env, s, h, Some(rest), seen + c.stdout[..n], Answered(parser.out, parser.err, step.returnCode))
          else s.(child := Some(rest), holder := Some(h.(phase := Reading(step.next, seen + c.stdout[..n]))))
        else if a == ReadEof && !c.status.Alive? && c.stdout == [] then
          var exitCode := if c.status.Noticed? then Some(c.status.exitCode) else None;
          s.(holder := Some(h.(phase := Closing(parser, seen, exitCode))), log := s.log + [HitEof])
        else if a.Expire? then End(env, s, h, None, seen, TimedOut(a.partial, a.seconds))
        else s
    case Closing(parser, seen, exitCode) =>
      if a == CloseDead then End(env, s, h, None, seen, Crashed(parser.out, parser.err, exitCode))
      else if a.Expire? then End(env, s, h, None, seen, TimedOut(a.partial, a.seconds))
      else s
  }

  /** `execute` returns: the lock is free again. */
  function End<G>(env: Env<G>, s: Pool<G>, h: Holder, child: Option<Child<G>>, seen: seq<Byte>, ending: Ending): Pool<G>
  {
    s.(child := child, holder := None, results := s.results[h.task := Conclude(ending, env.maxBytes)],
       log := s.log + [Ended(h.task, h.code, seen, ending)])
  }

  function RunSchedule<G>(env: Env<G>, s: Pool<G>, schedule: seq<Action>): Pool<G>
    decreases |schedule|
  {
    if schedule == [] then s else RunSchedule(env, Next(env, s, schedule[0]), schedule[1..])
  }

  //
  // The reference: a sequential interpreter
  //

  datatype Reference<G> = Wrong | Down | Up(globals: G, alive: bool)

  /** Replays a history on one interpreter. An answer must be what the reader makes of the interpreter's own response,
      for the current globals, read to its very end; a crash may only show a cut-off part of that very response, and
      needs a dead child; a fresh interpreter replaces only one that is down or dead. */
  function Replay<G>(env: Env<G>, log: seq<Event>): Reference<G> {
    if log == [] then Down else ReplayOne(env, Replay(env, log[..|log| - 1]), log[|log| - 1])
  }

  function ReplayOne<G>(env: Env<G>, r: Reference<G>, e: Event): Reference<G> {
    if r.Wrong? then Wrong
    else if e.Spawned? then (if r.Up? && r.alive then Wrong else Up(env.initial, true))
    else if r.Down? then Wrong
    else if e.Died? then (if r.alive then Up(r.globals, false) else Wrong)
    else if e.Noted? || e.HitEof? then (if r.alive then Wrong else r)
    else
      var ran := env.exec(r.globals, e.code);
      match e.ending
      case Answered(out, err, rc) =>
        if Parse(START, ResponseBytes(ran.out, ran.err, ran.returnCode)) == Done(out, err, rc, [])
        then Up(ran.globals, r.alive) else Wrong
      case Crashed(out, err, _) =>
        var cut := Parse(START, e.seen);
        if !r.alive && e.seen <= Encode(FramesText(ran.out, ran.err))
           && cut.Eof? && out == cut.last.out && err == cut.last.err
        then Down else Wrong
      case TimedOut(_, _) => Down
      case PipeClosed => if r.alive then Wrong else Down
  }

  //
  // Invariant
  //

  /** This step makes a call return an answer. */
  predicate Answers<G(!new)>(env: Env<G>, s: Pool<G>, a: Action) {
    a == Call(Read) && s.holder.Some? && Next(env, s, a).holder.None?
  }

  /** The code of the lock holder, run where the history has got to, prints no line that reads as the done line. */
  predicate OwnNeverDone<G>(env: Env<G>, s: Pool<G>) {
    var r := Replay(env, s.log);
    && s.holder.Some? && r.Up?
    && var ran := env.exec(r.globals, s.holder.value.code); NeverDone(ran.out) && NeverDone(ran.err)
  }

  /** Along the whole run, no call that returns an answer had printed a done line. */
  ghost predicate InStep<G(!new)>(env: Env<G>, s: Pool<G>, schedule: seq<Action>)
    decreases |schedule|
  {
    schedule != [] ==>
      && (Answers(env, s, schedule[0]) ==> OwnNeverDone(env, s))
      && InStep(env, Next(env, s, schedule[0]), schedule[1..])
  }

  /** Absent, dead, or waiting for a header; in each case with nothing left in its pipes to be read. */
  predicate Quiet<G(==)>(c: Option<Child<G>>, r: Reference<G>) {
    if c.None? then r.Down?
    else
      && r.Up? && r.alive == c.value.status.Alive?
      && c.value.stdout == []
      && (r.alive ==> c.value.stdin == [] && c.value.work == Waiting(r.globals))
  }

  /** Between the request and the end of the answer, everything that has been read, is in the pipe or is still to be
      written is the answer to this call's own code. */
  ghost predicate Answering<G>(env: Env<G>, c: Child<G>, r: Reference<G>, code: string, seen: seq<Byte>)
    requires r.Up?
  {
    var ran := env.exec(r.globals, code);
    var body, done := Encode(FramesText(ran.out, ran.err)), Encode(DoneText(ran.returnCode));
    if c.status.Alive? then
      || (c.work == Waiting(r.globals) && c.stdin == Request(code) && c.stdout == [] && seen == [])
      || (c.work.Responding? && c.work.globals == ran.globals && c.work.done == done && c.stdin == []
          && seen + c.stdout + c.work.body == body)
      || (c.work == Waiting(ran.globals) && c.stdin == [] && seen + c.stdout == body + done)
    else
      seen + c.stdout <= body || seen + c.stdout == body + done
  }

  ghost predicate PhaseOk<G>(env: Env<G>, child: Option<Child<G>>, r: Reference<G>, h: Holder) {
    match h.phase
    case Locked => Quiet(child, r)
    case Started => child.Some? && Quiet(child, r)
    case Reading(parser, seen) =>
      && child.Some? && r.Up? && r.alive == child.value.status.Alive?
      && Answering(env, child.value, r, h.code, seen)
      && Parse(START, seen) == Eof(parser)
      && (Terminated(seen, NEWLINE) || (!r.alive && child.value.stdout == []))
    case Closing(parser, seen, _) =>
      && child.Some? && r.Up? && !r.alive && !child.value.status.Alive?
      && seen <= Encode(FramesText(env.exec(r.globals, h.code).out, env.exec(r.globals, h.code).err))
      && Parse(START, seen) == Eof(parser)
  }

  ghost predicate Coherent<G>(env: Env<G>, s: Pool<G>) {
    var r := Replay(env, s.log);
    if s.holder.None? then Quiet(s.child, r) else PhaseOk(env, s.child, r, s.holder.value)
  }

  predicate IsEnd(log: seq<Event>, i: int) {
    0 <= i < |log| && log[i].Ended?
  }

  /** Every ended call is recorded once, with the code it was submitted with and the outcome it returned. */
  ghost predicate Accounted<G>(env: Env<G>, s: Pool<G>) {
    && s.waiting.Keys <= s.calls.Keys && s.waiting.Keys !! s.results.Keys
    && (forall t | t in s.waiting :: s.waiting[t] == s.calls[t])
    && (s.holder.Some? ==>
          var h := s.holder.value;
          h.task in s.calls && s.calls[h.task] == h.code && h.task !in s.waiting && h.task !in s.results)
    && (forall i | IsEnd(s.log, i) ::
          var e := s.log[i];
          && e.task in s.calls && s.calls[e.task] == e.code
          && e.task in s.results && s.results[e.task] == Conclude(e.ending, env.maxBytes))
    && (forall i, j | IsEnd(s.log, i) && IsEnd(s.log, j) && i < j :: s.log[i].task != s.log[j].task)
    && (forall t | t in s.results :: exists i :: IsEnd(s.log, i) && s.log[i].task == t)
  }

  ghost predicate Inv<G>(env: Env<G>, s: Pool<G>) {
    Coherent(env, s) && Accounted(env, s)
  }

  //
  // Every step keeps the invariant
  //

  lemma ReplaySnoc<G>(env: Env<G>, log: seq<Event>, e: Event)
    ensures Replay(env, log + [e]) == ReplayOne(env, Replay(env, log), e)
  {
    hide ReplayOne;
    assert (log + [e])[..|log|] == log;
  }

  /** The reference after a step of the child. */
  function AfterChild<G>(r: Reference<G>, c: Child<G>, a: ChildAction): Reference<G>
    requires r.Up?
  {
    if a.Die? && c.status.Alive? then Up(r.globals, false) else r
  }

  lemma ChildKeepsAnswering<G>(env: Env<G>, c: Child<G>, r: Reference<G>, code: string, seen: seq<Byte>, a: ChildAction)
    requires r.Up? && Answering(env, c, r, code, seen)
    ensures Answering(env, NextChild(env, c, a), AfterChild(r, c, a), code, seen)
  {
    hide Encode, NextBlock, Request, FramesText, DoneText;
    var ran := env.exec(r.globals, code);
    var body := Encode(FramesText(ran.out, ran.err));
    var next := NextChild(env, c, a);
    if a.Compute? && c.status.Alive? && c.work.Waiting? && c.stdin != [] {
      NextRequest(code, []);
      assert Request(code) + [] == Request(code);
      assert next != c ==> next.stdin == [] && seen + next.stdout + next.work.body == body;
    }
    if a.Emit? && next != c {
      assert c.work.body == c.work.body[..a.n] + c.work.body[a.n..];
      assert seen + next.stdout + next.work.body == seen + c.stdout + c.work.body;
    }
    if a.EmitDone? && next != c {
      assert seen + c.stdout + [] == seen + c.stdout;
      assert seen + next.stdout == body + c.work.done;
    }
  }

  lemma ChildKeepsQuiet<G>(env: Env<G>, c: Child<G>, r: Reference<G>, a: ChildAction)
    requires Quiet(Some(c), r)
    ensures Quiet(Some(NextChild(env, c, a)), AfterChild(r, c, a))
  {
    hide NextBlock;
  }

  lemma ProcessStep<G>(env: Env<G>, s: Pool<G>, a: ChildAction)
    requires Coherent(env, s)
    ensures Coherent(env, Next(env, s, Process(a)))
  {
    hide NextChild, Answering, Replay, Parse, Encode;
    if s.child.Some? {
      var c, r := s.child.value, Replay(env, s.log);
      NextStatus(env, c, a);
      assert s.log + [] == s.log;
      if a.Die? {
        ReplaySnoc(env, s.log, Died(a.exitCode));
      }
      ReplaySnoc(env, s.log, Noted);
      if s.holder.None? || s.holder.value.phase.Locked? || s.holder.value.phase.Started? {
        ChildKeepsQuiet(env, c, r, a);
      } else if s.holder.value.phase.Reading? {
        ChildKeepsAnswering(env, c, r, s.holder.value.code, s.holder.value.phase.seen, a);
      }
    }
  }

  lemma NextStatus<G>(env: Env<G>, c: Child<G>, a: ChildAction)
    ensures NextChild(env, c, a).status.Alive? <==> c.status.Alive? && !a.Die?
    ensures !c.status.Alive? ==> NextChild(env, c, a).stdout == c.stdout
  {
    hide NextBlock, Encode;
  }

  lemma AnswerNotEof<G(!new)>(env: Env<G>, r: Reference<G>, code: string, seen: seq<Byte>)
    requires r.Up? && Parse(START, seen).Eof?
    ensures var ran := env.exec(r.globals, code);
            seen != ResponseBytes(ran.out, ran.err, ran.returnCode)
  {
    hide Parse, NeverDone, ResponseBytes;
    var ran := env.exec(r.globals, code);
    StaysInStep(ran.out, ran.err, ran.returnCode, []);
    var bs := ResponseBytes(ran.out, ran.err, ran.returnCode);
    assert bs + [] == bs;
  }

  /** The bytes already in the pipe are a part of the one answer that is due. */
  lemma PipeHoldsAnswer<G>(env: Env<G>, c: Child<G>, r: Reference<G>, code: string, seen: seq<Byte>)
    requires r.Up? && Answering(env, c, r, code, seen) && c.stdout != []
    ensures var ran := env.exec(r.globals, code);
            seen + c.stdout <= ResponseBytes(ran.out, ran.err, ran.returnCode)
  {
    hide Encode;
  }

  /** Reading one whole line of a response: either more of it is to come, or this is what the reader makes of it. */
  lemma ReadWholeLine(parser: Parser, seen: seq<Byte>, line: seq<Byte>, rest: seq<Byte>, all: seq<Byte>)
    requires IsLine(line, NEWLINE) && Terminated(seen, NEWLINE) && Parse(START, seen) == Eof(parser)
    requires seen + (line + rest) == all
    ensures var step := StepLine(parser, Decode(line));
            && (step.More? ==> Parse(START, seen + line) == Eof(step.next))
            && (step.Finish? ==> Parse(START, all) == Done(parser.out, parser.err, step.returnCode, rest))
  {
    hide Parse, Decode, StepLine, LineLength, Terminated;
    assert line + [] == line;
    ParseAppend(START, seen, parser, line + rest);
    ParseLine(parser, line, rest);
    ParseAppend(START, seen, parser, line);
    ParseLine(parser, line, []);
    var step := StepLine(parser, Decode(line));
    if step.More? {
      ParseNothing(step.next);
    }
  }

  /** The first whole line in the pipe, as a part of the answer that is due. */
  lemma ReadWholeLineInPipe(parser: Parser, seen: seq<Byte>, stdout: seq<Byte>, all: seq<Byte>)
    requires NEWLINE in stdout && seen + stdout <= all
    requires Parse(START, seen) == Eof(parser) && Terminated(seen, NEWLINE)
    ensures var n := LineLength(stdout, NEWLINE);
            var step := StepLine(parser, Decode(stdout[..n]));
            && Terminated(seen + stdout[..n], NEWLINE)
            && (step.More? ==> Parse(START, seen + stdout[..n]) == Eof(step.next))
            && (step.Finish? ==> Parse(START, all) == Done(parser.out, parser.err, step.returnCode, all[|seen| + n..]))
  {
    hide Parse, Decode, StepLine, LineLength;
    var n := LineLength(stdout, NEWLINE);
    WholeLineIs(stdout);
    var line, rest := stdout[..n], all[|seen| + n..];
    assert all[..|seen + stdout|] == seen + stdout;
    assert seen + (line + rest) == all;
    ReadWholeLine(parser, seen, line, rest, all);
  }

  lemma WholeLineIs(bs: seq<Byte>)
    requires NEWLINE in bs
    ensures IsLine(bs[..LineLength(bs, NEWLINE)], NEWLINE)
  {
    var n := LineLength(bs, NEWLINE);
    LineLengthIs(bs[..n], NEWLINE, n);
    assert bs[..n][n - 1] == bs[n - 1];
  }

  /** The unfinished last line of a dead child completes an answer only if that is cut out of a forged done line. */
  lemma ReadPartialLine(ran: Response, parser: Parser, seen: seq<Byte>, stdout: seq<Byte>)
    requires NEWLINE !in stdout && stdout != []
    requires Parse(START, seen) == Eof(parser) && Terminated(seen, NEWLINE)
    requires var body := Encode(FramesText(ran.out, ran.err));
             seen + stdout <= body || seen + stdout == body + Encode(DoneText(ran.returnCode))
    ensures var step := StepLine(parser, Decode(stdout));
            && LineLength(stdout, NEWLINE) == |stdout|
            && seen + stdout <= Encode(FramesText(ran.out, ran.err))
            && (step.More? ==> Parse(START, seen + stdout) == Eof(step.next))
            && (step.Finish? ==> !(NeverDone(ran.out) && NeverDone(ran.err)))
  {
    hide Encode, Decode, StepLine, NeverDone, FramesText, DoneText, Parse, LineLength;
    var body := Encode(FramesText(ran.out, ran.err));
    UnfinishedIsInFrames(body, ran.returnCode, seen, stdout);
    assert body[..|seen + stdout|] == seen + stdout;
    ReadLast(parser, seen, stdout);
    if NeverDone(ran.out) && NeverDone(ran.err) {
      CutResponse(ran.out, ran.err, |seen + stdout|, START);
    }
  }

  lemma ReadLast(parser: Parser, seen: seq<Byte>, stdout: seq<Byte>)
    requires NEWLINE !in stdout && stdout != [] && Terminated(seen, NEWLINE)
    requires Parse(START, seen) == Eof(parser)
    ensures LineLength(stdout, NEWLINE) == |stdout|
    ensures var step := StepLine(parser, Decode(stdout));
            if step.More? then Parse(START, seen + stdout) == Eof(step.next) else Parse(START, seen + stdout).Done?
  {
    hide Decode, StepLine, Parse, LineLength;
    LineLengthIs(stdout, NEWLINE, |stdout|);
    ParseAppend(START, seen, parser, stdout);
    ParseStep(parser, stdout);
    assert stdout[..|stdout|] == stdout && stdout[|stdout|..] == [];
    var step := StepLine(parser, Decode(stdout));
    if step.More? {
      ParseNothing(step.next);
    }
  }

  lemma UnfinishedIsInFrames(body: seq<Byte>, returnCode: int, seen: seq<Byte>, stdout: seq<Byte>)
    requires NEWLINE !in stdout && stdout != []
    requires seen + stdout <= body || seen + stdout == body + Encode(DoneText(returnCode))
    ensures seen + stdout <= body
  {
    hide Encode, Decode, Classify, DoneText, LineLength;
    var done := Encode(DoneText(returnCode));
    DoneLineBytes(returnCode);
    assert (body + done)[|body + done| - 1] == NEWLINE;
    assert (seen + stdout)[|seen + stdout| - 1] in stdout;
  }

  /** What a step comes to: the invariant, unless it returns the answer of a call that printed a done line; from then
      on the history is wrong. */
  ghost predicate Keeps<G(!new)>(env: Env<G>, s: Pool<G>, a: Action) {
    var t := Next(env, s, a);
    if Answers(env, s, a) && !OwnNeverDone(env, s) then Replay(env, t.log).Wrong? else Coherent(env, t)
  }

  lemma ReadStep<G(!new)>(env: Env<G>, s: Pool<G>)
    requires Coherent(env, s) && s.holder.Some? && s.holder.value.phase.Reading?
    ensures Keeps(env, s, Call(Read))
  {
    hide Replay, Parse, Decode, Encode, StepLine, LineLength, FramesText, DoneText, NeverDone, Conclude;
    var h, c, r := s.holder.value, s.child.value, Replay(env, s.log);
    var seen, parser := h.phase.seen, h.phase.parser;
    var n := LineLength(c.stdout, NEWLINE);
    var step := StepLine(parser, Decode(c.stdout[..n]));
    var ran := env.exec(r.globals, h.code);
    assert seen + c.stdout[..n] + c.stdout[n..] == seen + c.stdout;
    var all := ResponseBytes(ran.out, ran.err, ran.returnCode);
    assert all + [] == all;
    StaysInStep(ran.out, ran.err, ran.returnCode, []);
    if NEWLINE in c.stdout || (!c.status.Alive? && c.stdout != []) {
      if step.Finish? {
        var e := Ended(h.task, h.code, seen + c.stdout[..n], Answered(parser.out, parser.err, step.returnCode));
        ReplaySnoc(env, s.log, e);
      }
      if NEWLINE in c.stdout {
        PipeHoldsAnswer(env, c, r, h.code, seen);
        ReadWholeLineInPipe(parser, seen, c.stdout, all);
        if step.Finish? && OwnNeverDone(env, s) {
          assert |seen + c.stdout| == |all| && all[..|seen + c.stdout|] == seen + c.stdout;
          AnswerIsOver(env, c, r, h.code, seen);
        }
      } else {
        ReadPartialLine(Response(ran.out, ran.err, ran.returnCode), parser, seen, c.stdout);
        assert c.stdout[..n] == c.stdout && c.stdout[n..] == [];
      }
    }
  }

  /** A living child whose answer is entirely in the pipe waits for the next header with the new globals. */
  lemma AnswerIsOver<G>(env: Env<G>, c: Child<G>, r: Reference<G>, code: string, seen: seq<Byte>)
    requires r.Up? && Answering(env, c, r, code, seen) && c.stdout != []
    requires var ran := env.exec(r.globals, code);
             seen + c.stdout == ResponseBytes(ran.out, ran.err, ran.returnCode)
    ensures c.status.Alive? ==> c.stdin == [] && c.work == Waiting(env.exec(r.globals, code).globals)
  {
    hide Encode, Decode, Classify, FramesText, DoneText;
    var ran := env.exec(r.globals, code);
    DoneLineBytes(ran.returnCode);
  }

  lemma CallStep<G(!new)>(env: Env<G>, s: Pool<G>, a: CallAction)
    requires Coherent(env, s)
    ensures Keeps(env, s, Call(a))
  {
    hide Replay, Parse, Encode, Decode, StepLine, LineLength, Conclude, NeverDone, FramesText, DoneText, Request;
    if s.holder.Some? {
      var h, r := s.holder.value, Replay(env, s.log);
      if h.phase.Locked? {
        ReplaySnoc(env, s.log, Spawned);
      } else if h.phase.Started? {
        ReplaySnoc(env, s.log, Ended(h.task, h.code, [], PipeClosed));
        ParseNothing(START);
      } else if a == Read && h.phase.Reading? {
        ReadStep(env, s);
      } else {
        var seen := h.phase.seen;
        if a.Expire? {
          ReplaySnoc(env, s.log, Ended(h.task, h.code, seen, TimedOut(a.partial, a.seconds)));
        } else if h.phase.Closing? {
          var ending := Crashed(h.phase.parser.out, h.phase.parser.err, h.phase.exitCode);
          ReplaySnoc(env, s.log, Ended(h.task, h.code, seen, ending));
        } else if a.ReadEof? && s.child.value.stdout == [] {
          assert seen + [] == seen;
          ReplaySnoc(env, s.log, HitEof);
          AnswerNotEof(env, r, h.code, seen);
        }
      }
    }
  }

  /** A call in progress only moves on, ends, or makes the log longer by something that is not an end. */
  ghost predicate MovesOn<G>(s: Pool<G>, t: Pool<G>) {
    && t.waiting == s.waiting && t.calls == s.calls && t.results == s.results
    && (s.holder.None? <==> t.holder.None?)
    && (s.holder.Some? ==> t.holder.value.task == s.holder.value.task && t.holder.value.code == s.holder.value.code)
    && (t.log == s.log || (|t.log| == |s.log| + 1 && t.log[..|s.log|] == s.log && !t.log[|s.log|].Ended?))
  }

  ghost predicate Ends<G>(env: Env<G>, s: Pool<G>, t: Pool<G>) {
    && s.holder.Some? && t.holder.None?
    && t.waiting == s.waiting && t.calls == s.calls
    && |t.log| == |s.log| + 1 && t.log[..|s.log|] == s.log
    && t.log[|s.log|].Ended?
    && var e := t.log[|s.log|];
      && e.task == s.holder.value.task && e.code == s.holder.value.code
      && t.results == s.results[e.task := Conclude(e.ending, env.maxBytes)]
  }

  lemma EndEnds<G>(env: Env<G>, s: Pool<G>, child: Option<Child<G>>, seen: seq<Byte>, ending: Ending)
    requires s.holder.Some?
    ensures Ends(env, s, End(env, s, s.holder.value, child, seen, ending))
  {
    hide Conclude;
  }

  lemma CallMovesOnOrEnds<G(!new)>(env: Env<G>, s: Pool<G>, a: CallAction)
    ensures var t := Next(env, s, Call(a)); MovesOn(s, t) || Ends(env, s, t)
  {
    hide Conclude, StepLine, LineLength, Decode, Request, End, Ends;
    if s.holder.Some? {
      forall child, seen, ending
        ensures Ends(env, s, End(env, s, s.holder.value, child, seen, ending))
      {
        EndEnds(env, s, child, seen, ending);
      }
    }
  }

  lemma ProcessMovesOn<G>(env: Env<G>, s: Pool<G>, a: ChildAction)
    ensures MovesOn(s, Next(env, s, Process(a)))
  {
    hide NextChild;
  }

  lemma MovingKeepsAccounted<G>(env: Env<G>, s: Pool<G>, t: Pool<G>)
    requires Accounted(env, s) && MovesOn(s, t)
    ensures Accounted(env, t)
  {
    hide Conclude;
    assert forall i | IsEnd(t.log, i) :: IsEnd(s.log, i) && t.log[i] == s.log[i];
    forall x | x in t.results ensures exists i :: IsEnd(t.log, i) && t.log[i].task == x {
      var i :| IsEnd(s.log, i) && s.log[i].task == x;
      assert IsEnd(t.log, i) && t.log[i].task == x;
    }
  }

  lemma EndKeepsAccounted<G>(env: Env<G>, s: Pool<G>, t: Pool<G>)
    requires Accounted(env, s) && Ends(env, s, t)
    ensures Accounted(env, t)
  {
    hide Conclude;
    var last := |s.log|;
    forall i | IsEnd(t.log, i) && i != last
      ensures IsEnd(s.log, i) && t.log[i] == s.log[i] && s.log[i].task in s.results
      ensures t.log[i].task != t.log[last].task
    {
      assert t.log[i] == t.log[..last][i];
    }
    forall x | x in t.results ensures exists i :: IsEnd(t.log, i) && t.log[i].task == x {
      if x in s.results {
        var i :| IsEnd(s.log, i) && s.log[i].task == x;
        assert IsEnd(t.log, i) && t.log[i].task == x;
      } else {
        assert IsEnd(t.log, last) && t.log[last].task == x;
      }
    }
  }

  lemma StepKeepsAccounted<G(!new)>(env: Env<G>, s: Pool<G>, a: Action)
    requires Accounted(env, s)
    ensures Accounted(env, Next(env, s, a))
  {
    hide Conclude, NextChild, NextHolder, MovesOn, Ends;
    match a
    case Submit(_, _) =>
    case Acquire(_) =>
    case Call(call) =>
      CallMovesOnOrEnds(env, s, call);
      if MovesOn(s, Next(env, s, a)) {
        MovingKeepsAccounted(env, s, Next(env, s, a));
      } else {
        EndKeepsAccounted(env, s, Next(env, s, a));
      }
    case Process(step) =>
      ProcessMovesOn(env, s, step);
      MovingKeepsAccounted(env, s, Next(env, s, a));
  }

  lemma {:induction false} AccountedFrom<G(!new)>(env: Env<G>, s: Pool<G>, schedule: seq<Action>)
    requires Accounted(env, s)
    ensures Accounted(env, RunSchedule(env, s, schedule))
    decreases |schedule|
  {
    hide Next, Accounted;
    if schedule != [] {
      StepKeepsAccounted(env, s, schedule[0]);
      AccountedFrom(env, Next(env, s, schedule[0]), schedule[1..]);
    }
  }

  lemma LogGrows<G(!new)>(env: Env<G>, s: Pool<G>, a: Action)
    ensures s.log <= Next(env, s, a).log
  {
    hide NextChild, Conclude, StepLine, LineLength, Decode, Request;
  }

  /** A wrong history stays wrong. */
  lemma {:induction false} WrongFrom<G(!new)>(env: Env<G>, s: Pool<G>, schedule: seq<Action>)
    requires Replay(env, s.log).Wrong?
    ensures Replay(env, RunSchedule(env, s, schedule).log).Wrong?
    decreases |schedule|
  {
    hide Next, Replay;
    if schedule != [] {
      var t := Next(env, s, schedule[0]);
      LogGrows(env, s, schedule[0]);
      assert t.log == s.log + t.log[|s.log|..];
      WrongStays(env, s.log, t.log[|s.log|..]);
      WrongFrom(env, t, schedule[1..]);
    }
  }

  lemma {:induction false} CoherentFrom<G(!new)>(env: Env<G>, s: Pool<G>, schedule: seq<Action>)
    requires Coherent(env, s)
    ensures var t := RunSchedule(env, s, schedule);
            if InStep(env, s, schedule) then Coherent(env, t) else Replay(env, t.log).Wrong?
    decreases |schedule|
  {
    hide Next, Coherent, Replay, Answers, OwnNeverDone;
    if schedule != [] {
      var t := Next(env, s, schedule[0]);
      StepKeepsCoherent(env, s, schedule[0]);
      if Answers(env, s, schedule[0]) && !OwnNeverDone(env, s) {
        WrongFrom(env, t, schedule[1..]);
      } else {
        CoherentFrom(env, t, schedule[1..]);
      }
    }
  }

  lemma StepKeepsCoherent<G(!new)>(env: Env<G>, s: Pool<G>, a: Action)
    requires Coherent(env, s)
    ensures Keeps(env, s, a)
  {
    hide Replay, PhaseOk, NextHolder, NextChild, OwnNeverDone;
    match a
    case Process(step) => ProcessStep(env, s, step);
    case Call(call) => CallStep(env, s, call);
    case Submit(_, _) =>
    case Acquire(task) => LockedIsQuiet(env, s, task);
  }

  lemma LockedIsQuiet<G>(env: Env<G>, s: Pool<G>, task: nat)
    requires Coherent(env, s)
    ensures Coherent(env, Next(env, s, Acquire(task)))
  {
    hide Replay, NextHolder, NextChild;
  }

  //
  // The theorems
  //

  /** For every interleaving of calls with every behaviour of the child, death at any step included: the history is
      one the sequential interpreter can replay if and only if no call that returned an answer had printed a done line;
      then, whenever the lock is free, the child is as the replay has it and nothing of an earlier call is left to be
      read; and, done lines or not, every call returned at most once, with the outcome its own end in the history gives.
      A done line printed before the child was last spawned does no harm any more: see `StartsOver`. */
  lemma Refinement<G(!new)>(env: Env<G>, schedule: seq<Action>)
    ensures var s := RunSchedule(env, Initial(), schedule);
            && (InStep(env, Initial(), schedule) <==> !Replay(env, s.log).Wrong?)
            && (s.holder.None? ==> (InStep(env, Initial(), schedule) <==> Quiet(s.child, Replay(env, s.log))))
            && (forall t | t in s.results :: exists i :: IsEnd(s.log, i) && s.log[i].task == t)
            && (forall i | IsEnd(s.log, i) ::
                  var e := s.log[i];
                  && e.task in s.calls && e.code == s.calls[e.task]
                  && e.task in s.results && s.results[e.task] == Conclude(e.ending, env.maxBytes))
            && (forall i, j | IsEnd(s.log, i) && IsEnd(s.log, j) && i < j :: s.log[i].task != s.log[j].task)
  {
    hide Replay, Conclude, RunSchedule, Answering, Parse, Encode, Quiet, InStep;
    InitiallyOk(env);
    AccountedFrom(env, Initial(), schedule);
    CoherentFrom(env, Initial(), schedule);
    var s := RunSchedule(env, Initial(), schedule);
    QuietIsNotWrong(s.child, Replay(env, s.log));
  }

  //
  // Starting over
  //

  /** This step puts a fresh child in the place of one that is absent or has been noticed to be dead. */
  predicate Spawns<G(!new)>(env: Env<G>, s: Pool<G>, a: Action) {
    Next(env, s, a).log == s.log + [Spawned]
  }

  /** The state with no history but the latest spawning. */
  function Forgetful<G>(s: Pool<G>): Pool<G> {
    s.(log := [Spawned])
  }

  ghost predicate SpawnsAt<G(!new)>(env: Env<G>, schedule: seq<Action>, k: nat) {
    k < |schedule| && Spawns(env, RunSchedule(env, Initial(), schedule[..k]), schedule[k])
  }

  /** What the history would be if it began with step k, a spawning. */
  function HistorySince<G>(env: Env<G>, schedule: seq<Action>, k: nat): seq<Event>
    requires k < |schedule|
  {
    RunSchedule(env, Forgetful(RunSchedule(env, Initial(), schedule[..k + 1])), schedule[k + 1..]).log
  }

  /** From step k on, a spawning, no call that returned an answer had printed a done line. */
  ghost predicate InStepSince<G(!new)>(env: Env<G>, schedule: seq<Action>, k: nat)
    requires k < |schedule|
  {
    InStep(env, Forgetful(RunSchedule(env, Initial(), schedule[..k + 1])), schedule[k + 1..])
  }

  /** The same added, whichever history it is added to. */
  ghost predicate AddsAlike<G>(s: Pool<G>, log: seq<Event>, t: Pool<G>, u: Pool<G>) {
    exists es: seq<Event> :: t.log == s.log + es && u == t.(log := log + es)
  }

  lemma Adds<G>(s: Pool<G>, log: seq<Event>, t: Pool<G>, u: Pool<G>, es: seq<Event>)
    requires t.log == s.log + es && u == t.(log := log + es)
    ensures AddsAlike(s, log, t, u)
  {
  }

  lemma AddsNothing<G>(s: Pool<G>, log: seq<Event>, t: Pool<G>, u: Pool<G>)
    requires t.log == s.log && u == t.(log := log)
    ensures AddsAlike(s, log, t, u)
  {
    assert s.log + [] == s.log && log + [] == log;
  }

  lemma EndAdds<G>(env: Env<G>, s: Pool<G>, log: seq<Event>, h: Holder, child: Option<Child<G>>, seen: seq<Byte>,
                   ending: Ending)
    ensures AddsAlike(s, log, End(env, s, h, child, seen, ending), End(env, s.(log := log), h, child, seen, ending))
  {
    hide Conclude;
    var t := End(env, s, h, child, seen, ending);
    Adds(s, log, t, End(env, s.(log := log), h, child, seen, ending), [Ended(h.task, h.code, seen, ending)]);
  }

  lemma ReadingAdds<G(!new)>(env: Env<G>, s: Pool<G>, h: Holder, a: CallAction, log: seq<Event>)
    requires h.phase.Reading?
    ensures AddsAlike(s, log, NextHolder(env, s, h, a), NextHolder(env, s.(log := log), h, a))
  {
    hide Conclude, StepLine, LineLength, Decode, End, AddsAlike;
    var t, u := NextHolder(env, s, h, a), NextHolder(env, s.(log := log), h, a);
    var parser, seen := h.phase.parser, h.phase.seen;
    if s.child.Some? {
      var stdout := s.child.value.stdout;
      var line, rest := stdout[..LineLength(stdout, NEWLINE)], stdout[LineLength(stdout, NEWLINE)..];
      var step := StepLine(parser, Decode(line));
      if a.Expire? {
        EndAdds(env, s, log, h, None, seen, TimedOut(a.partial, a.seconds));
      } else if a == Read && (NEWLINE in stdout || (!s.child.value.status.Alive? && stdout != [])) && step.Finish? {
        EndAdds(env, s, log, h, Some(s.child.value.(stdout := rest)), seen + line,
                Answered(parser.out, parser.err, step.returnCode));
      } else if a == ReadEof && !s.child.value.status.Alive? && stdout == [] {
        Adds(s, log, t, u, [HitEof]);
      } else {
        AddsNothing(s, log, t, u);
      }
    } else {
      AddsNothing(s, log, t, u);
    }
  }

  lemma ClosingAdds<G(!new)>(env: Env<G>, s: Pool<G>, h: Holder, a: CallAction, log: seq<Event>)
    requires h.phase.Closing?
    ensures AddsAlike(s, log, NextHolder(env, s, h, a), NextHolder(env, s.(log := log), h, a))
  {
    hide Conclude, StepLine, LineLength, Decode, Request, End, AddsAlike;
    var parser, seen, exitCode := h.phase.parser, h.phase.seen, h.phase.exitCode;
    if a == CloseDead {
      EndAdds(env, s, log, h, None, seen, Crashed(parser.out, parser.err, exitCode));
    } else if a.Expire? {
      EndAdds(env, s, log, h, None, seen, TimedOut(a.partial, a.seconds));
    } else {
      AddsNothing(s, log, NextHolder(env, s, h, a), NextHolder(env, s.(log := log), h, a));
    }
  }

  lemma StartedAdds<G(!new)>(env: Env<G>, s: Pool<G>, h: Holder, a: CallAction, log: seq<Event>)
    requires h.phase.Started?
    ensures AddsAlike(s, log, NextHolder(env, s, h, a), NextHolder(env, s.(log := log), h, a))
  {
    hide Conclude, StepLine, LineLength, Decode, Request, End, AddsAlike;
    if s.child.Some? && a == SendFails && !s.child.value.status.Alive? {
      EndAdds(env, s, log, h, None, [], PipeClosed);
    } else {
      AddsNothing(s, log, NextHolder(env, s, h, a), NextHolder(env, s.(log := log), h, a));
    }
  }

  lemma HolderAppends<G(!new)>(env: Env<G>, s: Pool<G>, h: Holder, a: CallAction, log: seq<Event>)
    ensures AddsAlike(s, log, NextHolder(env, s, h, a), NextHolder(env, s.(log := log), h, a))
  {
    hide StepLine, LineLength, Decode, Request, End, AddsAlike;
    match h.phase
    case Reading(_, _) => ReadingAdds(env, s, h, a, log);
    case Closing(_, _, _) => ClosingAdds(env, s, h, a, log);
    case Started => StartedAdds(env, s, h, a, log);
    case Locked =>
      var t, u := NextHolder(env, s, h, a), NextHolder(env, s.(log := log), h, a);
      if t.log == s.log {
        AddsNothing(s, log, t, u);
      } else {
        Adds(s, log, t, u, [Spawned]);
      }
  }

  lemma NextAppends<G(!new)>(env: Env<G>, s: Pool<G>, a: Action, log: seq<Event>)
    ensures AddsAlike(s, log, Next(env, s, a), Next(env, s.(log := log), a))
  {
    hide NextChild, NextHolder, AddsAlike;
    var t, u := Next(env, s, a), Next(env, s.(log := log), a);
    if a.Call? && s.holder.Some? {
      HolderAppends(env, s, s.holder.value, a.call, log);
    } else if t.log == s.log {
      AddsNothing(s, log, t, u);
    } else {
      Adds(s, log, t, u, [t.log[|s.log|]]);
    }
  }

  /** A run only adds to the history, and adds the same whatever was in it. */
  lemma {:induction false} RunAppends<G(!new)>(env: Env<G>, s: Pool<G>, schedule: seq<Action>, log: seq<Event>)
    returns (es: seq<Event>)
    ensures var t := RunSchedule(env, s, schedule);
            t.log == s.log + es && RunSchedule(env, s.(log := log), schedule) == t.(log := log + es)
    decreases |schedule|
  {
    hide Next;
    if schedule == [] {
      es := [];
      assert s.log + es == s.log && log + es == log;
    } else {
      var n := Next(env, s, schedule[0]);
      NextAppends(env, s, schedule[0], log);
      var first: seq<Event> :|
        n.log == s.log + first && Next(env, s.(log := log), schedule[0]) == n.(log := log + first);
      var more := RunAppends(env, n, schedule[1..], log + first);
      es := first + more;
      assert log + first + more == log + es && s.log + first + more == s.log + es;
    }
  }

  /** What a step that spawns leaves: a fresh child and a call that is about to send to it. */
  lemma SpawnIsFresh<G(!new)>(env: Env<G>, s: Pool<G>, a: Action)
    requires Spawns(env, s, a)
    ensures var t := Next(env, s, a);
            && t.holder.Some? && t.holder.value.phase.Started?
            && t.child == Some(Child(Alive, [], [], Waiting(env.initial)))
  {
    hide NextChild, Conclude, StepLine, LineLength, Decode, Request;
    assert Next(env, s, a).log[|s.log|] == Spawned;
  }

  lemma SpawnIsCoherent<G(!new)>(env: Env<G>, s: Pool<G>, a: Action)
    requires Spawns(env, s, a)
    ensures Coherent(env, Forgetful(Next(env, s, a)))
  {
    hide Next, Spawns, Replay, Answering, Parse;
    SpawnIsFresh(env, s, a);
    assert [] + [Spawned] == [Spawned];
    ReplaySnoc(env, [], Spawned);
    ReplayNothing(env);
  }

  lemma CoherentIsRight<G>(env: Env<G>, s: Pool<G>)
    ensures Coherent(env, s) ==> !Replay(env, s.log).Wrong?
  {
    hide Replay, Answering, Parse;
  }

  lemma ReplayNothing<G>(env: Env<G>)
    ensures Replay(env, []) == Down
  {
  }

  /** From every step that spawns a child everything starts over, whatever went before it: the history from that step on
      is one the sequential interpreter can replay, and with the lock free nothing of an earlier call is left to be
      read, if and only if no call that returned an answer since had printed a done line. */
  lemma StartsOver<G(!new)>(env: Env<G>, schedule: seq<Action>, k: nat)
    requires SpawnsAt(env, schedule, k)
    ensures var s, since := RunSchedule(env, Initial(), schedule), HistorySince(env, schedule, k);
            && s.log == RunSchedule(env, Initial(), schedule[..k]).log + since
            && (InStepSince(env, schedule, k) <==> !Replay(env, since).Wrong?)
            && (s.holder.None? ==> (InStepSince(env, schedule, k) <==> Quiet(s.child, Replay(env, since))))
  {
    hide Next, Replay, RunSchedule, Quiet, InStep, PhaseOk;
    var before, spawn, after := schedule[..k], schedule[k], schedule[k + 1..];
    assert schedule[..k + 1] == before + [spawn] && schedule == schedule[..k + 1] + after;
    var s0 := RunSchedule(env, Initial(), before);
    var s1 := Next(env, s0, spawn);
    RunSplit(env, Initial(), before, [spawn]);
    RunOne(env, s0, spawn);
    RunSplit(env, Initial(), schedule[..k + 1], after);
    var s := RunSchedule(env, Initial(), schedule);
    assert s == RunSchedule(env, s1, after);
    var more := RunAppends(env, s1, after, [Spawned]);
    SpawnIsCoherent(env, s0, spawn);
    CoherentFrom(env, Forgetful(s1), after);
    CoherentIsRight(env, RunSchedule(env, Forgetful(s1), after));
    assert s0.log + [Spawned] + more == s0.log + ([Spawned] + more);
    QuietIsNotWrong(s.child, Replay(env, HistorySince(env, schedule, k)));
  }

  lemma InitiallyOk<G>(env: Env<G>)
    ensures Coherent(env, Initial()) && Accounted(env, Initial())
  {
  }

  lemma QuietIsNotWrong<G>(c: Option<Child<G>>, r: Reference<G>)
    ensures Quiet(c, r) ==> !r.Wrong?
  {
  }

  lemma {:induction false} WrongStays<G>(env: Env<G>, a: seq<Event>, b: seq<Event>)
    requires Replay(env, a).Wrong?
    ensures Replay(env, a + b).Wrong?
    decreases |b|
  {
    if b == [] {
      assert a + b == a;
    } else {
      var n := |b| - 1;
      assert a + b == a + b[..n] + [b[n]];
      WrongStays(env, a, b[..n]);
      ReplaySnoc(env, a + b[..n], b[n]);
    }
  }

  function Codes(es: seq<Event>): (codes: seq<string>)
    requires forall i | 0 <= i < |es| :: es[i].Ended?
    ensures |codes| == |es|
  {
    seq(|es|, i requires 0 <= i < |es| => es[i].code)
  }

  /** Between failures the answers are what the reader makes of the responses of running the same code blocks in order
      on one interpreter; and that is the very output, less one trailing newline, exactly for clean output. */
  lemma {:induction false} AnswersInOrder<G>(env: Env<G>, log: seq<Event>, es: seq<Event>)
    requires forall i | 0 <= i < |es| :: es[i].Ended? && es[i].ending.Answered?
    ensures var r := Replay(env, log);
            r.Up? && !Replay(env, log + es).Wrong? ==>
            var (last, responses) := RunAll(env.exec, r.globals, Codes(es));
            && Replay(env, log + es) == Up(last, r.alive)
            && |responses| == |es|
            && (forall i | 0 <= i < |es| :: IsReadFrom(es[i].ending, responses[i]))
    decreases |es|
  {
    hide Replay, IsReadFrom, ResponseBytes, Parse;
    if es == [] {
      assert log + es == log;
    } else if Replay(env, log).Up? && !Replay(env, log + es).Wrong? {
      var tail := es[1..];
      assert log + es == log + [es[0]] + tail;
      ReplaySnoc(env, log, es[0]);
      if Replay(env, log + [es[0]]).Wrong? {
        WrongStays(env, log + [es[0]], tail);
      }
      AnswersInOrder(env, log + [es[0]], tail);
      var ran := env.exec(Replay(env, log).globals, es[0].code);
      ReadFrom(es[0].ending, Response(ran.out, ran.err, ran.returnCode));
      assert Codes(es)[1..] == Codes(tail);
      assert forall i | 0 < i < |es| :: es[i] == tail[i - 1];
    }
  }

  /** The answer is what the reader makes of the whole response, and the very output exactly if that is clean. */
  predicate IsReadFrom(ending: Ending, r: Response) {
    && ending.Answered?
    && Parse(START, ResponseBytes(r.out, r.err, r.returnCode)) == Done(ending.out, ending.err, ending.returnCode, [])
    && (Clean(r.out) && Clean(r.err) <==>
          var echo := Echo(r); ending == Answered(echo.out, echo.err, echo.returnCode))
  }

  lemma ReadFrom(ending: Ending, r: Response)
    requires ending.Answered?
    requires Parse(START, ResponseBytes(r.out, r.err, r.returnCode))
          == Done(ending.out, ending.err, ending.returnCode, [])
    ensures IsReadFrom(ending, r)
  {
    hide Clean, Parse, ResponseBytes;
    var bs := ResponseBytes(r.out, r.err, r.returnCode);
    assert bs + [] == bs;
    ResponseRoundTrip(r.out, r.err, r.returnCode, []);
  }

  //
  // Losing step
  //

  lemma {:induction false} RunSplit<G(!new)>(env: Env<G>, s: Pool<G>, a: seq<Action>, b: seq<Action>)
    ensures RunSchedule(env, s, a + b) == RunSchedule(env, RunSchedule(env, s, a), b)
    decreases |a|
  {
    hide Next;
    if a == [] {
      assert a + b == b;
    } else {
      assert (a + b)[1..] == a[1..] + b;
      RunSplit(env, Next(env, s, a[0]), a[1..], b);
    }
  }

  lemma RunOne<G(!new)>(env: Env<G>, s: Pool<G>, a: Action)
    ensures RunSchedule(env, s, [a]) == Next(env, s, a)
  {
    hide Next;
    assert RunSchedule(env, s, [a]) == RunSchedule(env, Next(env, s, a), []);
  }

  function Reads(n: nat): seq<Action> {
    if n == 0 then [] else [Call(Read)] + Reads(n - 1)
  }

  /** Whatever whole lines are in the pipe, if the reader can make an answer of them then so many reads return it. */
  lemma {:induction false} ReadsAnswer<G(!new)>(env: Env<G>, s: Pool<G>) returns (n: nat)
    requires s.holder.Some? && s.holder.value.phase.Reading? && s.child.Some?
    requires Terminated(s.child.value.stdout, NEWLINE)
    requires Parse(s.holder.value.phase.parser, s.child.value.stdout).Done?
    ensures var r := Parse(s.holder.value.phase.parser, s.child.value.stdout);
            var t := RunSchedule(env, s, Reads(n));
            && t.child == Some(s.child.value.(stdout := r.rest)) && t.holder.None?
            && t.waiting == s.waiting && t.calls == s.calls
            && t.results == s.results[
                 s.holder.value.task := Conclude(Answered(r.out, r.err, r.returnCode), env.maxBytes)]
    decreases |s.child.value.stdout|
  {
    hide Decode, StepLine, Conclude, LineLength;
    var stdout := s.child.value.stdout;
    var line, rest := WholeLine(stdout);
    FirstLineLength(line, rest);
    ParseLine(s.holder.value.phase.parser, line, rest);
    var t := Next(env, s, Call(Read));
    assert NEWLINE in stdout by { assert line[|line| - 1] in stdout; }
    assert Reads(1)[1..] == [];
    if t.holder.None? {
      n := 1;
    } else {
      n := ReadsAnswer(env, t);
      n := n + 1;
    }
  }

  function Queue(x: string, y: string): seq<Action> {
    [Submit(0, x), Submit(1, y), Acquire(0)]
  }

  const START_AND_SEND: seq<Action> := [Call(CallAction.Start), Call(Send)]

  function Respond(bodySize: nat): seq<Action> {
    [Process(Compute), Process(Emit(bodySize)), Process(EmitDone)]
  }

  lemma Queued<G(!new)>(env: Env<G>, x: string, y: string)
    ensures var s := RunSchedule(env, Initial<G>(), Queue(x, y));
            && s.holder == Some(Holder(0, x, Locked)) && s.child == None
            && s.waiting == map[1 := y] && s.calls == map[0 := x, 1 := y] && s.results == map[]
  {
    var s0 := Initial<G>();
    var s1 := Next(env, s0, Submit(0, x));
    var s2 := Next(env, s1, Submit(1, y));
    var s3 := Next(env, s2, Acquire(0));
    assert RunSchedule(env, s0, Queue(x, y)) == RunSchedule(env, s1, [Submit(1, y), Acquire(0)]);
    assert RunSchedule(env, s1, [Submit(1, y), Acquire(0)]) == RunSchedule(env, s2, [Acquire(0)]);
    assert RunSchedule(env, s2, [Acquire(0)]) == RunSchedule(env, s3, []);
    assert s3.waiting == map[1 := y];
  }

  lemma Sent<G(!new)>(env: Env<G>, s: Pool<G>)
    requires s.holder.Some? && s.holder.value.phase.Locked?
    requires s.child.Some? ==> s.child.value.status.Alive?
    ensures var t := RunSchedule(env, s, START_AND_SEND);
            var c := if s.child.Some? then s.child.value else Child(Alive, [], [], Waiting(env.initial));
            && t.holder == Some(s.holder.value.(phase := Reading(START, [])))
            && t.child == Some(c.(stdin := c.stdin + Request(s.holder.value.code)))
            && t.waiting == s.waiting && t.calls == s.calls && t.results == s.results
  {
    hide Request, Parse;
    var t := Next(env, s, Call(CallAction.Start));
    assert RunSchedule(env, s, START_AND_SEND) == RunSchedule(env, t, [Call(Send)]);
    assert RunSchedule(env, t, [Call(Send)]) == RunSchedule(env, Next(env, t, Call(Send)), []);
  }

  lemma Responded<G(!new)>(env: Env<G>, s: Pool<G>, code: string)
    requires s.child.Some? && s.child.value == Child(Alive, Request(code), [], Waiting(env.initial))
    ensures var ran := env.exec(env.initial, code);
            var body := Encode(FramesText(ran.out, ran.err));
            RunSchedule(env, s, Respond(|body|)) == s.(
              child := Some(Child(Alive, [], ResponseBytes(ran.out, ran.err, ran.returnCode), Waiting(ran.globals))))
  {
    hide Encode, Request, NextBlock, FramesText, DoneText;
    NextRequest(code, []);
    assert Request(code) + [] == Request(code);
    RequestHasLine(code);
    var ran := env.exec(env.initial, code);
    var body := Encode(FramesText(ran.out, ran.err));
    var s1 := Next(env, s, Process(Compute));
    var s2 := Next(env, s1, Process(Emit(|body|)));
    var s3 := Next(env, s2, Process(EmitDone));
    assert body[..|body|] == body && body[|body|..] == [] && [] + body == body;
    assert RunSchedule(env, s, Respond(|body|)) == RunSchedule(env, s1, [Process(Emit(|body|)), Process(EmitDone)]);
    assert RunSchedule(env, s1, [Process(Emit(|body|)), Process(EmitDone)])
        == RunSchedule(env, s2, [Process(EmitDone)]);
    assert RunSchedule(env, s2, [Process(EmitDone)]) == RunSchedule(env, s3, []);
  }

  lemma RequestHasLine(code: string)
    ensures NEWLINE in Request(code)
  {
    hide Encode, Decimal.IntText;
    var digits := Decimal.IntText(|Encode(code)|);
    EncodeTerminated(digits);
    assert Request(code)[|Encode(digits)|] == NEWLINE;
  }

  /** A call whose code printed a done line returns and leaves the rest of its response in the pipe. */
  lemma LosesStep<G(!new)>(env: Env<G>, x: string, y: string) returns (schedule: seq<Action>)
    requires var ran := env.exec(env.initial, x); !(NeverDone(ran.out) && NeverDone(ran.err))
    ensures var ran := env.exec(env.initial, x);
            var first := Parse(START, ResponseBytes(ran.out, ran.err, ran.returnCode));
            var s := RunSchedule(env, Initial(), schedule);
            && first.Done? && first.rest != [] && s.holder.None?
            && s.child == Some(Child(Alive, [], first.rest, Waiting(ran.globals)))
            && s.waiting == map[1 := y] && s.calls == map[0 := x, 1 := y]
            && s.results == map[0 := Conclude(Answered(first.out, first.err, first.returnCode), env.maxBytes)]
  {
    hide RunSchedule, Encode, Parse, NeverDone, Conclude, FramesText, DoneText, ResponseBytes, Request;
    hide Queue, Respond, Reads;
    var ran := env.exec(env.initial, x);
    var bodySize := |Encode(FramesText(ran.out, ran.err))|;
    Queued(env, x, y);
    var s0 := RunSchedule(env, Initial(), Queue(x, y));
    Sent(env, s0);
    var s1 := RunSchedule(env, s0, START_AND_SEND);
    assert [] + Request(x) == Request(x);
    Responded(env, s1, x);
    var s2 := RunSchedule(env, s1, Respond(bodySize));
    ResponseEnds(ran.out, ran.err, ran.returnCode);
    LeftoversAnswer(ran.out, ran.err, ran.returnCode, START);
    var n := ReadsAnswer(env, s2);
    var p0 := Queue(x, y) + START_AND_SEND;
    RunSplit(env, Initial(), Queue(x, y), START_AND_SEND);
    var p1 := p0 + Respond(bodySize);
    RunSplit(env, Initial(), p0, Respond(bodySize));
    schedule := p1 + Reads(n);
    RunSplit(env, Initial(), p1, Reads(n));
  }

  /** Where step is lost and the child lives on, calls mix: whatever the interpreter, if the first code prints a done
      line then for every second code there is a schedule in which the second call returns what the reader makes of the
      first one's leftovers, while the second code still lies unread in the runner's pipe. */
  lemma CrossTalk<G(!new)>(env: Env<G>, x: string, y: string) returns (schedule: seq<Action>)
    requires var ran := env.exec(env.initial, x); !(NeverDone(ran.out) && NeverDone(ran.err))
    ensures var ran := env.exec(env.initial, x);
            var first := Parse(START, ResponseBytes(ran.out, ran.err, ran.returnCode));
            var s := RunSchedule(env, Initial(), schedule);
            && first.Done? && s.calls == map[0 := x, 1 := y] && s.holder.None?
            && var second := Parse(START, first.rest);
              && second.Done? && s.child.Some? && s.child.value.stdin == Request(y)
              && s.results == map[
                   0 := Conclude(Answered(first.out, first.err, first.returnCode), env.maxBytes),
                   1 := Conclude(Answered(second.out, second.err, second.returnCode), env.maxBytes)]
  {
    hide RunSchedule, Encode, Parse, NeverDone, Conclude, FramesText, DoneText, ResponseBytes, Request, Reads;
    var ran := env.exec(env.initial, x);
    var first := LosesStep(env, x, y);
    LeftoversAnswer(ran.out, ran.err, ran.returnCode, START);
    var s0 := RunSchedule(env, Initial(), first);
    RunOne(env, s0, Acquire(1));
    var s1 := RunSchedule(env, s0, [Acquire(1)]);
    Sent(env, s1);
    assert [] + Request(y) == Request(y);
    var s2 := RunSchedule(env, s1, START_AND_SEND);
    var n := ReadsAnswer(env, s2);
    RunSplit(env, Initial(), first, [Acquire(1)]);
    RunSplit(env, Initial(), first + [Acquire(1)], START_AND_SEND);
    schedule := first + [Acquire(1)] + START_AND_SEND + Reads(n);
    RunSplit(env, Initial(), first + [Acquire(1)] + START_AND_SEND, Reads(n));
  }

  /** Where the child is killed nothing is left: after the same first call a timeout of the second one clears the pipes
      with their process, although the history is not one the sequential interpreter could replay. */
  lemma TimeoutClears<G(!new)>(env: Env<G>, x: string, y: string, partial: string, seconds: int)
    returns (schedule: seq<Action>)
    requires var ran := env.exec(env.initial, x); !(NeverDone(ran.out) && NeverDone(ran.err))
    ensures var s := RunSchedule(env, Initial(), schedule);
            && s.holder.None? && s.child.None? && 0 in s.results && 1 in s.results
            && !InStep(env, Initial(), schedule)
  {
    hide RunSchedule, Parse, NeverDone, Conclude, ResponseBytes, Request, InStep, Replay;
    var first := LosesStep(env, x, y);
    Refinement(env, first);
    var s0 := RunSchedule(env, Initial(), first);
    RunOne(env, s0, Acquire(1));
    var s1 := RunSchedule(env, s0, [Acquire(1)]);
    Sent(env, s1);
    var s2 := RunSchedule(env, s1, START_AND_SEND);
    RunOne(env, s2, Call(Expire(partial, seconds)));
    var last := [Acquire(1)] + START_AND_SEND + [Call(Expire(partial, seconds))];
    RunSplit(env, s0, [Acquire(1)], START_AND_SEND);
    RunSplit(env, s0, [Acquire(1)] + START_AND_SEND, [Call(Expire(partial, seconds))]);
    schedule := first + last;
    RunSplit(env, Initial(), first, last);
    WrongFrom(env, s0, last);
    Refinement(env, schedule);
  }

  lemma ResponseEnds(out: string, err: string, returnCode: int)
    ensures Terminated(ResponseBytes(out, err, returnCode), NEWLINE)
  {
    hide Encode, Decode, FramesText, DoneText, LineLength, Classify;
    DoneLineBytes(returnCode);
  }
}

/** What callers of `execute` are told, over whole runs: the texts of an answer, and the resource blamed for a crash
    (sandbox/runner_pool.py). */
module Outcomes {
  import opened Utf8
  import opened Lines
  import opened Wrappers
  import opened Wire
  import opened Limits
  import opened Runner
  import opened RunnerPool
  import opened Lifecycle

  //
  // Crashes
  //

  /** What the history says of the child, if there is one. */
  function StatusIn(log: seq<Event>): Option<Status> {
    if log == [] then None
    else
      var n := |log| - 1;
      var before := StatusIn(log[..n]);
      match log[n]
      case Spawned => Some(Alive)
      case Died(exitCode) => Some(Zombie(exitCode))
      case Noted => if before.Some? && before.value.Zombie? then Some(Noticed(before.value.exitCode)) else before
      case HitEof => before
      case Ended(_, _, _, ending) => if ending.Answered? then before else None
  }

  /** The exit code the call in progress knew of when it read the end of file: that of the child's death if this had
      been noticed by then. */
  function KnownAtEof(log: seq<Event>): Option<int> {
    if log == [] then None
    else
      var n := |log| - 1;
      match log[n]
      case HitEof =>
        var status := StatusIn(log[..n]);
        if status.Some? && status.value.Noticed? then Some(status.value.exitCode) else None
      case Died(_) => KnownAtEof(log[..n])
      case Noted => KnownAtEof(log[..n])
      case _ => None
  }

  lemma Snoc(log: seq<Event>, e: Event)
    ensures var before := StatusIn(log);
            StatusIn(log + [e]) ==
            match e
            case Spawned => Some(Alive)
            case Died(exitCode) => Some(Zombie(exitCode))
            case Noted => if before.Some? && before.value.Zombie? then Some(Noticed(before.value.exitCode)) else before
            case HitEof => before
            case Ended(_, _, _, ending) => if ending.Answered? then before else None
    ensures KnownAtEof(log + [e]) ==
            match e
            case HitEof =>
              var status := StatusIn(log);
              if status.Some? && status.value.Noticed? then Some(status.value.exitCode) else None
            case Died(_) => KnownAtEof(log)
            case Noted => KnownAtEof(log)
            case _ => None
  {
    assert (log + [e])[..|log|] == log;
  }

  /** The history knows the child's status, and a call that has read the end of file holds the exit code known then. */
  ghost predicate Told<G>(s: Pool<G>) {
    && StatusIn(s.log) == (if s.child.Some? then Some(s.child.value.status) else None)
    && (s.holder.Some? && s.holder.value.phase.Closing? ==> s.holder.value.phase.exitCode == KnownAtEof(s.log))
  }

  ghost predicate CrashesTold(log: seq<Event>) {
    forall i | IsEnd(log, i) && log[i].ending.Crashed? :: log[i].ending.exitCode == KnownAtEof(log[..i])
  }

  lemma CrashesSnoc(log: seq<Event>, e: Event)
    requires CrashesTold(log)
    requires e.Ended? && e.ending.Crashed? ==> e.ending.exitCode == KnownAtEof(log)
    ensures CrashesTold(log + [e])
  {
    hide KnownAtEof;
    var t := log + [e];
    forall i | IsEnd(t, i) && t[i].ending.Crashed? ensures t[i].ending.exitCode == KnownAtEof(t[..i]) {
      if i < |log| {
        assert t[..i] == log[..i] && IsEnd(log, i);
      } else {
        assert t[..i] == log;
      }
    }
  }

  lemma ProcessTold<G(!new)>(env: Env<G>, s: Pool<G>, a: ChildAction)
    requires Told(s) && CrashesTold(s.log)
    ensures var t := Next(env, s, Process(a)); Told(t) && CrashesTold(t.log)
  {
    hide StatusIn, KnownAtEof, CrashesTold, NextBlock, Encode;
    assert s.log + [] == s.log;
    if s.child.Some? && a.Die? && s.child.value.status.Alive? {
      Snoc(s.log, Died(a.exitCode));
      CrashesSnoc(s.log, Died(a.exitCode));
    } else if s.child.Some? && a.Notice? && s.child.value.status.Zombie? {
      Snoc(s.log, Noted);
      CrashesSnoc(s.log, Noted);
    }
  }

  lemma EndTold<G(!new)>(env: Env<G>, s: Pool<G>, child: Option<Child<G>>, seen: seq<Byte>, ending: Ending)
    requires Told(s) && CrashesTold(s.log) && s.holder.Some?
    requires if ending.Answered? then child.Some? && s.child.Some? && child.value.status == s.child.value.status
             else child.None?
    requires ending.Crashed? ==> ending.exitCode == KnownAtEof(s.log)
    ensures var t := End(env, s, s.holder.value, child, seen, ending); Told(t) && CrashesTold(t.log)
  {
    hide StatusIn, KnownAtEof, CrashesTold, Conclude;
    var e := Ended(s.holder.value.task, s.holder.value.code, seen, ending);
    Snoc(s.log, e);
    CrashesSnoc(s.log, e);
  }

  lemma ReadingTold<G(!new)>(env: Env<G>, s: Pool<G>, a: CallAction)
    requires Told(s) && CrashesTold(s.log) && s.holder.Some? && s.holder.value.phase.Reading?
    ensures var t := Next(env, s, Call(a)); Told(t) && CrashesTold(t.log)
  {
    hide StatusIn, KnownAtEof, CrashesTold, End, StepLine, LineLength, Decode, Parse;
    var parser, seen := s.holder.value.phase.parser, s.holder.value.phase.seen;
    if s.child.Some? {
      var c := s.child.value;
      if a == Read && (NEWLINE in c.stdout || (!c.status.Alive? && c.stdout != [])) {
        var n := LineLength(c.stdout, NEWLINE);
        var step := StepLine(parser, Decode(c.stdout[..n]));
        if step.Finish? {
          EndTold(env, s, Some(c.(stdout := c.stdout[n..])), seen + c.stdout[..n],
                  Answered(parser.out, parser.err, step.returnCode));
        }
      } else if a == ReadEof && !c.status.Alive? && c.stdout == [] {
        Snoc(s.log, HitEof);
        CrashesSnoc(s.log, HitEof);
      } else if a.Expire? {
        EndTold(env, s, None, seen, TimedOut(a.partial, a.seconds));
      }
    }
  }

  lemma CallTold<G(!new)>(env: Env<G>, s: Pool<G>, a: CallAction)
    requires Told(s) && CrashesTold(s.log)
    ensures var t := Next(env, s, Call(a)); Told(t) && CrashesTold(t.log)
  {
    hide StatusIn, KnownAtEof, CrashesTold, End, StepLine, LineLength, Decode, Request;
    if s.holder.Some? {
      match s.holder.value.phase
      case Reading(_, _) => ReadingTold(env, s, a);
      case Locked =>
        Snoc(s.log, Spawned);
        CrashesSnoc(s.log, Spawned);
      case Started =>
        if s.child.Some? && a == SendFails && !s.child.value.status.Alive? {
          EndTold(env, s, None, [], PipeClosed);
        }
      case Closing(parser, seen, exitCode) =>
        if a == CloseDead {
          EndTold(env, s, None, seen, Crashed(parser.out, parser.err, exitCode));
        } else if a.Expire? {
          EndTold(env, s, None, seen, TimedOut(a.partial, a.seconds));
        }
    }
  }

  lemma {:induction false} RunTold<G(!new)>(env: Env<G>, s: Pool<G>, schedule: seq<Action>)
    requires Told(s) && CrashesTold(s.log)
    ensures var t := RunSchedule(env, s, schedule); Told(t) && CrashesTold(t.log)
    decreases |schedule|
  {
    hide StatusIn, KnownAtEof, CrashesTold, NextHolder, NextChild;
    if schedule != [] {
      match schedule[0] {
        case Call(call) => CallTold(env, s, call);
        case Process(step) => ProcessTold(env, s, step);
        case _ =>
      }
      RunTold(env, Next(env, s, schedule[0]), schedule[1..]);
    }
  }

  /** The resource that is blamed follows from the exit code known. */
  predicate Blames(limit: Option<LimitKind>, known: Option<int>) {
    && (limit == Some(Memory) <==> known == Some(-9))
    && (limit == Some(Cpu) <==> known == Some(-24))
    && (limit == Some(FileSize) <==> known == Some(-25))
    && limit != Some(WallClock)
  }

  lemma CrashBlames(out: string, err: string, exitCode: Option<int>, maxBytes: nat)
    ensures Blames(Conclude(Crashed(out, err, exitCode), maxBytes).limit, exitCode)
  {
    hide Conclude;
    OutcomeLaw(Crashed(out, err, exitCode), maxBytes);
  }

  /** In every interleaving, in step or not: a call that ended as a crash blames memory, cpu or file size exactly if its
      child had died of that signal and the death had been noticed when the call read the end of file. */
  lemma CrashVerdict<G(!new)>(env: Env<G>, schedule: seq<Action>, i: nat)
    requires env.maxBytes >= 0
    ensures var s := RunSchedule(env, Initial(), schedule);
            IsEnd(s.log, i) && s.log[i].ending.Crashed? ==>
              s.log[i].task in s.results && Blames(s.results[s.log[i].task].limit, KnownAtEof(s.log[..i]))
  {
    hide StatusIn, KnownAtEof, RunSchedule, Conclude, Replay, Quiet, Blames, InStep;
    NothingTold<G>();
    RunTold(env, Initial(), schedule);
    Refinement(env, schedule);
    var s := RunSchedule(env, Initial(), schedule);
    if IsEnd(s.log, i) && s.log[i].ending.Crashed? {
      var ending := s.log[i].ending;
      CrashBlames(ending.out, ending.err, ending.exitCode, env.maxBytes);
    }
  }

  lemma NothingTold<G>()
    ensures Told(Initial<G>()) && CrashesTold(Initial<G>().log)
  {
  }

  lemma DiesAndIsNoticed<G(!new)>(env: Env<G>, s: Pool<G>, exitCode: int, noticed: bool)
    requires s.child.Some? && s.child.value.status.Alive?
    ensures var status := if noticed then Noticed(exitCode) else Zombie(exitCode);
            var notice: seq<Action> := if noticed then [Process(Notice)] else [];
            RunSchedule(env, s, [Process(Die(exitCode))] + notice) == s.(
              child := Some(s.child.value.(status := status)),
              log := s.log + [Died(exitCode)] + if noticed then [Noted] else [])
  {
    hide RunSchedule;
    var die := [Process(Die(exitCode))];
    RunOne(env, s, Process(Die(exitCode)));
    var s1 := Next(env, s, Process(Die(exitCode)));
    if noticed {
      RunOne(env, s1, Process(Notice));
      RunSplit(env, s, die, [Process(Notice)]);
    } else {
      assert die + [] == die && s1.log + [] == s1.log;
    }
  }

  lemma EofEndsCall<G(!new)>(env: Env<G>, s: Pool<G>)
    requires s.holder.Some? && s.holder.value.phase.Reading?
    requires s.child.Some? && !s.child.value.status.Alive? && s.child.value.stdout == []
    ensures var h, status := s.holder.value, s.child.value.status;
            var known := if status.Noticed? then Some(status.exitCode) else None;
            var ending := Crashed(h.phase.parser.out, h.phase.parser.err, known);
            var t := RunSchedule(env, s, [Call(ReadEof), Call(CloseDead)]);
            && t.holder.None? && t.child.None?
            && t.log == s.log + [HitEof] + [Ended(h.task, h.code, h.phase.seen, ending)]
            && t.results == s.results[h.task := Conclude(ending, env.maxBytes)]
  {
    hide RunSchedule, Conclude, Parse;
    assert [Call(ReadEof), Call(CloseDead)] == [Call(ReadEof)] + [Call(CloseDead)];
    RunSplit(env, s, [Call(ReadEof)], [Call(CloseDead)]);
    RunOne(env, s, Call(ReadEof));
    RunOne(env, Next(env, s, Call(ReadEof)), Call(CloseDead));
  }

  /** A child that dies while a call is waiting for its output, noticed or not before the end of file is read: the death
      and the notice go into the history, and the call returns what was read so far and the blame that is due. */
  lemma KilledWhileReading<G(!new)>(env: Env<G>, s: Pool<G>, exitCode: int, noticed: bool)
    requires s.holder.Some? && s.holder.value.phase.Reading? && env.maxBytes >= 0
    requires s.child.Some? && s.child.value.status.Alive? && s.child.value.stdout == []
    ensures var h := s.holder.value;
            var t := RunSchedule(env, s, Killed(exitCode, noticed));
            var known := if noticed then Some(exitCode) else None;
            var ending := Crashed(h.phase.parser.out, h.phase.parser.err, known);
            && t.holder.None? && t.child.None? && h.task in t.results
            && t.log == s.log + [Died(exitCode)] + (if noticed then [Noted] else []) + [HitEof]
                        + [Ended(h.task, h.code, h.phase.seen, ending)]
            && Blames(t.results[h.task].limit, known)
            && Reports(t.results[h.task], ending, env.maxBytes)
  {
    hide RunSchedule, Conclude, Reports, Blames, Parse;
    var h := s.holder.value;
    var notice: seq<Action> := if noticed then [Process(Notice)] else [];
    DiesAndIsNoticed(env, s, exitCode, noticed);
    var dead := RunSchedule(env, s, [Process(Die(exitCode))] + notice);
    EofEndsCall(env, dead);
    RunSplit(env, s, [Process(Die(exitCode))] + notice, [Call(ReadEof), Call(CloseDead)]);
    var known := if noticed then Some(exitCode) else None;
    CrashBlames(h.phase.parser.out, h.phase.parser.err, known, env.maxBytes);
    OutcomeContents(Crashed(h.phase.parser.out, h.phase.parser.err, known), env.maxBytes);
  }

  function Killed(exitCode: int, noticed: bool): seq<Action> {
    [Process(Die(exitCode))] + (if noticed then [Process(Notice)] else []) + [Call(ReadEof), Call(CloseDead)]
  }

  //
  // Answers
  //

  /** The code's own output: clean, and within the cap once a trailing newline is off. */
  predicate Presentable<G>(ran: Ran<G>, maxBytes: int) {
    && Clean(ran.out) && Clean(ran.err)
    && |Encode(DropOneNewline(ran.out))| <= maxBytes && |Encode(DropOneNewline(ran.err))| <= maxBytes
  }

  /** An answer within a history that replays is the reader's view of its own code's response. */
  lemma AnswerIsOwn<G>(env: Env<G>, log: seq<Event>, i: nat)
    requires IsEnd(log, i) && log[i].ending.Answered?
    ensures !Replay(env, log).Wrong? ==>
              var r := Replay(env, log[..i]);
              && r.Up?
              && var ran := env.exec(r.globals, log[i].code);
                IsReadFrom(log[i].ending, Response(ran.out, ran.err, ran.returnCode))
  {
    hide Replay, IsReadFrom, Parse, ResponseBytes;
    var front := log[..i];
    assert log == front + [log[i]] + log[i + 1..];
    ReplaySnoc(env, front, log[i]);
    if Replay(env, front + [log[i]]).Wrong? {
      WrongStays(env, front + [log[i]], log[i + 1..]);
    } else {
      var ran := env.exec(Replay(env, front).globals, log[i].code);
      ReadFrom(log[i].ending, Response(ran.out, ran.err, ran.returnCode));
    }
  }

  lemma PresentableIsReturned<G>(ran: Ran<G>, ending: Ending, maxBytes: nat)
    requires IsReadFrom(ending, Response(ran.out, ran.err, ran.returnCode)) && Presentable(ran, maxBytes)
    ensures Conclude(ending, maxBytes)
         == Outcome(DropOneNewline(ran.out), DropOneNewline(ran.err), ran.returnCode, false, None, 0, 0)
  {
    hide Parse, ResponseBytes, Clean, Conclude, DropOneNewline, Encode;
    OutcomeContents(ending, maxBytes);
    OutcomeLaw(ending, maxBytes);
    var o, echo := Conclude(ending, maxBytes), Echo(Response(ran.out, ran.err, ran.returnCode));
    assert ending == Answered(echo.out, echo.err, echo.returnCode);
    assert o.stdout == echo.out && o.stderr == echo.err && o.stdoutDropped == 0 && o.stderrDropped == 0;
    if o.limit.Some? {
      match o.limit.value
      case Memory =>
      case Cpu =>
      case FileSize =>
      case OutputBytes =>
      case WallClock =>
    }
  }

  /** What the last event of a history, the end of a call, has to come to. */
  ghost predicate OwnOutcome<G>(env: Env<G>, log: seq<Event>, outcome: Outcome) {
    log != [] && log[|log| - 1].Ended? && log[|log| - 1].ending.Answered? ==>
      var r := Replay(env, log[..|log| - 1]);
      && r.Up?
      && var ran := env.exec(r.globals, log[|log| - 1].code);
        Presentable(ran, env.maxBytes) ==>
          outcome == Outcome(DropOneNewline(ran.out), DropOneNewline(ran.err), ran.returnCode, false, None, 0, 0)
  }

  lemma AnswerIsReturned<G>(env: Env<G>, log: seq<Event>, i: nat)
    requires env.maxBytes >= 0 && IsEnd(log, i)
    ensures !Replay(env, log).Wrong? ==> OwnOutcome(env, log[..i + 1], Conclude(log[i].ending, env.maxBytes))
  {
    hide Replay, IsReadFrom, Conclude, Presentable, DropOneNewline;
    assert log[..i + 1][..i] == log[..i];
    if log[i].ending.Answered? && !Replay(env, log).Wrong? {
      AnswerIsOwn(env, log, i);
      var ran := env.exec(Replay(env, log[..i]).globals, log[i].code);
      if Presentable(ran, env.maxBytes) {
        PresentableIsReturned(ran, log[i].ending, env.maxBytes);
      }
    }
  }

  /** Counting from any spawning, as long as no call that was answered since printed a done line: every call that was
      answered and whose code printed clean output within the cap returned that very output, each text less one trailing
      newline, with the code's own return code, untagged. */
  lemma OwnOutput<G(!new)>(env: Env<G>, schedule: seq<Action>, k: nat, i: nat)
    requires env.maxBytes >= 0 && SpawnsAt(env, schedule, k) && InStepSince(env, schedule, k)
    ensures var s, since := RunSchedule(env, Initial(), schedule), HistorySince(env, schedule, k);
            IsEnd(since, i) ==>
              since[i].task in s.results && OwnOutcome(env, since[..i + 1], s.results[since[i].task])
  {
    hide Replay, Conclude, RunSchedule, Quiet, InStep, OwnOutcome, HistorySince, InStepSince, Spawns;
    StartsOver(env, schedule, k);
    Refinement(env, schedule);
    var s, since := RunSchedule(env, Initial(), schedule), HistorySince(env, schedule, k);
    var before := RunSchedule(env, Initial(), schedule[..k]).log;
    if IsEnd(since, i) {
      assert s.log[|before| + i] == since[i] && IsEnd(s.log, |before| + i);
      AnswerIsReturned(env, since, i);
    }
  }
}

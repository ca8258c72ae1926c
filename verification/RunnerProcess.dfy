/** `RunnerProcess` as the object it is: its methods update the child process and the lock, and every suspension
    point lets the child run on. All they ever do to the state is a run of the step system in `Lifecycle`. */
module RunnerProcesses {
  import opened Utf8
  import opened Lines
  import opened Wrappers
  import opened Wire
  import opened Runner
  import opened RunnerPool
  import opened Lifecycle
  import opened Pipes
  import opened Outcomes

  class RunnerProcess<!G(!new)> {
    const env: Env<G>
    var proc: Option<Child<G>>
    var locked: bool
    ghost var pool: Pool<G>
    ghost var trace: seq<Action>

    /** The object shows the step system's state, which is reached from the initial one by `trace`. */
    ghost predicate Valid()
      reads this
    {
      && pool == RunSchedule(env, Initial(), trace)
      && proc == pool.child
      && (locked <==> pool.holder.Some?)
    }

    /** The lock is held, in the given phase, by the given call. */
    ghost predicate Holds(task: nat, code: string, phase: Phase)
      reads this
    {
      Valid() && pool.holder == Some(Holder(task, code, phase))
    }

    constructor (env: Env<G>)
      ensures Valid() && this.env == env && !locked && proc == None && trace == []
    {
      this.env, proc, locked := env, None, false;
      pool, trace := Initial(), [];
    }

    /** Records one step of the system. */
    ghost method Take(a: Action)
      requires pool == RunSchedule(env, Initial(), trace)
      modifies this`pool, this`trace
      ensures pool == Next(env, old(pool), a) && trace == old(trace) + [a]
      ensures pool == RunSchedule(env, Initial(), trace)
    {
      RunSnoc(env, Initial(), trace, a);
      pool, trace := Next(env, pool, a), trace + [a];
    }

    /** A suspension point: the child process takes some steps of its own. */
    method Await(steps: seq<ChildAction>)
      requires Valid()
      modifies this
      ensures Valid() && pool.holder == old(pool.holder) && old(trace) <= trace
      ensures proc.Some? <==> old(proc).Some?
      ensures old(proc).Some? && !old(proc).value.status.Alive? ==>
                !proc.value.status.Alive? && proc.value.stdout == old(proc).value.stdout
      ensures pool.calls == old(pool.calls) && pool.results == old(pool.results)
    {
      hide NextChild;
      for i := 0 to |steps|
        invariant Valid() && pool.holder == old(pool.holder) && old(trace) <= trace
        invariant proc.Some? <==> old(proc).Some?
        invariant old(proc).Some? && !old(proc).value.status.Alive? ==>
                    !proc.value.status.Alive? && proc.value.stdout == old(proc).value.stdout
        invariant pool.calls == old(pool.calls) && pool.results == old(pool.results)
      {
        if proc.Some? {
          NextStatus(env, proc.value, steps[i]);
          proc := Some(NextChild(env, proc.value, steps[i]));
        }
        Take(Process(steps[i]));
      }
    }

    /** Spawns the child unless one is running as far as anybody has noticed. */
    method Start(ghost task: nat, ghost code: string)
      requires Holds(task, code, Locked)
      modifies this
      ensures Holds(task, code, Started) && proc.Some?
      ensures proc == if old(proc).Some? && !old(proc).value.status.Noticed? then old(proc)
                      else Some(Child(Alive, [], [], Waiting(env.initial)))
      ensures pool == Next(env, old(pool), Call(CallAction.Start)) && old(trace) <= trace
    {
      if !(proc.Some? && !proc.value.status.Noticed?) {
        proc := Some(Child(Alive, [], [], Waiting(env.initial)));
      }
      Take(Call(CallAction.Start));
    }

    /** Drops the child and releases the lock with the given ending. */
    method Stop(ghost a: CallAction, ghost ending: Ending)
      requires Valid() && pool.holder.Some?
      requires Next(env, pool, Call(a))
            == End(env, pool, pool.holder.value, None, Seen(pool.holder.value.phase), ending)
      modifies this
      ensures Valid() && !locked && proc == None && old(trace) <= trace
      ensures pool == End(env, old(pool), old(pool).holder.value, None, Seen(old(pool).holder.value.phase), ending)
    {
      Take(Call(a));
      proc, locked := None, false;
    }

    /** This very call has just ended, in the given way, and released the lock. */
    ghost predicate JustEnded(task: nat, code: string, ending: Ending)
      reads this
    {
      && Valid() && !locked && pool.log != []
      && var e := pool.log[|pool.log| - 1];
        e.Ended? && e.task == task && e.code == code && e.ending == ending
    }

    /** Writes the request. Writing to a dead child either raises, which ends the call, or goes unnoticed. */
    method SendRequest(ghost task: nat, code: string, broken: bool) returns (sent: bool)
      requires Holds(task, code, Started) && proc.Some?
      modifies this
      ensures old(trace) <= trace
      ensures if sent then Holds(task, code, Reading(START, [])) && proc.Some? else JustEnded(task, code, PipeClosed)
    {
      hide Conclude, RunSchedule, Request;
      if broken && !proc.value.status.Alive? {
        Stop(SendFails, PipeClosed);
        return false;
      }
      Take(Call(Send));
      if proc.value.status.Alive? {
        proc := Some(proc.value.(stdin := proc.value.stdin + Request(code)));
      }
      return true;
    }

    /** Handles one line that has arrived; returns the done line's code if this was it. */
    method TakeLine(ghost task: nat, ghost code: string, parser: Parser, ghost seen: seq<Byte>)
      returns (step: Step, ghost seen': seq<Byte>)
      requires Holds(task, code, Reading(parser, seen)) && proc.Some?
      requires NEWLINE in proc.value.stdout || (!proc.value.status.Alive? && proc.value.stdout != [])
      modifies this
      ensures old(trace) <= trace
      ensures if step.More? then Holds(task, code, Reading(step.next, seen')) && proc.Some?
              else JustEnded(task, code, Answered(parser.out, parser.err, step.returnCode))
    {
      hide Decode, StepLine, LineLength, Conclude, RunSchedule;
      var c := proc.value;
      var n := LineLength(c.stdout, NEWLINE);
      step := StepLine(parser, Decode(c.stdout[..n]));
      Take(Call(Read));
      proc, seen' := Some(c.(stdout := c.stdout[n..])), seen + c.stdout[..n];
      if step.Finish? {
        locked := false;
      }
    }

    /** End of file: looks for the exit code once more, then gives the child up. */
    method TakeEof(ghost task: nat, ghost code: string, parser: Parser, ghost seen: seq<Byte>, last: seq<ChildAction>)
      returns (ending: Ending)
      requires Holds(task, code, Reading(parser, seen)) && proc.Some?
      requires !proc.value.status.Alive? && proc.value.stdout == []
      modifies this
      ensures JustEnded(task, code, ending) && old(trace) <= trace
    {
      hide Conclude, RunSchedule;
      if !proc.value.status.Noticed? {
        Await(last);
      }
      var status := proc.value.status;
      var exitCode := if status.Noticed? then Some(status.exitCode) else None;
      Take(Call(ReadEof));
      ending := Crashed(parser.out, parser.err, exitCode);
      Stop(CloseDead, ending);
    }

    /** Reads the response line by line. Each suspension lets the child take the next steps of `world`; the deadline is
        the number of suspensions after which the wait is cancelled. */
    method ReadUntilDone(ghost task: nat, ghost code: string, world: nat -> seq<ChildAction>, deadline: nat,
                         partial: string, seconds: int)
      returns (ending: Ending)
      requires Holds(task, code, Reading(START, [])) && proc.Some?
      modifies this
      ensures JustEnded(task, code, ending) && old(trace) <= trace
    {
      hide Conclude, RunSchedule, Decode, StepLine, LineLength;
      var parser := START;
      ghost var seen: seq<Byte> := [];
      for k := 0 to deadline
        invariant Holds(task, code, Reading(parser, seen)) && proc.Some? && old(trace) <= trace
      {
        Await(world(1 + k));
        if NEWLINE in proc.value.stdout || (!proc.value.status.Alive? && proc.value.stdout != []) {
          var step;
          step, seen := TakeLine(task, code, parser, seen);
          if step.Finish? {
            return Answered(parser.out, parser.err, step.returnCode);
          }
          parser := step.next;
        } else if !proc.value.status.Alive? {
          ending := TakeEof(task, code, parser, seen, world(1 + deadline));
          return;
        }
      }
      ending := TimedOut(partial, seconds);
      Stop(Expire(partial, seconds), ending);
    }

    method AcquireLock(ghost task: nat, ghost code: string)
      requires Valid() && !locked && task !in pool.calls
      modifies this
      ensures Holds(task, code, Locked) && old(trace) <= trace
    {
      hide RunSchedule;
      Take(Submit(task, code));
      Take(Acquire(task));
      locked := true;
    }

    /** One call of `execute`, from taking the free lock to releasing it. `broken` says whether writing to a dead child
        raises. For every behaviour of the child and every deadline the call returns what the history records for it.
        Afterwards, counting from the spawning of any child so far, the history is one that the sequential interpreter
        can replay, and the pipes are drained, if and only if no call since that returned an answer had printed a done
        line; and if that is so and the call was answered, it returns its own code's output, when clean and within the
        cap. A crash blames the signal that the child was known to have died of when the end of file was read. A living
        child's pipes are drained exactly if none of the codes it has answered printed a done line. */
    method Execute(ghost task: nat, code: string, seconds: int, world: nat -> seq<ChildAction>, broken: bool,
                   deadline: nat, partial: string)
      returns (outcome: Outcome)
      requires Valid() && !locked && task !in pool.calls
      modifies this
      ensures Valid() && !locked && old(trace) <= trace
      ensures Recorded(env, pool, task, code, outcome)
      ensures var n := |pool.log| - 1;
              && IsEnd(pool.log, n) && pool.log[n].task == task && pool.log[n].code == code
              && outcome == Conclude(pool.log[n].ending, env.maxBytes)
      ensures InStep(env, Initial(), trace) <==> Quiet(proc, Replay(env, pool.log))
      ensures InStep(env, Initial(), trace) <==> !Replay(env, pool.log).Wrong?
      ensures forall k: nat | SpawnsAt(env, trace, k) ::
                var r := Replay(env, HistorySince(env, trace, k));
                && (InStepSince(env, trace, k) <==> Quiet(proc, r))
                && (InStepSince(env, trace, k) <==> !r.Wrong?)
                && (InStepSince(env, trace, k) && env.maxBytes >= 0 ==>
                      OwnOutcome(env, HistorySince(env, trace, k), outcome))
      ensures env.maxBytes >= 0 ==> CrashOutcomeTold(pool.log, outcome)
      ensures proc.Some? && proc.value.status.Alive? ==>
                (Drained(proc.value) <==> NeverDoneIn(ResponsesSince(env, pool.log)))
    {
      hide Conclude, Replay, Quiet, RunSchedule, InStep, Recorded, SpawnsAt, HistorySince, InStepSince;
      hide Drained, NeverDoneIn, ResponsesSince, OwnOutcome, CrashOutcomeTold;
      AcquireLock(task, code);
      Start(task, code);
      Await(world(0));
      var ending := PipeClosed;
      var sent := SendRequest(task, code, broken);
      if sent {
        ending := ReadUntilDone(task, code, world, deadline, partial, seconds);
      }
      outcome := Conclude(ending, env.maxBytes);
      LastCall(env, trace);
    }
  }

  /** The history holds exactly this call: its task, its own code, and an ending that concludes to this outcome. */
  ghost predicate Recorded<G>(env: Env<G>, s: Pool<G>, task: nat, code: string, outcome: Outcome) {
    && task in s.calls && s.calls[task] == code
    && task in s.results && s.results[task] == outcome
    && exists i :: IsEnd(s.log, i) && s.log[i].task == task && s.log[i].code == code
                   && outcome == Conclude(s.log[i].ending, env.maxBytes)
  }

  /** If the history ends with a crash, this outcome blames what was known at the end of file. */
  ghost predicate CrashOutcomeTold(log: seq<Event>, outcome: Outcome) {
    var n := |log| - 1;
    n >= 0 && log[n].Ended? && log[n].ending.Crashed? ==> Blames(outcome.limit, KnownAtEof(log[..n]))
  }

  /** The theorems about runs, as they stand when a call has just returned. */
  lemma LastCall<G(!new)>(env: Env<G>, trace: seq<Action>)
    ensures var s := RunSchedule(env, Initial(), trace);
            var r := Replay(env, s.log);
            && (InStep(env, Initial(), trace) <==> !r.Wrong?)
            && (s.holder.None? ==> (InStep(env, Initial(), trace) <==> Quiet(s.child, r)))
            && (forall k: nat | SpawnsAt(env, trace, k) ::
                  var since := Replay(env, HistorySince(env, trace, k));
                  && (InStepSince(env, trace, k) <==> !since.Wrong?)
                  && (s.holder.None? ==> (InStepSince(env, trace, k) <==> Quiet(s.child, since)))
                  && (InStepSince(env, trace, k) && env.maxBytes >= 0 && IsEnd(s.log, |s.log| - 1) ==>
                        OwnOutcome(env, HistorySince(env, trace, k),
                                   Conclude(s.log[|s.log| - 1].ending, env.maxBytes))))
            && (env.maxBytes >= 0 && IsEnd(s.log, |s.log| - 1) ==>
                  CrashOutcomeTold(s.log, Conclude(s.log[|s.log| - 1].ending, env.maxBytes)))
            && (s.holder.None? && Living(s) ==> (Drained(s.child.value) <==> NeverDoneIn(ResponsesSince(env, s.log))))
            && (s.log != [] && s.log[|s.log| - 1].Ended? ==>
                  var e := s.log[|s.log| - 1];
                  Recorded(env, s, e.task, e.code, Conclude(e.ending, env.maxBytes)))
  {
    hide Conclude, Replay, Quiet, RunSchedule, InStep, Spawns, HistorySince, InStepSince;
    hide Drained, NeverDoneIn, ResponsesSince, OwnOutcome, KnownAtEof, Blames;
    Refinement(env, trace);
    PipesDrained(env, trace);
    var s := RunSchedule(env, Initial(), trace);
    if env.maxBytes >= 0 && IsEnd(s.log, |s.log| - 1) {
      CrashVerdict(env, trace, |s.log| - 1);
    }
    forall k: nat | SpawnsAt(env, trace, k)
      ensures var since := Replay(env, HistorySince(env, trace, k));
              && (InStepSince(env, trace, k) <==> !since.Wrong?)
              && (s.holder.None? ==> (InStepSince(env, trace, k) <==> Quiet(s.child, since)))
              && (InStepSince(env, trace, k) && env.maxBytes >= 0 && IsEnd(s.log, |s.log| - 1) ==>
                    OwnOutcome(env, HistorySince(env, trace, k), Conclude(s.log[|s.log| - 1].ending, env.maxBytes)))
    {
      StartsOver(env, trace, k);
      if InStepSince(env, trace, k) && env.maxBytes >= 0 && IsEnd(s.log, |s.log| - 1) {
        LastOwnOutcome(env, trace, k);
      }
    }
    assert s.log != [] && s.log[|s.log| - 1].Ended? ==> IsEnd(s.log, |s.log| - 1);
  }

  lemma LastOwnOutcome<G(!new)>(env: Env<G>, trace: seq<Action>, k: nat)
    requires SpawnsAt(env, trace, k) && InStepSince(env, trace, k) && env.maxBytes >= 0
    requires var s := RunSchedule(env, Initial(), trace); IsEnd(s.log, |s.log| - 1)
    ensures var s := RunSchedule(env, Initial(), trace);
            OwnOutcome(env, HistorySince(env, trace, k), Conclude(s.log[|s.log| - 1].ending, env.maxBytes))
  {
    hide Conclude, Replay, Quiet, RunSchedule, InStep, Spawns, HistorySince, InStepSince, OwnOutcome;
    StartsOver(env, trace, k);
    var s, since := RunSchedule(env, Initial(), trace), HistorySince(env, trace, k);
    if since == [] {
      NothingOwed(env, since, Conclude(s.log[|s.log| - 1].ending, env.maxBytes));
    } else {
      var n := |since| - 1;
      assert since[n] == s.log[|s.log| - 1];
      AnswerIsReturned(env, since, n);
      assert since[..n + 1] == since;
    }
  }

  lemma NothingOwed<G>(env: Env<G>, log: seq<Event>, outcome: Outcome)
    requires log == []
    ensures OwnOutcome(env, log, outcome)
  {
  }

  function Seen(phase: Phase): seq<Byte> {
    if phase.Reading? || phase.Closing? then phase.seen else []
  }

  lemma {:induction false} RunSnoc<G>(env: Env<G>, s: Pool<G>, schedule: seq<Action>, a: Action)
    ensures RunSchedule(env, s, schedule + [a]) == Next(env, RunSchedule(env, s, schedule), a)
    decreases |schedule|
  {
    hide Next;
    if schedule != [] {
      assert (schedule + [a])[1..] == schedule[1..] + [a];
      RunSnoc(env, Next(env, s, schedule[0]), schedule[1..], a);
    }
  }
}

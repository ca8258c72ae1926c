/** One shared environment variable, set for each bash call and restored when the call returns
    (sandbox/exec_server.py, sandbox/bash.py). A step is one access to the variable; which call makes the next one is
    up to the scheduler. */
module Bash {
  import opened Wrappers

  type CallId = nat

  const DEFAULT_WORKSPACE: string := "/workspace"

  /** A call that has set the variable: what it will restore, and the directory its process got once it is started. */
  datatype Call = Call(workspace: string, previous: Option<string>, cwd: Option<string>)

  /** A write to the variable. */
  datatype Write = Entered(call: CallId, workspace: string) | Returned(call: CallId)

  /** `done` and `log` are history: the calls that have returned, and all writes in their order. */
  datatype State = State(
    variable: Option<string>, current: Option<CallId>,
    running: map<CallId, Call>, done: map<CallId, Call>, log: seq<Write>)

  /** The scheduler lets a call go on; the handler saves and sets the variable; `run_bash` reads it to start the
      process; the handler restores it. */
  datatype Action =
    | Switch(call: CallId)
    | Enter(call: CallId, workspace: string)
    | Spawn(call: CallId)
    | Return(call: CallId)

  function Initial(variable: Option<string>): State {
    State(variable, None, map[], map[], [])
  }

  function Workspace(variable: Option<string>): string {
    if variable.Some? then variable.value else DEFAULT_WORKSPACE
  }

  /** A step that is not enabled changes nothing. */
  function Next(s: State, a: Action): State {
    match a
    case Switch(call) => s.(current := Some(call))
    case Enter(call, workspace) =>
      if s.current != Some(call) || call in s.running || call in s.done then s
      else
        s.(variable := Some(workspace), running := s.running[call := Call(workspace, s.variable, None)],
           log := s.log + [Entered(call, workspace)])
    case Spawn(call) =>
      if s.current != Some(call) || call !in s.running || s.running[call].cwd.Some? then s
      else s.(running := s.running[call := s.running[call].(cwd := Some(Workspace(s.variable)))])
    case Return(call) =>
      if s.current != Some(call) || call !in s.running || s.running[call].cwd.None? then s
      else
        s.(variable := s.running[call].previous, running := s.running - {call},
           done := s.done[call := s.running[call]], log := s.log + [Returned(call)])
  }

  function Run(s: State, actions: seq<Action>): State
    decreases |actions|
  {
    if actions == [] then s else Run(Next(s, actions[0]), actions[1..])
  }

  /** Between setting the variable and reading it there is no suspension point, so no other call gets its turn there. */
  predicate Cooperative(s: State, actions: seq<Action>)
    decreases |actions|
  {
    actions != [] ==>
      && (actions[0].Switch? ==> !(exists c :: c in s.running && s.running[c].cwd.None?))
      && Cooperative(Next(s, actions[0]), actions[1..])
  }

  /** The handler on one task: other calls have their turn while it waits for the process. */
  class Server {
    var variable: Option<string>
    var current: Option<CallId>
    var running: map<CallId, Call>
    var done: map<CallId, Call>
    var log: seq<Write>

    constructor (variable: Option<string>)
      ensures Abs() == Initial(variable)
    {
      this.variable, current, running, done, log := variable, None, map[], map[], [];
    }

    function Abs(): State
      reads this
    {
      State(variable, current, running, done, log)
    }

    /** Waiting for the process: other calls enter, start theirs and return. */
    method Await(ghost call: CallId, others: seq<Action>)
      requires call in running && call !in done
      requires forall i | 0 <= i < |others| :: others[i].call != call
      modifies this
      ensures Abs() == Run(old(Abs()), others)
      ensures call in running && running[call] == old(running[call]) && call !in done
    {
      hide Run;
      RunNothing(Abs());
      for i := 0 to |others|
        invariant Abs() == Run(old(Abs()), others[..i])
        invariant call in running && running[call] == old(running[call]) && call !in done
      {
        RunSnoc(old(Abs()), others[..i], others[i]);
        assert others[..i + 1] == others[..i] + [others[i]];
        var s := Next(Abs(), others[i]);
        variable, current, running, done, log := s.variable, s.current, s.running, s.done, s.log;
      }
      assert others[..|others|] == others;
    }

    /** Sets the variable, starts the process, suspends while other calls begin and return, and restores it. */
    method RunBashExecution(call: CallId, workspace: string, others: seq<Action>) returns (cwd: string)
      requires call !in running && call !in done
      requires forall i | 0 <= i < |others| :: others[i].call != call
      modifies this
      ensures cwd == workspace
      ensures Abs() == Run(old(Abs()), Turn(Entered(call, workspace)) + others + Turn(Returned(call)))
      ensures variable == old(variable) && call in done && done[call].cwd == Some(cwd)
    {
      hide Run, Turn;
      current := Some(call);
      var previous := variable;
      variable, log := Some(workspace), log + [Entered(call, workspace)];
      running := running[call := Call(workspace, previous, None)];
      cwd := Workspace(variable);
      running := running[call := running[call].(cwd := Some(cwd))];
      EntersAndStarts(old(Abs()), call, workspace);
      assert running == old(running)[call := Call(workspace, previous, Some(cwd))];
      Await(call, others);
      ghost var waited := Abs();
      current := Some(call);
      variable, log := previous, log + [Returned(call)];
      done := done[call := running[call]];
      running := running - {call};
      Returns(waited, call);
      ghost var entry, exit := Turn(Entered(call, workspace)), Turn(Returned(call));
      RunSplit(old(Abs()), entry, others);
      RunSplit(old(Abs()), entry + others, exit);
    }
  }

  /** What one call does between two suspension points to make this write. */
  function Turn(w: Write): seq<Action> {
    match w
    case Entered(call, workspace) => [Switch(call), Enter(call, workspace), Spawn(call)]
    case Returned(call) => [Switch(call), Return(call)]
  }

  lemma EntersAndStarts(s: State, call: CallId, workspace: string)
    requires call !in s.running && call !in s.done
    ensures Run(s, Turn(Entered(call, workspace)))
         == State(Some(workspace), Some(call), s.running[call := Call(workspace, s.variable, Some(workspace))], s.done,
                  s.log + [Entered(call, workspace)])
  {
    var s1 := Next(s, Switch(call));
    var s2 := Next(s1, Enter(call, workspace));
    var s3 := Next(s2, Spawn(call));
    var mine := Call(workspace, s.variable, Some(workspace));
    assert s3.running == s.running[call := mine];
    assert Run(s, Turn(Entered(call, workspace))) == Run(s1, [Enter(call, workspace), Spawn(call)]);
    assert Run(s1, [Enter(call, workspace), Spawn(call)]) == Run(s2, [Spawn(call)]);
    RunOne(s2, Spawn(call));
  }

  lemma Returns(s: State, call: CallId)
    requires call in s.running && s.running[call].cwd.Some?
    ensures Run(s, Turn(Returned(call)))
         == State(s.running[call].previous, Some(call), s.running - {call}, s.done[call := s.running[call]],
                  s.log + [Returned(call)])
  {
    var s1 := Next(s, Switch(call));
    assert Run(s, Turn(Returned(call))) == Run(s1, [Return(call)]);
    RunOne(s1, Return(call));
  }

  lemma RunOne(s: State, a: Action)
    ensures Run(s, [a]) == Next(s, a)
  {
    hide Next;
    assert Run(s, [a]) == Run(Next(s, a), []);
  }

  lemma {:induction false} RunSnoc(s: State, actions: seq<Action>, a: Action)
    ensures Run(s, actions + [a]) == Next(Run(s, actions), a)
    decreases |actions|
  {
    hide Next;
    if actions == [] {
      RunOne(s, a);
      assert actions + [a] == [a];
    } else {
      assert (actions + [a])[1..] == actions[1..] + [a];
      RunSnoc(Next(s, actions[0]), actions[1..], a);
    }
  }

  //
  // What the order of the writes says of the variable
  //

  /** Where in the log the call entered. */
  function EntryOf(log: seq<Write>, call: CallId): (k: int)
    ensures -1 <= k < |log|
    ensures k >= 0 ==> log[k].Entered? && log[k].call == call
  {
    if log == [] then -1
    else
      var n := |log| - 1;
      if log[n].Entered? && log[n].call == call then n else EntryOf(log[..n], call)
  }

  /** A call is grounded if it began first or directly after the return of a grounded call. */
  predicate Grounded(log: seq<Write>, call: CallId)
    decreases |log|
  {
    var k := EntryOf(log, call);
    k == 0 || (k > 0 && log[k - 1].Returned? && Grounded(log[..k - 1], log[k - 1].call))
  }

  /** Nothing was written, or the last to return was a grounded call. */
  predicate Undone(log: seq<Write>) {
    log == [] || (log[|log| - 1].Returned? && Grounded(log[..|log| - 1], log[|log| - 1].call))
  }

  /** Which write's value the variable holds: an entry's, or -1 for the original value. A return goes back to what its
      call found. */
  function Setter(log: seq<Write>): (k: int)
    ensures -1 <= k < |log|
    ensures k >= 0 ==> log[k].Entered?
    decreases |log|
  {
    if log == [] then -1
    else
      var n := |log| - 1;
      if log[n].Entered? then n
      else
        var k := EntryOf(log[..n], log[n].call);
        if k < 0 then -1 else Setter(log[..k])
  }

  function Value(original: Option<string>, log: seq<Write>): Option<string> {
    var k := Setter(log);
    if k < 0 then original else Some(log[k].workspace)
  }

  /** Calls enter once, and return at most once, after they entered. */
  predicate Orderly(log: seq<Write>) {
    log == [] ||
    var n := |log| - 1;
    && Orderly(log[..n])
    && Returned(log[n].call) !in log[..n]
    && (log[n].Entered? <==> EntryOf(log[..n], log[n].call) < 0)
  }

  /** The log explains the variable and what each running call will restore. */
  ghost predicate Explained(original: Option<string>, s: State) {
    && Orderly(s.log)
    && s.variable == Value(original, s.log)
    && Known(s.log, s.running.Keys, s.done.Keys)
    && (forall c | c in s.running :: RestoresOwn(original, s, c))
  }

  /** The calls that entered are those running or done, and those that returned are done. */
  ghost predicate Known(log: seq<Write>, running: set<CallId>, done: set<CallId>) {
    && running !! done
    && (forall c :: EntryOf(log, c) >= 0 <==> c in running || c in done)
    && (forall c :: Returned(c) in log <==> c in done)
  }

  ghost predicate RestoresOwn(original: Option<string>, s: State, c: CallId)
    requires c in s.running
  {
    var k := EntryOf(s.log, c);
    k >= 0 && s.log[k].workspace == s.running[c].workspace && s.running[c].previous == Value(original, s.log[..k])
  }

  lemma StepExplained(original: Option<string>, s: State, a: Action)
    requires Explained(original, s)
    ensures Explained(original, Next(s, a))
  {
    hide Orderly, Value, EntryOf, RestoresOwn, Known;
    var t := Next(s, a);
    if t.log == s.log {
      assert t.running.Keys == s.running.Keys;
      forall c | c in t.running ensures RestoresOwn(original, t, c) {
        SameLog(original, s, t, c);
      }
    } else {
      LogStep(original, s, a);
      KnownStep(original, s, a);
      forall c | c in t.running ensures RestoresOwn(original, t, c) {
        RunningStep(original, s, a, c);
      }
    }
  }

  lemma KnownStep(original: Option<string>, s: State, a: Action)
    requires Explained(original, s) && Next(s, a).log != s.log
    ensures var t := Next(s, a); Known(t.log, t.running.Keys, t.done.Keys)
  {
    hide Orderly, Value, EntryOf, RestoresOwn;
    LogStep(original, s, a);
  }

  lemma SameLog(original: Option<string>, s: State, t: State, c: CallId)
    requires t.log == s.log && c in t.running && c in s.running && RestoresOwn(original, s, c)
    requires t.running[c].workspace == s.running[c].workspace && t.running[c].previous == s.running[c].previous
    ensures RestoresOwn(original, t, c)
  {
  }

  lemma RunningStep(original: Option<string>, s: State, a: Action, c: CallId)
    requires Explained(original, s) && Next(s, a).log != s.log && c in Next(s, a).running
    ensures RestoresOwn(original, Next(s, a), c)
  {
    hide Orderly, Value, EntryOf;
    LogStep(original, s, a);
    var t := Next(s, a);
    if !(a.Enter? && c == a.call) {
      assert RestoresOwn(original, s, c);
      var k := EntryOf(s.log, c);
      assert t.log[..k] == s.log[..k];
    }
  }

  lemma LogStep(original: Option<string>, s: State, a: Action)
    requires Explained(original, s) && Next(s, a).log != s.log
    ensures var t := Next(s, a);
            && Orderly(t.log) && t.variable == Value(original, t.log)
            && t.log[..|s.log|] == s.log
            && (forall c :: EntryOf(t.log, c) == if a.Enter? && c == a.call then |s.log| else EntryOf(s.log, c))
  {
    hide Orderly, Value, EntryOf, RestoresOwn;
    if a.Enter? {
      EnterStep(original, s.log, a.call, a.workspace);
      assert s.log + [Entered(a.call, a.workspace)] == Next(s, a).log;
    } else {
      assert RestoresOwn(original, s, a.call);
      ReturnStep(original, s, a.call);
    }
  }

  lemma EnterStep(original: Option<string>, log: seq<Write>, call: CallId, workspace: string)
    requires Orderly(log) && Returned(call) !in log && EntryOf(log, call) < 0
    ensures var t := log + [Entered(call, workspace)];
            && Orderly(t) && Value(original, t) == Some(workspace) && t[..|log|] == log
            && (forall c :: EntryOf(t, c) == if c == call then |log| else EntryOf(log, c))
  {
    hide Orderly;
    OrderlyAdd(log, Entered(call, workspace));
    EntryAdd(log, Entered(call, workspace));
  }

  lemma ReturnStep(original: Option<string>, s: State, call: CallId)
    requires Orderly(s.log) && Returned(call) !in s.log && call in s.running && RestoresOwn(original, s, call)
    ensures var t := s.log + [Returned(call)];
            && Orderly(t) && Value(original, t) == s.running[call].previous && t[..|s.log|] == s.log
            && (forall c :: EntryOf(t, c) == EntryOf(s.log, c))
  {
    hide Orderly, EntryOf, Setter;
    var k := EntryOf(s.log, call);
    OrderlyAdd(s.log, Returned(call));
    EntryAdd(s.log, Returned(call));
    SetterLast(s.log, Returned(call));
  }

  lemma OrderlyAdd(log: seq<Write>, w: Write)
    requires Orderly(log) && Returned(w.call) !in log && (w.Entered? <==> EntryOf(log, w.call) < 0)
    ensures Orderly(log + [w]) && (log + [w])[..|log|] == log
  {
    hide EntryOf;
    var t := log + [w];
    assert t != [] && |t| - 1 == |log| && t[|t| - 1] == w;
    assert t[..|t| - 1] == log;
  }

  lemma EntryAdd(log: seq<Write>, w: Write)
    ensures forall c :: EntryOf(log + [w], c) == if w.Entered? && c == w.call then |log| else EntryOf(log, c)
  {
    assert (log + [w])[..|log|] == log;
  }

  lemma {:induction false} RunExplained(original: Option<string>, s: State, actions: seq<Action>)
    requires Explained(original, s)
    ensures Explained(original, Run(s, actions))
    decreases |actions|
  {
    hide Next, Explained;
    if actions != [] {
      StepExplained(original, s, actions[0]);
      RunExplained(original, Next(s, actions[0]), actions[1..]);
    }
  }

  lemma Reached(original: Option<string>, actions: seq<Action>)
    ensures Explained(original, Run(Initial(original), actions))
  {
    hide Run;
    RunExplained(original, Initial(original), actions);
  }

  /** In every interleaving, wherever switches fall, the variable holds what the order of the writes says. */
  lemma VariableFollows(original: Option<string>, actions: seq<Action>)
    ensures var s := Run(Initial(original), actions);
            Orderly(s.log) && s.variable == Value(original, s.log)
  {
    hide Run, Value, Orderly;
    Reached(original, actions);
  }

  lemma {:induction false} EntryInPart(a: seq<Write>, b: seq<Write>, call: CallId)
    ensures EntryOf(a + b, call) == if EntryOf(b, call) >= 0 then |a| + EntryOf(b, call) else EntryOf(a, call)
    decreases |b|
  {
    if b == [] {
      assert a + b == a;
    } else {
      assert (a + b)[..|a + b| - 1] == a + b[..|b| - 1];
      EntryInPart(a, b[..|b| - 1], call);
    }
  }

  lemma UndoneBefore(log: seq<Write>, call: CallId)
    ensures Grounded(log, call) <==> EntryOf(log, call) >= 0 && Undone(log[..EntryOf(log, call)])
  {
    var k := EntryOf(log, call);
    if k > 0 {
      assert log[..k][..k - 1] == log[..k - 1];
    }
  }

  lemma UndoneLast(log: seq<Write>, w: Write)
    requires w.Returned?
    ensures var k := EntryOf(log, w.call); Undone(log + [w]) <==> k >= 0 && Undone(log[..k])
  {
    hide Grounded, EntryOf;
    assert (log + [w])[..|log|] == log;
    UndoneBefore(log, w.call);
  }

  lemma SetterLast(log: seq<Write>, w: Write)
    ensures var k := EntryOf(log, w.call);
            Setter(log + [w]) == if w.Entered? then |log| else if k < 0 then -1 else Setter(log[..k])
  {
    hide EntryOf;
    assert (log + [w])[..|log|] == log;
    assert EntryOf(log, w.call) >= 0 ==>
        (log + [w])[..EntryOf(log, w.call)] == log[..EntryOf(log, w.call)];
  }

  lemma UndoneEndsInReturn(log: seq<Write>, w: Write)
    requires w.Entered?
    ensures !Undone(log + [w])
  {
    hide Grounded;
  }

  lemma NothingUndone()
    ensures Undone([])
  {
  }

  /** What one entry wrote is back exactly if everything written since is undone, judged by that part of the order
      alone. */
  lemma {:induction false} SetterSince(log: seq<Write>, k: nat, since: seq<Write>)
    requires k < |log| && log[k].Entered? && since == log[k + 1..]
    requires forall i | k < i < |log| :: log[i] != Returned(log[k].call)
    ensures Setter(log) == k <==> Undone(since)
    decreases |log|
  {
    hide Undone, Setter, EntryOf;
    var n, w := |log| - 1, log[|log| - 1];
    var front := log[..n];
    assert log == front + [w];
    SetterLast(front, w);
    if n == k {
      NothingUndone();
    } else {
      var part := since[..|since| - 1];
      assert since == part + [w];
      if w.Entered? {
        UndoneEndsInReturn(part, w);
      } else {
        assert front == log[..k + 1] + part;
        EntryInPart(log[..k + 1], part, w.call);
        UndoneLast(part, w);
        var j := EntryOf(part, w.call);
        if j >= 0 {
          assert front[..k + 1 + j][k + 1..] == part[..j];
          SetterSince(front[..k + 1 + j], k, part[..j]);
        }
      }
    }
  }

  /** The original value is back exactly if everything is undone. */
  lemma {:induction false} SetterOfUndone(log: seq<Write>)
    requires Orderly(log)
    ensures Setter(log) == -1 <==> Undone(log)
    decreases |log|
  {
    hide Undone, Setter, EntryOf, Orderly;
    if log == [] {
      NothingUndone();
      NothingSet();
    } else {
      var n, w := |log| - 1, log[|log| - 1];
      var front := log[..n];
      assert log == front + [w];
      SetterLast(front, w);
      if w.Entered? {
        UndoneEndsInReturn(front, w);
      } else {
        UndoneLast(front, w);
        OrderlyLast(front, w);
        var k := EntryOf(front, w.call);
        OrderlyPart(front, k);
        SetterOfUndone(front[..k]);
      }
    }
  }

  lemma NothingSet()
    ensures Setter([]) == -1
  {
  }

  lemma OrderlyLast(log: seq<Write>, w: Write)
    requires Orderly(log + [w])
    ensures Orderly(log) && Returned(w.call) !in log && (w.Entered? <==> EntryOf(log, w.call) < 0)
  {
    hide EntryOf;
    assert (log + [w])[..|log|] == log;
  }

  lemma {:induction false} OrderlyPart(log: seq<Write>, k: nat)
    requires Orderly(log) && k <= |log|
    ensures Orderly(log[..k])
    decreases |log|
  {
    if k < |log| {
      OrderlyPart(log[..|log| - 1], k);
      assert log[..|log| - 1][..k] == log[..k];
    } else {
      assert log[..k] == log;
    }
  }

  //
  // Isolation
  //

  /** No other call is for the same workspace, and the process would not be started there by default either. */
  predicate Distinguished(original: Option<string>, log: seq<Write>, call: CallId, workspace: string) {
    && Workspace(original) != workspace
    && forall i | 0 <= i < |log| && log[i].Entered? && log[i].call != call :: log[i].workspace != workspace
  }

  /** Wherever switches fall, a process starts in its own directory if, between the entry and the start, all writes of
      other calls are undone; and, other workspaces being different, only if. */
  lemma StartsAtHome(original: Option<string>, actions: seq<Action>, call: CallId)
    requires var s := Run(Initial(original), actions);
             s.current == Some(call) && call in s.running && s.running[call].cwd.None?
    ensures var s := Run(Initial(original), actions);
            var k := EntryOf(s.log, call);
            && k >= 0
            && var workspace, t := s.log[k].workspace, Next(s, Spawn(call));
              var athome := t.running[call].cwd == Some(workspace);
              && (Undone(s.log[k + 1..]) ==> athome)
              && (Distinguished(original, s.log, call, workspace) ==> (athome <==> Undone(s.log[k + 1..])))
  {
    hide Run, Orderly, Undone, Known;
    Reached(original, actions);
    var s := Run(Initial(original), actions);
    assert RestoresOwn(original, s, call);
    var k := EntryOf(s.log, call);
    NotReturned(s, call);
    SetterSince(s.log, k, s.log[k + 1..]);
    var j := Setter(s.log);
    if j >= 0 && j != k {
      EntersOnce(s.log, j, k);
    }
  }

  lemma NotReturned(s: State, call: CallId)
    requires Known(s.log, s.running.Keys, s.done.Keys) && call in s.running
    ensures forall i | 0 <= i < |s.log| :: s.log[i] != Returned(call)
  {
    hide EntryOf;
  }

  lemma {:induction false} EntersOnce(log: seq<Write>, i: nat, k: nat)
    requires Orderly(log) && i < |log| && k < |log| && i != k && log[i].Entered? && log[k].Entered?
    ensures log[i].call != log[k].call
    decreases |log|
  {
    var n := |log| - 1;
    if i == n {
      LastEntry(log[..n], k);
    } else if k == n {
      LastEntry(log[..n], i);
    } else {
      EntersOnce(log[..n], i, k);
    }
  }

  lemma {:induction false} LastEntry(log: seq<Write>, i: nat)
    requires i < |log| && log[i].Entered?
    ensures EntryOf(log, log[i].call) >= i
    decreases |log|
  {
    var n := |log| - 1;
    if i < n {
      LastEntry(log[..n], i);
    }
  }

  /** Every process started so far started in its own session's directory. */
  predicate Isolated(s: State) {
    && (forall c | c in s.running && s.running[c].cwd.Some? :: s.running[c].cwd == Some(s.running[c].workspace))
    && (forall c | c in s.done :: s.done[c].cwd == Some(s.done[c].workspace))
  }

  /** A call that has entered and not started its process is the current one, and its entry is the latest write. */
  predicate JustEntered(s: State) {
    forall c | c in s.running && s.running[c].cwd.None? ::
      s.current == Some(c) && s.log != [] && s.log[|s.log| - 1] == Entered(c, s.running[c].workspace)
  }

  lemma {:induction false} IsolatedFrom(original: Option<string>, before: seq<Action>, actions: seq<Action>)
    requires var s := Run(Initial(original), before); Isolated(s) && JustEntered(s) && Cooperative(s, actions)
    ensures Isolated(Run(Initial(original), before + actions))
    decreases |actions|
  {
    hide Run, Undone;
    var s := Run(Initial(original), before);
    if actions == [] {
      assert before + actions == before;
    } else {
      var a := actions[0];
      assert before + actions == before + [a] + actions[1..];
      RunSnoc(Initial(original), before, a);
      if a.Spawn? && Next(s, a) != s {
        StartsAtHome(original, before, a.call);
        LatestEntry(s.log, a.call);
        assert s.log[|s.log|..] == [];
        NothingUndone();
      }
      IsolatedFrom(original, before + [a], actions[1..]);
    }
  }

  lemma LatestEntry(log: seq<Write>, call: CallId)
    requires log != [] && log[|log| - 1].Entered? && log[|log| - 1].call == call
    ensures EntryOf(log, call) == |log| - 1
  {
  }

  /** In every interleaving that switches only at suspension points, every process starts in its own session's
      directory. */
  lemma Isolation(original: Option<string>, actions: seq<Action>)
    requires Cooperative(Initial(original), actions)
    ensures Isolated(Run(Initial(original), actions))
  {
    IsolatedFrom(original, [], actions);
    assert [] + actions == actions;
  }

  /** One switch between setting the variable and reading it would be enough to start in another session's directory. */
  lemma Stray(original: Option<string>, a: string, b: string)
    ensures var s := Run(Initial(original), [Switch(0), Enter(0, a), Switch(1), Enter(1, b), Switch(0), Spawn(0)]);
            0 in s.running && s.running[0].workspace == a && s.running[0].cwd == Some(b)
  {
    var s := Initial(original);
    var s1 := Next(Next(s, Switch(0)), Enter(0, a));
    var s2 := Next(Next(s1, Switch(1)), Enter(1, b));
    RunTwo(s, Switch(0), Enter(0, a), [Switch(1), Enter(1, b), Switch(0), Spawn(0)]);
    RunTwo(s1, Switch(1), Enter(1, b), [Switch(0), Spawn(0)]);
    RunTwo(s2, Switch(0), Spawn(0), []);
  }

  /** Where the variable is not set a process starts in the default directory; here another call's return unsets it. */
  lemma StrayToDefault(a: string, b: string)
    ensures var others := Turn(Entered(1, b)) + [Switch(0), Enter(0, a)] + Turn(Returned(1));
            var s := Run(Initial(None), others + [Switch(0), Spawn(0)]);
            0 in s.running && s.running[0].workspace == a && s.running[0].cwd == Some("/workspace")
  {
    hide Run, Turn;
    var s0 := Initial(None);
    EntersAndStarts(s0, 1, b);
    var s1 := Run(s0, Turn(Entered(1, b)));
    RunTwo(s1, Switch(0), Enter(0, a), []);
    RunNothing(Next(Next(s1, Switch(0)), Enter(0, a)));
    assert [Switch(0), Enter(0, a)] + [] == [Switch(0), Enter(0, a)];
    var s2 := Run(s1, [Switch(0), Enter(0, a)]);
    Returns(s2, 1);
    var s3 := Run(s2, Turn(Returned(1)));
    RunTwo(s3, Switch(0), Spawn(0), []);
    RunNothing(Next(Next(s3, Switch(0)), Spawn(0)));
    assert [Switch(0), Spawn(0)] + [] == [Switch(0), Spawn(0)];
    RunSplit(s0, Turn(Entered(1, b)), [Switch(0), Enter(0, a)]);
    RunSplit(s0, Turn(Entered(1, b)) + [Switch(0), Enter(0, a)], Turn(Returned(1)));
    RunSplit(s0, Turn(Entered(1, b)) + [Switch(0), Enter(0, a)] + Turn(Returned(1)), [Switch(0), Spawn(0)]);
  }

  lemma RunTwo(s: State, a: Action, b: Action, rest: seq<Action>)
    ensures Run(s, [a, b] + rest) == Run(Next(Next(s, a), b), rest)
  {
    hide Next;
    assert ([a, b] + rest)[1..] == [b] + rest && ([b] + rest)[1..] == rest;
  }

  //
  // Restoring the variable
  //

  /** The variable is back, exactly: with every workspace different from the original value, it is what it was if and
      only if the last write is the return of a grounded call, that is, one that began first or directly after the
      return of a grounded call. The order of the writes decides alone, and for equal workspaces too it suffices. */
  lemma RestoredExactly(original: Option<string>, actions: seq<Action>)
    ensures var s := Run(Initial(original), actions);
            && (Undone(s.log) ==> s.variable == original)
            && ((forall i | 0 <= i < |s.log| && s.log[i].Entered? :: Some(s.log[i].workspace) != original) ==>
                  (s.variable == original <==> Undone(s.log)))
  {
    hide Run, Undone, Orderly;
    VariableFollows(original, actions);
    SetterOfUndone(Run(Initial(original), actions).log);
  }

  /** Calls return in the reverse of the order in which they began, and leave these running, the latest last. */
  predicate LastInFirstOut(log: seq<Write>, stack: seq<CallId>)
    decreases |log|
  {
    if log == [] then stack == []
    else
      var n := |log| - 1;
      if log[n].Entered? then
        stack != [] && stack[|stack| - 1] == log[n].call && LastInFirstOut(log[..n], stack[..|stack| - 1])
      else LastInFirstOut(log[..n], stack + [log[n].call])
  }

  lemma {:induction false} BelowTop(log: seq<Write>, stack: seq<CallId>, top: CallId)
    requires Orderly(log) && LastInFirstOut(log, stack + [top])
    ensures var k := EntryOf(log, top); k >= 0 && LastInFirstOut(log[..k], stack)
    decreases |log|
  {
    var n := |log| - 1;
    assert (stack + [top])[..|stack|] == stack;
    if log[n].Returned? {
      var call := log[n].call;
      BelowTop(log[..n], stack + [top], call);
      var k := EntryOf(log[..n], call);
      OrderlyPart(log, k);
      assert log[..n][..k] == log[..k];
      BelowTop(log[..k], stack, top);
      var j := EntryOf(log[..k], top);
      LastEntry(log, j);
      if EntryOf(log, top) != j {
        EntersOnce(log, EntryOf(log, top), j);
      }
      assert log[..k][..j] == log[..j];
    }
  }

  lemma {:induction false} LastInFirstOutIsUndone(log: seq<Write>)
    requires Orderly(log) && LastInFirstOut(log, [])
    ensures Undone(log)
    decreases |log|
  {
    hide Undone, EntryOf, Orderly;
    if log == [] {
      NothingUndone();
    } else {
      var n, w := |log| - 1, log[|log| - 1];
      var front := log[..n];
      assert log == front + [w] && [] + [w.call] == [w.call];
      OrderlyLast(front, w);
      BelowTop(front, [], w.call);
      var k := EntryOf(front, w.call);
      OrderlyPart(front, k);
      LastInFirstOutIsUndone(front[..k]);
      UndoneLast(front, w);
    }
  }

  /** If calls return in reverse order and none is left, the variable is what it was. */
  lemma RestoredInReverse(original: Option<string>, actions: seq<Action>)
    requires LastInFirstOut(Run(Initial(original), actions).log, [])
    ensures Run(Initial(original), actions).variable == original
  {
    hide Run, Undone, Orderly, LastInFirstOut;
    VariableFollows(original, actions);
    LastInFirstOutIsUndone(Run(Initial(original), actions).log);
    RestoredExactly(original, actions);
  }

  function Turns(log: seq<Write>): seq<Action> {
    if log == [] then [] else Turns(log[..|log| - 1]) + Turn(log[|log| - 1])
  }

  lemma {:induction false} RunSplit(s: State, a: seq<Action>, b: seq<Action>)
    ensures Run(s, a + b) == Run(Run(s, a), b)
    ensures Cooperative(s, a) && Cooperative(Run(s, a), b) ==> Cooperative(s, a + b)
    decreases |a|
  {
    hide Next;
    if a == [] {
      assert a + b == b;
    } else {
      assert (a + b)[1..] == a[1..] + b;
      RunSplit(Next(s, a[0]), a[1..], b);
    }
  }

  predicate AllStarted(s: State) {
    forall c | c in s.running :: s.running[c].cwd.Some?
  }

  lemma TakeTurn(s: State, w: Write)
    requires AllStarted(s) && Known(s.log, s.running.Keys, s.done.Keys)
    requires Orderly(s.log + [w])
    ensures Cooperative(s, Turn(w)) && AllStarted(Run(s, Turn(w)))
    ensures Run(s, Turn(w)).log == s.log + [w]
  {
    hide EntryOf, Orderly, Run;
    OrderlyLast(s.log, w);
    var t := Next(s, Switch(w.call));
    if w.Entered? {
      EntersAndStarts(s, w.call, w.workspace);
      var t1 := Next(t, Enter(w.call, w.workspace));
      assert Turn(w)[1..] == [Enter(w.call, w.workspace), Spawn(w.call)];
      assert Turn(w)[1..][1..] == [Spawn(w.call)];
      assert Cooperative(t1, [Spawn(w.call)]);
    } else {
      Returns(s, w.call);
      assert Turn(w)[1..] == [Return(w.call)];
      assert Cooperative(t, [Return(w.call)]);
    }
  }

  /** Every orderly sequence of writes is that of some run that switches only at suspension points. */
  lemma {:induction false} EveryOrderHappens(original: Option<string>, log: seq<Write>)
    requires Orderly(log)
    ensures Cooperative(Initial(original), Turns(log))
    ensures var s := Run(Initial(original), Turns(log)); s.log == log && AllStarted(s)
    decreases |log|
  {
    hide Run, Cooperative, Turn, EntryOf, Value, Known, AllStarted, RestoresOwn, Orderly;
    if log == [] {
      RunNothing(Initial(original));
    } else {
      var n := |log| - 1;
      var front := Turns(log[..n]);
      assert log[..n] + [log[n]] == log;
      OrderlyLast(log[..n], log[n]);
      EveryOrderHappens(original, log[..n]);
      Reached(original, front);
      TakeTurn(Run(Initial(original), front), log[n]);
      RunSplit(Initial(original), front, Turn(log[n]));
    }
  }

  lemma RunNothing(s: State)
    ensures Run(s, []) == s && Cooperative(s, [])
    ensures s.running == map[] ==> AllStarted(s)
  {
  }

  lemma OrderlySnoc(log: seq<Write>, w: Write, known: set<CallId>)
    requires Orderly(log) && Returned(w.call) !in log && (w.Entered? <==> EntryOf(log, w.call) < 0)
    ensures Orderly(log + [w])
    ensures EntryOf(log + [w], w.call) == if w.Entered? then |log| else EntryOf(log, w.call)
    ensures forall c | c in known && c != w.call :: EntryOf(log + [w], c) == EntryOf(log, c)
  {
    hide Orderly, EntryOf;
    OrderlyAdd(log, w);
    EntryAdd(log, w);
  }

  /** Two calls of which the first returns while the second is running. */
  function Overlap(a: string, b: string): (log: seq<Write>)
    ensures |log| == 3 && log[0] == Entered(0, a) && log[1] == Entered(1, b) && log[2] == Returned(0)
  {
    [Entered(0, a), Entered(1, b), Returned(0)]
  }

  lemma Overlapping(a: string, b: string)
    ensures var log := Overlap(a, b);
            && Orderly(log) && Undone(log) && Setter(log[..1]) == 0
            && EntryOf(log, 1) == 1 && EntryOf(log, 2) == -1
  {
    hide Orderly, EntryOf, Undone, Setter;
    var none: seq<Write> := [];
    NothingEntered();
    NothingUndone();
    var l1 := none + [Entered(0, a)];
    var l2 := l1 + [Entered(1, b)];
    OrderlySnoc(none, Entered(0, a), {1, 2});
    OrderlySnoc(l1, Entered(1, b), {0, 2});
    OrderlySnoc(l2, Returned(0), {1, 2});
    SetterLast(none, Entered(0, a));
    UndoneLast(l2, Returned(0));
    assert l2[..0] == none && Overlap(a, b)[..1] == l1;
    assert l2 + [Returned(0)] == Overlap(a, b);
  }

  lemma NothingEntered()
    ensures Orderly([]) && forall c :: EntryOf([], c) == -1
  {
  }

  /** Two overlapping calls returning in the order they began leave the first one's workspace behind. */
  lemma LeftBehind(original: Option<string>, a: string, b: string)
    ensures var log := Overlap(a, b) + [Returned(1)];
            Orderly(log) && Run(Initial(original), Turns(log)).variable == Some(a)
  {
    hide Run, Turns, Orderly, EntryOf, Setter, Undone, Overlap;
    var overlap := Overlap(a, b);
    Overlapping(a, b);
    OrderlySnoc(overlap, Returned(1), {});
    EveryOrderHappens(original, overlap + [Returned(1)]);
    VariableFollows(original, Turns(overlap + [Returned(1)]));
    SetterLast(overlap, Returned(1));
  }

  /** Reverse order is not needed: here the first call returns before the second, and the variable is back all the
      same. */
  lemma NotOnlyInReverse(original: Option<string>, a: string, b: string, c: string)
    ensures var log := Overlap(a, b) + [Entered(2, c)] + [Returned(1)] + [Returned(2)];
            && Orderly(log) && !LastInFirstOut(log, [])
            && Run(Initial(original), Turns(log)).variable == original
  {
    hide Run, Turns, Orderly, EntryOf, Undone, LastInFirstOut, Overlap;
    var l3 := Overlap(a, b);
    var l4 := l3 + [Entered(2, c)];
    var l5 := l4 + [Returned(1)];
    var log := l5 + [Returned(2)];
    Overlapping(a, b);
    OrderlySnoc(l3, Entered(2, c), {1});
    OrderlySnoc(l4, Returned(1), {2});
    OrderlySnoc(l5, Returned(2), {});
    assert l5[..3] == l3;
    UndoneLast(l5, Returned(2));
    assert [2] + [1] == [2, 1] && [] + [2] == [2];
    LastInFirstOutLast(l5, Returned(2), []);
    LastInFirstOutLast(l4, Returned(1), [2]);
    LastInFirstOutLast(l3, Entered(2, c), [2, 1]);
    EveryOrderHappens(original, log);
    RestoredExactly(original, Turns(log));
  }

  lemma LastInFirstOutLast(log: seq<Write>, w: Write, stack: seq<CallId>)
    ensures LastInFirstOut(log + [w], stack) ==>
              if w.Entered? then stack != [] && stack[|stack| - 1] == w.call
              else LastInFirstOut(log, stack + [w.call])
  {
    assert (log + [w])[..|log|] == log;
  }
}

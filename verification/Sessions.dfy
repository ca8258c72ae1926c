/** The session manager as a step system (sandbox/sessions.py, the GC loop of sandbox/exec_server.py). A step is what
    one task does between two suspension points; the lock is never held across one, so a step is a critical section. */
module Sessions {
  import opened Wrappers

  type Id = nat
  type TaskId = nat

  //
  // Sessions
  //

  const DEFAULT_IDLE_TIMEOUT: nat := 900
  const DEFAULT_MAX_LIFETIME: nat := 7200

  datatype Session = Session(createdAt: real, lastActivityAt: real, idleTimeout: nat, maxLifetime: nat)

  predicate IsIdle(s: Session, now: real) {
    now - s.lastActivityAt > s.idleTimeout as real
  }

  predicate IsExpired(s: Session, now: real) {
    now - s.createdAt > s.maxLifetime as real
  }

  /** `given or default`: 0 counts as not given. */
  function OrDefault(given: Option<nat>, default: nat): nat {
    if given.None? || given.value == 0 then default else given.value
  }

  //
  // State
  //

  datatype Kind = Destroying | Reaping(at: real) | ShuttingDown

  /** A task that tears sessions down one after another: the next one is `targets[next]`, and `holding` says that this
      task has popped it and is still stopping its runner. A reap first reads the clock and then waits for the lock. */
  datatype Task = Pending(at: real) | Working(kind: Kind, targets: seq<Id>, next: nat, holding: bool)

  /** The GC loop: asleep since a sweep that read the clock at `last`, or in a sweep begun after one that did. */
  datatype Gc = Asleep(last: real) | Sweeping(task: TaskId, previous: real)

  datatype Pop = Pop(task: TaskId, id: Id, kind: Kind)

  /** `tearing` maps each session being torn down to the task that popped it. */
  datatype History = History(
    created: set<Id>, tearing: map<Id, TaskId>, gone: set<Id>, pops: seq<Pop>, removals: seq<(TaskId, Id)>)

  datatype Manager = Manager(
    now: real, maxSessions: int, sessions: map<Id, Session>, dirs: set<Id>,
    tasks: map<TaskId, Task>, gc: Gc, history: History)

  function Initial(now: real, maxSessions: int): Manager {
    Manager(now, maxSessions, map[], {}, map[], Asleep(now), History({}, map[], {}, [], []))
  }

  predicate Finished(t: Task) {
    t.Working? && t.next >= |t.targets| && !t.holding
  }

  predicate Holds(t: Task) {
    t.Working? && t.holding && t.next < |t.targets|
  }

  //
  // Steps. A step that is not enabled changes nothing.
  //

  datatype Action =
    | Tick(dt: real)
    | Touch(id: Id)
    | Create(id: Id, idleTimeout: Option<nat>, maxLifetime: Option<nat>)
    | StartDestroy(task: TaskId, id: Id)
    | StartReap(task: TaskId)
    | StartSweep(task: TaskId)
    | Snapshot(task: TaskId, order: seq<Id>)
    | StartShutdown(task: TaskId, order: seq<Id>)
    | PopNext(task: TaskId)
    | Finish(task: TaskId)
    | Sleep

  /** The order lists exactly these ids, each once. */
  predicate Enumerates(order: seq<Id>, ids: set<Id>) {
    && (forall i | 0 <= i < |order| :: order[i] in ids)
    && (forall id | id in ids :: id in order)
    && (forall i, j | 0 <= i < j < |order| :: order[i] != order[j])
  }

  /** What a reap that read the clock at `at` finds to destroy. */
  function Overdue(sessions: map<Id, Session>, at: real): set<Id> {
    set id | id in sessions && (IsIdle(sessions[id], at) || IsExpired(sessions[id], at))
  }

  function Next(m: Manager, a: Action): Manager {
    match a
    case Tick(dt) => if dt < 0.0 then m else m.(now := m.now + dt)
    case Touch(id) =>
      if id !in m.sessions then m
      else m.(sessions := m.sessions[id := m.sessions[id].(lastActivityAt := m.now)])
    case Create(id, idle, life) =>
      if id in m.history.created || |m.sessions| >= m.maxSessions then m
      else
        var s := Session(m.now, m.now, OrDefault(idle, DEFAULT_IDLE_TIMEOUT), OrDefault(life, DEFAULT_MAX_LIFETIME));
        m.(sessions := m.sessions[id := s], dirs := m.dirs + {id},
           history := m.history.(created := m.history.created + {id}))
    case StartDestroy(task, id) =>
      if task in m.tasks then m else m.(tasks := m.tasks[task := Working(Destroying, [id], 0, false)])
    case StartReap(task) =>
      if task in m.tasks then m else m.(tasks := m.tasks[task := Pending(m.now)])
    case StartSweep(task) =>
      if task in m.tasks || !m.gc.Asleep? then m
      else m.(tasks := m.tasks[task := Pending(m.now)], gc := Sweeping(task, m.gc.last))
    case Snapshot(task, order) =>
      if task !in m.tasks || !m.tasks[task].Pending? || !Enumerates(order, Overdue(m.sessions, m.tasks[task].at)) then m
      else m.(tasks := m.tasks[task := Working(Reaping(m.tasks[task].at), order, 0, false)])
    case StartShutdown(task, order) =>
      if task in m.tasks || !Enumerates(order, m.sessions.Keys) then m
      else m.(tasks := m.tasks[task := Working(ShuttingDown, order, 0, false)])
    case PopNext(task) =>
      if task !in m.tasks || !m.tasks[task].Working? || m.tasks[task].holding
         || m.tasks[task].next >= |m.tasks[task].targets|
      then m
      else
        var t := m.tasks[task];
        var id := t.targets[t.next];
        if id in m.sessions then
          m.(sessions := m.sessions - {id}, tasks := m.tasks[task := t.(holding := true)],
             history := m.history.(pops := m.history.pops + [Pop(task, id, t.kind)],
                                   tearing := m.history.tearing[id := task]))
        else m.(tasks := m.tasks[task := t.(next := t.next + 1)])
    case Finish(task) =>
      if task !in m.tasks || !Holds(m.tasks[task]) then m
      else
        var t := m.tasks[task];
        var id := t.targets[t.next];
        m.(dirs := m.dirs - {id}, tasks := m.tasks[task := t.(next := t.next + 1, holding := false)],
           history := m.history.(gone := m.history.gone + {id}, removals := m.history.removals + [(task, id)],
                                tearing := m.history.tearing - {id}))
    case Sleep =>
      if m.gc.Sweeping? && m.gc.task in m.tasks && Finished(m.tasks[m.gc.task]) && m.tasks[m.gc.task].kind.Reaping?
      then m.(gc := Asleep(m.tasks[m.gc.task].kind.at)) else m
  }

  function Run(m: Manager, actions: seq<Action>): Manager
    decreases |actions|
  {
    if actions == [] then m else Run(Next(m, actions[0]), actions[1..])
  }

  //
  // Invariants of every interleaving
  //

  predicate IsHolding(tasks: map<TaskId, Task>, task: TaskId, id: Id) {
    task in tasks && Holds(tasks[task]) && tasks[task].targets[tasks[task].next] == id
  }

  /** Sessions being torn down are held by exactly one task each. */
  ghost predicate Linked(tasks: map<TaskId, Task>, tearing: map<Id, TaskId>) {
    && (forall task, id | IsHolding(tasks, task, id) :: id in tearing && tearing[id] == task)
    && (forall id | id in tearing :: IsHolding(tasks, tearing[id], id))
  }

  /** Every session ever created is in the map, or being torn down, or gone, and in one of them only; the directories
      on disk are those of the first two groups. */
  predicate Conserved(live: set<Id>, dirs: set<Id>, h: History) {
    && h.created == live + h.tearing.Keys + h.gone
    && live !! h.tearing.Keys && live !! h.gone && h.tearing.Keys !! h.gone
    && dirs == live + h.tearing.Keys
  }

  predicate Popped(pops: seq<Pop>, task: TaskId, id: Id) {
    exists i :: 0 <= i < |pops| && pops[i].task == task && pops[i].id == id
  }

  /** Sessions are popped at most once, removed at most once, and removed by the task that popped them. */
  predicate OnceOnly(h: History) {
    && (forall i, j | 0 <= i < j < |h.pops| :: h.pops[i].id != h.pops[j].id)
    && (forall i | 0 <= i < |h.pops| :: h.pops[i].id in h.tearing || h.pops[i].id in h.gone)
    && (forall i, j | 0 <= i < j < |h.removals| :: h.removals[i].1 != h.removals[j].1)
    && (forall i | 0 <= i < |h.removals| ::
          h.removals[i].1 in h.gone && Popped(h.pops, h.removals[i].0, h.removals[i].1))
    && (forall id | id in h.tearing :: Popped(h.pops, h.tearing[id], id))
  }

  /** Reaps and shutdowns work on ids that existed, and what they have passed is gone from the map for good. */
  predicate TaskOk(t: Task, live: set<Id>, created: set<Id>) {
    t.Working? ==>
      && t.next <= |t.targets| && (t.holding ==> t.next < |t.targets|)
      && (!t.kind.Destroying? ==>
            forall i | 0 <= i < |t.targets| :: t.targets[i] in created && (i < t.next ==> t.targets[i] !in live))
  }

  /** Only targets of a task are popped by it. */
  predicate PopOk(p: Pop, tasks: map<TaskId, Task>) {
    && p.task in tasks && tasks[p.task].Working?
    && tasks[p.task].kind == p.kind && p.id in tasks[p.task].targets
  }

  predicate OnTarget(tasks: map<TaskId, Task>, live: set<Id>, created: set<Id>, pops: seq<Pop>) {
    && (forall task | task in tasks :: TaskOk(tasks[task], live, created))
    && (forall i | 0 <= i < |pops| :: PopOk(pops[i], tasks))
  }

  ghost predicate Inv(m: Manager) {
    && Linked(m.tasks, m.history.tearing)
    && Conserved(m.sessions.Keys, m.dirs, m.history)
    && OnceOnly(m.history)
    && OnTarget(m.tasks, m.sessions.Keys, m.history.created, m.history.pops)
    && (m.maxSessions >= 0 ==> |m.sessions.Keys| <= m.maxSessions)
  }

  //
  // Every step keeps them
  //

  /** Tasks that hold nothing come and go without touching anything else. */
  lemma QuietTask(m: Manager, task: TaskId, t: Task)
    requires Inv(m) && !Holds(t) && (task in m.tasks ==> !Holds(m.tasks[task]))
    requires TaskOk(t, m.sessions.Keys, m.history.created)
    requires task in m.tasks && m.tasks[task].Working? ==>
               t.Working? && t.kind == m.tasks[task].kind && t.targets == m.tasks[task].targets
    ensures Inv(m.(tasks := m.tasks[task := t]))
  {
    hide TaskOk, Conserved, OnceOnly;
    var tasks := m.tasks[task := t];
    assert forall x, id :: IsHolding(tasks, x, id) <==> IsHolding(m.tasks, x, id);
    assert forall p | PopOk(p, m.tasks) :: PopOk(p, tasks);
  }

  /** Fewer live sessions, or more created ones that were not known before, leave tasks in order. */
  lemma StillOnTarget(tasks: map<TaskId, Task>, live: set<Id>, created: set<Id>, pops: seq<Pop>,
                      live': set<Id>, created': set<Id>)
    requires OnTarget(tasks, live, created, pops) && created <= created' && live' * created <= live
    ensures OnTarget(tasks, live', created', pops)
  {
    hide PopOk;
    forall x | x in tasks ensures TaskOk(tasks[x], live', created') {
      assert TaskOk(tasks[x], live, created);
    }
  }

  ghost predicate CanPop(m: Manager, task: TaskId, id: Id) {
    && task in m.tasks && m.tasks[task].Working? && !m.tasks[task].holding
    && m.tasks[task].next < |m.tasks[task].targets|
    && m.tasks[task].targets[m.tasks[task].next] == id && id in m.sessions
  }

  lemma PopKeeps(m: Manager, task: TaskId, id: Id)
    requires Inv(m) && CanPop(m, task, id)
    ensures Inv(Next(m, PopNext(task)))
  {
    hide OnceOnly, OnTarget, Linked, Conserved;
    var n, t := Next(m, PopNext(task)), m.tasks[task];
    assert n.sessions.Keys == m.sessions.Keys - {id};
    PopConserved(m.sessions.Keys, m.dirs, m.history, task, id, t.kind);
    PopLinked(m, task, id);
    PopIsNew(m.history, task, id, t.kind);
    PopOnTarget(m, task, id);
  }

  function WithPop(h: History, task: TaskId, id: Id, kind: Kind): History {
    h.(pops := h.pops + [Pop(task, id, kind)], tearing := h.tearing[id := task])
  }

  lemma PopConserved(live: set<Id>, dirs: set<Id>, h: History, task: TaskId, id: Id, kind: Kind)
    requires Conserved(live, dirs, h) && id in live
    ensures Conserved(live - {id}, dirs, WithPop(h, task, id, kind)) && id !in h.tearing && id !in h.gone
  {
    assert h.tearing[id := task].Keys == h.tearing.Keys + {id};
  }

  lemma PopLinked(m: Manager, task: TaskId, id: Id)
    requires Linked(m.tasks, m.history.tearing) && CanPop(m, task, id) && id !in m.history.tearing
    ensures Linked(Next(m, PopNext(task)).tasks, m.history.tearing[id := task])
  {
    var tasks := Next(m, PopNext(task)).tasks;
    assert forall x, y | IsHolding(tasks, x, y) :: IsHolding(m.tasks, x, y) || (x == task && y == id);
    assert forall x, y | IsHolding(m.tasks, x, y) :: IsHolding(tasks, x, y) && x != task;
    assert IsHolding(tasks, task, id);
  }

  lemma PopOnTarget(m: Manager, task: TaskId, id: Id)
    requires OnTarget(m.tasks, m.sessions.Keys, m.history.created, m.history.pops) && CanPop(m, task, id)
    ensures OnTarget(Next(m, PopNext(task)).tasks, m.sessions.Keys - {id}, m.history.created,
                     m.history.pops + [Pop(task, id, m.tasks[task].kind)])
  {
    var tasks, pops := Next(m, PopNext(task)).tasks, m.history.pops;
    StillOnTarget(m.tasks, m.sessions.Keys, m.history.created, pops, m.sessions.Keys - {id}, m.history.created);
    forall x | x in tasks ensures TaskOk(tasks[x], m.sessions.Keys - {id}, m.history.created) {
      assert TaskOk(m.tasks[x], m.sessions.Keys - {id}, m.history.created);
    }
    assert forall p | PopOk(p, m.tasks) :: PopOk(p, tasks);
  }

  lemma PopIsNew(h: History, task: TaskId, id: Id, kind: Kind)
    requires OnceOnly(h) && id !in h.tearing && id !in h.gone
    ensures OnceOnly(WithPop(h, task, id, kind))
  {
    var k := WithPop(h, task, id, kind);
    assert k.pops[|h.pops|] == Pop(task, id, kind);
    forall x, y | Popped(h.pops, x, y) ensures Popped(k.pops, x, y) {
      var i :| 0 <= i < |h.pops| && h.pops[i].task == x && h.pops[i].id == y;
      assert k.pops[i] == h.pops[i];
    }
  }

  lemma FinishKeeps(m: Manager, task: TaskId, id: Id)
    requires Inv(m) && IsHolding(m.tasks, task, id)
    ensures Inv(Next(m, Finish(task)))
  {
    hide OnceOnly, OnTarget, Linked, Conserved;
    FinishLinked(m, task, id);
    RemovalConserved(m.sessions.Keys, m.dirs, m.history, task, id);
    RemovalIsNew(m.history, task, id);
    FinishOnTarget(m, task, id);
  }

  function WithRemoval(h: History, task: TaskId, id: Id): History {
    h.(gone := h.gone + {id}, removals := h.removals + [(task, id)], tearing := h.tearing - {id})
  }

  lemma FinishLinked(m: Manager, task: TaskId, id: Id)
    requires Linked(m.tasks, m.history.tearing) && IsHolding(m.tasks, task, id)
    ensures Linked(Next(m, Finish(task)).tasks, m.history.tearing - {id})
    ensures id in m.history.tearing && m.history.tearing[id] == task
  {
    var tasks := Next(m, Finish(task)).tasks;
    assert forall x, y | IsHolding(tasks, x, y) :: IsHolding(m.tasks, x, y) && x != task;
    assert forall x, y | IsHolding(m.tasks, x, y) && x != task :: IsHolding(tasks, x, y);
  }

  lemma RemovalConserved(live: set<Id>, dirs: set<Id>, h: History, task: TaskId, id: Id)
    requires Conserved(live, dirs, h) && id in h.tearing
    ensures Conserved(live, dirs - {id}, WithRemoval(h, task, id)) && id !in h.gone && id !in live
  {
    assert (h.tearing - {id}).Keys == h.tearing.Keys - {id};
  }

  lemma FinishOnTarget(m: Manager, task: TaskId, id: Id)
    requires OnTarget(m.tasks, m.sessions.Keys, m.history.created, m.history.pops)
    requires IsHolding(m.tasks, task, id) && id !in m.sessions
    ensures OnTarget(Next(m, Finish(task)).tasks, m.sessions.Keys, m.history.created, m.history.pops)
  {
    var tasks := Next(m, Finish(task)).tasks;
    forall x | x in tasks ensures TaskOk(tasks[x], m.sessions.Keys, m.history.created) {
      assert TaskOk(m.tasks[x], m.sessions.Keys, m.history.created);
    }
    assert forall p | PopOk(p, m.tasks) :: PopOk(p, tasks);
  }

  lemma RemovalIsNew(h: History, task: TaskId, id: Id)
    requires OnceOnly(h) && id !in h.gone && id in h.tearing && h.tearing[id] == task
    ensures OnceOnly(WithRemoval(h, task, id))
  {
    hide Popped;
    var k := WithRemoval(h, task, id);
    forall i | 0 <= i < |k.removals|
      ensures k.removals[i].1 in k.gone && Popped(k.pops, k.removals[i].0, k.removals[i].1)
    {
      assert i < |h.removals| ==> k.removals[i] == h.removals[i];
    }
  }

  lemma CreateKeeps(m: Manager, id: Id, idle: Option<nat>, life: Option<nat>)
    requires Inv(m) && id !in m.history.created && |m.sessions| < m.maxSessions
    ensures Inv(Next(m, Create(id, idle, life)))
  {
    hide Linked, OnTarget, OnceOnly, Conserved, OrDefault;
    var n := Next(m, Create(id, idle, life));
    var live, live' := m.sessions.Keys, m.sessions.Keys + {id};
    assert n.sessions.Keys == live';
    CreateConserved(live, m.dirs, m.history, id);
    StillOnTarget(m.tasks, live, m.history.created, m.history.pops, live', n.history.created);
    assert |live| == |m.sessions| && |live'| <= |live| + 1;
  }

  lemma CreateConserved(live: set<Id>, dirs: set<Id>, h: History, id: Id)
    requires Conserved(live, dirs, h) && OnceOnly(h) && id !in h.created
    ensures Conserved(live + {id}, dirs + {id}, h.(created := h.created + {id}))
    ensures OnceOnly(h.(created := h.created + {id}))
  {
    hide Popped;
  }

  lemma NewTask(m: Manager, task: TaskId, order: seq<Id>, kind: Kind)
    requires Inv(m) && (task !in m.tasks || m.tasks[task].Pending?)
    requires forall i | 0 <= i < |order| :: order[i] in m.sessions
    ensures Inv(m.(tasks := m.tasks[task := Working(kind, order, 0, false)]))
  {
    hide Linked, OnceOnly;
    QuietTask(m, task, Working(kind, order, 0, false));
  }

  lemma SkipKeeps(m: Manager, task: TaskId)
    requires Inv(m) && task in m.tasks && m.tasks[task].Working? && !m.tasks[task].holding
    requires m.tasks[task].next < |m.tasks[task].targets| && m.tasks[task].targets[m.tasks[task].next] !in m.sessions
    ensures Inv(m.(tasks := m.tasks[task := m.tasks[task].(next := m.tasks[task].next + 1)]))
  {
    hide Linked, Conserved, OnceOnly;
    var t := m.tasks[task];
    assert TaskOk(t, m.sessions.Keys, m.history.created);
    QuietTask(m, task, t.(next := t.next + 1));
  }

  lemma StartKeeps(m: Manager, a: Action)
    requires Inv(m) && (a.StartDestroy? || a.StartReap? || a.StartSweep? || a.Snapshot? || a.StartShutdown?)
    ensures Inv(Next(m, a))
  {
    hide Linked, Conserved, OnceOnly, OnTarget, Overdue;
    if Next(m, a) != m {
      match a
      case StartDestroy(task, id) => QuietTask(m, task, Working(Destroying, [id], 0, false));
      case StartReap(task) => QuietTask(m, task, Pending(m.now));
      case StartSweep(task) => QuietTask(m, task, Pending(m.now));
      case Snapshot(task, order) =>
        OverdueIsLive(m.sessions, m.tasks[task].at);
        NewTask(m, task, order, Reaping(m.tasks[task].at));
      case StartShutdown(task, order) => NewTask(m, task, order, ShuttingDown);
    }
  }

  lemma OverdueIsLive(sessions: map<Id, Session>, at: real)
    ensures Overdue(sessions, at) <= sessions.Keys
  {
  }

  lemma StepKeepsInv(m: Manager, a: Action)
    requires Inv(m)
    ensures Inv(Next(m, a))
  {
    hide Linked, Conserved, OnceOnly, OnTarget, Overdue;
    match a
    case Tick(_) =>
    case Touch(id) => assert Next(m, a).sessions.Keys == m.sessions.Keys;
    case Create(id, idle, life) =>
      if Next(m, a) != m {
        CreateKeeps(m, id, idle, life);
      }
    case PopNext(task) =>
      if Next(m, a) != m {
        var id := m.tasks[task].targets[m.tasks[task].next];
        if id in m.sessions {
          PopKeeps(m, task, id);
        } else {
          SkipKeeps(m, task);
        }
      }
    case Finish(task) =>
      if Next(m, a) != m {
        FinishKeeps(m, task, m.tasks[task].targets[m.tasks[task].next]);
      }
    case Sleep =>
    case _ => StartKeeps(m, a);
  }

  lemma {:induction false} RunKeepsInv(m: Manager, actions: seq<Action>)
    requires Inv(m)
    ensures Inv(Run(m, actions))
    decreases |actions|
  {
    hide Inv, Next;
    if actions != [] {
      StepKeepsInv(m, actions[0]);
      RunKeepsInv(Next(m, actions[0]), actions[1..]);
    }
  }

  lemma InitialOk(now: real, maxSessions: int)
    ensures Inv(Initial(now, maxSessions))
  {
  }

  //
  // Teardown and conservation
  //

  /** In every interleaving each session id is torn down at most once, by one task; sessions are conserved and so are
      directories; and the cap on live sessions holds. */
  lemma Teardown(now: real, maxSessions: int, actions: seq<Action>)
    ensures var m := Run(Initial(now, maxSessions), actions);
            var h := m.history;
            && Conserved(m.sessions.Keys, m.dirs, h)
            && |h.created| == |m.sessions| + |h.tearing| + |h.gone|
            && (forall id, a, b | IsHolding(m.tasks, a, id) && IsHolding(m.tasks, b, id) :: a == b)
            && (forall i, j | 0 <= i < j < |h.pops| :: h.pops[i].id != h.pops[j].id)
            && (forall i, j | 0 <= i < j < |h.removals| :: h.removals[i].1 != h.removals[j].1)
            && (forall i | 0 <= i < |h.removals| :: Popped(h.pops, h.removals[i].0, h.removals[i].1))
            && (maxSessions >= 0 ==> |m.sessions| <= maxSessions)
  {
    hide Run, Next, Popped, OnTarget;
    InitialOk(now, maxSessions);
    RunKeepsInv(Initial(now, maxSessions), actions);
    MaxIsConstant(Initial(now, maxSessions), actions);
    var m := Run(Initial(now, maxSessions), actions);
    Sizes(m.sessions.Keys, m.history.tearing.Keys, m.history.gone);
    assert |m.sessions| == |m.sessions.Keys| && |m.history.tearing| == |m.history.tearing.Keys|;
  }

  lemma Sizes(a: set<Id>, b: set<Id>, c: set<Id>)
    requires a !! b && a !! c && b !! c
    ensures |a + b + c| == |a| + |b| + |c|
  {
  }

  lemma {:induction false} MaxIsConstant(m: Manager, actions: seq<Action>)
    ensures Run(m, actions).maxSessions == m.maxSessions
    decreases |actions|
  {
    if actions != [] {
      MaxIsConstant(Next(m, actions[0]), actions[1..]);
    }
  }

  /** A task keeps its kind and its targets. */
  lemma {:induction false} TargetsAreFixed(m: Manager, actions: seq<Action>, task: TaskId)
    requires task in m.tasks && m.tasks[task].Working?
    ensures var n := Run(m, actions);
            task in n.tasks && n.tasks[task].Working?
            && n.tasks[task].kind == m.tasks[task].kind && n.tasks[task].targets == m.tasks[task].targets
    decreases |actions|
  {
    if actions != [] {
      TargetsAreFixed(Next(m, actions[0]), actions[1..], task);
    }
  }

  lemma FinishedTargets(m: Manager, task: TaskId)
    requires Inv(m) && task in m.tasks && Finished(m.tasks[task]) && !m.tasks[task].kind.Destroying?
    ensures forall i | 0 <= i < |m.tasks[task].targets| :: m.tasks[task].targets[i] !in m.sessions
  {
    hide Linked, Conserved, OnceOnly;
    assert TaskOk(m.tasks[task], m.sessions.Keys, m.history.created);
  }

  /** A reap or a shutdown that has taken its snapshot never removes a session created later, and when it returns none
      of its targets is in the map. */
  lemma SweepTargets(m: Manager, actions: seq<Action>, task: TaskId)
    requires Inv(m) && task in m.tasks && m.tasks[task].Working? && !m.tasks[task].kind.Destroying?
    ensures var n, targets := Run(m, actions), m.tasks[task].targets;
            && (forall i | 0 <= i < |n.history.pops| && n.history.pops[i].task == task ::
                  n.history.pops[i].id in m.history.created)
            && (task in n.tasks && Finished(n.tasks[task]) ==>
                  forall i | 0 <= i < |targets| :: targets[i] !in n.sessions)
  {
    hide Run, Next, Linked, Conserved, OnceOnly;
    RunKeepsInv(m, actions);
    TargetsAreFixed(m, actions, task);
    var n := Run(m, actions);
    assert TaskOk(m.tasks[task], m.sessions.Keys, m.history.created);
    if task in n.tasks && Finished(n.tasks[task]) {
      FinishedTargets(n, task);
    }
    assert forall i | 0 <= i < |n.history.pops| :: PopOk(n.history.pops[i], n.tasks);
  }

  lemma StepGoneForGood(m: Manager, a: Action, id: Id)
    requires Inv(m) && id in m.history.created && id !in m.sessions
    ensures var n := Next(m, a); id in n.history.created && id !in n.sessions
  {
    hide Linked, Conserved, OnceOnly, OnTarget, Overdue, Enumerates, OrDefault;
  }

  /** A session that has left the map never comes back. */
  lemma {:induction false} GoneForGood(m: Manager, actions: seq<Action>, id: Id)
    requires Inv(m) && id in m.history.created && id !in m.sessions
    ensures var n := Run(m, actions); id in n.history.created && id !in n.sessions
    decreases |actions|
  {
    hide Inv, Next;
    if actions != [] {
      StepKeepsInv(m, actions[0]);
      StepGoneForGood(m, actions[0], id);
      GoneForGood(Next(m, actions[0]), actions[1..], id);
    }
  }

  lemma LiveIsCreated(m: Manager, id: Id)
    requires Inv(m) && id in m.sessions
    ensures id in m.history.created && id !in m.history.tearing && id in m.dirs
  {
    hide Linked, OnceOnly, OnTarget;
  }

  /** Off the map, a session has a directory exactly while some task is tearing it down. */
  lemma OnDiskWhileTearing(m: Manager, id: Id)
    requires Inv(m) && id !in m.sessions
    ensures id in m.dirs <==> id in m.history.tearing
  {
    hide Linked, OnceOnly, OnTarget;
  }

  lemma HeldIsOnDisk(m: Manager, task: TaskId, id: Id)
    requires Inv(m) && IsHolding(m.tasks, task, id)
    ensures id !in m.sessions && id in m.dirs
  {
    hide OnceOnly, OnTarget;
  }

  /** Destroying a session that another task is tearing down returns at once, its directory still there. */
  lemma ReturnsBeforeRemoval(m: Manager, me: TaskId, other: TaskId, id: Id)
    requires Inv(m) && me !in m.tasks && IsHolding(m.tasks, other, id)
    ensures var n := Run(m, [StartDestroy(me, id), PopNext(me)]);
            && me in n.tasks && Finished(n.tasks[me])
            && id !in n.sessions && id in n.dirs && IsHolding(n.tasks, other, id)
  {
    hide Inv, Overdue, Enumerates, OrDefault;
    HeldIsOnDisk(m, other, id);
    var s := Next(m, StartDestroy(me, id));
    var n := Next(s, PopNext(me));
    assert Run(m, [StartDestroy(me, id), PopNext(me)]) == Run(s, [PopNext(me)]);
    assert Run(s, [PopNext(me)]) == Run(n, []);
  }

  //
  // Shutdown
  //

  predicate StillToCome(m: Manager, task: TaskId) {
    task in m.tasks && m.tasks[task].Working? && m.tasks[task].next <= |m.tasks[task].targets|
    && forall id | id in m.sessions :: id in m.tasks[task].targets[m.tasks[task].next..]
  }

  lemma {:induction false} CreatedGrows(m: Manager, actions: seq<Action>)
    ensures m.history.created <= Run(m, actions).history.created
    decreases |actions|
  {
    if actions != [] {
      CreatedGrows(Next(m, actions[0]), actions[1..]);
    }
  }

  lemma StepStillToCome(m: Manager, a: Action, task: TaskId)
    requires Inv(m) && StillToCome(m, task) && Next(m, a).history.created == m.history.created
    ensures StillToCome(Next(m, a), task)
  {
    hide Inv;
    StepOfTask(m, a, task);
    OnlyCreateAdds(m, a);
  }

  lemma OnlyCreateAdds(m: Manager, a: Action)
    requires Inv(m) && Next(m, a).history.created == m.history.created
    ensures Next(m, a).sessions.Keys <= m.sessions.Keys
  {
    hide Linked, OnceOnly, OnTarget, Conserved, Overdue, Enumerates, OrDefault;
  }

  lemma {:induction false} RunStillToCome(m: Manager, actions: seq<Action>, task: TaskId)
    requires Inv(m) && StillToCome(m, task) && Run(m, actions).history.created == m.history.created
    ensures StillToCome(Run(m, actions), task)
    decreases |actions|
  {
    hide Inv, Next, StillToCome;
    if actions != [] {
      var n := Next(m, actions[0]);
      CreatedGrows(n, actions[1..]);
      CreatedGrows(m, [actions[0]]);
      assert Run(m, [actions[0]]) == Run(n, [actions[0]][1..]) == n;
      StepKeepsInv(m, actions[0]);
      StepStillToCome(m, actions[0], task);
      RunStillToCome(n, actions[1..], task);
    }
  }

  /** A shutdown during which no session is created ends with an empty map, whatever other tasks do meanwhile; and with
      no directory on disk once nobody else is tearing a session down. */
  lemma ShutdownEmpties(m: Manager, task: TaskId, order: seq<Id>, actions: seq<Action>)
    requires Inv(m) && task !in m.tasks && Enumerates(order, m.sessions.Keys)
    ensures var n := Run(Next(m, StartShutdown(task, order)), actions);
            n.history.created == m.history.created && task in n.tasks && Finished(n.tasks[task]) ==>
              && n.sessions == map[]
              && ((forall x | x in n.tasks :: !Holds(n.tasks[x])) ==> n.dirs == {})
  {
    hide Run, Inv, Overdue;
    var s := Next(m, StartShutdown(task, order));
    var n := Run(s, actions);
    StepKeepsInv(m, StartShutdown(task, order));
    RunKeepsInv(s, actions);
    if n.history.created == m.history.created && task in n.tasks && Finished(n.tasks[task]) {
      assert order[0..] == order;
      RunStillToCome(s, actions, task);
      assert n.sessions == map[];
      if forall x | x in n.tasks :: !Holds(n.tasks[x]) {
        NobodyHolds(n);
      }
    }
  }

  lemma NobodyHolds(m: Manager)
    requires Inv(m) && m.sessions == map[] && forall x | x in m.tasks :: !Holds(m.tasks[x])
    ensures m.dirs == {}
  {
    hide OnceOnly, OnTarget;
  }

  //
  // Garbage collection: safety
  //

  predicate Fresh(s: Session, at: real) {
    !IsIdle(s, at) && !IsExpired(s, at)
  }

  /** Clock readings are in the past. */
  predicate Clocked(m: Manager) {
    && (forall task | task in m.tasks && m.tasks[task].Pending? :: m.tasks[task].at <= m.now)
    && (forall id | id in m.sessions :: m.sessions[id].lastActivityAt <= m.now && m.sessions[id].createdAt <= m.now)
  }

  /** Along the whole run the session, while it is in the map, was touched within its idle timeout and is within its
      lifetime, both ends included. */
  predicate AlwaysFresh(m: Manager, actions: seq<Action>, id: Id)
    decreases |actions|
  {
    && (id in m.sessions ==>
          && m.now <= m.sessions[id].lastActivityAt + m.sessions[id].idleTimeout as real
          && m.now <= m.sessions[id].createdAt + m.sessions[id].maxLifetime as real)
    && (actions != [] ==> AlwaysFresh(Next(m, actions[0]), actions[1..], id))
  }

  predicate NotReaped(m: Manager, id: Id) {
    forall task | task in m.tasks && m.tasks[task].Working? && m.tasks[task].kind.Reaping? ::
      id !in m.tasks[task].targets
  }

  lemma StepClocked(m: Manager, a: Action)
    requires Clocked(m)
    ensures Clocked(Next(m, a))
  {
    hide Overdue, Enumerates, OrDefault;
  }

  lemma StepNotReaped(m: Manager, a: Action, id: Id)
    requires Clocked(m) && NotReaped(m, id) && (id in m.sessions ==> Fresh(m.sessions[id], m.now))
    ensures NotReaped(Next(m, a), id)
  {
    hide OrDefault;
  }

  lemma {:induction false} RunNotReaped(m: Manager, actions: seq<Action>, id: Id)
    requires Clocked(m) && NotReaped(m, id) && AlwaysFresh(m, actions, id)
    ensures NotReaped(Run(m, actions), id)
    decreases |actions|
  {
    hide Clocked, NotReaped, Next;
    if actions != [] {
      StepClocked(m, actions[0]);
      StepNotReaped(m, actions[0], id);
      RunNotReaped(Next(m, actions[0]), actions[1..], id);
    }
  }

  /** No reap, in any interleaving, removes a session whose touches are never further apart than its idle timeout
      while it is within its lifetime. */
  lemma GcSafety(now: real, maxSessions: int, actions: seq<Action>, id: Id)
    requires AlwaysFresh(Initial(now, maxSessions), actions, id)
    ensures var pops := Run(Initial(now, maxSessions), actions).history.pops;
            forall i | 0 <= i < |pops| && pops[i].id == id :: !pops[i].kind.Reaping?
  {
    hide Run, Next, Linked, Conserved, OnceOnly, AlwaysFresh;
    InitialOk(now, maxSessions);
    RunKeepsInv(Initial(now, maxSessions), actions);
    RunNotReaped(Initial(now, maxSessions), actions, id);
    var m := Run(Initial(now, maxSessions), actions);
    assert forall i | 0 <= i < |m.history.pops| :: PopOk(m.history.pops[i], m.tasks);
  }

  /** Along the run, some reap that read the clock at `at` found the session overdue when it took its snapshot. */
  ghost predicate FoundOverdue(m: Manager, actions: seq<Action>, id: Id, at: real) {
    exists k :: 0 <= k < |actions| && actions[k].Snapshot?
                && TakesOverdue(Run(m, actions[..k]), actions[k].task, id, at)
  }

  predicate TakesOverdue(m: Manager, task: TaskId, id: Id, at: real) {
    task in m.tasks && m.tasks[task] == Pending(at) && at <= m.now && id in Overdue(m.sessions, at)
  }

  ghost predicate TargetsFound(m: Manager, actions: seq<Action>) {
    var n := Run(m, actions);
    forall task, id | task in n.tasks && n.tasks[task].Working? && n.tasks[task].kind.Reaping?
                      && id in n.tasks[task].targets :: FoundOverdue(m, actions, id, n.tasks[task].kind.at)
  }

  lemma RunNothing(m: Manager)
    ensures Run(m, []) == m
  {
  }

  lemma {:induction false} RunSnoc(m: Manager, actions: seq<Action>, a: Action)
    ensures Run(m, actions + [a]) == Next(Run(m, actions), a)
    decreases |actions|
  {
    hide Next;
    if actions == [] {
      assert Run(m, [a]) == Run(Next(m, a), []);
      assert actions + [a] == [a];
    } else {
      assert (actions + [a])[1..] == actions[1..] + [a];
      RunSnoc(Next(m, actions[0]), actions[1..], a);
    }
  }

  lemma FoundStays(m: Manager, actions: seq<Action>, a: Action, id: Id, at: real)
    requires FoundOverdue(m, actions, id, at)
    ensures FoundOverdue(m, actions + [a], id, at)
  {
    hide Run, TakesOverdue;
    var k :| 0 <= k < |actions| && actions[k].Snapshot? && TakesOverdue(Run(m, actions[..k]), actions[k].task, id, at);
    assert (actions + [a])[..k] == actions[..k] && (actions + [a])[k] == actions[k];
  }

  lemma FoundNow(m: Manager, actions: seq<Action>, a: Action, id: Id, at: real)
    requires a.Snapshot? && TakesOverdue(Run(m, actions), a.task, id, at)
    ensures FoundOverdue(m, actions + [a], id, at)
  {
    hide Run, TakesOverdue;
    var k := |actions|;
    assert (actions + [a])[..k] == actions && (actions + [a])[k] == a;
  }

  /** A step leaves every reap's targets alone, or is the snapshot at which they are found. */
  lemma ReapTargets(m: Manager, a: Action, task: TaskId, id: Id)
    requires Clocked(m) && task in Next(m, a).tasks
    requires var t := Next(m, a).tasks[task]; t.Working? && t.kind.Reaping? && id in t.targets
    ensures var t := Next(m, a).tasks[task];
            || (task in m.tasks && m.tasks[task].Working?
                && m.tasks[task].kind == t.kind && m.tasks[task].targets == t.targets)
            || (a.Snapshot? && a.task == task && TakesOverdue(m, task, id, t.kind.at))
  {
    hide Overdue, OrDefault;
  }

  lemma {:induction false} RunTargetsFound(m: Manager, actions: seq<Action>)
    requires Clocked(m) && m.tasks == map[]
    ensures TargetsFound(m, actions) && Clocked(Run(m, actions))
    decreases |actions|
  {
    hide Next, FoundOverdue, TakesOverdue, Clocked;
    if actions != [] {
      var n := |actions| - 1;
      var front, a := actions[..n], actions[n];
      assert front + [a] == actions;
      RunTargetsFound(m, front);
      RunSnoc(m, front, a);
      var s, t := Run(m, front), Run(m, actions);
      StepClocked(s, a);
      forall task, id | task in t.tasks && t.tasks[task].Working? && t.tasks[task].kind.Reaping?
                        && id in t.tasks[task].targets
        ensures FoundOverdue(m, actions, id, t.tasks[task].kind.at)
      {
        ReapTargets(s, a, task, id);
        var at := t.tasks[task].kind.at;
        if a.Snapshot? && a.task == task && TakesOverdue(s, task, id, at) {
          FoundNow(m, front, a, id, at);
        } else {
          FoundStays(m, front, a, id, at);
        }
      }
    }
  }

  /** Whatever a reap pops, in any interleaving, was idle or expired, as of a clock reading in the past, when that reap
      took its snapshot. */
  lemma PoppedWasOverdue(now: real, maxSessions: int, actions: seq<Action>, i: nat)
    requires var pops := Run(Initial(now, maxSessions), actions).history.pops; i < |pops| && pops[i].kind.Reaping?
    ensures var pop := Run(Initial(now, maxSessions), actions).history.pops[i];
            FoundOverdue(Initial(now, maxSessions), actions, pop.id, pop.kind.at)
  {
    hide Run, Next, Linked, Conserved, OnceOnly, FoundOverdue;
    InitialOk(now, maxSessions);
    RunKeepsInv(Initial(now, maxSessions), actions);
    RunTargetsFound(Initial(now, maxSessions), actions);
    var m := Run(Initial(now, maxSessions), actions);
    assert PopOk(m.history.pops[i], m.tasks);
  }

  /** From a snapshot on, whatever anybody does: a reap that has finished has left none of the sessions overdue at its
      snapshot in the map, however often they have been touched since, and it has popped no others. */
  lemma SweptRegardless(m: Manager, task: TaskId, order: seq<Id>, actions: seq<Action>)
    requires Inv(m) && task in m.tasks && m.tasks[task].Pending?
    requires Enumerates(order, Overdue(m.sessions, m.tasks[task].at))
    ensures var overdue, n := Overdue(m.sessions, m.tasks[task].at), Run(Next(m, Snapshot(task, order)), actions);
            && (task in n.tasks && Finished(n.tasks[task]) ==> overdue !! n.sessions.Keys)
            && (forall i | 0 <= i < |n.history.pops| && n.history.pops[i].task == task ::
                  n.history.pops[i].id in overdue && n.history.pops[i].kind == Reaping(m.tasks[task].at))
  {
    hide Run, Linked, Conserved, OnceOnly, Overdue, TaskOk;
    var s := Next(m, Snapshot(task, order));
    StepKeepsInv(m, Snapshot(task, order));
    SweepTargets(s, actions, task);
    TargetsAreFixed(s, actions, task);
    RunKeepsInv(s, actions);
    var n := Run(s, actions);
    assert forall i | 0 <= i < |n.history.pops| :: PopOk(n.history.pops[i], n.tasks);
  }

  /** It happens: here a session touched after the snapshot is popped although it is fresh. */
  lemma TouchedTooLate(now: real, maxSessions: int)
    requires maxSessions > 0
    ensures var late := [Create(0, None, None), Tick(901.0), StartReap(0)] + [Snapshot(0, [0]), Touch(0)];
            var m := Run(Initial(now, maxSessions), late);
            && 0 in m.sessions && Fresh(m.sessions[0], m.now)
            && Next(m, PopNext(0)).history.pops == [Pop(0, 0, Reaping(m.now))]
  {
    hide Run, Next, Overdue, Enumerates, Fresh;
    var m := Initial(now, maxSessions);
    var a, b := Create(0, None, None), Tick(901.0);
    IdleSession(now, maxSessions);
    var n := Run(m, [a, b, StartReap(0)]);
    TouchedSession(n, now);
    RunSnoc(m, [a, b, StartReap(0)], Snapshot(0, [0]));
    RunSnoc(m, [a, b, StartReap(0)] + [Snapshot(0, [0])], Touch(0));
    assert [a, b, StartReap(0)] + [Snapshot(0, [0])] + [Touch(0)]
        == [a, b, StartReap(0)] + [Snapshot(0, [0]), Touch(0)];
  }

  lemma IdleSession(now: real, maxSessions: int)
    requires maxSessions > 0
    ensures var m := Run(Initial(now, maxSessions), [Create(0, None, None), Tick(901.0), StartReap(0)]);
            && m.sessions == map[0 := Session(now, now, 900, 7200)] && m.now == now + 901.0
            && m.tasks == map[0 := Pending(m.now)] && m.history.pops == []
  {
    var m0 := Initial(now, maxSessions);
    var m1 := Next(m0, Create(0, None, None));
    var m2 := Next(m1, Tick(901.0));
    var m3 := Next(m2, StartReap(0));
    var a, b := Create(0, None, None), Tick(901.0);
    assert Run(m0, [a, b, StartReap(0)]) == Run(m1, [b, StartReap(0)]);
    assert Run(m1, [b, StartReap(0)]) == Run(m2, [StartReap(0)]);
    assert Run(m2, [StartReap(0)]) == Run(m3, []);
  }

  lemma TouchedSession(m: Manager, now: real)
    requires m.sessions == map[0 := Session(now, now, 900, 7200)] && m.now == now + 901.0
    requires m.tasks == map[0 := Pending(m.now)] && m.history.pops == []
    ensures var n := Next(Next(m, Snapshot(0, [0])), Touch(0));
            && 0 in n.sessions && Fresh(n.sessions[0], n.now)
            && Next(n, PopNext(0)).history.pops == [Pop(0, 0, Reaping(n.now))]
  {
    assert Overdue(m.sessions, m.now) == {0};
    assert Enumerates([0], {0});
  }

  //
  // Garbage collection: lag
  //

  /** All sessions were fresh at the last finished sweep's reading; those that were not at the reading of the sweep
      under way are among its remaining targets. */
  predicate Swept(m: Manager) {
    && Clocked(m)
    && if m.gc.Asleep? then m.gc.last <= m.now && forall id | id in m.sessions :: Fresh(m.sessions[id], m.gc.last)
       else
         && m.gc.task in m.tasks && m.gc.previous <= m.now
         && (forall id | id in m.sessions :: Fresh(m.sessions[id], m.gc.previous))
         && var t := m.tasks[m.gc.task];
           if t.Pending? then t.at <= m.now
           else
             && t.kind.Reaping? && t.kind.at <= m.now && t.next <= |t.targets|
             && forall id | id in m.sessions :: Fresh(m.sessions[id], t.kind.at) || id in t.targets[t.next..]
  }

  /** The GC loop is on time: clock readings of successive sweeps are at most `gap` apart, and a sweep takes at most
      `duration` from its reading on. */
  predicate Timely(m: Manager, gap: real, duration: real) {
    if m.gc.Asleep? then m.now <= m.gc.last + gap
    else
      m.gc.task in m.tasks ==>
        var t := m.tasks[m.gc.task];
        var at := if t.Pending? then t.at else if t.kind.Reaping? then t.kind.at else m.now;
        at <= m.gc.previous + gap && m.now <= at + duration
  }

  /** A step never makes a session staler as of a past reading. */
  lemma StaysFresh(m: Manager, a: Action, at: real)
    requires Clocked(m) && at <= m.now
    ensures forall id | id in Next(m, a).sessions && (id in m.sessions ==> Fresh(m.sessions[id], at)) ::
              Fresh(Next(m, a).sessions[id], at)
    ensures m.now <= Next(m, a).now
  {
    hide Overdue, Enumerates, OrDefault;
  }

  lemma AfterSnapshot(m: Manager, task: TaskId, order: seq<Id>)
    requires Clocked(m) && task in m.tasks && m.tasks[task].Pending?
    requires Enumerates(order, Overdue(m.sessions, m.tasks[task].at))
    ensures forall id | id in m.sessions :: Fresh(m.sessions[id], m.tasks[task].at) || id in order[0..]
  {
    assert order[0..] == order;
  }

  /** Passing a target that is no longer live loses nothing. */
  lemma PassTarget(targets: seq<Id>, next: nat, live: set<Id>)
    requires next < |targets| && targets[next] !in live
    ensures forall id | id in live && id in targets[next..] :: id in targets[next + 1..]
  {
    assert targets[next..] == [targets[next]] + targets[next + 1..];
  }

  /** A step on a working task keeps its targets and passes only those that are not live. */
  lemma StepOfTask(m: Manager, a: Action, task: TaskId)
    requires Inv(m) && task in m.tasks && m.tasks[task].Working? && m.tasks[task].next <= |m.tasks[task].targets|
    ensures var n, t := Next(m, a), m.tasks[task];
            && task in n.tasks && n.tasks[task].Working?
            && n.tasks[task].kind == t.kind && n.tasks[task].targets == t.targets && n.tasks[task].next <= |t.targets|
            && forall id | id in n.sessions && id in t.targets[t.next..] && id in m.sessions ::
                 id in t.targets[n.tasks[task].next..]
  {
    hide Linked, OnceOnly, OnTarget, Conserved, Overdue, Enumerates, OrDefault;
    var n, t := Next(m, a), m.tasks[task];
    if (a == PopNext(task) || a == Finish(task)) && n.tasks[task].next != t.next {
      if Holds(t) {
        HeldIsOnDisk(m, task, t.targets[t.next]);
      }
      PassTarget(t.targets, t.next, n.sessions.Keys);
    }
  }

  lemma StepSwept(m: Manager, a: Action)
    requires Inv(m) && Swept(m)
    ensures Swept(Next(m, a))
  {
    hide Inv, Clocked, Fresh, Overdue, Enumerates, OrDefault;
    StepClocked(m, a);
    if m.gc.Asleep? {
      StaysFresh(m, a, m.gc.last);
    } else {
      var t := m.tasks[m.gc.task];
      StaysFresh(m, a, m.gc.previous);
      if t.Pending? {
        if a.Snapshot? && a.task == m.gc.task && Next(m, a) != m {
          AfterSnapshot(m, a.task, a.order);
        }
      } else {
        StaysFresh(m, a, t.kind.at);
        StepOfTask(m, a, m.gc.task);
      }
    }
  }

  lemma {:induction false} RunSwept(m: Manager, actions: seq<Action>)
    requires Inv(m) && Swept(m)
    ensures Swept(Run(m, actions))
    decreases |actions|
  {
    hide Inv, Next, Swept;
    if actions != [] {
      StepKeepsInv(m, actions[0]);
      StepSwept(m, actions[0]);
      RunSwept(Next(m, actions[0]), actions[1..]);
    }
  }

  /** As long as the GC loop is on time no session outstays its lifetime or its idle timeout by more than one gap and
      one sweep. */
  lemma GcLag(now: real, maxSessions: int, actions: seq<Action>, gap: real, duration: real)
    requires gap >= 0.0 && duration >= 0.0
    ensures var m := Run(Initial(now, maxSessions), actions);
            Timely(m, gap, duration) ==> forall id | id in m.sessions ::
              && m.now <= m.sessions[id].createdAt + m.sessions[id].maxLifetime as real + gap + duration
              && m.now <= m.sessions[id].lastActivityAt + m.sessions[id].idleTimeout as real + gap + duration
  {
    hide Run, Next;
    InitialOk(now, maxSessions);
    RunSwept(Initial(now, maxSessions), actions);
  }

  //
  // Timeouts as asked for
  //

  /** What a session has that was created at `at` with these requests; 0 counts as no request. */
  predicate AsAsked(s: Session, at: real, idleTimeout: Option<nat>, maxLifetime: Option<nat>) {
    && s.createdAt == at && at <= s.lastActivityAt
    && s.idleTimeout == (if idleTimeout.Some? && idleTimeout.value > 0 then idleTimeout.value else 900)
    && s.maxLifetime == (if maxLifetime.Some? && maxLifetime.value > 0 then maxLifetime.value else 7200)
  }

  lemma StepKeepsAsked(m: Manager, a: Action, id: Id, at: real, idleTimeout: Option<nat>, maxLifetime: Option<nat>)
    requires Inv(m) && id in m.history.created && at <= m.now
    requires id in m.sessions ==> AsAsked(m.sessions[id], at, idleTimeout, maxLifetime)
    ensures var n := Next(m, a);
            && id in n.history.created && at <= n.now
            && (id in n.sessions ==> AsAsked(n.sessions[id], at, idleTimeout, maxLifetime))
  {
    hide Inv, Overdue, Enumerates, OrDefault;
    if id !in m.sessions {
      StepGoneForGood(m, a, id);
    }
  }

  lemma {:induction false} RunKeepsAsked(m: Manager, actions: seq<Action>, id: Id, at: real,
                                         idleTimeout: Option<nat>, maxLifetime: Option<nat>)
    requires Inv(m) && id in m.history.created && at <= m.now
    requires id in m.sessions ==> AsAsked(m.sessions[id], at, idleTimeout, maxLifetime)
    ensures var n := Run(m, actions); id in n.sessions ==> AsAsked(n.sessions[id], at, idleTimeout, maxLifetime)
    decreases |actions|
  {
    hide Inv, Next, AsAsked;
    if actions != [] {
      StepKeepsInv(m, actions[0]);
      StepKeepsAsked(m, actions[0], id, at, idleTimeout, maxLifetime);
      RunKeepsAsked(Next(m, actions[0]), actions[1..], id, at, idleTimeout, maxLifetime);
    }
  }

  /** Whatever happens after its creation, a session keeps the timeouts it was asked to have, 900 seconds of idling and
      7200 of life if none were. */
  lemma TimeoutsAsAsked(m: Manager, id: Id, idleTimeout: Option<nat>, maxLifetime: Option<nat>, actions: seq<Action>)
    requires Inv(m) && id !in m.history.created && |m.sessions| < m.maxSessions
    ensures var created := Next(m, Create(id, idleTimeout, maxLifetime));
            var n := Run(created, actions);
            && id in created.sessions && AsAsked(created.sessions[id], m.now, idleTimeout, maxLifetime)
            && id in created.history.created && created.now == m.now
            && (id in n.sessions ==> AsAsked(n.sessions[id], m.now, idleTimeout, maxLifetime))
  {
    hide Inv, Run;
    var created := Next(m, Create(id, idleTimeout, maxLifetime));
    StepKeepsInv(m, Create(id, idleTimeout, maxLifetime));
    RunKeepsAsked(created, actions, id, m.now, idleTimeout, maxLifetime);
  }

  lemma {:induction false} RunSplit(m: Manager, a: seq<Action>, b: seq<Action>)
    ensures Run(m, a + b) == Run(Run(m, a), b)
    decreases |a|
  {
    hide Next;
    if a == [] {
      assert a + b == b;
    } else {
      assert (a + b)[1..] == a[1..] + b;
      RunSplit(Next(m, a[0]), a[1..], b);
    }
  }

  /** The bound on garbage collection in terms of what was asked for at creation. */
  lemma GcLagAsAsked(now: real, maxSessions: int, before: seq<Action>, id: Id, idleTimeout: Option<nat>,
                     maxLifetime: Option<nat>, after: seq<Action>, gap: real, duration: real)
    requires gap >= 0.0 && duration >= 0.0
    requires var m := Run(Initial(now, maxSessions), before); id !in m.history.created && |m.sessions| < m.maxSessions
    ensures var m := Run(Initial(now, maxSessions), before);
            var n := Run(Initial(now, maxSessions), before + [Create(id, idleTimeout, maxLifetime)] + after);
            var idle := if idleTimeout.Some? && idleTimeout.value > 0 then idleTimeout.value else 900;
            var life := if maxLifetime.Some? && maxLifetime.value > 0 then maxLifetime.value else 7200;
            Timely(n, gap, duration) && id in n.sessions ==>
              && n.now <= m.now + life as real + gap + duration
              && n.now <= n.sessions[id].lastActivityAt + idle as real + gap + duration
  {
    hide Run, Next, Inv, Timely;
    var create := Create(id, idleTimeout, maxLifetime);
    var m := Run(Initial(now, maxSessions), before);
    InitialOk(now, maxSessions);
    RunKeepsInv(Initial(now, maxSessions), before);
    RunSnoc(Initial(now, maxSessions), before, create);
    RunSplit(Initial(now, maxSessions), before + [create], after);
    TimeoutsAsAsked(m, id, idleTimeout, maxLifetime, after);
    GcLag(now, maxSessions, before + [create] + after, gap, duration);
  }

  /** Along the run the session, while it is in the map, is touched within the given idle time and not older than the
      given lifetime. */
  predicate KeptFresh(m: Manager, actions: seq<Action>, id: Id, at: real, idle: nat, life: nat)
    decreases |actions|
  {
    && (id in m.sessions ==> m.now <= m.sessions[id].lastActivityAt + idle as real && m.now <= at + life as real)
    && (actions != [] ==> KeptFresh(Next(m, actions[0]), actions[1..], id, at, idle, life))
  }

  lemma {:induction false} KeptIsFresh(m: Manager, actions: seq<Action>, id: Id, at: real,
                                       idleTimeout: Option<nat>, maxLifetime: Option<nat>)
    requires Inv(m) && id in m.history.created && at <= m.now
    requires id in m.sessions ==> AsAsked(m.sessions[id], at, idleTimeout, maxLifetime)
    requires KeptFresh(m, actions, id, at,
                       if idleTimeout.Some? && idleTimeout.value > 0 then idleTimeout.value else 900,
                       if maxLifetime.Some? && maxLifetime.value > 0 then maxLifetime.value else 7200)
    ensures AlwaysFresh(m, actions, id)
    decreases |actions|
  {
    hide Inv, Next;
    if actions != [] {
      StepKeepsInv(m, actions[0]);
      StepKeepsAsked(m, actions[0], id, at, idleTimeout, maxLifetime);
      KeptIsFresh(Next(m, actions[0]), actions[1..], id, at, idleTimeout, maxLifetime);
    }
  }

  /** Safety of garbage collection in the same terms: a session touched at least every so many seconds as its idle
      timeout was asked to have, and not older than its lifetime was asked to be, is not removed by any reap. */
  lemma GcSafetyAsAsked(now: real, maxSessions: int, before: seq<Action>, id: Id, idleTimeout: Option<nat>,
                        maxLifetime: Option<nat>, after: seq<Action>)
    requires var m := Run(Initial(now, maxSessions), before);
             && id !in m.history.created && |m.sessions| < m.maxSessions
             && KeptFresh(Next(m, Create(id, idleTimeout, maxLifetime)), after, id, m.now,
                          if idleTimeout.Some? && idleTimeout.value > 0 then idleTimeout.value else 900,
                          if maxLifetime.Some? && maxLifetime.value > 0 then maxLifetime.value else 7200)
    ensures var n := Run(Initial(now, maxSessions), before + [Create(id, idleTimeout, maxLifetime)] + after);
            forall i | 0 <= i < |n.history.pops| && n.history.pops[i].id == id :: !n.history.pops[i].kind.Reaping?
  {
    hide Run, Next, Inv, KeptFresh, AlwaysFresh;
    var create := Create(id, idleTimeout, maxLifetime);
    var m := Run(Initial(now, maxSessions), before);
    InitialOk(now, maxSessions);
    RunKeepsInv(Initial(now, maxSessions), before);
    RunSnoc(Initial(now, maxSessions), before, create);
    RunSplit(Initial(now, maxSessions), before + [create], after);
    TimeoutsAsAsked(m, id, idleTimeout, maxLifetime, []);
    RunNothing(Next(m, create));
    StepKeepsInv(m, create);
    NotYetReaped(m, id, idleTimeout, maxLifetime);
    KeptIsFresh(Next(m, create), after, id, m.now, idleTimeout, maxLifetime);
    RunTargetsFound(Initial(now, maxSessions), before);
    StepClocked(m, create);
    RunNotReaped(Next(m, create), after, id);
    RunKeepsInv(Next(m, create), after);
    ReapedIsTarget(Run(Next(m, create), after), id);
  }

  lemma NotYetReaped(m: Manager, id: Id, idleTimeout: Option<nat>, maxLifetime: Option<nat>)
    requires Inv(m) && id !in m.history.created
    ensures NotReaped(Next(m, Create(id, idleTimeout, maxLifetime)), id)
  {
    hide Linked, Conserved, OnceOnly, OrDefault;
    forall task | task in m.tasks ensures TaskOk(m.tasks[task], m.sessions.Keys, m.history.created) {
    }
  }

  lemma ReapedIsTarget(m: Manager, id: Id)
    requires Inv(m) && NotReaped(m, id)
    ensures forall i | 0 <= i < |m.history.pops| && m.history.pops[i].id == id :: !m.history.pops[i].kind.Reaping?
  {
    hide Linked, Conserved, OnceOnly;
    assert forall i | 0 <= i < |m.history.pops| :: PopOk(m.history.pops[i], m.tasks);
  }
}

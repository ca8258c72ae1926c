/** `SessionManager` as the object it is. Each method does its critical sections on the fields and lets other tasks
    run at every suspension point; all it ever does is a run of the step system in `Sessions`. */
module SessionManagers {
  import opened Wrappers
  import opened Sessions

  /** The task an action belongs to. */
  predicate IsOf(a: Action, task: TaskId) {
    match a
    case StartDestroy(t, _) => t == task
    case StartReap(t) => t == task
    case StartSweep(t) => t == task
    case Snapshot(t, _) => t == task
    case StartShutdown(t, _) => t == task
    case PopNext(t) => t == task
    case Finish(t) => t == task
    case _ => false
  }

  lemma OthersLeaveTask(m: Manager, a: Action, task: TaskId)
    requires task in m.tasks && !IsOf(a, task)
    ensures task in Next(m, a).tasks && Next(m, a).tasks[task] == m.tasks[task]
    ensures Next(m, a).maxSessions == m.maxSessions
  {
    hide Overdue, Enumerates, OrDefault;
  }

  class SessionManager {
    const startedAt: real
    const maxSessions: int
    var now: real
    var sessions: map<Id, Session>
    var dirs: set<Id>
    var tasks: map<TaskId, Task>
    var gc: Gc
    var history: History
    ghost var trace: seq<Action>

    function Abs(): Manager
      reads this
    {
      Manager(now, maxSessions, sessions, dirs, tasks, gc, history)
    }

    ghost predicate Valid()
      reads this
    {
      Abs() == Run(Initial(startedAt, maxSessions), trace)
    }

    constructor (now: real, maxSessions: int)
      ensures Valid() && this.maxSessions == maxSessions && sessions == map[] && tasks == map[] && trace == []
    {
      startedAt, this.maxSessions, this.now := now, maxSessions, now;
      sessions, dirs, tasks, gc, history, trace := map[], {}, map[], Asleep(now), History({}, map[], {}, [], []), [];
    }

    /** After the fields have made a step of the system, the history of steps includes it. */
    ghost method Took(a: Action, before: Manager)
      requires before == Run(Initial(startedAt, maxSessions), trace) && Abs() == Next(before, a)
      modifies this`trace
      ensures Valid() && trace == old(trace) + [a]
    {
      RunSnoc(Initial(startedAt, maxSessions), trace, a);
      trace := trace + [a];
    }

    lemma StepsOutOfMap(a: Action)
      requires Valid()
      ensures history.created <= Next(Abs(), a).history.created
      ensures forall id | OutOfMap(id) ::
                var n := Next(Abs(), a);
                id in n.history.created && id !in n.sessions && (id in n.dirs <==> id in n.history.tearing)
    {
      hide Next, Run, Inv;
      Reached();
      CreatedGrows(Abs(), [a]);
      RunSnoc(Abs(), [], a);
      assert [] + [a] == [a] && Run(Abs(), []) == Abs() by { RunNothing(Abs()); }
      StepKeepsInv(Abs(), a);
      forall id | OutOfMap(id)
        ensures var n := Next(Abs(), a);
                id in n.history.created && id !in n.sessions && (id in n.dirs <==> id in n.history.tearing)
      {
        StepGoneForGood(Abs(), a, id);
        OnDiskWhileTearing(Next(Abs(), a), id);
      }
    }

    lemma Reached()
      requires Valid()
      ensures Inv(Abs())
    {
      InitialOk(startedAt, maxSessions);
      RunKeepsInv(Initial(startedAt, maxSessions), trace);
    }

    /** The session has left the map, and its directory is still there exactly while some task is tearing it down. */
    ghost predicate OutOfMap(id: Id)
      reads this
    {
      id in history.created && id !in sessions && (id in dirs <==> id in history.tearing)
    }

    /** A suspension point of one task: any steps of the others. */
    method Await(ghost me: TaskId, steps: seq<Action>)
      requires Valid() && me in tasks
      requires forall i | 0 <= i < |steps| :: !IsOf(steps[i], me)
      modifies this
      ensures Valid() && me in tasks && tasks[me] == old(tasks[me]) && old(trace) <= trace
      ensures old(history.created) <= history.created && forall id | old(OutOfMap(id)) :: OutOfMap(id)
    {
      hide Next, Run, IsOf, Inv;
      for i := 0 to |steps|
        invariant Valid() && me in tasks && tasks[me] == old(tasks[me]) && old(trace) <= trace
        invariant old(history.created) <= history.created && forall id | old(OutOfMap(id)) :: OutOfMap(id)
      {
        StepsOutOfMap(steps[i]);
        ghost var before := Abs();
        var m := Next(Abs(), steps[i]);
        OthersLeaveTask(before, steps[i], me);
        now, sessions, dirs, tasks, gc, history := m.now, m.sessions, m.dirs, m.tasks, m.gc, m.history;
        Took(steps[i], before);
      }
    }

    /** Makes room for one more session or refuses; ids are fresh. */
    method Create(id: Id, idleTimeout: Option<nat>, maxLifetime: Option<nat>) returns (created: bool)
      requires Valid() && id !in history.created
      modifies this
      ensures Valid() && trace == old(trace) + [Action.Create(id, idleTimeout, maxLifetime)]
      ensures created <==> |old(sessions)| < maxSessions
      ensures !created ==> Abs() == old(Abs())
      ensures created ==>
                && id in dirs && sessions.Keys == old(sessions.Keys) + {id}
                && (forall x | x in old(sessions) :: x != id && sessions[x] == old(sessions[x]))
                && sessions[id].createdAt == now && sessions[id].lastActivityAt == now
                && sessions[id].idleTimeout
                   == (if idleTimeout.Some? && idleTimeout.value > 0 then idleTimeout.value else 900)
                && sessions[id].maxLifetime
                   == (if maxLifetime.Some? && maxLifetime.value > 0 then maxLifetime.value else 7200)
    {
      hide Run, Inv;
      ghost var before := Abs();
      Reached();
      if id in sessions {
        LiveIsCreated(before, id);
      }
      created := |sessions| < maxSessions;
      if created {
        var idle, life := OrDefault(idleTimeout, DEFAULT_IDLE_TIMEOUT), OrDefault(maxLifetime, DEFAULT_MAX_LIFETIME);
        var s := Session(now, now, idle, life);
        dirs := dirs + {id};
        sessions := sessions[id := s];
        history := history.(created := history.created + {id});
      }
      Took(Action.Create(id, idleTimeout, maxLifetime), before);
    }

    method Touch(id: Id)
      requires Valid() && id in sessions
      modifies this
      ensures Valid() && trace == old(trace) + [Action.Touch(id)]
      ensures sessions == old(sessions)[id := old(sessions[id]).(lastActivityAt := now)]
      ensures now == old(now) && dirs == old(dirs) && tasks == old(tasks)
    {
      hide Run;
      ghost var before := Abs();
      sessions := sessions[id := sessions[id].(lastActivityAt := now)];
      Took(Action.Touch(id), before);
    }

    /** The body of `destroy` for the task's next target: pop under the lock, stop the runner while others run, remove
        the directory. Afterwards a session that ever was is out of the map, whoever popped it. Its directory is gone if
        this task popped it; if another one did, the directory stays as long as that one is at it. */
    method DestroyNext(me: TaskId, world: seq<Action>)
      requires Valid() && me in tasks && tasks[me].Working? && !tasks[me].holding
      requires tasks[me].next < |tasks[me].targets|
      requires forall i | 0 <= i < |world| :: !IsOf(world[i], me)
      modifies this
      ensures Valid() && old(trace) <= trace
      ensures me in tasks && tasks[me] == old(tasks[me]).(next := old(tasks[me]).next + 1)
      ensures var id := old(tasks[me].targets[tasks[me].next]);
              && (id in old(history.created) ==> OutOfMap(id))
              && (id in old(history.created) ==> (id in dirs <==> id in old(history.tearing)))
              && (id in old(sessions) ==> OutOfMap(id) && id !in dirs && id in history.gone)
      ensures old(history.created) <= history.created && forall id | old(OutOfMap(id)) :: OutOfMap(id)
    {
      hide Run, Inv;
      var t := tasks[me];
      var id := t.targets[t.next];
      ghost var before := Abs();
      Reached();
      if id !in sessions {
        OnDiskWhileTearing(before, id);
        tasks := tasks[me := t.(next := t.next + 1)];
        Took(PopNext(me), before);
        return;
      }
      LiveIsCreated(before, id);
      sessions := sessions - {id};
      tasks := tasks[me := t.(holding := true)];
      history := WithPop(history, me, id, t.kind);
      Took(PopNext(me), before);
      assert OutOfMap(id);
      Await(me, world);
      before := Abs();
      assert forall x | old(OutOfMap(x)) :: OutOfMap(x) && x != id;
      dirs := dirs - {id};
      tasks := tasks[me := t.(next := t.next + 1)];
      history := WithRemoval(history, me, id);
      Took(Finish(me), before);
    }

    method DestroyAll(me: TaskId, world: nat -> seq<Action>)
      requires Valid() && me in tasks && tasks[me].Working? && !tasks[me].holding && tasks[me].next == 0
      requires forall k, i | 0 <= i < |world(k)| :: !IsOf(world(k)[i], me)
      modifies this
      ensures Valid() && old(trace) <= trace && me in tasks && Finished(tasks[me])
      ensures tasks[me].kind == old(tasks[me]).kind && tasks[me].targets == old(tasks[me]).targets
      ensures forall id | id in old(tasks[me].targets) && id in old(history.created) :: OutOfMap(id)
      ensures forall id | old(tasks[me].targets) == [id] && id in old(sessions) :: id !in dirs && id in history.gone
      ensures forall id | old(tasks[me].targets) == [id] && id in old(history.created) ::
                id in dirs <==> id in old(history.tearing)
    {
      hide Run;
      var n := |tasks[me].targets|;
      for k := 0 to n
        invariant Valid() && old(trace) <= trace && me in tasks
        invariant tasks[me] == old(tasks[me]).(next := k)
        invariant old(history.created) <= history.created
        invariant forall i | 0 <= i < k && old(tasks[me].targets[i]) in old(history.created) ::
                    OutOfMap(old(tasks[me].targets[i]))
        invariant k == 0 ==> sessions == old(sessions) && history == old(history)
        invariant forall id | k == 1 && old(tasks[me].targets) == [id] && id in old(history.created) ::
                    id in dirs <==> id in old(history.tearing)
        invariant forall id | k == 1 && old(tasks[me].targets) == [id] && id in old(sessions) ::
                    id !in dirs && id in history.gone
      {
        DestroyNext(me, world(k));
      }
    }

    /** `destroy`: on return a session that ever was is out of the map, and its directory is gone unless another task
        was already tearing it down at the call. */
    method Destroy(me: TaskId, id: Id, world: nat -> seq<Action>)
      requires Valid() && me !in tasks
      requires forall k, i | 0 <= i < |world(k)| :: !IsOf(world(k)[i], me)
      modifies this
      ensures Valid() && old(trace) <= trace && me in tasks && Finished(tasks[me])
      ensures id in old(history.created) ==> OutOfMap(id)
      ensures id in old(history.created) ==> (id in dirs <==> id in old(history.tearing))
      ensures id in old(sessions) ==> id !in dirs && id in history.gone
    {
      hide Run;
      ghost var before := Abs();
      tasks := tasks[me := Working(Destroying, [id], 0, false)];
      Took(StartDestroy(me, id), before);
      DestroyAll(me, world);
    }

    /** The loop over the map under the lock. */
    method CollectOverdue(at: real) returns (order: seq<Id>)
      ensures Enumerates(order, Overdue(sessions, at))
    {
      order := [];
      var ids := sessions.Keys;
      while ids != {}
        invariant ids <= sessions.Keys
        invariant Enumerates(order, Overdue(sessions, at) - ids)
        decreases |ids|
      {
        var id :| id in ids;
        if IsIdle(sessions[id], at) || IsExpired(sessions[id], at) {
          order := order + [id];
        }
        ids := ids - {id};
      }
    }

    /** Reads the clock, waits for the lock, and destroys what was overdue at that reading; none of what it returns is
        in the map any more, although others may have run at every suspension point. */
    method ReapIdle(me: TaskId, queueing: seq<Action>, world: nat -> seq<Action>) returns (destroyed: seq<Id>)
      requires Valid() && me !in tasks
      requires forall i | 0 <= i < |queueing| :: !IsOf(queueing[i], me)
      requires forall k, i | 0 <= i < |world(k)| :: !IsOf(world(k)[i], me)
      modifies this
      ensures Valid() && old(trace) <= trace
      ensures forall i | 0 <= i < |destroyed| :: destroyed[i] !in sessions
      ensures me in tasks && tasks[me].Working? && tasks[me].kind == Reaping(old(now)) && tasks[me].targets == destroyed
    {
      hide Run, Enumerates, Overdue, Inv;
      ghost var before := Abs();
      var at := now;
      tasks := tasks[me := Pending(at)];
      Took(StartReap(me), before);
      Await(me, queueing);
      destroyed := CollectOverdue(at);
      before := Abs();
      tasks := tasks[me := Working(Reaping(at), destroyed, 0, false)];
      Took(Snapshot(me, destroyed), before);
      DestroyAll(me, world);
      Reached();
      FinishedTargets(Abs(), me);
    }

    method ListIds() returns (order: seq<Id>)
      ensures Enumerates(order, sessions.Keys)
    {
      order := [];
      var ids := sessions.Keys;
      while ids != {}
        invariant ids <= sessions.Keys
        invariant Enumerates(order, sessions.Keys - ids)
        decreases |ids|
      {
        var id :| id in ids;
        order, ids := order + [id], ids - {id};
      }
    }

    /** Destroys every session; if none was created meanwhile the map is empty at the end. */
    method Shutdown(me: TaskId, world: nat -> seq<Action>)
      requires Valid() && me !in tasks
      requires forall k, i | 0 <= i < |world(k)| :: !IsOf(world(k)[i], me)
      modifies this
      ensures Valid() && old(trace) <= trace && me in tasks && Finished(tasks[me])
      ensures history.created == old(history.created) ==> sessions == map[]
    {
      hide Run, Enumerates, Inv;
      ghost var start := Abs();
      Reached();
      var order := ListIds();
      ghost var m := Abs();
      tasks := tasks[me := Working(ShuttingDown, order, 0, false)];
      Took(StartShutdown(me, order), m);
      ghost var mid := trace;
      DestroyAll(me, world);
      RunSplit(Initial(startedAt, maxSessions), mid, trace[|mid|..]);
      assert trace == mid + trace[|mid|..];
      ShutdownEmpties(start, me, order, trace[|mid|..]);
    }
  }
}

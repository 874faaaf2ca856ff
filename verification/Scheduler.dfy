/**
 source/kernel/task/sche.c with sys_sleep and sys_yield of source/kernel/task/task.c: the task manager,
 each operation being one step with interrupts off.  Tasks are named by their pids.
 */
module Scheduler {
  import opened TaskQueues

  const TICK_MS: nat := 10   // OS_TICK_MS

  class Kernel {
    var tasks: map<nat, Task>
    var queues: map<QueueId, seq<nat>>
    var cur: nat
    const idle: nat
    ghost var turns: nat   // how often schedule has been called

    /** Exactly one task is running, the current one; the idle task is on no list. */
    ghost predicate Settled()
      reads this
    {
      && Queued(tasks, queues, {cur, idle}) && ReadyList in queues && SleepList in queues
      && cur in tasks && idle in tasks && tasks[cur].state == Running && tasks[cur].list == NoList
      && (idle != cur ==> tasks[idle].state == Ready && tasks[idle].list == NoList)
    }

    /** The current task has gone to a list and the processor is about to be given away. */
    ghost predicate Leaving()
      reads this
    {
      && Queued(tasks, queues, {idle}) && ReadyList in queues && SleepList in queues
      && cur in tasks && idle in tasks && cur != idle
      && tasks[cur].list != ReadyList && tasks[cur].state != Running
      && tasks[idle].state == Ready && tasks[idle].list == NoList
    }

    /** What no step changes: who there is, and the lists other than `q`. */
    ghost predicate Same(ts: map<nat, Task>, qs: map<QueueId, seq<nat>>, q: QueueId)
      reads this
    {
      && tasks.Keys == ts.Keys && queues.Keys == qs.Keys
      && forall p <- qs :: p != q ==> p in queues && queues[p] == qs[p]
    }

    /** One task, running, and an idle one. */
    constructor (first: nat, idle: nat, waits: set<nat>)
      requires first != idle
      ensures Settled() && cur == first && this.idle == idle && tasks.Keys == {first, idle}
      ensures forall q <- queues :: queues[q] == []
      ensures forall w <- waits :: WaitList(w) in queues
    {
      this.idle, cur, turns := idle, first, 0;
      tasks := map[first := Task(Running, NoList, 0), idle := Task(Ready, NoList, 0)];
      queues := (map w <- waits :: WaitList(w) := []) + map[ReadyList := [], SleepList := []];
    }

    /** task_set_ready, task_set_sleep and the enqueueing of the locks: a task on no list goes to the end of one. */
    method Enqueue(t: nat, q: QueueId, ticks: int, ghost out: set<nat>)
      requires Queued(tasks, queues, out) && t in out && q in queues && (q == SleepList ==> ticks > 0)
      modifies `tasks, `queues
      ensures Queued(tasks, queues, out - {t})
      ensures tasks == old(tasks)[t := Task(StateFor(q), q, ticks)] && queues == old(queues)[q := old(queues)[q] + [t]]
    {
      EnqueueKeeps(tasks, queues, out, t, q, ticks);
      hide Queued;
      tasks := tasks[t := Task(StateFor(q), q, ticks)];
      queues := queues[q := queues[q] + [t]];
    }

    /** next_task */
    method NextTask() returns (next: nat)
      requires Settled() || Leaving()
      ensures next == if queues[ReadyList] != [] then queues[ReadyList][0]
                      else if tasks[cur].state == Running then cur else idle
    {
      if |queues[ReadyList]| > 0 {
        return queues[ReadyList][0];
      }
      if tasks[cur].state == Running && tasks[cur].list == NoList {
        return cur;
      }
      return idle;
    }

    /** A new task, ready to run. */
    method AddTask(t: nat)
      requires Settled() && t !in tasks
      modifies `tasks, `queues
      ensures Settled() && tasks.Keys == old(tasks).Keys + {t} && queues[ReadyList] == old(queues)[ReadyList] + [t]
      ensures queues.Keys == old(queues).Keys && forall p <- queues :: p != ReadyList ==> queues[p] == old(queues)[p]
      ensures Stepped(old(tasks), old(queues), old(turns), false)
    {
      NewTask(tasks, queues, {cur, idle}, t);
      tasks := tasks[t := Task(Running, NoList, 0)];
      assert {cur, idle} + {t} - {t} == {cur, idle};
      Enqueue(t, ReadyList, 0, {cur, idle} + {t});
    }

    /** The next task leaves the front of the ready list. */
    method TakeNext(next: nat, ghost out: set<nat>)
      requires Queued(tasks, queues, out) && queues[ReadyList] != [] && queues[ReadyList][0] == next
      modifies `tasks, `queues
      ensures next in old(tasks) && next !in out && Queued(tasks, queues, out + {next})
      ensures tasks == old(tasks)[next := old(tasks)[next].(list := NoList)]
      ensures queues == old(queues)[ReadyList := old(queues)[ReadyList][1..]]
    {
      ghost var task := if next in tasks then tasks[next].(list := NoList) else Task(Ready, NoList, 0);
      DequeueKeeps(tasks, queues, out, ReadyList, 0, task);
      hide Queued;
      assert Without(queues[ReadyList], 0) == queues[ReadyList][1..];
      queues := queues[ReadyList := queues[ReadyList][1..]];
      tasks := tasks[next := tasks[next].(list := NoList)];
    }

    /** task_activate and task_switch: a task on no list runs. */
    method SwitchTo(next: nat, ghost out: set<nat>)
      requires Queued(tasks, queues, out) && next in out
      modifies `tasks, `cur
      ensures Queued(tasks, queues, out) && cur == next
      ensures tasks == old(tasks)[next := old(tasks)[next].(state := Running)]
    {
      OutKeeps(tasks, queues, out, next, tasks[next].(state := Running));
      tasks := tasks[next := tasks[next].(state := Running)];
      cur := next;
    }

    /** The current task goes back to the ready list if it can still run and is not the idle one. */
    ghost function Requeued(running: bool, t: nat): seq<nat> {
      if running && t != idle then [t] else []
    }

    method PutAside()
      requires Settled() || Leaving()
      modifies `tasks, `queues
      ensures Queued(tasks, queues, {idle}) && tasks[idle].state == Ready && tasks[idle].list == NoList
      ensures queues.Keys == old(queues).Keys && forall p <- queues :: p != ReadyList ==> queues[p] == old(queues)[p]
      ensures queues[ReadyList] == old(queues)[ReadyList] + Requeued(old(Settled()), cur)
      ensures tasks.Keys == old(tasks).Keys && forall t <- tasks :: tasks[t].sleepTicks == old(tasks)[t].sleepTicks
      ensures forall t <- tasks :: t != cur && t != idle ==> tasks[t] == old(tasks)[t]
    {
      if tasks[cur].state == Running {
        if cur != idle {
          Enqueue(cur, ReadyList, tasks[cur].sleepTicks, {cur, idle});
          assert {cur, idle} - {cur} == {idle};
        } else {
          OutKeeps(tasks, queues, {cur, idle}, idle, tasks[idle].(state := Ready));
          tasks := tasks[idle := tasks[idle].(state := Ready)];
          assert {cur, idle} == {idle};
        }
      }
    }

    /** The processor goes to the first ready task or to the idle one. */
    method GiveTo(next: nat)
      requires Queued(tasks, queues, {idle}) && tasks[idle].state == Ready && tasks[idle].list == NoList
      requires next != idle ==> queues[ReadyList] != [] && queues[ReadyList][0] == next
      modifies `tasks, `queues, `cur
      ensures Settled() && cur == next && tasks.Keys == old(tasks).Keys
      ensures forall t <- tasks :: tasks[t].sleepTicks == old(tasks)[t].sleepTicks
      ensures queues == if next == idle then old(queues) else old(queues)[ReadyList := old(queues)[ReadyList][1..]]
    {
      hide Listed, Parked;
      if next != idle {
        TakeNext(next, {idle});
        SwitchTo(next, {idle} + {next});
        assert {idle} + {next} == {cur, idle};
      } else {
        SwitchTo(next, {idle});
        assert {idle} == {cur, idle};
      }
    }

    /**
     schedule: the first ready task runs, and a running task other than the idle one goes to the end of
     the ready list; with no task ready a running task goes on, and in place of a blocked one the idle
     task runs.
     */
    method Schedule()
      requires Settled() || Leaving()
      modifies this
      ensures Settled() && Same(old(tasks), old(queues), ReadyList) && turns == old(turns) + 1
      ensures old(queues)[ReadyList] != [] ==>
        && cur == old(queues)[ReadyList][0]
        && queues[ReadyList] == old(queues)[ReadyList][1..] + Requeued(old(Settled()), old(cur))
      ensures old(queues)[ReadyList] == [] ==>
        cur == (if old(Settled()) then old(cur) else idle) && queues == old(queues)
      ensures Moved(old(queues)[ReadyList], queues[ReadyList], cur, 1)
      ensures Sleepers(tasks, queues) == Sleepers(old(tasks), old(queues))
    {
      hide Listed, Parked, Queued;
      turns := turns + 1;
      var next := NextTask();
      NextIsReady(next);
      if next == cur {
        return;
      }
      assert tasks[next].state == Ready;   // the ASSERT of schedule
      PutAside();
      GiveTo(next);
    }

    /** The task to switch to is in the state it should be in. */
    lemma NextIsReady(next: nat)
      requires Settled() || Leaving()
      requires next == if queues[ReadyList] != [] then queues[ReadyList][0]
        else if tasks[cur].state == Running then cur else idle
      ensures next != cur ==> next in tasks && tasks[next].state == Ready
      ensures queues[ReadyList] != [] ==> next != cur && next != idle
    {
      if queues[ReadyList] != [] {
        ghost var out := if Settled() then {cur, idle} else {idle};
        assert Listed(tasks, out, ReadyList, queues[ReadyList]) && next in queues[ReadyList];
        assert Parked(queues, tasks[next], next);
      }
    }

    /** What the run lemmas of TaskQueues ask of one step. */
    ghost predicate Stepped(ts: map<nat, Task>, qs: map<QueueId, seq<nat>>, before: nat, tick: bool)
      requires ReadyList in qs && ReadyList in queues
      reads this
    {
      && Napping(Sleepers(ts, qs), Sleepers(tasks, queues), tick)
      && before <= turns && Moved(qs[ReadyList], queues[ReadyList], cur, turns - before)
    }

    /** With `ready` on the ready list: the first of it runs, if there is one, and `was` goes to the end. */
    ghost predicate GaveWay(ready: seq<nat>, was: nat)
      reads this
    {
      && ReadyList in queues
      && if ready == [] then cur == was && queues[ReadyList] == []
         else cur == ready[0] && queues[ReadyList] == ready[1..] + Requeued(true, was)
    }

    /** With `ready` on the ready list: the first of it runs, or the idle task, and nobody joins it. */
    ghost predicate LetGo(ready: seq<nat>)
      reads this
    {
      && ReadyList in queues
      && if ready == [] then cur == idle && queues[ReadyList] == []
         else cur == ready[0] && queues[ReadyList] == ready[1..]
    }

    /** sys_yield */
    method Yield()
      requires Settled()
      modifies this
      ensures GaveWay(old(queues)[ReadyList], old(cur))
      ensures Settled() && Same(old(tasks), old(queues), ReadyList)
      ensures Stepped(old(tasks), old(queues), old(turns), false)
      ensures turns == old(turns) + 1
    {
      Schedule();
    }

    /** sys_sleep: no ticks, no sleep. */
    method SleepFor(ms: nat)
      requires Settled() && cur != idle && ms < 0x1_0000_0000
      modifies this
      ensures Settled() && tasks.Keys == old(tasks).Keys && queues.Keys == old(queues).Keys
      ensures forall p <- queues :: p != ReadyList && p != SleepList ==> queues[p] == old(queues)[p]
      ensures var ticks := (ms + TICK_MS - 1) % 0x1_0000_0000 / TICK_MS;
              if ticks == 0 then
                && tasks == old(tasks)[cur := old(tasks)[cur].(sleepTicks := 0)]
                && queues == old(queues) && cur == old(cur) && turns == old(turns)
                && Sleepers(tasks, queues) == Sleepers(old(tasks), old(queues))
              else
                && Sleepers(tasks, queues) == Sleepers(old(tasks), old(queues))[old(cur) := ticks]
                && turns == old(turns) + 1 && LetGo(old(queues)[ReadyList])
      ensures Stepped(old(tasks), old(queues), old(turns), false)
    {
      hide Queued, Sleepers;
      var ticks := (ms + TICK_MS - 1) % 0x1_0000_0000 / TICK_MS;
      SetTicks(ticks);
      if ticks <= 0 {
        return;
      }
      // the ASSERTs of sys_sleep
      assert tasks[cur].list == NoList && tasks[cur].state == Running;
      FallAsleep(ticks);
    }

    method SetTicks(ticks: int)
      requires Settled()
      modifies `tasks
      ensures Settled() && tasks == old(tasks)[cur := old(tasks)[cur].(sleepTicks := ticks)]
      ensures Sleepers(tasks, queues) == Sleepers(old(tasks), queues)
    {
      OutKeeps(tasks, queues, {cur, idle}, cur, tasks[cur].(sleepTicks := ticks));
      NotAsleep(tasks, queues, {cur, idle}, cur);
      hide Queued;
      tasks := tasks[cur := tasks[cur].(sleepTicks := ticks)];
    }

    method FallAsleep(ticks: int)
      requires Settled() && cur != idle && ticks > 0
      modifies this
      ensures Settled() && tasks.Keys == old(tasks).Keys && queues.Keys == old(queues).Keys
      ensures forall p <- queues :: p != ReadyList && p != SleepList ==> queues[p] == old(queues)[p]
      ensures Sleepers(tasks, queues) == Sleepers(old(tasks), old(queues))[old(cur) := ticks]
      ensures old(cur) !in Sleepers(old(tasks), old(queues))
      ensures turns == old(turns) + 1 && Moved(old(queues)[ReadyList], queues[ReadyList], cur, 1)
      ensures LetGo(old(queues)[ReadyList])
    {
      hide Queued;
      NotAsleep(tasks, queues, {cur, idle}, cur);
      Enqueue(cur, SleepList, ticks, {cur, idle});
      assert {cur, idle} - {cur} == {idle};
      Schedule();
    }

    /** The current task goes to the wait list `id`: the blocking half of the locks and semaphores. */
    method Block(id: nat)
      requires Settled() && cur != idle && WaitList(id) in queues
      modifies this
      ensures Settled() && tasks.Keys == old(tasks).Keys && queues.Keys == old(queues).Keys
      ensures queues[WaitList(id)] == old(queues)[WaitList(id)] + [old(cur)]
      ensures forall p <- queues :: p != ReadyList && p != WaitList(id) ==> queues[p] == old(queues)[p]
      ensures Stepped(old(tasks), old(queues), old(turns), false)
      ensures turns == old(turns) + 1
      ensures LetGo(old(queues)[ReadyList])
    {
      Enqueue(cur, WaitList(id), tasks[cur].sleepTicks, {cur, idle});
      assert {cur, idle} - {cur} == {idle};
      Schedule();
    }

    /** The first task of the wait list `id` becomes ready, and the current task yields: the waking half. */
    method Wake(id: nat) returns (t: nat)
      requires Settled() && WaitList(id) in queues && queues[WaitList(id)] != []
      modifies this
      ensures Settled() && tasks.Keys == old(tasks).Keys && queues.Keys == old(queues).Keys
      ensures old(queues)[WaitList(id)] == [t] + queues[WaitList(id)] && t in tasks
      ensures (t == cur || t in queues[ReadyList]) && GaveWay(old(queues)[ReadyList] + [t], old(cur))
      ensures forall p <- queues :: p != ReadyList && p != WaitList(id) ==> queues[p] == old(queues)[p]
      ensures Stepped(old(tasks), old(queues), old(turns), false)
      ensures turns == old(turns) + 1
    {
      hide Queued, Sleepers;
      t := MakeReady(id);
      ghost var ready1 := queues[ReadyList];
      Schedule();
      GrownThenMoved(old(queues)[ReadyList], ready1, queues[ReadyList], cur);
      assert ready1[|ready1| - 1] == t;
      assert |ready1| > 1 ==> queues[ReadyList][|ready1| - 2] == t;
    }

    method MakeReady(id: nat) returns (t: nat)
      requires Settled() && WaitList(id) in queues && queues[WaitList(id)] != []
      modifies `tasks, `queues
      ensures Settled() && tasks.Keys == old(tasks).Keys && t in tasks && t !in {cur, idle}
      ensures queues.Keys == old(queues).Keys && old(queues)[WaitList(id)] == [t] + queues[WaitList(id)]
      ensures queues == old(queues)[WaitList(id) := queues[WaitList(id)]][ReadyList := old(queues)[ReadyList] + [t]]
      ensures Sleepers(tasks, queues) == Sleepers(old(tasks), old(queues))
    {
      t := queues[WaitList(id)][0];
      WaiterAwake(tasks, queues, {cur, idle}, id, t);
      hide Queued;
      assert Without(queues[WaitList(id)], 0) == queues[WaitList(id)][1..];
      MoveToReady(WaitList(id), 0, t, tasks[t].sleepTicks);
    }

    /** A sleeper on its last tick becomes ready. */
    method WakeSleeper(i: nat)
      requires Settled() && i < |queues[SleepList]|
      modifies `tasks, `queues
      ensures Settled() && tasks.Keys == old(tasks).Keys && queues.Keys == old(queues).Keys
      ensures queues == old(queues)[SleepList := Without(old(queues)[SleepList], i)]
                                   [ReadyList := old(queues)[ReadyList] + [old(queues)[SleepList][i]]]
      ensures forall u <- tasks :: u != old(queues)[SleepList][i] ==> tasks[u] == old(tasks)[u]
    {
      var t := queues[SleepList][i];
      SleeperTicks(tasks, queues, {cur, idle}, t);
      MoveToReady(SleepList, i, t, 0);
    }

    /** A task off the processor moves from its list to the ready list. */
    method MoveToReady(q: QueueId, i: nat, t: nat, ticks: int)
      requires Settled() && q in queues && q != ReadyList && i < |queues[q]| && t == queues[q][i]
      modifies `tasks, `queues
      ensures Settled() && t in old(tasks) && t !in {cur, idle}
      ensures tasks == old(tasks)[t := Task(Ready, ReadyList, ticks)]
      ensures queues == old(queues)[q := Without(old(queues)[q], i)][ReadyList := old(queues)[ReadyList] + [t]]
    {
      DequeueKeeps(tasks, queues, {cur, idle}, q, i, Task(Ready, NoList, ticks));
      hide Queued;
      tasks := tasks[t := Task(Ready, NoList, ticks)];
      queues := queues[q := Without(queues[q], i)];
      assert {cur, idle} + {t} - {t} == {cur, idle};
      Enqueue(t, ReadyList, ticks, {cur, idle} + {t});
    }

    /** clock_sleep_check */
    method ClockSleepCheck()
      requires Settled()
      modifies `tasks, `queues
      ensures Settled() && tasks.Keys == old(tasks).Keys && queues.Keys == old(queues).Keys
      ensures forall p <- queues :: p != ReadyList && p != SleepList ==> queues[p] == old(queues)[p]
      ensures Napping(Sleepers(old(tasks), old(queues)), Sleepers(tasks, queues), true)
      ensures old(queues)[ReadyList] <= queues[ReadyList]
    {
      hide Queued, CountedDown, Sleepers, Napping;
      ghost var a := Sleepers(tasks, queues);
      var i := 0;
      CountStart(tasks, queues, {cur, idle});
      while i < |queues[SleepList]|
        invariant Settled() && tasks.Keys == old(tasks).Keys && queues.Keys == old(queues).Keys && cur == old(cur)
        invariant forall p <- queues :: p != ReadyList && p != SleepList ==> queues[p] == old(queues)[p]
        invariant i <= |queues[SleepList]| && CountedDown(tasks, queues[SleepList], a, i)
        invariant old(queues)[ReadyList] <= queues[ReadyList]
        decreases |queues[SleepList]| - i
      {
        var t := queues[SleepList][i];
        SleeperTicks(tasks, queues, {cur, idle}, t);
        SleepersOnce(tasks, queues, {cur, idle});
        // the ASSERT of clock_sleep_check
        assert tasks[t].state == Sleep && tasks[t].list == SleepList;
        if tasks[t].sleepTicks - 1 == 0 {
          ghost var ts := tasks;
          CountWake(tasks, queues[SleepList], a, i);
          WakeSleeper(i);
          CountSame(ts, tasks, queues[SleepList], a, i);
        } else {
          CountStep(tasks, queues[SleepList], a, i);
          CountOne(t);
          i := i + 1;
        }
      }
      CountDone(tasks, queues, a);
    }

    method CountOne(t: nat)
      requires Settled() && t in tasks && t !in {cur, idle} && tasks[t].sleepTicks > 1
      modifies `tasks
      ensures Settled() && tasks == old(tasks)[t := old(tasks)[t].(sleepTicks := old(tasks)[t].sleepTicks - 1)]
    {
      TickKeeps(tasks, queues, {cur, idle}, t);
      tasks := tasks[t := tasks[t].(sleepTicks := tasks[t].sleepTicks - 1)];
    }

    /** With `ready` on the ready list after the check of the sleepers: `was` gives way if its time is used up. */
    ghost predicate AfterTick(ready: seq<nat>, was: nat, expired: bool)
      reads this
    {
      if expired then GaveWay(ready, was) else ReadyList in queues && cur == was && queues[ReadyList] == ready
    }

    /**
     do_handler_timer as far as scheduling goes; `expired` says that the time slice of the current
     task is used up.
     */
    method Tick(expired: bool)
      requires Settled()
      modifies this
      ensures Settled() && tasks.Keys == old(tasks).Keys && queues.Keys == old(queues).Keys
      ensures forall p <- queues :: p != ReadyList && p != SleepList ==> queues[p] == old(queues)[p]
      ensures Stepped(old(tasks), old(queues), old(turns), true)
      ensures turns == old(turns) + if expired then 1 else 0
      ensures exists ready :: old(queues)[ReadyList] <= ready && AfterTick(ready, old(cur), expired)
    {
      hide Queued, Sleepers, Napping;
      ClockSleepCheck();
      ghost var ready1 := queues[ReadyList];
      if expired {
        Schedule();
        GrownThenMoved(old(queues)[ReadyList], ready1, queues[ReadyList], cur);
      }
      assert AfterTick(ready1, old(cur), expired);
    }
  }

  /**
   A sleep lasts the ticks that cover it, exactly unless the sum in 32 bits wraps around; then there
   is no sleep at all.
   */
  lemma SleepTicks(ms: nat)
    requires 0 < ms < 0x1_0000_0000
    ensures var ticks := (ms + TICK_MS - 1) % 0x1_0000_0000 / TICK_MS;
            && (TICK_MS * (ticks - 1) < ms <= TICK_MS * ticks <==> ms <= 0x1_0000_0000 - TICK_MS)
            && (ms > 0x1_0000_0000 - TICK_MS ==> ticks == 0)
  {
    if ms <= 0x1_0000_0000 - TICK_MS {
      assert (ms + TICK_MS - 1) % 0x1_0000_0000 == ms + TICK_MS - 1;
    } else {
      assert (ms + TICK_MS - 1) % 0x1_0000_0000 == ms + TICK_MS - 1 - 0x1_0000_0000;
    }
  }
}

/**
 source/kernel/ipc/mutex.c and source/kernel/ipc/semaphore.c over the scheduler: any number of
 mutexes, recursive mutexes and semaphores at once.  Every operation is a step of LockSteps, so what is
 proved there of runs holds here.  Timed waits are left out.
 */
module Ipc {
  import opened TaskQueues
  import opened Scheduler
  import opened LockSteps

  class System {
    const k: Kernel
    var mutexes: seq<int>            // count
    var recursives: seq<Recursive>
    var sems: seq<int>               // count
    ghost var holders: seq<set<nat>>
    ghost var depths: seq<map<nat, int>>
    ghost var taken: seq<nat>
    ghost var posted: seq<nat>

    ghost function State(): Shot
      reads this, k
    {
      Shot(k.tasks, k.queues, k.cur, k.idle, k.turns, mutexes, holders, recursives, depths, sems, taken, posted)
    }

    ghost predicate Valid()
      reads this, k
    {
      k.Settled() && Good(State())
    }

    /** sys_mutex_init, sys_recur_mutex_init and sys_sem_init on empty wait lists. */
    constructor (k: Kernel, m: nat, r: nat, counts: seq<nat>)
      requires k.Settled()
      requires forall i :: 0 <= i < m ==> MutexList(i) in k.queues && k.queues[MutexList(i)] == []
      requires forall i :: 0 <= i < r ==> RecursiveList(i) in k.queues && k.queues[RecursiveList(i)] == []
      requires forall i :: 0 <= i < |counts| ==> SemList(i) in k.queues && k.queues[SemList(i)] == []
      ensures Valid() && this.k == k && |mutexes| == m && |recursives| == r && sems == counts
      ensures mutexes == seq(m, _ => 1) && holders == seq(m, _ => {})
      ensures recursives == seq(r, _ => Recursive(0, Nobody)) && depths == seq(r, _ => map[])
      ensures taken == seq(|counts|, _ => 0) && posted == counts
    {
      this.k := k;
      mutexes, recursives, sems := seq(m, _ => 1), seq(r, _ => Recursive(0, Nobody)), counts;
      holders, depths := seq(m, _ => {}), seq(r, _ => map[]);
      taken, posted := seq(|counts|, _ => 0), counts;
    }

    /** The step from `a` to here is one of those of LockSteps, so that it keeps what they keep. */
    lemma Stepping(a: Shot, op: Op)
      requires Good(a) && k.Settled() && Effect(a, State(), op) && Framed(a, State(), ListOf(op))
      requires ReadyList in a.queues && k.Stepped(a.tasks, a.queues, a.turns, op.Tick?)
      ensures Valid() && Step(a, State(), op)
    {
      hide Good, Effect, Framed, Queued, Sleepers, Napping, Moved;
      StepKeeps(a, State(), op);
    }

    /** The same if the scheduler has had no part in it. */
    lemma SteppingOn(a: Shot, op: Op)
      requires Good(a) && k.Settled() && Effect(a, State(), op) && !op.Tick?
      requires k.tasks == a.tasks && k.queues == a.queues && k.cur == a.cur && k.idle == a.idle && k.turns == a.turns
      ensures Valid() && Step(a, State(), op)
    {
      hide Good, Effect, Queued;
      Stepping(a, op);
    }

    /** sys_mutex_lock: taken at once if free; else the task waits at the end of the list. */
    method MutexLock(i: nat)
      requires Valid() && i < |mutexes| && k.cur != k.idle
      modifies this, k
      ensures Valid() && Step(old(State()), State(), Lock(i))
    {
      hide Queued, Sleepers, Napping, Moved, MutexOk, RecursiveOk, SemOk;
      ghost var a := State();
      if mutexes[i] > 0 {
        mutexes := mutexes[i := mutexes[i] - 1];
        holders := holders[i := holders[i] + {k.cur}];
        SteppingOn(a, Lock(i));
      } else {
        k.Block(3 * i);
        Stepping(a, Lock(i));
      }
    }

    /** sys_mutex_unlock by a holder: the task that has waited longest holds the mutex from now on. */
    method MutexUnlock(i: nat)
      requires Valid() && i < |mutexes| && k.cur in holders[i]
      modifies this, k
      ensures Valid() && Step(old(State()), State(), Unlock(i))
    {
      hide Queued, Sleepers, Napping, Moved, MutexOk, RecursiveOk, SemOk;
      ghost var a := State();
      holders := holders[i := holders[i] - {k.cur}];
      if |k.queues[MutexList(i)]| > 0 {
        var t := k.Wake(3 * i);
        holders := holders[i := holders[i] + {t}];
        Stepping(a, Unlock(i));
      } else {
        mutexes := mutexes[i := mutexes[i] + 1];
        SteppingOn(a, Unlock(i));
      }
    }

    /** sys_recur_mutex_lock */
    method RecursiveLock(i: nat)
      requires Valid() && i < |recursives| && k.cur != k.idle
      modifies this, k
      ensures Valid() && Step(old(State()), State(), LockRecursive(i))
    {
      hide Queued, Sleepers, Napping, Moved, MutexOk, RecursiveOk, SemOk;
      ghost var a := State();
      var r := recursives[i];
      if r.lockedCount == 0 {
        recursives := recursives[i := Recursive(1, Pid(k.cur))];
        depths := depths[i := Deeper(depths[i], k.cur, 1)];
        SteppingOn(a, LockRecursive(i));
      } else if r.owner == Pid(k.cur) {
        recursives := recursives[i := Recursive(r.lockedCount + 1, r.owner)];
        depths := depths[i := Deeper(depths[i], k.cur, 1)];
        SteppingOn(a, LockRecursive(i));
      } else {
        k.Block(3 * i + 1);
        Stepping(a, LockRecursive(i));
      }
    }

    /** sys_recur_mutex_unlock: nothing for others than the owner; the last unlock hands the mutex on. */
    method RecursiveUnlock(i: nat)
      requires Valid() && i < |recursives|
      modifies this, k
      ensures Valid() && Step(old(State()), State(), UnlockRecursive(i))
    {
      hide Queued, Sleepers, Napping, Moved, MutexOk, RecursiveOk, SemOk, SemWaited, SemTried, SemNotified,
        MutexUnlocked, MutexLocked, RecursiveLocked;
      ghost var a := State();
      OwnerCounts(i);
      var r := recursives[i];
      if r.owner == Pid(k.cur) {
        depths := depths[i := Deeper(depths[i], k.cur, -1)];
        if r.lockedCount - 1 != 0 {
          recursives := recursives[i := Recursive(r.lockedCount - 1, r.owner)];
        } else if |k.queues[RecursiveList(i)]| > 0 {
          HandOver(i, a);
          return;
        } else {
          recursives := recursives[i := Recursive(0, Nobody)];
        }
      }
      SteppingOn(a, UnlockRecursive(i));
    }

    /** The part of sys_recur_mutex_unlock behind the check for waiters, the step having begun at `a`. */
    method HandOver(i: nat, ghost a: Shot)
      requires Good(a) && k.Settled() && i < |recursives|
      requires RecursiveList(i) in k.queues && k.queues[RecursiveList(i)] != []
      requires |depths| == |recursives| == |a.recursives| == |a.depths| && a.recursives[i] == Recursive(1, Pid(k.cur))
      requires State() == a.(depths := a.depths[i := Deeper(a.depths[i], k.cur, -1)])
      modifies this, k
      ensures Valid() && Step(a, State(), UnlockRecursive(i))
    {
      hide Queued, Sleepers, Napping, Moved, MutexOk, RecursiveOk, SemOk, SemWaited, SemTried, SemNotified,
        MutexUnlocked, MutexLocked, RecursiveLocked;
      var t := k.Wake(3 * i + 1);
      recursives := recursives[i := Recursive(1, Pid(t))];
      depths := depths[i := Deeper(depths[i], t, 1)];
      Stepping(a, UnlockRecursive(i));
    }

    lemma OwnerCounts(i: nat)
      requires Valid() && i < |recursives|
      ensures recursives[i].owner != Nobody ==> recursives[i].lockedCount > 0
    {
      assert RecursiveOk(recursives[i], depths[i], k.queues[RecursiveList(i)]);
    }

    /** sys_sem_wait */
    method SemWait(i: nat)
      requires Valid() && i < |sems| && k.cur != k.idle
      modifies this, k
      ensures Valid() && Step(old(State()), State(), Wait(i))
    {
      hide Queued, Sleepers, Napping, Moved, MutexOk, RecursiveOk, SemOk;
      ghost var a := State();
      if sems[i] > 0 {
        sems := sems[i := sems[i] - 1];
        taken := taken[i := taken[i] + 1];
        SteppingOn(a, Wait(i));
      } else {
        k.Block(3 * i + 2);
        Stepping(a, Wait(i));
      }
    }

    /** sys_sem_trywait: 0 and a token, or -1 and nothing. */
    method SemTryWait(i: nat) returns (r: int)
      requires Valid() && i < |sems|
      modifies this
      ensures Valid() && Step(old(State()), State(), TryWait(i)) && r == if old(sems)[i] > 0 then 0 else -1
    {
      hide Queued, Sleepers, Napping, Moved, MutexOk, RecursiveOk, SemOk;
      ghost var a := State();
      if sems[i] > 0 {
        sems := sems[i := sems[i] - 1];
        taken := taken[i := taken[i] + 1];
        r := 0;
      } else {
        r := -1;
      }
      SteppingOn(a, TryWait(i));
    }

    /** sys_sem_notify: the token goes to the task that has waited longest, else it is kept. */
    method SemNotify(i: nat)
      requires Valid() && i < |sems|
      modifies this, k
      ensures Valid() && Step(old(State()), State(), Notify(i))
    {
      hide Queued, Sleepers, Napping, Moved, MutexOk, RecursiveOk, SemOk, SemWaited, SemTried, MutexUnlocked,
        MutexLocked, RecursiveLocked, RecursiveUnlocked;
      ghost var a := State();
      posted := posted[i := posted[i] + 1];
      if |k.queues[SemList(i)]| > 0 {
        var _ := k.Wake(3 * i + 2);
        taken := taken[i := taken[i] + 1];
        Stepping(a, Notify(i));
      } else {
        sems := sems[i := sems[i] + 1];
        SteppingOn(a, Notify(i));
      }
    }

    // ---- the other steps of the scheduler ----

    /** A clock tick, from whatever task it interrupts. */
    method Tick(expired: bool)
      requires Valid()
      modifies k
      ensures Valid() && Step(old(State()), State(), Op.Tick(expired))
    {
      hide Queued, Sleepers, Napping, Moved, Good;
      ghost var a := State();
      GoodReady(a);
      k.Tick(expired);
      ghost var ready :| a.queues[ReadyList] <= ready && k.AfterTick(ready, a.cur, expired);
      assert AfterTick(a, State(), ready, expired);
      Stepping(a, Op.Tick(expired));
    }

    /** sys_sleep */
    method SleepFor(ms: nat)
      requires Valid() && k.cur != k.idle && ms < 0x1_0000_0000
      modifies k
      ensures Valid() && Step(old(State()), State(), Op.SleepFor((ms + TICK_MS - 1) % 0x1_0000_0000 / TICK_MS))
    {
      hide Queued, Sleepers, Napping, Moved, Good;
      ghost var a := State();
      GoodReady(a);
      k.SleepFor(ms);
      Stepping(a, Op.SleepFor((ms + TICK_MS - 1) % 0x1_0000_0000 / TICK_MS));
    }

    /** sys_yield */
    method Yield()
      requires Valid()
      modifies k
      ensures Valid() && Step(old(State()), State(), Op.Yield)
    {
      hide Queued, Sleepers, Napping, Moved, Good;
      ghost var a := State();
      GoodReady(a);
      k.Yield();
      Stepping(a, Op.Yield);
    }

    static lemma GoodReady(s: Shot)
      requires Good(s)
      ensures ReadyList in s.queues
    {
    }
  }
}

/**
 The mutexes and semaphores of source/kernel/ipc/mutex.c and source/kernel/ipc/semaphore.c as values:
 what each step does to them and to the scheduler, what every step keeps, and what holds over runs.
 */
module LockSteps {
  import opened TaskQueues

  datatype Owner = Nobody | Pid(pid: nat)

  /** recursive_mutex_t */
  datatype Recursive = Recursive(lockedCount: int, owner: Owner)

  // the wait lists of the three kinds
  function MutexList(i: nat): QueueId { WaitList(3 * i) }
  function RecursiveList(i: nat): QueueId { WaitList(3 * i + 1) }
  function SemList(i: nat): QueueId { WaitList(3 * i + 2) }

  /** All mutexes, recursive mutexes and semaphores, and the scheduler. */
  datatype Shot = Shot(tasks: map<nat, Task>, queues: map<QueueId, seq<nat>>, cur: nat, idle: nat, turns: nat,
                       mutexes: seq<int>, holders: seq<set<nat>>,
                       recursives: seq<Recursive>, depths: seq<map<nat, int>>,
                       sems: seq<int>, taken: seq<nat>, posted: seq<nat>)

  /** A mutex is free or has one holder, and a free one has no waiters. */
  ghost predicate MutexOk(count: int, holders: set<nat>, queue: seq<nat>) {
    count >= 0 && count + |holders| == 1 && (count > 0 ==> queue == [])
  }

  /** How often a task has locked a recursive mutex, less how often it has unlocked it. */
  function Depth(depth: map<nat, int>, t: nat): int {
    if t in depth then depth[t] else 0
  }

  function Deeper(depth: map<nat, int>, t: nat, n: int): map<nat, int> {
    depth[t := Depth(depth, t) + n]
  }

  /** The count is the nesting depth of the owner, nobody else has any, and a free one has no waiters. */
  ghost predicate RecursiveOk(r: Recursive, depth: map<nat, int>, queue: seq<nat>) {
    && (r.owner == Nobody <==> r.lockedCount == 0) && r.lockedCount >= 0
    && (forall t :: Depth(depth, t) == if r.owner == Pid(t) then r.lockedCount else 0)
    && (r.owner == Nobody ==> queue == [])
  }

  /** What was ever there is on hand or taken, and nobody waits while there is something on hand. */
  ghost predicate SemOk(count: int, taken: nat, posted: nat, queue: seq<nat>) {
    count >= 0 && count + taken == posted && (count > 0 ==> queue == [])
  }

  ghost predicate Good(s: Shot) {
    && |s.holders| == |s.mutexes| && |s.depths| == |s.recursives| && |s.taken| == |s.posted| == |s.sems|
    && ReadyList in s.queues
    && (forall i :: 0 <= i < |s.mutexes| ==>
          MutexList(i) in s.queues && MutexOk(s.mutexes[i], s.holders[i], s.queues[MutexList(i)]))
    && (forall i :: 0 <= i < |s.recursives| ==>
          RecursiveList(i) in s.queues && RecursiveOk(s.recursives[i], s.depths[i], s.queues[RecursiveList(i)]))
    && (forall i :: 0 <= i < |s.sems| ==>
          SemList(i) in s.queues && SemOk(s.sems[i], s.taken[i], s.posted[i], s.queues[SemList(i)]))
  }

  // ---- steps ----

  datatype Op =
    | Lock(i: nat) | Unlock(i: nat)
    | LockRecursive(i: nat) | UnlockRecursive(i: nat)
    | Wait(i: nat) | TryWait(i: nat) | Notify(i: nat)
    | Tick(expired: bool) | Yield | SleepFor(ticks: nat)

  function ListOf(op: Op): QueueId {
    match op
    case Lock(i) => MutexList(i)
    case Unlock(i) => MutexList(i)
    case LockRecursive(i) => RecursiveList(i)
    case UnlockRecursive(i) => RecursiveList(i)
    case Wait(i) => SemList(i)
    case TryWait(i) => SemList(i)
    case Notify(i) => SemList(i)
    case Tick(_) => NoList
    case Yield => NoList
    case SleepFor(_) => NoList
  }

  ghost predicate Scheduled(a: Shot, b: Shot, tick: bool) {
    && ReadyList in a.queues && ReadyList in b.queues && a.turns <= b.turns
    && Napping(Sleepers(a.tasks, a.queues), Sleepers(b.tasks, b.queues), tick)
    && Moved(a.queues[ReadyList], b.queues[ReadyList], b.cur, b.turns - a.turns)
  }

  /** No wait list but `q` has changed. */
  predicate Framed(a: Shot, b: Shot, q: QueueId) {
    && b.tasks.Keys == a.tasks.Keys && b.queues.Keys == a.queues.Keys && b.idle == a.idle
    && forall p <- a.queues :: p != ReadyList && p != SleepList && p != q ==>
      p in b.queues && b.queues[p] == a.queues[p]
  }

  predicate MutexesStay(a: Shot, b: Shot) {
    b.mutexes == a.mutexes && b.holders == a.holders
  }

  predicate RecursivesStay(a: Shot, b: Shot) {
    b.recursives == a.recursives && b.depths == a.depths
  }

  predicate SemsStay(a: Shot, b: Shot) {
    b.sems == a.sems && b.taken == a.taken && b.posted == a.posted
  }

  /** The current task goes on, and nobody else is concerned. */
  predicate GoesOn(a: Shot, b: Shot) {
    b.cur == a.cur && b.queues == a.queues && b.tasks == a.tasks && b.turns == a.turns
  }

  /** With `ready` on the ready list: the first of it runs, if there is one, and the current task goes to the end. */
  predicate GivesWay(a: Shot, b: Shot, ready: seq<nat>) {
    && ReadyList in b.queues
    && if ready == [] then b.cur == a.cur && b.queues[ReadyList] == []
       else b.cur == ready[0] && b.queues[ReadyList] == ready[1..] + if a.cur != a.idle then [a.cur] else []
  }

  /** The first ready task runs, or the idle one, and the current task is off the ready list. */
  predicate LetsGo(a: Shot, b: Shot) {
    && ReadyList in a.queues && ReadyList in b.queues && b.turns == a.turns + 1
    && var ready := a.queues[ReadyList];
       if ready == [] then b.cur == a.idle && b.queues[ReadyList] == []
       else b.cur == ready[0] && b.queues[ReadyList] == ready[1..]
  }

  /** The current task waits behind all others, and another runs. */
  predicate Waits(a: Shot, b: Shot, q: QueueId) {
    q in a.queues && q in b.queues && b.queues[q] == a.queues[q] + [a.cur] && LetsGo(a, b)
  }

  /** A woken task is the last of the ready list before the current one joins it. */
  lemma WokenRuns(a: Shot, b: Shot, q: QueueId)
    requires Wakes(a, b, q)
    ensures b.cur == a.queues[q][0] || (ReadyList in b.queues && a.queues[q][0] in b.queues[ReadyList])
  {
    var ready := a.queues[ReadyList] + [a.queues[q][0]];
    assert ready[|ready| - 1] == a.queues[q][0];
    assert |ready| > 1 ==> b.queues[ReadyList][|ready| - 2] == a.queues[q][0];
  }

  /** The first waiter can run, and the current task gives way. */
  predicate Wakes(a: Shot, b: Shot, q: QueueId) {
    && q in a.queues && a.queues[q] != [] && q in b.queues && b.queues[q] == a.queues[q][1..]
    && ReadyList in a.queues && GivesWay(a, b, a.queues[ReadyList] + [a.queues[q][0]]) && b.turns == a.turns + 1
  }

  predicate MutexLocked(a: Shot, b: Shot, i: nat) {
    && i < |a.mutexes| == |a.holders|
    && if a.mutexes[i] > 0 then
         && b.mutexes == a.mutexes[i := a.mutexes[i] - 1] && b.holders == a.holders[i := a.holders[i] + {a.cur}]
         && GoesOn(a, b)
       else MutexesStay(a, b) && Waits(a, b, MutexList(i))
  }

  predicate MutexUnlocked(a: Shot, b: Shot, i: nat) {
    && i < |a.mutexes| == |a.holders| && a.cur in a.holders[i] && MutexList(i) in a.queues
    && var queue := a.queues[MutexList(i)];
       if queue == [] then
         && b.mutexes == a.mutexes[i := a.mutexes[i] + 1] && b.holders == a.holders[i := a.holders[i] - {a.cur}]
         && GoesOn(a, b)
       else
         && b.mutexes == a.mutexes && b.holders == a.holders[i := a.holders[i] - {a.cur} + {queue[0]}]
         && Wakes(a, b, MutexList(i))
  }

  predicate RecursiveLocked(a: Shot, b: Shot, i: nat) {
    && i < |a.recursives| == |a.depths|
    && var r := a.recursives[i];
       if r.lockedCount == 0 || r.owner == Pid(a.cur) then
         && b.recursives == a.recursives[i := Recursive(r.lockedCount + 1, Pid(a.cur))]
         && b.depths == a.depths[i := Deeper(a.depths[i], a.cur, 1)] && GoesOn(a, b)
       else RecursivesStay(a, b) && Waits(a, b, RecursiveList(i))
  }

  predicate RecursiveUnlocked(a: Shot, b: Shot, i: nat) {
    && i < |a.recursives| == |a.depths| && RecursiveList(i) in a.queues
    && var r, queue := a.recursives[i], a.queues[RecursiveList(i)];
       if r.owner != Pid(a.cur) then RecursivesStay(a, b) && GoesOn(a, b)
       else
         var less := Deeper(a.depths[i], a.cur, -1);
         if r.lockedCount > 1 then
           && b.recursives == a.recursives[i := Recursive(r.lockedCount - 1, r.owner)]
           && b.depths == a.depths[i := less] && GoesOn(a, b)
         else if queue == [] then
           && b.recursives == a.recursives[i := Recursive(0, Nobody)] && b.depths == a.depths[i := less] && GoesOn(a, b)
         else
           && b.recursives == a.recursives[i := Recursive(1, Pid(queue[0]))]
           && b.depths == a.depths[i := Deeper(less, queue[0], 1)] && Wakes(a, b, RecursiveList(i))
  }

  predicate TokenTaken(a: Shot, b: Shot, i: nat)
    requires i < |a.sems| == |a.taken|
  {
    && b.sems == a.sems[i := a.sems[i] - 1] && b.taken == a.taken[i := a.taken[i] + 1] && b.posted == a.posted
    && GoesOn(a, b)
  }

  predicate SemWaited(a: Shot, b: Shot, i: nat) {
    && i < |a.sems| == |a.taken|
    && if a.sems[i] > 0 then TokenTaken(a, b, i) else SemsStay(a, b) && Waits(a, b, SemList(i))
  }

  predicate SemTried(a: Shot, b: Shot, i: nat) {
    && i < |a.sems| == |a.taken|
    && if a.sems[i] > 0 then TokenTaken(a, b, i) else SemsStay(a, b) && GoesOn(a, b)
  }

  predicate SemNotified(a: Shot, b: Shot, i: nat) {
    && i < |a.sems| == |a.taken| == |a.posted| && SemList(i) in a.queues
    && b.posted == a.posted[i := a.posted[i] + 1]
    && if a.queues[SemList(i)] == [] then
         b.sems == a.sems[i := a.sems[i] + 1] && b.taken == a.taken && GoesOn(a, b)
       else b.sems == a.sems && b.taken == a.taken[i := a.taken[i] + 1] && Wakes(a, b, SemList(i))
  }

  predicate Yielded(a: Shot, b: Shot) {
    ReadyList in a.queues && GivesWay(a, b, a.queues[ReadyList]) && b.turns == a.turns + 1
  }

  /** Tasks may have woken, and if its time is used up the current task gives way. */
  ghost predicate Ticked(a: Shot, b: Shot, expired: bool) {
    && ReadyList in a.queues && ReadyList in b.queues
    && b.turns == a.turns + (if expired then 1 else 0)
    && exists ready :: a.queues[ReadyList] <= ready && AfterTick(a, b, ready, expired)
  }

  predicate AfterTick(a: Shot, b: Shot, ready: seq<nat>, expired: bool) {
    if expired then GivesWay(a, b, ready) else ReadyList in b.queues && b.cur == a.cur && b.queues[ReadyList] == ready
  }

  ghost predicate Slept(a: Shot, b: Shot, ticks: nat) {
    && Sleepers(b.tasks, b.queues)
         == (if ticks == 0 then Sleepers(a.tasks, a.queues) else Sleepers(a.tasks, a.queues)[a.cur := ticks])
    && if ticks == 0 then b.queues == a.queues && b.cur == a.cur && b.turns == a.turns else LetsGo(a, b)
  }

  /** What a step does to the locks and semaphores, and to who runs. */
  ghost predicate Effect(a: Shot, b: Shot, op: Op) {
    match op
    case Lock(i) => MutexLocked(a, b, i) && RecursivesStay(a, b) && SemsStay(a, b)
    case Unlock(i) => MutexUnlocked(a, b, i) && RecursivesStay(a, b) && SemsStay(a, b)
    case LockRecursive(i) => RecursiveLocked(a, b, i) && MutexesStay(a, b) && SemsStay(a, b)
    case UnlockRecursive(i) => RecursiveUnlocked(a, b, i) && MutexesStay(a, b) && SemsStay(a, b)
    case Wait(i) => SemWaited(a, b, i) && MutexesStay(a, b) && RecursivesStay(a, b)
    case TryWait(i) => SemTried(a, b, i) && MutexesStay(a, b) && RecursivesStay(a, b)
    case Notify(i) => SemNotified(a, b, i) && MutexesStay(a, b) && RecursivesStay(a, b)
    case Tick(expired) => MutexesStay(a, b) && RecursivesStay(a, b) && SemsStay(a, b) && Ticked(a, b, expired)
    case Yield => MutexesStay(a, b) && RecursivesStay(a, b) && SemsStay(a, b) && Yielded(a, b)
    case SleepFor(ticks) => MutexesStay(a, b) && RecursivesStay(a, b) && SemsStay(a, b) && Slept(a, b, ticks)
  }

  ghost predicate Step(a: Shot, b: Shot, op: Op) {
    Scheduled(a, b, op.Tick?) && Framed(a, b, ListOf(op)) && Effect(a, b, op)
  }

  // ---- what every step keeps ----

  lemma OthersStay(a: Shot, b: Shot, q: QueueId)
    requires Good(a) && Framed(a, b, q)
    ensures forall i :: 0 <= i < |a.mutexes| ==>
      MutexList(i) in b.queues && (MutexList(i) != q ==> b.queues[MutexList(i)] == a.queues[MutexList(i)])
    ensures forall i :: 0 <= i < |a.recursives| ==>
      && RecursiveList(i) in b.queues
      && (RecursiveList(i) != q ==> b.queues[RecursiveList(i)] == a.queues[RecursiveList(i)])
    ensures forall i :: 0 <= i < |a.sems| ==>
      SemList(i) in b.queues && (SemList(i) != q ==> b.queues[SemList(i)] == a.queues[SemList(i)])
  {
    forall i | 0 <= i < |a.mutexes| ensures MutexList(i) in a.queues {}
    forall i | 0 <= i < |a.recursives| ensures RecursiveList(i) in a.queues {}
    forall i | 0 <= i < |a.sems| ensures SemList(i) in a.queues {}
  }

  lemma MutexStep(a: Shot, b: Shot, i: nat)
    requires i < |a.mutexes| && Good(a) && MutexList(i) in b.queues && (MutexLocked(a, b, i) || MutexUnlocked(a, b, i))
    ensures MutexOk(b.mutexes[i], b.holders[i], b.queues[MutexList(i)])
  {
    var h := a.holders[i];
    assert MutexOk(a.mutexes[i], h, a.queues[MutexList(i)]);
    if a.cur in h {
      assert |h - {a.cur}| == |h| - 1;
    }
    if |h| == 1 && a.cur in h {
      assert h - {a.cur} == {};
    }
  }

  lemma RecursiveStep(a: Shot, b: Shot, i: nat)
    requires i < |a.recursives| && Good(a) && RecursiveList(i) in b.queues
    requires RecursiveLocked(a, b, i) || RecursiveUnlocked(a, b, i)
    ensures RecursiveOk(b.recursives[i], b.depths[i], b.queues[RecursiveList(i)])
  {
    assert RecursiveOk(a.recursives[i], a.depths[i], a.queues[RecursiveList(i)]);
  }

  lemma SemStep(a: Shot, b: Shot, i: nat)
    requires i < |a.sems| && Good(a) && SemList(i) in b.queues
    requires (SemWaited(a, b, i) || SemTried(a, b, i) || SemNotified(a, b, i))
    ensures SemOk(b.sems[i], b.taken[i], b.posted[i], b.queues[SemList(i)])
  {
    assert SemOk(a.sems[i], a.taken[i], a.posted[i], a.queues[SemList(i)]);
  }

  lemma MutexesKept(a: Shot, b: Shot, op: Op)
    requires Good(a) && Framed(a, b, ListOf(op)) && Effect(a, b, op)
    ensures |b.holders| == |b.mutexes|
    ensures forall i :: 0 <= i < |b.mutexes| ==>
      MutexList(i) in b.queues && MutexOk(b.mutexes[i], b.holders[i], b.queues[MutexList(i)])
  {
    hide MutexOk, RecursiveOk, SemOk, RecursiveLocked, RecursiveUnlocked, SemWaited, SemTried, SemNotified;
    OthersStay(a, b, ListOf(op));
    if op.Lock? || op.Unlock? {
      MutexStep(a, b, op.i);
    }
  }

  lemma RecursivesKept(a: Shot, b: Shot, op: Op)
    requires Good(a) && Framed(a, b, ListOf(op)) && Effect(a, b, op)
    ensures |b.depths| == |b.recursives|
    ensures forall i :: 0 <= i < |b.recursives| ==>
      RecursiveList(i) in b.queues && RecursiveOk(b.recursives[i], b.depths[i], b.queues[RecursiveList(i)])
  {
    hide MutexOk, RecursiveOk, SemOk, MutexLocked, MutexUnlocked, SemWaited, SemTried, SemNotified;
    OthersStay(a, b, ListOf(op));
    if op.LockRecursive? || op.UnlockRecursive? {
      RecursiveStep(a, b, op.i);
    }
  }

  lemma SemsKept(a: Shot, b: Shot, op: Op)
    requires Good(a) && Framed(a, b, ListOf(op)) && Effect(a, b, op)
    ensures |b.taken| == |b.posted| == |b.sems|
    ensures forall i :: 0 <= i < |b.sems| ==>
      SemList(i) in b.queues && SemOk(b.sems[i], b.taken[i], b.posted[i], b.queues[SemList(i)])
  {
    hide MutexOk, RecursiveOk, SemOk, MutexLocked, MutexUnlocked, RecursiveLocked, RecursiveUnlocked;
    OthersStay(a, b, ListOf(op));
    if op.Wait? || op.TryWait? || op.Notify? {
      SemStep(a, b, op.i);
    }
  }

  /** Every step keeps all locks and semaphores in order. */
  lemma StepKeeps(a: Shot, b: Shot, op: Op)
    requires Good(a) && Framed(a, b, ListOf(op)) && Effect(a, b, op)
    ensures Good(b)
  {
    hide Effect, MutexOk, RecursiveOk, SemOk;
    MutexesKept(a, b, op);
    RecursivesKept(a, b, op);
    SemsKept(a, b, op);
  }
}

/**
 Runs of the kernel, any number of tasks using any number of mutexes, recursive mutexes and semaphores,
 sleeping, yielding and being interrupted by clock ticks in any order.
 */
module LockRuns {
  import opened TaskQueues
  import opened LockSteps

  ghost predicate Run(run: seq<Shot>, ops: seq<Op>) {
    && |run| == |ops| + 1 && Good(run[0])
    && forall j :: 0 <= j < |ops| ==> Step(run[j], run[j + 1], ops[j])
  }

  predicate SameNumbers(a: Shot, b: Shot) {
    |b.mutexes| == |a.mutexes| && |b.recursives| == |a.recursives| && |b.sems| == |a.sems|
  }

  /** No reachable state has a lock or semaphore out of order, and none comes or goes. */
  lemma {:induction false} RunGood(run: seq<Shot>, ops: seq<Op>, j: nat)
    requires Run(run, ops) && j <= |ops|
    ensures Good(run[j]) && SameNumbers(run[0], run[j])
  {
    hide Good, Scheduled, Framed;
    if j > 0 {
      RunGood(run, ops, j - 1);
      assert Step(run[j - 1], run[j], ops[j - 1]);
      StepKeeps(run[j - 1], run[j], ops[j - 1]);
    }
  }

  /** The list `q` along a run. */
  function Along(run: seq<Shot>, q: QueueId): (r: seq<seq<nat>>)
    ensures |r| == |run|
    ensures forall j :: 0 <= j < |run| && q in run[j].queues ==> r[j] == run[j].queues[q]
  {
    seq(|run|, j requires 0 <= j < |run| => if q in run[j].queues then run[j].queues[q] else [])
  }

  predicate CanRun(s: Shot, t: nat) {
    s.cur == t || (ReadyList in s.queues && t in s.queues[ReadyList])
  }

  /** `t` is at index `k` of the list `q`. */
  predicate Stands(s: Shot, q: QueueId, k: int, t: nat) {
    q in s.queues && 0 <= k < |s.queues[q]| && s.queues[q][k] == t
  }

  // ---- mutexes ----

  function Unlocks(ops: seq<Op>, i: nat): (r: seq<bool>)
    ensures |r| == |ops| && forall j :: 0 <= j < |ops| ==> r[j] == (ops[j] == Unlock(i))
  {
    seq(|ops|, j requires 0 <= j < |ops| => ops[j] == Unlock(i))
  }

  lemma MutexShifts(a: Shot, b: Shot, op: Op, i: nat)
    requires Good(a) && i < |a.mutexes| && Framed(a, b, ListOf(op)) && Effect(a, b, op) && MutexList(i) in b.queues
    ensures MutexList(i) in a.queues && Shifted(a.queues[MutexList(i)], b.queues[MutexList(i)], op == Unlock(i))
  {
    hide RecursiveOk, SemOk, RecursiveLocked, RecursiveUnlocked, SemWaited, SemTried, SemNotified;
  }

  lemma MutexTaken(a: Shot, b: Shot, i: nat)
    requires Good(a) && Effect(a, b, Unlock(i)) && i < |a.mutexes| && MutexList(i) in a.queues
    requires a.queues[MutexList(i)] != []
    ensures b.holders[i] == {a.queues[MutexList(i)][0]} && CanRun(b, a.queues[MutexList(i)][0])
  {
    hide RecursiveOk, SemOk;
    WokenRuns(a, b, MutexList(i));
    var h := a.holders[i];
    assert MutexOk(a.mutexes[i], h, a.queues[MutexList(i)]);
    assert |h - {a.cur}| == |h| - 1;
  }

  /** The waiter at index `k` of a mutex has it, and can run, after exactly the `k + 1`st unlocking from now on. */
  lemma MutexHandedOver(run: seq<Shot>, ops: seq<Op>, i: nat, k: nat, t: nat)
    requires Run(run, ops) && i < |run[0].mutexes| && Stands(run[0], MutexList(i), k, t)
    ensures Count(Unlocks(ops, i)) <= k ==> Stands(run[|ops|], MutexList(i), k - Count(Unlocks(ops, i)), t)
    ensures ops != [] && ops[|ops| - 1] == Unlock(i) && Count(Unlocks(ops, i)) == k + 1 ==>
      i < |run[|ops|].holders| && run[|ops|].holders[i] == {t} && CanRun(run[|ops|], t)
  {
    hide Scheduled, Framed, Effect, MutexOk, RecursiveOk, SemOk, Shifted, CanRun;
    var q, n := MutexList(i), |ops|;
    var lists, marks := Along(run, q), Unlocks(ops, i);
    forall j | 0 <= j < n ensures Shifted(lists[j], lists[j + 1], marks[j]) {
      RunGood(run, ops, j);
      RunGood(run, ops, j + 1);
      assert Step(run[j], run[j + 1], ops[j]);
      MutexShifts(run[j], run[j + 1], ops[j], i);
    }
    FirstComeFirst(lists, marks, k);
    RunGood(run, ops, n);
    if ops != [] && ops[n - 1] == Unlock(i) && Count(marks) == k + 1 {
      RunGood(run, ops, n - 1);
      assert Step(run[n - 1], run[n], ops[n - 1]);
      MutexTaken(run[n - 1], run[n], i);
    }
  }

  // ---- recursive mutexes ----

  /** The unlocking by which the owner gives a recursive mutex up. */
  predicate Releases(a: Shot, op: Op, i: nat) {
    op == UnlockRecursive(i) && i < |a.recursives| && a.recursives[i] == Recursive(1, Pid(a.cur))
  }

  function Released(run: seq<Shot>, ops: seq<Op>, i: nat): (r: seq<bool>)
    requires |run| == |ops| + 1
    ensures |r| == |ops| && forall j :: 0 <= j < |ops| ==> r[j] == Releases(run[j], ops[j], i)
  {
    seq(|ops|, j requires 0 <= j < |ops| => Releases(run[j], ops[j], i))
  }

  lemma RecursiveShifts(a: Shot, b: Shot, op: Op, i: nat)
    requires Good(a) && i < |a.recursives| && Framed(a, b, ListOf(op)) && Effect(a, b, op)
    requires RecursiveList(i) in b.queues
    ensures RecursiveList(i) in a.queues
    ensures Shifted(a.queues[RecursiveList(i)], b.queues[RecursiveList(i)], Releases(a, op, i))
  {
    hide MutexOk, SemOk, MutexLocked, MutexUnlocked, SemWaited, SemTried, SemNotified;
    assert RecursiveOk(a.recursives[i], a.depths[i], a.queues[RecursiveList(i)]);
  }

  lemma RecursiveTaken(a: Shot, b: Shot, op: Op, i: nat)
    requires Good(a) && Effect(a, b, op) && i < |a.recursives| && Releases(a, op, i)
    requires RecursiveList(i) in a.queues && a.queues[RecursiveList(i)] != []
    ensures i < |b.recursives| && b.recursives[i] == Recursive(1, Pid(a.queues[RecursiveList(i)][0]))
    ensures CanRun(b, a.queues[RecursiveList(i)][0])
  {
    hide Good;
    WokenRuns(a, b, RecursiveList(i));
  }

  /** The waiter at index `k` of a recursive mutex owns it, once, after exactly the `k + 1`st time it is given up. */
  lemma RecursiveHandedOver(run: seq<Shot>, ops: seq<Op>, i: nat, k: nat, t: nat)
    requires Run(run, ops) && i < |run[0].recursives| && Stands(run[0], RecursiveList(i), k, t)
    ensures var given := Count(Released(run, ops, i));
            && (given <= k ==> Stands(run[|ops|], RecursiveList(i), k - given, t))
            && (ops != [] && Releases(run[|ops| - 1], ops[|ops| - 1], i) && given == k + 1 ==>
                  && i < |run[|ops|].recursives| && run[|ops|].recursives[i] == Recursive(1, Pid(t))
                  && CanRun(run[|ops|], t))
  {
    hide Scheduled, Framed, Effect, MutexOk, RecursiveOk, SemOk, Shifted, Releases, CanRun;
    var q, n := RecursiveList(i), |ops|;
    var lists, marks := Along(run, q), Released(run, ops, i);
    forall j | 0 <= j < n ensures Shifted(lists[j], lists[j + 1], marks[j]) {
      RunGood(run, ops, j);
      RunGood(run, ops, j + 1);
      assert Step(run[j], run[j + 1], ops[j]);
      RecursiveShifts(run[j], run[j + 1], ops[j], i);
    }
    FirstComeFirst(lists, marks, k);
    RunGood(run, ops, n);
    if ops != [] && marks[n - 1] && Count(marks) == k + 1 {
      RunGood(run, ops, n - 1);
      assert Step(run[n - 1], run[n], ops[n - 1]);
      RecursiveTaken(run[n - 1], run[n], ops[n - 1], i);
    }
  }

  // ---- semaphores ----

  function Notified(ops: seq<Op>, i: nat): (r: seq<bool>)
    ensures |r| == |ops| && forall j :: 0 <= j < |ops| ==> r[j] == (ops[j] == Notify(i))
  {
    seq(|ops|, j requires 0 <= j < |ops| => ops[j] == Notify(i))
  }

  lemma SemShifts(a: Shot, b: Shot, op: Op, i: nat)
    requires Good(a) && i < |a.sems| && Framed(a, b, ListOf(op)) && Effect(a, b, op) && SemList(i) in b.queues
    ensures SemList(i) in a.queues && Shifted(a.queues[SemList(i)], b.queues[SemList(i)], op == Notify(i))
  {
    hide MutexOk, RecursiveOk, MutexLocked, MutexUnlocked, RecursiveLocked, RecursiveUnlocked;
  }

  lemma TokenPassed(a: Shot, b: Shot, i: nat)
    requires Good(a) && Effect(a, b, Notify(i)) && i < |a.sems| && SemList(i) in a.queues && a.queues[SemList(i)] != []
    ensures i < |a.taken| == |b.taken| && b.taken[i] == a.taken[i] + 1 && CanRun(b, a.queues[SemList(i)][0])
  {
    hide MutexOk, RecursiveOk, SemOk;
    WokenRuns(a, b, SemList(i));
  }

  /** The waiter at index `k` of a semaphore has a token, and can run, after exactly the `k + 1`st notification. */
  lemma TokenHandedOver(run: seq<Shot>, ops: seq<Op>, i: nat, k: nat, t: nat)
    requires Run(run, ops) && i < |run[0].sems| && Stands(run[0], SemList(i), k, t)
    ensures Count(Notified(ops, i)) <= k ==> Stands(run[|ops|], SemList(i), k - Count(Notified(ops, i)), t)
    ensures ops != [] && ops[|ops| - 1] == Notify(i) && Count(Notified(ops, i)) == k + 1 ==>
      && Stands(run[|ops| - 1], SemList(i), 0, t) && CanRun(run[|ops|], t)
      && i < |run[|ops| - 1].taken| == |run[|ops|].taken| && run[|ops|].taken[i] == run[|ops| - 1].taken[i] + 1
  {
    hide Scheduled, Framed, Effect, MutexOk, RecursiveOk, SemOk, Shifted, CanRun;
    var q, n := SemList(i), |ops|;
    var lists, marks := Along(run, q), Notified(ops, i);
    forall j | 0 <= j < n ensures Shifted(lists[j], lists[j + 1], marks[j]) {
      RunGood(run, ops, j);
      RunGood(run, ops, j + 1);
      assert Step(run[j], run[j + 1], ops[j]);
      SemShifts(run[j], run[j + 1], ops[j], i);
    }
    FirstComeFirst(lists, marks, k);
    RunGood(run, ops, n);
    if ops != [] && ops[n - 1] == Notify(i) && Count(marks) == k + 1 {
      RunGood(run, ops, n - 1);
      assert Step(run[n - 1], run[n], ops[n - 1]);
      TokenPassed(run[n - 1], run[n], i);
    }
  }

  // ---- sleeping and running ----

  ghost function Asleep(s: Shot): map<nat, int> {
    Sleepers(s.tasks, s.queues)
  }

  function Ticked(ops: seq<Op>): (r: seq<bool>)
    ensures |r| == |ops| && forall j :: 0 <= j < |ops| ==> r[j] == ops[j].Tick?
  {
    seq(|ops|, j requires 0 <= j < |ops| => ops[j].Tick?)
  }

  /** Whatever the locks do, a task asleep for `n` ticks wakes on exactly the `n`th. */
  lemma RunWakes(run: seq<Shot>, ops: seq<Op>, t: nat, n: int)
    requires Run(run, ops) && t in Asleep(run[0]) && Asleep(run[0])[t] == n > 0
    ensures Count(Ticked(ops)) < n ==> t in Asleep(run[|ops|]) && Asleep(run[|ops|])[t] == n - Count(Ticked(ops))
    ensures ops != [] && ops[|ops| - 1].Tick? && Count(Ticked(ops)) == n ==> t !in Asleep(run[|ops|])
  {
    hide Good, Framed, Effect, Sleepers, Napping;
    ghost var sleepers := seq(|run|, j requires 0 <= j < |run| => Asleep(run[j]));
    forall j | 0 <= j < |ops| ensures Napping(sleepers[j], sleepers[j + 1], Ticked(ops)[j]) {
      assert Step(run[j], run[j + 1], ops[j]);
    }
    WakesOnTime(sleepers, Ticked(ops), t, n);
  }

  lemma {:induction false} TurnsSum(run: seq<Shot>, d: seq<nat>, m: nat)
    requires |run| == |d| + 1 && m <= |d| && forall j :: 0 <= j < |d| ==> run[j].turns + d[j] == run[j + 1].turns
    ensures Sum(d[..m]) == run[m].turns - run[0].turns
  {
    if m > 0 {
      TurnsSum(run, d, m - 1);
      assert d[..m][..m - 1] == d[..m - 1];
    }
  }

  lemma ReadyMoves(a: Shot, b: Shot, op: Op)
    requires Step(a, b, op)
    ensures ReadyList in a.queues && ReadyList in b.queues && a.turns <= b.turns
    ensures Moved(a.queues[ReadyList], b.queues[ReadyList], b.cur, b.turns - a.turns)
  {
  }

  /** How often schedule was called in between. */
  function Calls(a: Shot, b: Shot): nat {
    if a.turns <= b.turns then b.turns - a.turns else 0
  }

  function CallsOf(run: seq<Shot>): (r: seq<nat>)
    requires run != []
    ensures |r| == |run| - 1
  {
    seq(|run| - 1, j requires 0 <= j < |run| - 1 => Calls(run[j], run[j + 1]))
  }

  function Currents(run: seq<Shot>): (r: seq<nat>)
    ensures |r| == |run|
  {
    seq(|run|, j requires 0 <= j < |run| => run[j].cur)
  }

  lemma RunMoves(run: seq<Shot>, ops: seq<Op>, j: nat)
    requires Run(run, ops) && j < |ops|
    ensures Moved(Along(run, ReadyList)[j], Along(run, ReadyList)[j + 1], Currents(run)[j + 1], CallsOf(run)[j])
    ensures run[j].turns + CallsOf(run)[j] == run[j + 1].turns
  {
    hide Good, Step, Moved;
    var a, b := run[j], run[j + 1];
    assert Step(a, b, ops[j]);
    hide Run;
    ReadyMoves(a, b, ops[j]);
    assert CallsOf(run)[j] == Calls(a, b) && Currents(run)[j + 1] == b.cur;
  }

  lemma ReadyThere(run: seq<Shot>, ops: seq<Op>)
    requires Run(run, ops)
    ensures ReadyList in run[|ops|].queues
  {
    RunGood(run, ops, |ops|);
  }

  lemma CallsSum(run: seq<Shot>, ops: seq<Op>)
    requires Run(run, ops)
    ensures Sum(CallsOf(run)) == run[|ops|].turns - run[0].turns
  {
    hide Step, Moved, CallsOf;
    var d := CallsOf(run);
    forall j | 0 <= j < |d| ensures run[j].turns + d[j] == run[j + 1].turns {
      RunMoves(run, ops, j);
    }
    TurnsSum(run, d, |ops|);
    assert d[..|ops|] == d;
  }

  /**
   Whatever the locks do, the task at index `k` of the ready list runs from exactly the `k + 1`st
   call of schedule on.
   */
  lemma RunTurns(run: seq<Shot>, ops: seq<Op>, k: nat, t: nat)
    requires Run(run, ops) && Stands(run[0], ReadyList, k, t)
    ensures var turns := run[|ops|].turns - run[0].turns;
            && (turns <= k ==> Stands(run[|ops|], ReadyList, k - turns, t))
            && (ops != [] && run[|ops| - 1].turns < run[|ops|].turns && turns == k + 1 ==> run[|ops|].cur == t)
  {
    hide Good, Step, Moved, CallsOf;
    var ready, cur, d := Along(run, ReadyList), Currents(run), CallsOf(run);
    CallsSum(run, ops);
    ReadyThere(run, ops);
    if ops != [] {
      RunMoves(run, ops, |ops| - 1);
      OneCall(ready, cur, d, |ops| - 1);
    }
    assert cur[|ops|] == run[|ops|].cur;
    hide Currents;
    MovesAlong(run, ops, ready, cur, d);
    NoStarvation(ready, cur, d, k);
  }

  lemma MovesAlong(run: seq<Shot>, ops: seq<Op>, ready: seq<seq<nat>>, cur: seq<nat>, d: seq<nat>)
    requires Run(run, ops) && ready == Along(run, ReadyList) && cur == Currents(run) && d == CallsOf(run)
    ensures forall i :: 0 <= i < |d| ==> Moved(ready[i], ready[i + 1], cur[i + 1], d[i])
  {
    hide Good, Step, Moved, CallsOf, Currents;
    forall i | 0 <= i < |d| ensures Moved(ready[i], ready[i + 1], cur[i + 1], d[i]) {
      RunMoves(run, ops, i);
    }
  }

  lemma OneCall(ready: seq<seq<nat>>, cur: seq<nat>, d: seq<nat>, j: nat)
    requires |ready| == |cur| == |d| + 1 && j < |d| && Moved(ready[j], ready[j + 1], cur[j + 1], d[j])
    ensures d[j] <= 1
  {
  }
}

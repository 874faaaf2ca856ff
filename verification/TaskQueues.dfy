/**
 The lists of source/kernel/task/sche.c and of the mutexes and semaphores, as values: every task is on
 the list its `list` field names, with the state that goes with that list, or on none.
 */
module TaskQueues {
  import opened Sequences

  /** The list a task is on: none, the ready list, the sleep list, or the wait list of one lock or semaphore. */
  datatype QueueId = NoList | ReadyList | SleepList | WaitList(id: nat)

  datatype RunState = Running | Ready | Sleep | Waiting

  /** The part of task_t that scheduling uses. */
  datatype Task = Task(state: RunState, list: QueueId, sleepTicks: int)

  function StateFor(q: QueueId): RunState {
    match q
    case NoList => Running
    case ReadyList => Ready
    case SleepList => Sleep
    case WaitList(_) => Waiting
  }

  /** One list: its members are there once, and they say so themselves. */
  predicate Listed(tasks: map<nat, Task>, out: set<nat>, q: QueueId, s: seq<nat>) {
    NoDup(s) && forall t <- s :: t in tasks && t !in out && tasks[t].list == q
  }

  /** A task off the processor. */
  predicate Parked(queues: map<QueueId, seq<nat>>, task: Task, t: nat) {
    && task.list in queues && task.list != NoList && t in queues[task.list]
    && task.state == StateFor(task.list) && (task.state == Sleep ==> task.sleepTicks > 0)
  }

  /** All tasks but those in `out` are on exactly one list, the one they name, in the state that goes with it. */
  predicate Queued(tasks: map<nat, Task>, queues: map<QueueId, seq<nat>>, out: set<nat>) {
    && NoList !in queues && ReadyList in queues && SleepList in queues && out <= tasks.Keys
    && (forall q <- queues :: Listed(tasks, out, q, queues[q]))
    && (forall t <- tasks :: t !in out ==> Parked(queues, tasks[t], t))
  }

  /** A task that is on no list goes to the end of one. */
  lemma EnqueueKeeps(tasks: map<nat, Task>, queues: map<QueueId, seq<nat>>, out: set<nat>, t: nat, q: QueueId,
                     ticks: int)
    requires Queued(tasks, queues, out) && t in out && q in queues && (q == SleepList ==> ticks > 0)
    ensures Queued(tasks[t := Task(StateFor(q), q, ticks)], queues[q := queues[q] + [t]], out - {t})
  {
    var tasks', queues', out' := tasks[t := Task(StateFor(q), q, ticks)], queues[q := queues[q] + [t]], out - {t};
    forall p <- queues' ensures Listed(tasks', out', p, queues'[p]) {
      assert Listed(tasks, out, p, queues[p]);
    }
    forall u <- tasks' | u !in out' ensures Parked(queues', tasks'[u], u) {
      if u != t {
        assert Parked(queues, tasks[u], u);
      }
    }
  }

  /** Member `k` of a list leaves it. */
  function Without(s: seq<nat>, k: nat): seq<nat>
    requires k < |s|
  {
    s[..k] + s[k + 1..]
  }

  lemma WithoutKeeps(s: seq<nat>, k: nat)
    requires NoDup(s) && k < |s|
    ensures NoDup(Without(s, k)) && forall t :: t in Without(s, k) <==> t in s && t != s[k]
  {
    var w := Without(s, k);
    assert forall i :: 0 <= i < |w| ==> w[i] == if i < k then s[i] else s[i + 1];
    forall t ensures t in w <==> t in s && t != s[k] {
      if t in s && t != s[k] {
        var i :| 0 <= i < |s| && s[i] == t;
        assert if i < k then w[i] == t else w[i - 1] == t;
      }
    }
  }

  lemma DequeueKeeps(tasks: map<nat, Task>, queues: map<QueueId, seq<nat>>, out: set<nat>, q: QueueId, k: nat,
                     task: Task)
    requires Queued(tasks, queues, out) && q in queues && k < |queues[q]|
    ensures var t := queues[q][k];
            t in tasks && t !in out && Queued(tasks[t := task], queues[q := Without(queues[q], k)], out + {t})
  {
    var t := queues[q][k];
    var tasks', queues', out' := tasks[t := task], queues[q := Without(queues[q], k)], out + {t};
    assert Listed(tasks, out, q, queues[q]) && t in queues[q];
    WithoutKeeps(queues[q], k);
    forall p <- queues' ensures Listed(tasks', out', p, queues'[p]) {
      assert Listed(tasks, out, p, queues[p]);
    }
    forall u <- tasks' | u !in out' ensures Parked(queues', tasks'[u], u) {
      assert Parked(queues, tasks[u], u);
    }
  }

  /** The fields of a task that is on no list can change. */
  lemma OutKeeps(tasks: map<nat, Task>, queues: map<QueueId, seq<nat>>, out: set<nat>, t: nat, task: Task)
    requires Queued(tasks, queues, out) && t in out
    ensures Queued(tasks[t := task], queues, out)
  {
    forall p <- queues ensures Listed(tasks[t := task], out, p, queues[p]) {
      assert Listed(tasks, out, p, queues[p]);
    }
    forall u <- tasks[t := task] | u !in out ensures Parked(queues, tasks[t := task][u], u) {
      assert Parked(queues, tasks[u], u);
    }
  }

  lemma NewTask(tasks: map<nat, Task>, queues: map<QueueId, seq<nat>>, out: set<nat>, t: nat)
    requires Queued(tasks, queues, out) && t !in tasks
    ensures Queued(tasks[t := Task(Running, NoList, 0)], queues, out + {t})
  {
    var tasks' := tasks[t := Task(Running, NoList, 0)];
    forall p <- queues ensures Listed(tasks', out + {t}, p, queues[p]) {
      assert Listed(tasks, out, p, queues[p]);
    }
    forall u <- tasks' | u !in out + {t} ensures Parked(queues, tasks'[u], u) {
      assert Parked(queues, tasks[u], u);
    }
  }

  /** A sleeping task with more than one tick to go. */
  lemma TickKeeps(tasks: map<nat, Task>, queues: map<QueueId, seq<nat>>, out: set<nat>, t: nat)
    requires Queued(tasks, queues, out) && t in tasks && t !in out && tasks[t].sleepTicks > 1
    ensures Queued(tasks[t := tasks[t].(sleepTicks := tasks[t].sleepTicks - 1)], queues, out)
  {
    var tasks' := tasks[t := tasks[t].(sleepTicks := tasks[t].sleepTicks - 1)];
    forall p <- queues ensures Listed(tasks', out, p, queues[p]) {
      assert Listed(tasks, out, p, queues[p]);
    }
    forall u <- tasks' | u !in out ensures Parked(queues, tasks'[u], u) {
      assert Parked(queues, tasks[u], u);
    }
  }

  lemma SleeperTicks(tasks: map<nat, Task>, queues: map<QueueId, seq<nat>>, out: set<nat>, t: nat)
    requires Queued(tasks, queues, out) && t in queues[SleepList]
    ensures t in tasks && t !in out && tasks[t].state == Sleep && tasks[t].list == SleepList && tasks[t].sleepTicks > 0
  {
    assert Listed(tasks, out, SleepList, queues[SleepList]);
    assert Parked(queues, tasks[t], t);
  }

  // ---- runs ----

  /** The ticks left of every sleeping task. */
  ghost function Sleepers(tasks: map<nat, Task>, queues: map<QueueId, seq<nat>>): map<nat, int> {
    map t | SleepList in queues && t in queues[SleepList] && t in tasks :: tasks[t].sleepTicks
  }

  /** A clock tick takes one off each, waking those on their last; no other step wakes or delays anyone. */
  ghost predicate Napping(a: map<nat, int>, b: map<nat, int>, tick: bool) {
    if tick then (forall t <- a :: (t in b <==> a[t] > 1) && (a[t] > 1 ==> b[t] == a[t] - 1)) && forall t <- b :: t in a
    else forall t <- a :: t in b && b[t] == a[t]
  }

  /** How many of the steps are marked. */
  function Count(marks: seq<bool>): nat {
    if marks == [] then 0 else Count(marks[..|marks| - 1]) + if marks[|marks| - 1] then 1 else 0
  }

  /** A task asleep for `n` ticks is still asleep before the `n`th tick, and it wakes on exactly that tick. */
  lemma {:induction false} WakesOnTime(run: seq<map<nat, int>>, ticks: seq<bool>, t: nat, n: int)
    requires |run| == |ticks| + 1 && forall i :: 0 <= i < |ticks| ==> Napping(run[i], run[i + 1], ticks[i])
    requires t in run[0] && run[0][t] == n > 0
    ensures Count(ticks) < n ==> t in run[|ticks|] && run[|ticks|][t] == n - Count(ticks)
    ensures ticks != [] && ticks[|ticks| - 1] && Count(ticks) == n ==> t !in run[|ticks|]
  {
    if ticks != [] {
      var m := |ticks| - 1;
      WakesOnTime(run[..m + 1], ticks[..m], t, n);
      assert Napping(run[m], run[m + 1], ticks[m]);
    }
  }

  /** What a step with `d` calls of schedule, at most one, does to the ready list and the current task. */
  ghost predicate Moved(ready: seq<nat>, ready': seq<nat>, cur': nat, d: nat) {
    && d <= 1 && (d == 0 ==> ready <= ready')
    && (d == 1 && ready != [] ==> cur' == ready[0] && ready[1..] <= ready')
  }

  /** Tasks made ready first only stand further back. */
  lemma GrownThenMoved(ready: seq<nat>, ready1: seq<nat>, ready2: seq<nat>, cur: nat)
    requires ready <= ready1 && Moved(ready1, ready2, cur, 1)
    ensures Moved(ready, ready2, cur, 1)
  {
    if ready != [] {
      assert ready1[1..][..|ready| - 1] == ready[1..];
    }
  }

  function Sum(d: seq<nat>): nat {
    if d == [] then 0 else Sum(d[..|d| - 1]) + d[|d| - 1]
  }

  /** No starvation: the task at index `k` of the ready list runs from exactly the `k + 1`st call of schedule on. */
  lemma {:induction false} NoStarvation(ready: seq<seq<nat>>, cur: seq<nat>, d: seq<nat>, k: nat)
    requires |ready| == |cur| == |d| + 1 && k < |ready[0]|
    requires forall i :: 0 <= i < |d| ==> Moved(ready[i], ready[i + 1], cur[i + 1], d[i])
    ensures Sum(d) <= k ==> k - Sum(d) < |ready[|d|]| && ready[|d|][k - Sum(d)] == ready[0][k]
    ensures d != [] && d[|d| - 1] == 1 && Sum(d) == k + 1 ==> cur[|d|] == ready[0][k]
  {
    if d != [] {
      var m := |d| - 1;
      NoStarvation(ready[..m + 1], cur[..m + 1], d[..m], k);
      assert Moved(ready[m], ready[m + 1], cur[m + 1], d[m]);
    }
  }

  /** A step hands the lock on to the first in the queue, if there is one, or at most lengthens the queue. */
  predicate Shifted(q: seq<nat>, q': seq<nat>, handed: bool) {
    if handed && q != [] then q' == q[1..] else q <= q'
  }

  /** First come, first served: the task at index `k` is the first in the queue at exactly the `k + 1`st handing on. */
  lemma {:induction false} FirstComeFirst(queues: seq<seq<nat>>, handed: seq<bool>, k: nat)
    requires |queues| == |handed| + 1 && k < |queues[0]|
    requires forall i :: 0 <= i < |handed| ==> Shifted(queues[i], queues[i + 1], handed[i])
    ensures Count(handed) <= k ==>
      k - Count(handed) < |queues[|handed|]| && queues[|handed|][k - Count(handed)] == queues[0][k]
    ensures handed != [] && handed[|handed| - 1] && Count(handed) == k + 1 ==>
      queues[|handed| - 1] != [] && queues[|handed| - 1][0] == queues[0][k]
  {
    if handed != [] {
      var m := |handed| - 1;
      FirstComeFirst(queues[..m + 1], handed[..m], k);
      assert Shifted(queues[m], queues[m + 1], handed[m]);
    }
  }

  lemma NotAsleep(tasks: map<nat, Task>, queues: map<QueueId, seq<nat>>, out: set<nat>, t: nat)
    requires Queued(tasks, queues, out) && t in out
    ensures t !in Sleepers(tasks, queues)
  {
    assert Listed(tasks, out, SleepList, queues[SleepList]);
  }

  lemma WaiterAwake(tasks: map<nat, Task>, queues: map<QueueId, seq<nat>>, out: set<nat>, id: nat, t: nat)
    requires Queued(tasks, queues, out) && WaitList(id) in queues && t in queues[WaitList(id)]
    ensures t !in Sleepers(tasks, queues) && t !in out
  {
    assert Listed(tasks, out, SleepList, queues[SleepList]) && Listed(tasks, out, WaitList(id), queues[WaitList(id)]);
  }

  /**
   How far clock_sleep_check has come: the first `i` sleepers are counted down, the others not yet,
   the rest woken.
   */
  ghost predicate CountedDown(tasks: map<nat, Task>, s: seq<nat>, a: map<nat, int>, i: nat) {
    && i <= |s| && (forall j :: 0 <= j < |s| ==> s[j] in a && s[j] in tasks)
    && (forall j :: 0 <= j < i ==> tasks[s[j]].sleepTicks == a[s[j]] - 1 > 0)
    && (forall j :: i <= j < |s| ==> tasks[s[j]].sleepTicks == a[s[j]])
    && (forall t <- a :: t !in s ==> a[t] == 1)
  }

  lemma SleepersOnce(tasks: map<nat, Task>, queues: map<QueueId, seq<nat>>, out: set<nat>)
    requires Queued(tasks, queues, out)
    ensures NoDup(queues[SleepList])
  {
    assert Listed(tasks, out, SleepList, queues[SleepList]);
  }

  lemma CountStart(tasks: map<nat, Task>, queues: map<QueueId, seq<nat>>, out: set<nat>)
    requires Queued(tasks, queues, out)
    ensures CountedDown(tasks, queues[SleepList], Sleepers(tasks, queues), 0)
  {
    assert Listed(tasks, out, SleepList, queues[SleepList]);
  }

  lemma CountStep(tasks: map<nat, Task>, s: seq<nat>, a: map<nat, int>, i: nat)
    requires CountedDown(tasks, s, a, i) && i < |s| && NoDup(s) && tasks[s[i]].sleepTicks > 1
    ensures CountedDown(tasks[s[i] := tasks[s[i]].(sleepTicks := tasks[s[i]].sleepTicks - 1)], s, a, i + 1)
  {
  }

  lemma CountWake(tasks: map<nat, Task>, s: seq<nat>, a: map<nat, int>, i: nat)
    requires CountedDown(tasks, s, a, i) && i < |s| && NoDup(s) && tasks[s[i]].sleepTicks == 1
    ensures CountedDown(tasks, Without(s, i), a, i) && s[i] !in Without(s, i)
  {
    WithoutKeeps(s, i);
    var w := Without(s, i);
    assert forall j :: 0 <= j < |w| ==> w[j] == if j < i then s[j] else s[j + 1];
  }

  lemma CountSame(ts: map<nat, Task>, tasks: map<nat, Task>, s: seq<nat>, a: map<nat, int>, i: nat)
    requires CountedDown(ts, s, a, i) && ts.Keys == tasks.Keys
    requires forall t <- s :: t in tasks && t in ts && tasks[t] == ts[t]
    ensures CountedDown(tasks, s, a, i)
  {
    assert forall j :: 0 <= j < |s| ==> s[j] in s;
  }

  lemma CountDone(tasks: map<nat, Task>, queues: map<QueueId, seq<nat>>, a: map<nat, int>)
    requires SleepList in queues && CountedDown(tasks, queues[SleepList], a, |queues[SleepList]|)
    ensures Napping(a, Sleepers(tasks, queues), true)
  {
    var s, b := queues[SleepList], Sleepers(tasks, queues);
    forall t <- a ensures (t in b <==> a[t] > 1) && (a[t] > 1 ==> b[t] == a[t] - 1) {
      if t in s {
        var j :| 0 <= j < |s| && s[j] == t;
      }
    }
  }
}

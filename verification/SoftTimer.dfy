/**
 source/kernel/net/net_tools/soft_timer.c: the list of timers.  A handler is modelled by its being
 called: `fired` lists the timers whose handlers a scan has called, in order.
 */
module SoftTimer {
  import opened DeltaList

  class Timer {
    var cur: int
    var reload: nat
    var periodic: bool

    constructor ()
    {
      cur, reload, periodic := 0, 0, false;
    }
  }

  class TimerList {
    var list: seq<Timer>
    ghost var slots: seq<Slot<Timer>>   // the list as a value
    ghost var pool: set<Timer>          // every timer that has been on the list

    ghost predicate Valid()
      reads this, pool
    {
      && Unique(slots) && |slots| == |list| && (forall k :: 0 <= k < |list| ==> list[k] in pool)
      && forall k :: 0 <= k < |list| ==> slots[k].timer == list[k] && slots[k].delta == list[k].cur
    }

    /** Time left by timer. */
    ghost function Left(): map<Timer, nat>
      reads this
    {
      View(slots)
    }

    constructor ()
      ensures Valid() && Left() == map[] && slots == [] && pool == {}
    {
      list, slots, pool := [], [], {};
    }

    /** The search of insert_soft_timer: the first timer not due before `r`, and when the ones before it are due. */
    method FindPlace(ghost t: Timer, r: nat) returns (k: nat, sum: nat)
      requires Valid()
      ensures k <= |list| && sum <= r && (k < |list| ==> r <= sum + slots[k].delta)
      ensures Inserted(slots, t, r) == slots[..k] + Inserted(slots[k..], t, r - sum)
    {
      hide Inserted, Unique, View;
      k, sum := 0, 0;
      assert slots[..0] == [] && slots[0..] == slots;
      while k < |list|
        invariant k <= |list| && sum <= r
        invariant Inserted(slots, t, r) == slots[..k] + Inserted(slots[k..], t, r - sum)
      {
        assert slots[k].delta == list[k].cur;
        if r <= sum + list[k].cur {
          return;
        }
        InsertedPast(slots, t, r, k, sum);
        sum := sum + list[k].cur;
        k := k + 1;
      }
    }

    /** `t` right behind timer `k`, due at the same time. */
    method PutBehind(t: Timer, k: nat)
      requires Valid() && t !in list && t in pool && k < |list|
      requires Unique(slots[..k] + ([slots[k], Slot(t, 0)] + slots[k + 1..]))
      modifies `list, `slots, t`cur
      ensures Valid() && slots == old(slots)[..k] + ([old(slots)[k], Slot(t, 0)] + old(slots)[k + 1..])
      ensures list == old(list)[..k] + ([old(list)[k], t] + old(list)[k + 1..])
    {
      hide Unique;
      t.cur := 0;
      slots := slots[..k] + ([slots[k], Slot(t, 0)] + slots[k + 1..]);
      list := list[..k] + ([list[k], t] + list[k + 1..]);
    }

    /**
     `t` right before timer `c`, the `k`th, whose delta shrinks by that of `t`; `sum` is when the
     timers before are due.
     */
    method PutBefore(t: Timer, c: Timer, k: nat, sum: nat)
      requires Valid() && t !in list && t in pool && k < |list| && c == list[k] && sum <= t.cur <= sum + c.cur
      requires Unique(slots[..k] + ([Slot(t, t.cur - sum), Slot(c, c.cur - (t.cur - sum))] + slots[k + 1..]))
      modifies `list, `slots, t`cur, c`cur
      ensures Valid()
      ensures slots == old(slots)[..k] + ([Slot(t, old(t.cur) - sum),
          Slot(c, old(slots)[k].delta - (old(t.cur) - sum))] + old(slots)[k + 1..])
      ensures list == old(list)[..k] + ([t, c] + old(list)[k + 1..])
    {
      assert forall j :: 0 <= j < |list| && j != k ==> list[j] != c by {
        assert forall i: nat, j: nat :: i < j < |list| ==> slots[i].timer != slots[j].timer;
      }
      hide Unique;
      t.cur := t.cur - sum;
      c.cur := c.cur - t.cur;
      slots := slots[..k] + ([Slot(t, t.cur), Slot(c, c.cur)] + slots[k + 1..]);
      list := list[..k] + ([t, c] + list[k + 1..]);
    }

    /** insert_soft_timer */
    method Insert(t: Timer)
      requires Valid() && t !in list && t in pool && t.cur == t.reload
      modifies `list, `slots, pool
      ensures Valid() && slots == Inserted(old(slots), t, t.reload)
      ensures forall u <- pool :: u.reload == old(u.reload) && u.periodic == old(u.periodic)
    {
      hide Inserted, View;
      NotListed(t);
      InsertedUnique(slots, t, t.reload);
      var k, sum := FindPlace(t, t.reload);
      if k < |list| {
        InsertedHere(slots, t, t.reload, k, sum);
        if t.reload == sum + list[k].cur {
          PutBehind(t, k);
        } else {
          PutBefore(t, list[k], k, sum);
        }
      } else {
        InsertedLast(slots, t, t.reload, k, sum);
        t.cur := t.cur - sum;
        slots := slots + [Slot(t, t.cur)];
        list := list + [t];
      }
    }

    lemma NotListed(t: Timer)
      requires Valid()
      ensures Has(slots, t) <==> t in list
    {
    }

    /** soft_timer_add: the timer has exactly `ms` left and no other has changed. */
    method Add(t: Timer, periodic: bool, ms: nat)
      requires Valid() && t !in list
      modifies this, t, pool
      ensures Valid() && Left() == old(Left())[t := ms] && slots == Inserted(old(slots), t, ms)
      ensures pool == old(pool) + {t} && t.reload == ms && t.periodic == periodic
      ensures forall u <- pool :: u != t ==> u.reload == old(u.reload) && u.periodic == old(u.periodic)
    {
      t.periodic := periodic;
      t.reload, t.cur := ms, ms;
      pool := pool + {t};
      NotListed(t);
      InsertedView(slots, t, ms);
      Insert(t);
    }

    /** soft_timer_remove: no other timer has changed. */
    method Remove(t: Timer)
      requires Valid() && t in list
      modifies `list, `slots, pool
      ensures Valid() && slots == Removed(old(slots), t) && Left() == old(Left()) - {t} && t !in list
      ensures forall u <- pool :: u.reload == old(u.reload) && u.periodic == old(u.periodic)
    {
      RemovedView(slots, t);
      hide View, Removed, Unique;
      var k :| 0 <= k < |list| && list[k] == t;
      CutOut(t, k);
    }

    /** Timer `k` leaves the list. */
    method CutOut(t: Timer, k: nat)
      requires Valid() && k < |list| && list[k] == t
      modifies `list, `slots, pool
      ensures Valid() && slots == Removed(old(slots), t) && t !in list
      ensures forall u <- pool :: u.reload == old(u.reload) && u.periodic == old(u.periodic)
    {
      hide View, Removed;
      RemovedAt(slots, t, k);
      if k + 1 < |list| {
        CutBefore(t, list[k + 1], k);
      } else {
        RemovedUnique(slots, k, 0);
        slots := slots[..k];
        list := list[..k];
      }
    }

    /** Timer `k` out, the next one, `next`, taking over its delta. */
    method CutBefore(t: Timer, next: Timer, k: nat)
      requires Valid() && k + 1 < |list| && t == list[k] && next == list[k + 1]
      modifies `list, `slots, next`cur
      ensures Valid() && t !in list && list == old(list)[..k] + ([next] + old(list)[k + 2..])
      ensures slots == old(slots)[..k] + ([Slot(next, old(slots)[k + 1].delta + old(slots)[k].delta)] +
        old(slots)[k + 2..])
    {
      assert forall j :: 0 <= j < |list| && j != k + 1 ==> list[j] != next by {
        assert forall i: nat, j: nat :: i < j < |list| ==> slots[i].timer != slots[j].timer;
      }
      assert forall j :: 0 <= j < |list| && j != k ==> list[j] != t by {
        assert forall i: nat, j: nat :: i < j < |list| ==> slots[i].timer != slots[j].timer;
      }
      RemovedUnique(slots, k, next.cur + t.cur);
      hide Unique;
      next.cur := next.cur + t.cur;
      slots := slots[..k] + ([Slot(next, next.cur)] + slots[k + 2..]);
      list := list[..k] + ([next] + list[k + 2..]);
    }

    /** The first loop of soft_timer_scan_list: the timers due leave the list. */
    method TakeDue(diff: nat) returns (done: seq<Timer>)
      requires Valid()
      modifies `list, `slots, pool
      ensures Valid() && slots == Rest(old(slots), diff) && done == Due(old(slots), diff)
      ensures forall t <- pool :: t.reload == old(t.reload) && t.periodic == old(t.periodic)
      ensures forall t <- done :: t in pool
    {
      done := [];
      var d: int := diff;
      while list != []
        invariant Valid() && 0 <= d
        invariant Rest(old(slots), diff) == Rest(slots, d) && Due(old(slots), diff) == done + Due(slots, d)
        invariant forall t <- pool :: t.reload == old(t.reload) && t.periodic == old(t.periodic)
        invariant forall t <- done :: t in pool
        decreases |list|
      {
        var c := list[0];
        if c.cur > d {
          c.cur := c.cur - d;
          slots := [Slot(c, c.cur)] + slots[1..];
          return;
        }
        d := d - c.cur;
        slots := slots[1..];
        c.cur := 0;
        list := list[1..];
        done := done + [c];
      }
    }

    /**
     soft_timer_scan_list: exactly the timers with no more than `diff` left are fired, once each and in
     the order of their deadlines; the others come `diff` closer, and the periodic timers that have
     fired are put back in that order, their whole periods before them.
     */
    method Scan(diff: nat) returns (fired: seq<Timer>)
      requires Valid()
      modifies `list, `slots, pool
      ensures Valid() && fired == Due(old(slots), diff)
      ensures forall t <- pool :: t.reload == old(t.reload) && t.periodic == old(t.periodic)
      ensures slots == Rearmed(Rest(old(slots), diff), Alarms(fired))
      ensures (forall t <- fired :: !t.periodic) ==> slots == Rest(old(slots), diff)
      ensures forall t <- fired :: t in old(Left()) && old(Left())[t] <= diff
      ensures forall t <- old(Left()) :: t in fired <==> old(Left())[t] <= diff
      ensures InOrder(fired, old(Left()))
      ensures forall t <- Left() :: t in Sooner(old(Left()), diff) || (t in fired && t.periodic)
      ensures forall t <- Sooner(old(Left()), diff) :: t in Left() && Left()[t] == Sooner(old(Left()), diff)[t]
      ensures forall t <- fired :: t.periodic ==> t in Left() && Left()[t] == t.reload
    {
      DueView(slots, diff);
      RestView(slots, diff);
      hide View, Rest, Due, Unique, Inserted, Rearmed;
      fired := TakeDue(diff);
      RearmAll(fired);
      if forall t <- fired :: !t.periodic {
        OneShots(Rest(old(slots), diff), Alarms(fired));
      }
    }

    /** The timers of `q` and what they are set to. */
    static ghost function Alarms(q: seq<Timer>): (r: seq<Alarm<Timer>>)
      reads q
      ensures |r| == |q| && forall k :: 0 <= k < |q| ==> r[k] == Alarm(q[k], q[k].periodic, q[k].reload)
    {
      seq(|q|, k requires 0 <= k < |q| reads q => Alarm(q[k], q[k].periodic, q[k].reload))
    }

    /** The second loop of soft_timer_scan_list. */
    method RearmAll(fired: seq<Timer>)
      requires Valid() && (forall t <- fired :: t !in Left() && t in pool)
      requires forall i, j :: 0 <= i < j < |fired| ==> fired[i] != fired[j]
      modifies `list, `slots, pool
      ensures Valid() && slots == Rearmed(old(slots), Alarms(fired))
      ensures forall t <- pool :: t.reload == old(t.reload) && t.periodic == old(t.periodic)
      ensures forall t <- Left() :: t in old(Left()) || (t in fired && t.periodic)
      ensures forall t <- old(Left()) :: t in Left() && Left()[t] == old(Left())[t]
      ensures forall t <- fired :: t.periodic ==> t in Left() && Left()[t] == t.reload
    {
      hide View, Unique, Inserted, Rearmed;
      ghost var q := Alarms(fired);
      assert Rearmed(slots, q[..0]) == slots by { OneShots(slots, q[..0]); }
      var k := 0;
      while k < |fired|
        invariant 0 <= k <= |fired| && Valid() && slots == Rearmed(old(slots), q[..k])
        invariant forall t <- pool :: t.reload == old(t.reload) && t.periodic == old(t.periodic)
        invariant forall t <- Left() :: t in old(Left()) || (t in fired[..k] && t.periodic)
        invariant forall t <- old(Left()) :: t in Left() && Left()[t] == old(Left())[t]
        invariant forall t <- fired[..k] :: t.periodic ==> t in Left() && Left()[t] == t.reload
      {
        var t := fired[k];
        assert fired[..k + 1] == fired[..k] + [t] && t in fired && t !in fired[..k];
        assert forall u: Timer :: u in fired[..k + 1] <==> u in fired[..k] || u == t;
        assert forall u <- fired[..k] :: u in pool;
        RearmedMore(old(slots), q, k);
        if t.periodic {
          Rearm(t);
        }
        k := k + 1;
      }
      assert fired[..k] == fired && q[..k] == q;
      assert forall i :: 0 <= i < |fired| ==> fired[i] in pool;
      assert Alarms(fired) == q;
    }

    lemma Listed()
      requires Valid()
      ensures forall t: Timer :: t in Left() <==> t in list
    {
      ViewHas(slots);
      forall t: Timer ensures t in Left() <==> t in list {
        NotListed(t);
      }
    }

    /** A periodic timer is set again. */
    method Rearm(t: Timer)
      requires Valid() && t !in Left() && t in pool
      modifies `list, `slots, pool
      ensures Valid() && Left() == old(Left())[t := t.reload] && slots == Inserted(old(slots), t, t.reload)
      ensures forall u <- pool :: u.reload == old(u.reload) && u.periodic == old(u.periodic)
    {
      Listed();
      NotListed(t);
      t.cur := t.reload;
      InsertedView(slots, t, t.reload);
      Insert(t);
    }
  }

  /**
   A periodic timer and one for once, both due: they fire in the order they were due, the first is set
   again, and the second has gone.
   */
  method OneOfEach(t: Timer, u: Timer, ms: nat, more: nat) returns (l: TimerList, fired: seq<Timer>)
    requires t != u && more > 0
    modifies t, u
    ensures l.Valid() && l.Left() == map[t := ms] && fired == [t, u]
  {
    hide TimerList.Valid, TimerList.Left, Inserted, Rest, Due, Rearmed, InOrder;
    l := new TimerList();
    EmptyList(l);
    l.Add(u, false, ms + more);
    Listing(l, t);
    l.Add(t, true, ms);
    ghost var m := l.Left();
    fired := l.Scan(ms + more);
    TwoInOrder(fired, m, t, u);
    assert Sooner(m, ms + more) == map[];
    assert l.Left().Keys == {t};
  }

  lemma EmptyList(l: TimerList)
    requires l.Valid() && l.slots == []
    ensures l.list == []
  {
  }

  lemma Listing(l: TimerList, t: Timer)
    requires l.Valid() && t !in l.Left()
    ensures t !in l.list
  {
    l.Listed();
  }

  lemma TwoInOrder<T>(q: seq<T>, m: map<T, nat>, t: T, u: T)
    requires InOrder(q, m) && t in m && u in m && m[t] < m[u] && m.Keys == {t, u} && t in q && u in q
    ensures q == [t, u]
  {
    var i :| 0 <= i < |q| && q[i] == t;
    var j :| 0 <= j < |q| && q[j] == u;
    if |q| > 2 {
      OneOfTwo(q, m, i, j, if i != 0 && j != 0 then 0 else if i != 1 && j != 1 then 1 else 2);
    }
  }

  lemma OneOfTwo<T>(q: seq<T>, m: map<T, nat>, i: nat, j: nat, k: nat)
    requires InOrder(q, m) && i < |q| && j < |q| && i != j && k < |q| && m.Keys == {q[i], q[j]}
    ensures k == i || k == j
  {
    assert q[k] in m.Keys;
  }
}

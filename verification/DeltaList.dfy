/**
 A list of timers by deadline, each with the time left after the one before it, and what it stands
 for: a map from timer to time left (source/kernel/net/net_tools/soft_timer.c).
 */
module DeltaList {

  datatype Slot<T> = Slot(timer: T, delta: nat)

  predicate Has<T(==)>(s: seq<Slot<T>>, t: T) {
    exists k :: 0 <= k < |s| && s[k].timer == t
  }

  predicate Unique<T(==)>(s: seq<Slot<T>>) {
    forall i, j :: 0 <= i < j < |s| ==> s[i].timer != s[j].timer
  }

  function Later<T>(m: map<T, nat>, d: nat): map<T, nat> {
    map t | t in m :: m[t] + d
  }

  /** The time left of every timer: the sum of the deltas up to it. */
  function View<T>(s: seq<Slot<T>>): map<T, nat> {
    if s == [] then map[] else Later(View(s[1..]), s[0].delta)[s[0].timer := s[0].delta]
  }

  /** One timer's part of the view. */
  lemma ViewAt<T>(s: seq<Slot<T>>, t: T)
    requires s != []
    ensures t in View(s) <==> t == s[0].timer || t in View(s[1..])
    ensures t in View(s) ==> View(s)[t] == if t == s[0].timer then s[0].delta else View(s[1..])[t] + s[0].delta
  {
  }

  lemma SameMap<T>(m: map<T, nat>, n: map<T, nat>)
    requires forall t :: t in m <==> t in n
    requires forall t :: t in m && t in n ==> m[t] == n[t]
    ensures m == n
  {
  }

  lemma {:induction false} ViewHas<T>(s: seq<Slot<T>>)
    ensures forall t :: t in View(s) <==> Has(s, t)
  {
    if s != [] {
      ViewHas(s[1..]);
      forall t ensures Has(s, t) <==> t == s[0].timer || Has(s[1..], t) {
        if Has(s, t) {
          var k :| 0 <= k < |s| && s[k].timer == t;
          assert k > 0 ==> s[1..][k - 1].timer == t;
        }
        if Has(s[1..], t) {
          var k :| 0 <= k < |s| - 1 && s[1..][k].timer == t;
          assert s[k + 1].timer == t;
        }
        assert t == s[0].timer ==> Has(s, t);
      }
    }
  }

  lemma UniqueTail<T>(s: seq<Slot<T>>)
    requires Unique(s) && s != []
    ensures Unique(s[1..]) && !Has(s[1..], s[0].timer)
  {
    forall k | 0 <= k < |s| - 1 ensures s[1..][k] == s[k + 1] {
    }
  }

  // ---- insert_soft_timer ----

  /** `t` to go off after `r`: behind the first timer of the same deadline, else before the first later one. */
  function Inserted<T>(s: seq<Slot<T>>, t: T, r: nat): seq<Slot<T>> {
    if s == [] then [Slot(t, r)]
    else if r > s[0].delta then [s[0]] + Inserted(s[1..], t, r - s[0].delta)
    else if r == s[0].delta then [s[0], Slot(t, 0)] + s[1..]
    else [Slot(t, r), Slot(s[0].timer, s[0].delta - r)] + s[1..]
  }

  /** Past a timer with an earlier deadline, the delta of what is left to wait shrinks by its delta. */
  lemma InsertedPast<T>(s: seq<Slot<T>>, t: T, r: nat, k: nat, sum: nat)
    requires k < |s| && r > sum + s[k].delta && Inserted(s, t, r) == s[..k] + Inserted(s[k..], t, r - sum)
    ensures Inserted(s, t, r) == s[..k + 1] + Inserted(s[k + 1..], t, r - (sum + s[k].delta))
  {
    assert s[k..][0] == s[k] && s[k..][1..] == s[k + 1..];
    assert Inserted(s[k..], t, r - sum) == [s[k]] + Inserted(s[k + 1..], t, r - sum - s[k].delta);
    assert s[..k] + [s[k]] == s[..k + 1];
    Assoc(s[..k], [s[k]], Inserted(s[k + 1..], t, r - sum - s[k].delta));
  }

  lemma Assoc<T>(a: seq<T>, b: seq<T>, c: seq<T>)
    ensures a + (b + c) == a + b + c
  {
  }

  /** Where the search stops. */
  lemma InsertedHere<T>(s: seq<Slot<T>>, t: T, r: nat, k: nat, sum: nat)
    requires k < |s| && sum <= r <= sum + s[k].delta && Inserted(s, t, r) == s[..k] + Inserted(s[k..], t, r - sum)
    ensures r == sum + s[k].delta ==> Inserted(s, t, r) == s[..k] + ([s[k], Slot(t, 0)] + s[k + 1..])
    ensures r < sum + s[k].delta ==>
      Inserted(s, t, r) == s[..k] + ([Slot(t, r - sum), Slot(s[k].timer, s[k].delta - (r - sum))] + s[k + 1..])
  {
    assert s[k..][0] == s[k] && s[k..][1..] == s[k + 1..];
  }

  lemma InsertedLast<T>(s: seq<Slot<T>>, t: T, r: nat, k: nat, sum: nat)
    requires k == |s| && sum <= r && Inserted(s, t, r) == s[..k] + Inserted(s[k..], t, r - sum)
    ensures Inserted(s, t, r) == s + [Slot(t, r - sum)]
  {
    assert s[..k] == s && s[k..] == [];
  }

  /** The new timer has exactly `r` left, and no other timer has changed. */
  lemma {:induction false} InsertedView<T>(s: seq<Slot<T>>, t: T, r: nat)
    requires !Has(s, t)
    ensures View(Inserted(s, t, r)) == View(s)[t := r]
  {
    var n := Inserted(s, t, r);
    if s == [] {
      assert n[1..] == [];
    } else {
      assert s[0].timer != t;
      forall k | 0 <= k < |s| - 1 ensures s[1..][k].timer != t {
        assert s[1..][k] == s[k + 1];
      }
      ViewHas(s[1..]);
      assert t !in View(s[1..]);
      if r > s[0].delta {
        InsertedView(s[1..], t, r - s[0].delta);
        assert n[1..] == Inserted(s[1..], t, r - s[0].delta);
      } else {
        assert n[1..][1..] == s[1..];
      }
      hide View;
      var m := View(s)[t := r];
      forall u ensures u in View(n) <==> u in m
               ensures u in View(n) && u in m ==> View(n)[u] == m[u] {
        ViewAt(n, u);
        ViewAt(s, u);
        if r <= s[0].delta {
          assert n[1..][0] == n[1];
          ViewAt(n[1..], u);
        }
      }
      SameMap(View(n), m);
    }
  }

  lemma {:induction false} InsertedUnique<T>(s: seq<Slot<T>>, t: T, r: nat)
    requires Unique(s) && !Has(s, t)
    ensures Unique(Inserted(s, t, r)) && forall u :: Has(Inserted(s, t, r), u) <==> Has(s, u) || u == t
    ensures |Inserted(s, t, r)| == |s| + 1
  {
    var n := Inserted(s, t, r);
    InsertedView(s, t, r);
    ViewHas(n);
    ViewHas(s);
    if s != [] {
      UniqueTail(s);
      forall k | 0 <= k < |s| - 1 ensures s[1..][k].timer != t {
        assert s[1..][k] == s[k + 1];
      }
      if r > s[0].delta {
        InsertedUnique(s[1..], t, r - s[0].delta);
        var m := Inserted(s[1..], t, r - s[0].delta);
        assert forall k :: 0 < k < |n| ==> n[k] == m[k - 1];
      } else {
        assert forall k :: 2 <= k < |n| ==> n[k] == s[k - 1];
      }
    }
  }

  // ---- soft_timer_remove ----

  /** Without `t`, the next timer taking over its delta. */
  function Removed<T(==)>(s: seq<Slot<T>>, t: T): seq<Slot<T>> {
    if s == [] then []
    else if s[0].timer != t then [s[0]] + Removed(s[1..], t)
    else if |s| == 1 then []
    else [Slot(s[1].timer, s[1].delta + s[0].delta)] + s[2..]
  }

  lemma {:induction false} RemovedAt<T>(s: seq<Slot<T>>, t: T, k: nat)
    requires Unique(s) && k < |s| && s[k].timer == t
    ensures Removed(s, t) ==
      s[..k] + if k + 1 < |s| then [Slot(s[k + 1].timer, s[k + 1].delta + s[k].delta)] + s[k + 2..] else []
  {
    if k > 0 {
      var r := s[1..];
      assert forall i :: 0 <= i < |r| ==> r[i] == s[i + 1];
      RemovedAt(r, t, k - 1);
      assert s[..k] == [s[0]] + r[..k - 1];
      if k + 1 < |s| { assert r[k + 1..] == s[k + 2..]; }
    }
  }

  lemma RemovedUnique<T>(s: seq<Slot<T>>, k: nat, d: nat)
    requires Unique(s) && k < |s|
    ensures k + 1 == |s| ==> Unique(s[..k])
    ensures k + 1 < |s| ==> Unique(s[..k] + ([Slot(s[k + 1].timer, d)] + s[k + 2..]))
  {
  }

  lemma {:induction false} RemovedView<T>(s: seq<Slot<T>>, t: T)
    requires Unique(s)
    ensures View(Removed(s, t)) == View(s) - {t}
  {
    if s != [] {
      UniqueTail(s);
      ViewHas(s[1..]);
      var n := Removed(s, t);
      if s[0].timer != t {
        RemovedView(s[1..], t);
        assert n[1..] == Removed(s[1..], t);
      } else if |s| > 1 {
        assert n[1..] == s[1..][1..];
      }
      if n != [] {
        hide View;
        forall u ensures u in View(n) <==> u in View(s) - {t}
                 ensures u in View(n) ==> u in View(s) && View(n)[u] == View(s)[u] {
          ViewAt(n, u);
          ViewAt(s, u);
          if s[0].timer == t { ViewAt(s[1..], u); }
        }
        SameMap(View(n), View(s) - {t});
      } else {
        assert |s| == 1 && s[1..] == [];
      }
    }
  }

  // ---- soft_timer_scan_list ----

  function Sooner<T>(m: map<T, nat>, d: nat): map<T, nat> {
    map t | t in m && m[t] > d :: m[t] - d
  }

  /** What is left after `d`: the timers not due, the first of them that much closer. */
  function Rest<T>(s: seq<Slot<T>>, d: nat): seq<Slot<T>> {
    if s == [] then []
    else if s[0].delta > d then [Slot(s[0].timer, s[0].delta - d)] + s[1..]
    else Rest(s[1..], d - s[0].delta)
  }

  /** The timers due within `d`, in the order they go off. */
  function Due<T>(s: seq<Slot<T>>, d: nat): seq<T> {
    if s == [] || s[0].delta > d then [] else [s[0].timer] + Due(s[1..], d - s[0].delta)
  }

  /** A timer that has gone off, and what it is set to again if it is periodic. */
  datatype Alarm<T> = Alarm(timer: T, periodic: bool, reload: nat)

  /** The list once the periodic timers among `q` have been set again, one after the other. */
  function Rearmed<T>(s: seq<Slot<T>>, q: seq<Alarm<T>>): seq<Slot<T>> {
    if q == [] then s
    else
      var last, before := q[|q| - 1], Rearmed(s, q[..|q| - 1]);
      if last.periodic then Inserted(before, last.timer, last.reload) else before
  }

  lemma RearmedMore<T>(s: seq<Slot<T>>, q: seq<Alarm<T>>, k: nat)
    requires k < |q|
    ensures var before := Rearmed(s, q[..k]);
            Rearmed(s, q[..k + 1]) == if q[k].periodic then Inserted(before, q[k].timer, q[k].reload) else before
  {
    assert q[..k + 1][..k] == q[..k];
  }

  lemma {:induction false} OneShots<T>(s: seq<Slot<T>>, q: seq<Alarm<T>>)
    requires forall a <- q :: !a.periodic
    ensures Rearmed(s, q) == s
  {
    if q != [] {
      OneShots(s, q[..|q| - 1]);
    }
  }

  lemma {:induction false} RestView<T>(s: seq<Slot<T>>, d: nat)
    requires Unique(s)
    ensures View(Rest(s, d)) == Sooner(View(s), d)
  {
    if s != [] {
      UniqueTail(s);
      ViewHas(s[1..]);
      var n := Rest(s, d);
      if s[0].delta > d {
        assert n[1..] == s[1..];
      } else {
        RestView(s[1..], d - s[0].delta);
      }
      hide View;
      forall u ensures u in View(n) <==> u in Sooner(View(s), d)
               ensures u in View(n) ==> View(n)[u] == Sooner(View(s), d)[u] {
        ViewAt(s, u);
        if s[0].delta > d { ViewAt(n, u); }
      }
      SameMap(View(n), Sooner(View(s), d));
    }
  }

  /** No timer twice, and none after one with more time left. */
  predicate InOrder<T(==)>(q: seq<T>, m: map<T, nat>) {
    forall i, j :: 0 <= i < j < |q| ==> q[i] != q[j] && q[i] in m && q[j] in m && m[q[i]] <= m[q[j]]
  }

  /** Exactly the timers with no more than `d` left go off, once each, and in the order of their deadlines. */
  lemma {:induction false} DueView<T>(s: seq<Slot<T>>, d: nat)
    requires Unique(s)
    ensures forall t <- Due(s, d) :: t in View(s) && View(s)[t] <= d
    ensures forall t <- View(s) :: View(s)[t] <= d ==> t in Due(s, d)
    ensures InOrder(Due(s, d), View(s))
  {
    if s != [] {
      UniqueTail(s);
      ViewHas(s[1..]);
      if s[0].delta <= d {
        var q, e := Due(s[1..], d - s[0].delta), d - s[0].delta;
        DueView(s[1..], e);
        DueFirst(s[0].timer, q, View(s[1..]), View(s));
        assert Due(s, d) == [s[0].timer] + q;
        forall t <- Due(s, d) ensures t in View(s) && View(s)[t] <= d {
          ViewAt(s, t);
        }
        forall t <- View(s) ensures View(s)[t] <= d ==> t in Due(s, d) {
          ViewAt(s, t);
        }
      }
    }
  }

  lemma DueFirst<T>(t: T, q: seq<T>, m: map<T, nat>, n: map<T, nat>)
    requires InOrder(q, m) && t !in m && (forall u <- q :: u in m) && t in n
    requires forall u <- m :: u in n && n[u] == m[u] + n[t]
    ensures InOrder([t] + q, n)
  {
    var p := [t] + q;
    forall i | 0 < i < |p| ensures p[i] == q[i - 1] && p[i] in m {
      assert q[i - 1] in q;
    }
  }

  /** Two scans come to the same as one over the whole time, as long as nothing is inserted in between. */
  lemma {:induction false} RestTwice<T>(s: seq<Slot<T>>, a: nat, b: nat)
    ensures Rest(Rest(s, a), b) == Rest(s, a + b)
    ensures Due(s, a) + Due(Rest(s, a), b) == Due(s, a + b)
  {
    if s != [] {
      if s[0].delta <= a {
        RestTwice(s[1..], a - s[0].delta, b);
      } else {
        assert Rest(s, a)[1..] == s[1..];
      }
    }
  }
}

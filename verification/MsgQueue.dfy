/**
 source/kernel/net/net_tools/msgQ.c: a bounded queue under a lock and two counting semaphores, used by
 any number of threads.  Every method but the constructor is one atomic step of one thread of
 msgQ_enqueue or msgQ_dequeue; the steps of different threads may come in any order.  A wait that
 times out changes nothing and is not a step.
 */
module MsgQueue {

  /** Where a thread is.  The numbered places are inside the lock, after that many of its statements. */
  datatype Place =
    | Outside
    | Reserved(msg: int) | Writing0(msg: int) | Writing1 | Writing2 | Writing3 | Stored
    | Claimed | Reading0 | Reading1(msg: int) | Reading2(msg: int) | Reading3(msg: int) | Drained(msg: int)

  /**
   What a thread has in hand: a free slot, a message not yet announced, a message to read, a slot
   not yet announced.
   */
  datatype Stage = Nothing | FreeSlot | NewMessage | DueMessage | UsedSlot

  function StageOf(p: Place): Stage {
    match p
    case Outside => Nothing
    case Reserved(_) => FreeSlot
    case Writing0(_) => FreeSlot
    case Writing1 => NewMessage
    case Writing2 => NewMessage
    case Writing3 => NewMessage
    case Stored => NewMessage
    case Claimed => DueMessage
    case Reading0 => DueMessage
    case Reading1(_) => UsedSlot
    case Reading2(_) => UsedSlot
    case Reading3(_) => UsedSlot
    case Drained(_) => UsedSlot
  }

  predicate Inside(p: Place) {
    p.Writing0? || p.Writing1? || p.Writing2? || p.Writing3? || p.Reading0? || p.Reading1? || p.Reading2? || p.Reading3?
  }

  ghost function InStage(at: map<nat, Place>, s: Stage): set<nat> {
    set t <- at.Keys | StageOf(at[t]) == s
  }

  ghost function Count(at: map<nat, Place>, s: Stage): nat {
    |InStage(at, s)|
  }

  function One(b: bool): nat {
    if b then 1 else 0
  }

  lemma Counted(at: map<nat, Place>, t: nat, p: Place, s: Stage)
    requires t in at
    ensures Count(at[t := p], s) == Count(at, s) - One(StageOf(at[t]) == s) + One(StageOf(p) == s)
  {
    var a, b := InStage(at, s), InStage(at[t := p], s);
    if StageOf(p) == s {
      assert b == a + {t};
    } else {
      assert b == a - {t};
    }
  }

  /** `i` modulo `n`. */
  function Slot(i: nat, n: nat): (r: nat)
    requires n > 0
    ensures r < n
  {
    if i < n then i else Slot(i - n, n)
  }

  lemma {:induction false} SlotsDiffer(i: nat, j: nat, n: nat)
    requires n > 0 && i < j < i + n
    ensures Slot(i, n) != Slot(j, n)
  {
    if i >= n {
      SlotsDiffer(i - n, j - n, n);
    }
  }

  lemma {:induction false} NextSlot(i: nat, n: nat)
    requires n > 0
    ensures Slot(i + 1, n) == (Slot(i, n) + 1) % n
  {
    if i >= n {
      NextSlot(i - n, n);
    } else if i + 1 < n {
      assert (i + 1) % n == i + 1;
    } else {
      assert n % n == 0;
    }
  }

  /** The `i`th message ever, for every message not yet taken, is in slot `i` modulo the capacity. */
  predicate Ring(slots: seq<int>, enq: seq<int>, deq: seq<int>) {
    && deq <= enq && |enq| - |deq| <= |slots| && slots != []
    && forall i :: |deq| <= i < |enq| ==> slots[Slot(i, |slots|)] == enq[i]
  }

  lemma RingStore(slots: seq<int>, enq: seq<int>, deq: seq<int>, m: int)
    requires Ring(slots, enq, deq) && |enq| - |deq| < |slots|
    ensures Ring(slots[Slot(|enq|, |slots|) := m], enq + [m], deq)
  {
    forall i | |deq| <= i < |enq| ensures Slot(i, |slots|) != Slot(|enq|, |slots|) {
      SlotsDiffer(i, |enq|, |slots|);
    }
  }

  /** What the lock holder has done to the lists ahead of the counters. */
  function TailLag(p: Place): nat { if p.Writing1? then 1 else 0 }
  function HeadLag(p: Place): nat { if p.Reading1? then 1 else 0 }
  function SizeLag(p: Place): int {
    if p.Writing1? || p.Writing2? then -1 else if p.Reading1? || p.Reading2? then 1 else 0
  }

  class MsgQ {
    const slots: array<int>
    var head: int
    var tail: int
    var size: int
    var empty: int                  // tokens of the semaphore for free slots
    var full: int                   // tokens of the semaphore for messages
    var holder: int                 // the thread that holds the lock, -1 for none
    var at: map<nat, Place>
    ghost var enq: seq<int>         // all messages ever stored, in lock order
    ghost var deq: seq<int>         // all messages ever taken, in lock order

    /** The place of the lock holder. */
    ghost function Held(): Place
      reads this
    {
      if holder in at then at[holder] else Outside
    }

    /** Exactly the lock holder is inside. */
    ghost predicate Locked()
      reads this
    {
      && holder >= -1 && (holder >= 0 ==> holder in at)
      && forall t <- at :: Inside(at[t]) <==> holder == t
    }

    /** Tokens, threads that have taken one or are about to give one back, and messages add up. */
    ghost predicate Balanced()
      reads this
    {
      && empty >= 0 && full >= 0
      && full + Count(at, DueMessage) + Count(at, NewMessage) == |enq| - |deq|
      && empty + Count(at, FreeSlot) + Count(at, UsedSlot) == slots.Length - (|enq| - |deq|)
    }

    ghost predicate Placed()
      reads this
    {
      && slots.Length > 0
      && TailLag(Held()) <= |enq| && tail == Slot(|enq| - TailLag(Held()), slots.Length)
      && HeadLag(Held()) <= |deq| && head == Slot(|deq| - HeadLag(Held()), slots.Length)
      && size == |enq| - |deq| + SizeLag(Held())
    }

    ghost predicate Valid()
      reads this, slots
    {
      Locked() && Balanced() && Placed() && Ring(slots[..], enq, deq)
    }

    /** The tokens of the two semaphores, and the holder of the lock. */
    predicate Tokens(e: int, f: int, h: int)
      reads this
    {
      empty == e && full == f && holder == h
    }

    /** msgQ_init */
    constructor (capacity: nat, threads: set<nat>)
      requires capacity > 0
      ensures Tokens(capacity, 0, -1)
      ensures Valid() && enq == deq == [] && at == map t <- threads :: Outside
      ensures slots.Length == capacity && fresh(slots)
    {
      slots := new int[capacity];
      head, tail, size, empty, full, holder := 0, 0, 0, capacity, 0, -1;
      at := map t <- threads :: Outside;
      enq, deq := [], [];
      new;
      assert InStage(at, DueMessage) == {} && InStage(at, NewMessage) == {} && InStage(at, FreeSlot) == {} &&
        InStage(at, UsedSlot) == {};
    }

    /** The thread moves on, with the counts. */
    lemma Moves(t: nat, p: Place)
      requires t in at
      ensures forall s :: Count(at[t := p], s) == Count(at, s) - One(StageOf(at[t]) == s) + One(StageOf(p) == s)
    {
      forall s
        ensures Count(at[t := p], s) == Count(at, s) - One(StageOf(at[t]) == s) + One(StageOf(p) == s)
      {
        Counted(at, t, p, s);
      }
    }

    /** A thread in a stage is counted there. */
    lemma IsCounted(t: nat)
      requires t in at
      ensures Count(at, StageOf(at[t])) > 0
    {
      assert t in InStage(at, StageOf(at[t]));
    }

    // ---- msgQ_enqueue ----

    /** time_wait on empty */
    method WaitEmpty(t: nat, m: int)
      requires Valid() && t in at && at[t].Outside? && empty > 0
      modifies this
      ensures Valid() && enq == old(enq) && deq == old(deq) && at == old(at)[t := Reserved(m)]
      ensures Tokens(old(empty) - 1, old(full), old(holder))
    {
      Moves(t, Reserved(m));
      hide Count;
      empty := empty - 1;
      at := at[t := Reserved(m)];
    }

    /** lock */
    method Lock(t: nat)
      requires Valid() && t in at && (at[t].Reserved? || at[t].Claimed?) && holder == -1
      modifies this
      ensures Valid() && enq == old(enq) && deq == old(deq)
      ensures at == old(at)[t := if old(at)[t].Reserved? then Writing0(old(at)[t].msg) else Reading0]
      ensures Tokens(old(empty), old(full), t)
    {
      hide Count, InStage, Ring, Slot;
      var p := if at[t].Reserved? then Writing0(at[t].msg) else Reading0;
      Moves(t, p);
      holder := t;
      at := at[t := p];
    }

    /** The store: the slot written held no message still to be taken. */
    method Store(t: nat)
      requires Valid() && t in at && at[t].Writing0?
      modifies this, slots
      ensures Valid() && deq == old(deq) && enq == old(enq) + [old(at)[t].msg]
      ensures old(|enq| - |deq|) < slots.Length && at == old(at)[t := Writing1]
      ensures Tokens(old(empty), old(full), old(holder))
    {
      IsCounted(t);
      Moves(t, Writing1);
      hide Count;
      RingStore(slots[..], enq, deq, at[t].msg);
      slots[tail] := at[t].msg;
      assert slots[..] == old(slots[..])[tail := at[t].msg];
      enq := enq + [at[t].msg];
      at := at[t := Writing1];
    }

    method AdvanceTail(t: nat)
      requires Valid() && t in at && at[t].Writing1?
      modifies this
      ensures Valid() && enq == old(enq) && deq == old(deq) && at == old(at)[t := Writing2]
      ensures Tokens(old(empty), old(full), old(holder))
    {
      Moves(t, Writing2);
      hide Count;
      NextSlot(|enq| - 1, slots.Length);
      tail := (tail + 1) % slots.Length;
      at := at[t := Writing2];
    }

    method CountUp(t: nat)
      requires Valid() && t in at && at[t].Writing2?
      modifies this
      ensures Valid() && enq == old(enq) && deq == old(deq) && at == old(at)[t := Writing3]
      ensures Tokens(old(empty), old(full), old(holder))
    {
      Moves(t, Writing3);
      hide Count;
      size := size + 1;
      at := at[t := Writing3];
    }

    /** unlock */
    method Unlock(t: nat)
      requires Valid() && t in at && (at[t].Writing3? || at[t].Reading3?)
      modifies this
      ensures Valid() && enq == old(enq) && deq == old(deq) && size == |enq| - |deq|
      ensures at == old(at)[t := if old(at)[t].Writing3? then Stored else Drained(old(at)[t].msg)]
      ensures Tokens(old(empty), old(full), -1)
    {
      hide Count, InStage, Ring, Slot;
      var p := if at[t].Writing3? then Stored else Drained(at[t].msg);
      Moves(t, p);
      holder := -1;
      at := at[t := p];
    }

    /** semaphore_post on full, and msgQ_enqueue returns */
    method PostFull(t: nat)
      requires Valid() && t in at && at[t].Stored?
      modifies this
      ensures Valid() && enq == old(enq) && deq == old(deq) && at == old(at)[t := Outside]
      ensures Tokens(old(empty), old(full) + 1, old(holder))
    {
      Moves(t, Outside);
      hide Count;
      full := full + 1;
      at := at[t := Outside];
    }

    // ---- msgQ_dequeue ----

    /** time_wait on full */
    method WaitFull(t: nat)
      requires Valid() && t in at && at[t].Outside? && full > 0
      modifies this
      ensures Valid() && enq == old(enq) && deq == old(deq) && at == old(at)[t := Claimed]
      ensures Tokens(old(empty), old(full) - 1, old(holder))
    {
      Moves(t, Claimed);
      hide Count;
      full := full - 1;
      at := at[t := Claimed];
    }

    /** The load: there is a message, and it is the oldest. */
    method Load(t: nat)
      requires Valid() && t in at && at[t].Reading0?
      modifies this
      ensures Valid() && enq == old(enq) && old(|deq|) < |enq|
      ensures deq == old(deq) + [enq[old(|deq|)]] && at == old(at)[t := Reading1(enq[old(|deq|)])]
      ensures Tokens(old(empty), old(full), old(holder))
    {
      IsCounted(t);
      var m := slots[head];
      assert slots[..][head] == m && m == enq[|deq|];
      Moves(t, Reading1(m));
      hide Count;
      deq := deq + [m];
      at := at[t := Reading1(m)];
    }

    method AdvanceHead(t: nat)
      requires Valid() && t in at && at[t].Reading1?
      modifies this
      ensures Valid() && enq == old(enq) && deq == old(deq) && at == old(at)[t := Reading2(old(at)[t].msg)]
      ensures Tokens(old(empty), old(full), old(holder))
    {
      Moves(t, Reading2(at[t].msg));
      hide Count;
      NextSlot(|deq| - 1, slots.Length);
      head := (head + 1) % slots.Length;
      at := at[t := Reading2(at[t].msg)];
    }

    method CountDown(t: nat)
      requires Valid() && t in at && at[t].Reading2?
      modifies this
      ensures Valid() && enq == old(enq) && deq == old(deq) && at == old(at)[t := Reading3(old(at)[t].msg)]
      ensures Tokens(old(empty), old(full), old(holder))
    {
      Moves(t, Reading3(at[t].msg));
      hide Count;
      size := size - 1;
      at := at[t := Reading3(at[t].msg)];
    }

    /** semaphore_post on empty, and msgQ_dequeue returns the message */
    method PostEmpty(t: nat) returns (m: int)
      requires Valid() && t in at && at[t].Drained?
      modifies this
      ensures Valid() && enq == old(enq) && deq == old(deq) && at == old(at)[t := Outside] && m == old(at)[t].msg
      ensures Tokens(old(empty) + 1, old(full), old(holder))
    {
      m := at[t].msg;
      Moves(t, Outside);
      hide Count;
      empty := empty + 1;
      at := at[t := Outside];
    }

    // ---- whole calls ----

    /** msgQ_enqueue with nobody in between: the message goes to the end. */
    method Enqueue(t: nat, m: int)
      requires Valid() && t in at && at[t].Outside? && empty > 0 && holder == -1
      modifies this, slots
      ensures Valid() && enq == old(enq) + [m] && deq == old(deq) && at == old(at)
      ensures Tokens(old(empty) - 1, old(full) + 1, -1) && size == |enq| - |deq|
    {
      hide Locked, Balanced, Placed, Ring;
      WaitEmpty(t, m);
      Lock(t);
      Store(t);
      AdvanceTail(t);
      CountUp(t);
      Unlock(t);
      PostFull(t);
      SizeOf();
    }

    lemma SizeOf()
      requires Valid() && holder == -1
      ensures size == |enq| - |deq|
    {
    }

    /** msgQ_dequeue with nobody in between: the oldest message comes back. */
    method Dequeue(t: nat) returns (m: int)
      requires Valid() && t in at && at[t].Outside? && full > 0 && holder == -1
      modifies this
      ensures Valid() && enq == old(enq) && deq == old(deq) + [m] && deq <= enq && at == old(at)
      ensures Tokens(old(empty) + 1, old(full) - 1, -1) && size == |enq| - |deq|
    {
      hide Balanced, Placed;
      WaitFull(t);
      Lock(t);
      Load(t);
      AdvanceHead(t);
      CountDown(t);
      Unlock(t);
      m := PostEmpty(t);
      SizeOf();
    }
  }
}

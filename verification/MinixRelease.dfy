/**
 Taking file blocks away from a file, as the shrinking half of minix_inode_truncate does: slots are
 emptied, blocks lose their marks, and a block loses its mark exactly when its slot is emptied.
 */
module MinixRelease {
  import opened MinixStore

  /** The slots that truncating file `i` to the blocks below `lo`, out of `hi`, may empty. */
  predicate MayEmpty(t: Slot, i: nat, lo: nat, hi: nat) {
    t.i == i &&
    match t
    case Zone(_, k) => k == 8 || (lo <= k < hi && k < DIRECT)
    case Ind(_, k) => lo <= k + DIRECT < hi && k < POINTERS
    case Dbl(_, _) => true
    case DblInd(_, k1, k) => lo <= INDIRECT_LIMIT + POINTERS * k1 + k < hi && k < POINTERS
  }

  /**
   From `st` to `st'` only such slots were emptied and no other slot changed.  A block has lost its
   mark exactly if the slot it was in has been emptied; the blocks of files are otherwise untouched.
   */
  ghost predicate Shed(st: Store, st': Store, i: nat, lo: nat, hi: nat) {
    && Sound(st') && st'.zone.Keys == st.zone.Keys
    && (forall t :: Ref(st', t) == Ref(st, t) || (Ref(st', t) == 0 && MayEmpty(t, i, lo, hi)))
    && (forall b :: b in st'.used <==> b in st.used && forall t :: Ref(st, t) == b ==> Ref(st', t) == b)
    && (forall t :: IsLeaf(t) && Ref(st', t) != 0 ==>
          Ref(st', t) in st.disk && Ref(st', t) in st'.disk && st'.disk[Ref(st', t)] == st.disk[Ref(st', t)])
  }

  /** The blocks whose marks went are free again. */
  ghost predicate Returned(st: Store, free: set<int>, st': Store, free': set<int>) {
    st'.used <= st.used && free' == free + (st.used - st'.used)
  }

  lemma ReturnedTwice(st: Store, free: set<int>, st1: Store, free1: set<int>, st2: Store, free2: set<int>)
    requires Returned(st, free, st1, free1) && Returned(st1, free1, st2, free2)
    ensures Returned(st, free, st2, free2)
  {
  }

  lemma ReturnedNothing(st: Store, free: set<int>)
    ensures Returned(st, free, st, free)
  {
  }

  lemma ShedMonotone(st: Store, st': Store, i: nat, lo: nat, hi: nat)
    requires Shed(st, st', i, lo, hi)
    ensures forall t :: Ref(st', t) == Ref(st, t) || Ref(st', t) == 0
  {
  }

  lemma ShedNothing(st: Store, i: nat, lo: nat, hi: nat)
    requires Sound(st)
    ensures Shed(st, st, i, lo, hi)
  {
  }

  lemma ShedTwice(st: Store, st1: Store, st2: Store, i: nat, lo: nat, hi: nat)
    requires Sound(st) && Shed(st, st1, i, lo, hi) && Shed(st1, st2, i, lo, hi)
    ensures Shed(st, st2, i, lo, hi)
  {
    forall b | b in st2.used ensures b in st.used && forall t :: Ref(st, t) == b ==> Ref(st2, t) == b {
      assert b in st1.used;
    }
    forall b | b in st.used && forall t :: Ref(st, t) == b ==> Ref(st2, t) == b ensures b in st2.used {
      assert forall t :: Ref(st, t) == b ==> Ref(st1, t) == b;
      assert b in st1.used;
      assert forall t :: Ref(st1, t) == b ==> Ref(st, t) == b;
    }
  }

  lemma DropShed(st: Store, s: Slot, i: nat, lo: nat, hi: nat)
    requires Sound(st) && Exists(st, s) && Ref(st, s) != 0 && Childless(st, s) && MayEmpty(s, i, lo, hi)
    ensures Shed(st, Drop(st, s), i, lo, hi) && Ref(Drop(st, s), s) == 0
    ensures Drop(st, s).used == st.used - {Ref(st, s)} && Ref(st, s) in st.used
    ensures forall t :: t != s ==> Ref(Drop(st, s), t) == Ref(st, t)
  {
    var st' := Drop(st, s);
    DropSound(st, s);
    forall t | IsLeaf(t) && Ref(st', t) != 0
      ensures Ref(st', t) in st.disk && Ref(st', t) in st'.disk && st'.disk[Ref(st', t)] == st.disk[Ref(st', t)]
    {
      assert Ref(st', t) == Ref(st, t);
      if !s.Zone? { assert t != Parent(s); }
    }
  }

  lemma ShedSound(st: Store, st': Store, i: nat, lo: nat, hi: nat)
    requires Shed(st, st', i, lo, hi)
    ensures Sound(st')
  {
  }

  lemma ShedStaysEmpty(st: Store, st': Store, i: nat, lo: nat, hi: nat, s: Slot)
    requires Shed(st, st', i, lo, hi) && Ref(st, s) == 0
    ensures Ref(st', s) == 0
  {
  }

  /** Outside the range every file block stays, with its contents. */
  lemma ShedKeeps(st: Store, st': Store, i: nat, lo: nat, hi: nat, j: nat, fb: nat)
    requires Shed(st, st', i, lo, hi) && fb < FILE_LIMIT && (j != i || fb < lo || fb >= hi)
    ensures BlockOf(st', j, fb) == BlockOf(st, j, fb)
  {
  }

  // ---- which pointer blocks go ----

  /** The entry of the double indirect block that file block `fb` is behind, if it is behind one. */
  function Outer(fb: nat): nat {
    if fb < INDIRECT_LIMIT then 0 else (fb - INDIRECT_LIMIT) / POINTERS
  }

  /** Some file block from `lo` up to `hi` is behind entry `k1` of the double indirect block. */
  ghost predicate Touches(lo: nat, hi: nat, k1: nat) {
    exists fb :: lo <= fb < hi && INDIRECT_LIMIT <= fb && Outer(fb) == k1
  }

  /**
   Once the file blocks from `lo` up to `hi` are gone: a pointer block below the double indirect one has
   gone exactly if one of them was behind it and nothing is left behind it, and the double indirect
   block exactly if one of them was behind one of those and none of those is left.
   */
  ghost predicate Pruned(st: Store, st': Store, i: nat, lo: nat, hi: nat) {
    && (forall k1 :: Ref(st, Dbl(i, k1)) != 0 ==>
          (Ref(st', Dbl(i, k1)) == 0 <==> Touches(lo, hi, k1) && Childless(st', Dbl(i, k1))))
    && (Ref(st, Zone(i, 8)) != 0 ==>
          (Ref(st', Zone(i, 8)) == 0 <==> Reaches(st, i, lo, hi) && Childless(st', Zone(i, 8))))
    && Ref(st', Zone(i, 7)) == Ref(st, Zone(i, 7))
  }

  ghost predicate Reaches(st: Store, i: nat, lo: nat, hi: nat) {
    exists k1 :: Touches(lo, hi, k1) && Ref(st, Dbl(i, k1)) != 0
  }

  /** What one round, on file block `fb`, does to pointer blocks. */
  ghost predicate PrunedOnce(st: Store, st': Store, i: nat, fb: nat)
    requires fb < FILE_LIMIT
  {
    var d := Dbl(i, Outer(fb));
    && (forall t :: t != LeafSlot(i, fb) && t != d && t != Zone(i, 8) ==> Ref(st', t) == Ref(st, t))
    && if fb < INDIRECT_LIMIT || Ref(st, d) == 0 then
         Ref(st', d) == Ref(st, d) && Ref(st', Zone(i, 8)) == Ref(st, Zone(i, 8))
       else (Ref(st', d) == 0 <==> Childless(st', d)) && (Ref(st', Zone(i, 8)) == 0 <==> Childless(st', Zone(i, 8)))
  }

  /** Only the two pointer blocks above entry `k1` may have gone, and they have if nothing is left behind them. */
  ghost predicate BothChecked(st: Store, st': Store, i: nat, k1: nat) {
    && (forall t :: t != Dbl(i, k1) && t != Zone(i, 8) ==> Ref(st', t) == Ref(st, t))
    && (Ref(st', Dbl(i, k1)) == 0 <==> Childless(st', Dbl(i, k1)))
    && (Ref(st', Zone(i, 8)) == 0 <==> Childless(st', Zone(i, 8)))
  }

  lemma SameChildren(st: Store, st': Store, s: Slot)
    requires forall t :: t != s && Parent(t) == s ==> Ref(st', t) == Ref(st, t)
    ensures Childless(st', s) <==> Childless(st, s)
  {
  }

  lemma InnerThenOuter(st: Store, st1: Store, st2: Store, i: nat, k1: nat)
    requires forall t :: t != Dbl(i, k1) ==> Ref(st1, t) == Ref(st, t)
    requires Ref(st1, Dbl(i, k1)) == 0 <==> Childless(st, Dbl(i, k1))
    requires forall t :: t != Zone(i, 8) ==> Ref(st2, t) == Ref(st1, t)
    requires Ref(st2, Zone(i, 8)) == 0 <==> Childless(st1, Zone(i, 8))
    ensures BothChecked(st, st2, i, k1)
  {
    hide Ref;
    SameChildren(st, st2, Dbl(i, k1));
    SameChildren(st1, st2, Zone(i, 8));
  }

  lemma PrunedNothing(st: Store, i: nat, lo: nat)
    ensures Pruned(st, st, i, lo, lo)
  {
  }

  lemma PrunedMore(st: Store, st1: Store, st2: Store, i: nat, lo: nat, fb: nat)
    requires lo <= fb < FILE_LIMIT && Pruned(st, st1, i, lo, fb) && PrunedOnce(st1, st2, i, fb)
    requires forall t :: Ref(st1, t) == Ref(st, t) || Ref(st1, t) == 0
    ensures Pruned(st, st2, i, lo, fb + 1)
  {
    TouchesMore(lo, fb);
    forall k1 | Ref(st, Dbl(i, k1)) != 0
      ensures Ref(st2, Dbl(i, k1)) == 0 <==> Touches(lo, fb + 1, k1) && Childless(st2, Dbl(i, k1))
    {
      if k1 != Outer(fb) || fb < INDIRECT_LIMIT {
        ChildrenStay(st1, st2, i, fb, k1);
      } else if Ref(st1, Dbl(i, k1)) == 0 {
        EmptyHasNone(st2, i, k1);
      }
    }
    PrunedZone(st, st1, st2, i, lo, fb);
  }

  lemma TouchesMore(lo: nat, fb: nat)
    requires lo <= fb
    ensures forall k1 :: Touches(lo, fb + 1, k1) <==> Touches(lo, fb, k1) || (INDIRECT_LIMIT <= fb && Outer(fb) == k1)
  {
    forall k1 ensures Touches(lo, fb + 1, k1) <==> Touches(lo, fb, k1) || (INDIRECT_LIMIT <= fb && Outer(fb) == k1) {
      if b :| lo <= b < fb + 1 && INDIRECT_LIMIT <= b && Outer(b) == k1 {
        assert b == fb || Touches(lo, fb, k1);
      }
      if b :| lo <= b < fb && INDIRECT_LIMIT <= b && Outer(b) == k1 {
        assert Touches(lo, fb + 1, k1);
      }
      if INDIRECT_LIMIT <= fb && Outer(fb) == k1 {
        assert Touches(lo, fb + 1, k1);
      }
    }
  }

  lemma ChildrenStay(st1: Store, st2: Store, i: nat, fb: nat, k1: nat)
    requires fb < FILE_LIMIT && PrunedOnce(st1, st2, i, fb) && (k1 != Outer(fb) || fb < INDIRECT_LIMIT)
    ensures Childless(st2, Dbl(i, k1)) <==> Childless(st1, Dbl(i, k1))
    ensures Ref(st2, Dbl(i, k1)) == Ref(st1, Dbl(i, k1))
  {
    hide Ref;
    forall t | t != Dbl(i, k1) && Parent(t) == Dbl(i, k1) ensures Ref(st2, t) == Ref(st1, t) {
      assert t.DblInd? && (fb >= INDIRECT_LIMIT ==> LeafSlot(i, fb).k1 == Outer(fb));
    }
    SameChildren(st1, st2, Dbl(i, k1));
  }

  lemma EmptyHasNone(st: Store, i: nat, k1: nat)
    requires Ref(st, Dbl(i, k1)) == 0
    ensures Childless(st, Dbl(i, k1))
  {
  }

  lemma PrunedZone(st: Store, st1: Store, st2: Store, i: nat, lo: nat, fb: nat)
    requires lo <= fb < FILE_LIMIT && Pruned(st, st1, i, lo, fb) && PrunedOnce(st1, st2, i, fb)
    requires forall t :: Ref(st1, t) == Ref(st, t) || Ref(st1, t) == 0
    ensures Ref(st, Zone(i, 8)) != 0 ==>
      (Ref(st2, Zone(i, 8)) == 0 <==> Reaches(st, i, lo, fb + 1) && Childless(st2, Zone(i, 8)))
    ensures Ref(st2, Zone(i, 7)) == Ref(st, Zone(i, 7))
  {
    hide Ref;
    TouchesMore(lo, fb);
    var d := Dbl(i, Outer(fb));
    if fb < INDIRECT_LIMIT || Ref(st1, d) == 0 {
      forall k1 | Touches(lo, fb + 1, k1) && Ref(st, Dbl(i, k1)) != 0 ensures Touches(lo, fb, k1) {
        assert Dbl(i, k1) == d ==> Ref(st1, d) == 0 || fb < INDIRECT_LIMIT;
      }
      SameChildren(st1, st2, Zone(i, 8));
    } else {
      assert Touches(lo, fb + 1, Outer(fb));
    }
  }
}

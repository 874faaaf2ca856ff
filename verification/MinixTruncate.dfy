/**
 source/kernel/fs/minix/minix_inode.c, minix_inode_truncate.  The inode is taken as it is in memory:
 the re-read at the start and the modification time are left out.
 */
module MinixTruncate {
  import opened MinixStore
  import opened MinixVolume
  import opened MinixRelease
  import opened MinixFile

  /** minix_dblk_free on the block in a slot of the inode, then the slot is emptied. */
  method DropZone(vol: Volume, inode: Inode, ghost i: nat, k: nat, ghost lo: nat, ghost hi: nat)
    requires vol.Valid() && vol.Owns(inode, i) && Sound(vol.view) && k < 9 && inode.zone[k] != 0
    requires Childless(vol.view, Zone(i, k)) && MayEmpty(Zone(i, k), i, lo, hi)
    modifies vol, vol.zoneMap, inode.zone
    ensures vol.Valid() && Shed(old(vol.view), vol.view, i, lo, hi) && Ref(vol.view, Zone(i, k)) == 0
    ensures forall t :: t != Zone(i, k) ==> Ref(vol.view, t) == Ref(old(vol.view), t)
    ensures Returned(old(vol.view), old(vol.free), vol.view, vol.free)
  {
    hide Sound, Shed, Childless;
    assert inode.zone[k] == Ref(vol.view, Zone(i, k));
    DropShed(vol.view, Zone(i, k), i, lo, hi);
    RefOnDisk(vol.view, Zone(i, k));
    var _ := vol.FreeBlock(inode.zone[k]);
    vol.PutZone(inode, i, k, 0);
  }

  /** The same for entry `k` of pointer block `p`. */
  method DropEntry(vol: Volume, p: int, ghost s: Slot, k: nat, ghost lo: nat, ghost hi: nat)
    requires vol.Valid() && Sound(vol.view) && k < POINTERS && p != 0
    requires !s.Zone? && s.k == k && Ref(vol.view, Parent(s)) == p && Ref(vol.view, s) != 0
    requires Childless(vol.view, s) && MayEmpty(s, s.i, lo, hi)
    modifies vol, vol.zoneMap
    ensures vol.Valid() && Shed(old(vol.view), vol.view, s.i, lo, hi) && Ref(vol.view, s) == 0
    ensures forall t :: t != s ==> Ref(vol.view, t) == Ref(old(vol.view), t)
    ensures Returned(old(vol.view), old(vol.free), vol.view, vol.free)
  {
    hide Sound, Shed, Childless;
    RefOnDisk(vol.view, Parent(s));
    MinixStore.PutEntry(vol.view, s, p, 0);
    DropShed(vol.view, s, s.i, lo, hi);
    RefOnDisk(vol.view, s);
    var _ := vol.FreeBlock(Word(vol.disk[p], k));
    vol.PutWordAt(p, k, 0);
  }

  /** The scan of a pointer block for an entry in use. */
  method IsEmpty(vol: Volume, p: int) returns (empty: bool)
    requires p in vol.disk
    ensures empty <==> forall k :: 0 <= k < POINTERS ==> Word(vol.disk[p], k) == 0
  {
    empty := true;
    for k := 0 to POINTERS
      invariant empty && forall j :: 0 <= j < k ==> Word(vol.disk[p], j) == 0
    {
      if Word(vol.disk[p], k) != 0 {
        empty := false;
        break;
      }
    }
  }

  /** A pointer block leads nowhere exactly if it holds zeros. */
  lemma EmptyChildless(st: Store, s: Slot)
    requires (s.Dbl? || s == Zone(s.i, 8)) && Ref(st, s) != 0 && Ref(st, s) in st.disk
    ensures Childless(st, s) <==> forall k :: 0 <= k < POINTERS ==> Word(st.disk[Ref(st, s)], k) == 0
  {
    if Childless(st, s) {
      forall k | 0 <= k < POINTERS ensures Word(st.disk[Ref(st, s)], k) == 0 {
        var t := if s.Dbl? then DblInd(s.i, s.k, k) else Dbl(s.i, k);
        assert Parent(t) == s && Ref(st, t) == 0;
      }
    }
  }

  /** What releasing file block `fb` does to the volume. */
  ghost predicate Gone(st: Store, free: set<int>, st': Store, free': set<int>, i: nat, fb: nat, lo: nat, hi: nat)
    requires fb < FILE_LIMIT
  {
    && Shed(st, st', i, lo, hi) && BlockOf(st', i, fb) == 0 && Returned(st, free, st', free')
    && PrunedOnce(st, st', i, fb)
  }

  /** One round of the shrinking loop. */
  method ReleaseBlock(vol: Volume, inode: Inode, ghost i: nat, fb: nat, ghost lo: nat, ghost hi: nat)
    requires vol.Valid() && vol.Owns(inode, i) && Sound(vol.view) && lo <= fb < hi && fb < FILE_LIMIT
    modifies vol, vol.zoneMap, inode.zone
    ensures vol.Valid() && Gone(old(vol.view), old(vol.free), vol.view, vol.free, i, fb, lo, hi)
  {
    hide Sound, Shed, Childless;
    ShedNothing(vol.view, i, lo, hi);
    if fb < DIRECT {
      assert inode.zone[fb] == Ref(vol.view, Zone(i, fb));
      if inode.zone[fb] != 0 {
        LeafChildless(vol.view, Zone(i, fb));
        DropZone(vol, inode, i, fb, lo, hi);
      }
    } else if fb < INDIRECT_LIMIT {
      var p := inode.zone[7];
      assert p == Ref(vol.view, Zone(i, 7));
      if p != 0 {
        RefOnDisk(vol.view, Zone(i, 7));
        ReleaseEntry(vol, p, Ind(i, fb - DIRECT), fb - DIRECT, lo, hi);
      }
    } else {
      var p := inode.zone[8];
      assert p == Ref(vol.view, Zone(i, 8));
      assert p == 0 ==> Ref(vol.view, Dbl(i, (fb - INDIRECT_LIMIT) / POINTERS)) == 0;
      if p != 0 {
        ReleaseDouble(vol, inode, p, i, fb, lo, hi);
      }
    }
  }

  /** Entry `k` of pointer block `p`, emptied if it is in use. */
  method ReleaseEntry(vol: Volume, p: int, ghost s: Slot, k: nat, ghost lo: nat, ghost hi: nat)
    requires vol.Valid() && Sound(vol.view) && k < POINTERS && p != 0 && p in vol.disk
    requires IsLeaf(s) && !s.Zone? && s.k == k && Ref(vol.view, Parent(s)) == p && MayEmpty(s, s.i, lo, hi)
    modifies vol, vol.zoneMap
    ensures vol.Valid() && Shed(old(vol.view), vol.view, s.i, lo, hi) && Ref(vol.view, s) == 0
    ensures Returned(old(vol.view), old(vol.free), vol.view, vol.free)
    ensures forall t :: t != s ==> Ref(vol.view, t) == Ref(old(vol.view), t)
  {
    hide Sound, Shed, Childless;
    MinixStore.PutEntry(vol.view, s, p, 0);
    ShedNothing(vol.view, s.i, lo, hi);
    if Word(vol.disk[p], k) != 0 {
      LeafChildless(vol.view, s);
      DropEntry(vol, p, s, k, lo, hi);
    }
  }

  /** The pointer block `q`, in entry `k1` of `p`, is freed if it is empty. */
  method ReleaseInner(vol: Volume, p: int, q: int, ghost i: nat, k1: nat, ghost lo: nat, ghost hi: nat)
    requires vol.Valid() && Sound(vol.view) && k1 < POINTERS
    requires p == Ref(vol.view, Zone(i, 8)) && p != 0 && q == Ref(vol.view, Dbl(i, k1)) && q != 0
    modifies vol, vol.zoneMap
    ensures vol.Valid() && Shed(old(vol.view), vol.view, i, lo, hi)
    ensures Returned(old(vol.view), old(vol.free), vol.view, vol.free)
    ensures forall t :: t != Dbl(i, k1) ==> Ref(vol.view, t) == Ref(old(vol.view), t)
    ensures Ref(vol.view, Dbl(i, k1)) == 0 <==> Childless(old(vol.view), Dbl(i, k1))
  {
    hide Sound, Shed, Childless;
    ShedNothing(vol.view, i, lo, hi);
    RefOnDisk(vol.view, Zone(i, 8));
    RefOnDisk(vol.view, Dbl(i, k1));
    var empty := IsEmpty(vol, q);
    EmptyChildless(vol.view, Dbl(i, k1));
    if empty {
      DropEntry(vol, p, Dbl(i, k1), k1, lo, hi);
    }
  }

  /** The double indirect block `p`, in zone[8], is freed if it is empty. */
  method ReleaseOuter(vol: Volume, inode: Inode, p: int, ghost i: nat, ghost lo: nat, ghost hi: nat)
    requires vol.Valid() && vol.Owns(inode, i) && Sound(vol.view) && p == Ref(vol.view, Zone(i, 8)) && p != 0
    modifies vol, vol.zoneMap, inode.zone
    ensures vol.Valid() && Shed(old(vol.view), vol.view, i, lo, hi)
    ensures Returned(old(vol.view), old(vol.free), vol.view, vol.free)
    ensures forall t :: t != Zone(i, 8) ==> Ref(vol.view, t) == Ref(old(vol.view), t)
    ensures Ref(vol.view, Zone(i, 8)) == 0 <==> Childless(old(vol.view), Zone(i, 8))
  {
    hide Sound, Shed, Childless;
    ShedNothing(vol.view, i, lo, hi);
    RefOnDisk(vol.view, Zone(i, 8));
    var empty := IsEmpty(vol, p);
    EmptyChildless(vol.view, Zone(i, 8));
    if empty {
      DropZone(vol, inode, i, 8, lo, hi);
    }
  }

  /** Both checks, on `q` in entry `k1` of `p` and then on `p`. */
  method ReleaseEmpty(vol: Volume, inode: Inode, p: int, q: int, ghost i: nat, k1: nat, ghost lo: nat, ghost hi: nat)
    requires vol.Valid() && vol.Owns(inode, i) && Sound(vol.view) && k1 < POINTERS
    requires p == Ref(vol.view, Zone(i, 8)) && p != 0 && q == Ref(vol.view, Dbl(i, k1)) && q != 0
    modifies vol, vol.zoneMap, inode.zone
    ensures vol.Valid() && Shed(old(vol.view), vol.view, i, lo, hi)
    ensures Returned(old(vol.view), old(vol.free), vol.view, vol.free)
    ensures BothChecked(old(vol.view), vol.view, i, k1)
  {
    hide Sound, Shed, Childless, Returned;
    ReleaseInner(vol, p, q, i, k1, lo, hi);
    ghost var st1, free1 := vol.view, vol.free;
    ShedSound(old(vol.view), st1, i, lo, hi);
    ReleaseOuter(vol, inode, p, i, lo, hi);
    ShedTwice(old(vol.view), st1, vol.view, i, lo, hi);
    ReturnedTwice(old(vol.view), old(vol.free), st1, free1, vol.view, vol.free);
    InnerThenOuter(old(vol.view), st1, vol.view, i, k1);
  }

  /** The part below zone[8], the double indirect block `p`. */
  method ReleaseDouble(vol: Volume, inode: Inode, p: int, ghost i: nat, fb: nat, ghost lo: nat, ghost hi: nat)
    requires vol.Valid() && vol.Owns(inode, i) && Sound(vol.view) && lo <= fb < hi && INDIRECT_LIMIT <= fb < FILE_LIMIT
    requires p == Ref(vol.view, Zone(i, 8)) && p != 0
    modifies vol, vol.zoneMap, inode.zone
    ensures vol.Valid() && Gone(old(vol.view), old(vol.free), vol.view, vol.free, i, fb, lo, hi)
  {
    hide Sound, Shed, Childless;
    ShedNothing(vol.view, i, lo, hi);
    RefOnDisk(vol.view, Zone(i, 8));
    var k1, k2 := (fb - INDIRECT_LIMIT) / POINTERS, (fb - INDIRECT_LIMIT) % POINTERS;
    MinixStore.PutEntry(vol.view, Dbl(i, k1), p, 0);
    var q := Word(vol.disk[p], k1);
    if q == 0 {
      return;
    }
    RefOnDisk(vol.view, Dbl(i, k1));
    ReleaseEntry(vol, q, DblInd(i, k1, k2), k2, lo, hi);
    ghost var st1, free1 := vol.view, vol.free;
    ShedSound(old(vol.view), st1, i, lo, hi);
    ReleaseEmpty(vol, inode, p, q, i, k1, lo, hi);
    ShedTwice(old(vol.view), st1, vol.view, i, lo, hi);
    ShedStaysEmpty(st1, vol.view, i, lo, hi, DblInd(i, k1, k2));
    ReturnedTwice(old(vol.view), old(vol.free), st1, free1, vol.view, vol.free);
  }

  /** The shrinking loop: the file blocks from `lo` up to `hi` go. */
  method Release(vol: Volume, inode: Inode, ghost i: nat, lo: nat, hi: nat)
    requires vol.Valid() && vol.Owns(inode, i) && Sound(vol.view) && hi <= FILE_LIMIT
    modifies vol, vol.zoneMap, inode.zone
    ensures vol.Valid() && Shed(old(vol.view), vol.view, i, lo, hi)
    ensures forall fb :: lo <= fb < hi ==> BlockOf(vol.view, i, fb) == 0
    ensures Returned(old(vol.view), old(vol.free), vol.view, vol.free)
    ensures lo <= hi ==> Pruned(old(vol.view), vol.view, i, lo, hi)
  {
    hide Sound, Shed, Pruned, PrunedOnce, Returned;
    ShedNothing(vol.view, i, lo, hi);
    ReturnedNothing(vol.view, vol.free);
    PrunedNothing(vol.view, i, lo);
    var fb := lo;
    while fb < hi
      invariant lo <= hi ==> fb <= hi && Pruned(old(vol.view), vol.view, i, lo, fb)
      invariant vol.Valid() && Sound(vol.view) && Shed(old(vol.view), vol.view, i, lo, hi)
      invariant lo <= fb && forall b :: lo <= b < fb && b < hi ==> BlockOf(vol.view, i, b) == 0
      invariant Returned(old(vol.view), old(vol.free), vol.view, vol.free)
    {
      ghost var st1, free1 := vol.view, vol.free;
      ReleaseBlock(vol, inode, i, fb, lo, hi);
      ShedMonotone(old(vol.view), st1, i, lo, hi);
      PrunedMore(old(vol.view), st1, vol.view, i, lo, fb);
      ShedTwice(old(vol.view), st1, vol.view, i, lo, hi);
      ReturnedTwice(old(vol.view), old(vol.free), st1, free1, vol.view, vol.free);
      ShedSound(st1, vol.view, i, lo, hi);
      forall b | lo <= b < fb ensures BlockOf(vol.view, i, b) == 0 {
        assert BlockOf(st1, i, b) == 0;
        ShedStaysEmpty(st1, vol.view, i, lo, hi, LeafSlot(i, b));
      }
      fb := fb + 1;
    }
  }

  function BlocksFor(size: nat): nat {
    (size + BLOCK_SIZE - 1) / BLOCK_SIZE
  }

  /** The growing loop: every file block from `lo` up to `hi` gets mapped, until one cannot be. */
  method Extend(vol: Volume, inode: Inode, ghost i: nat, lo: nat, hi: nat) returns (done: bool)
    requires vol.Valid() && vol.Owns(inode, i) && Sound(vol.view) && hi <= FILE_LIMIT
    modifies vol, vol.zoneMap, inode.zone
    ensures vol.Valid()
    ensures done ==> Sound(vol.view) && forall fb :: lo <= fb < hi ==> BlockOf(vol.view, i, fb) != 0
    ensures Sound(vol.view) ==> Grown(old(vol.view), vol.view, i, lo, hi)
    ensures !done ==> vol.free == {} && |old(vol.free)| < 3 * (hi - lo)
  {
    hide Sound, Grown, Mapped, SameFiles, Ref;
    SameAsItself(vol.view);
    GrownNothing(vol.view, vol.view, i, lo, hi);
    var fb := lo;
    while fb < hi
      invariant vol.Valid() && Sound(vol.view) && Grown(old(vol.view), vol.view, i, lo, hi)
      invariant lo <= fb && forall b :: lo <= b < fb && b < hi ==> BlockOf(vol.view, i, b) != 0
      invariant |vol.free| >= |old(vol.free)| - 3 * (fb - lo)
    {
      ghost var st := vol.view;
      var b := vol.GetBlock(inode, i, fb, true);
      if Ref(st, LeafSlot(i, fb)) != 0 { RefOnDisk(st, LeafSlot(i, fb)); }
      if b <= 0 {
        if Sound(vol.view) {
          GrownNothing(st, vol.view, i, lo, hi);
          GrownTwice(old(vol.view), st, vol.view, i, lo, hi);
        }
        return false;
      }
      GrownBlock(st, vol.view, i, fb, b, lo, hi);
      GrownTwice(old(vol.view), st, vol.view, i, lo, hi);
      forall c | lo <= c < fb ensures BlockOf(vol.view, i, c) != 0 {
        assert BlockOf(st, i, c) != 0;
        GrownKeeps(st, vol.view, i, lo, hi, c);
      }
      fb := fb + 1;
    }
    return true;
  }

  /** minix_inode_truncate */
  method Truncate(vol: Volume, inode: Inode, ghost i: nat, newSize: nat) returns (r: int)
    requires vol.Valid() && vol.Owns(inode, i) && Sound(vol.view)
    requires inode.size <= FILE_BYTES && newSize <= FILE_BYTES
    modifies vol, vol.zoneMap, inode.zone, inode`size
    ensures vol.Valid() && (r == 0 || r == -2)
    ensures inode.size == if r == 0 then newSize else old(inode.size)
    ensures newSize <= old(inode.size) ==>
      && r == 0 && Shed(old(vol.view), vol.view, i, BlocksFor(newSize), BlocksFor(old(inode.size)))
      && Returned(old(vol.view), old(vol.free), vol.view, vol.free)
      && Pruned(old(vol.view), vol.view, i, BlocksFor(newSize), BlocksFor(old(inode.size)))
      && forall fb :: BlocksFor(newSize) <= fb < BlocksFor(old(inode.size)) ==> BlockOf(vol.view, i, fb) == 0
    ensures newSize > old(inode.size) ==>
      && (Sound(vol.view) ==> Grown(old(vol.view), vol.view, i, BlocksFor(old(inode.size)), BlocksFor(newSize)))
      && (r == 0 ==> Sound(vol.view) && forall fb :: BlocksFor(old(inode.size)) <= fb < BlocksFor(newSize) ==>
                       BlockOf(vol.view, i, fb) != 0)
      && (r != 0 ==> vol.free == {} && |old(vol.free)| < 3 * (BlocksFor(newSize) - BlocksFor(old(inode.size))))
  {
    hide Sound, Shed, Grown, Pruned, Returned;
    if newSize == inode.size {
      PrunedNothing(vol.view, i, BlocksFor(newSize));
      ReturnedNothing(vol.view, vol.free);
      ShedNothing(vol.view, i, BlocksFor(newSize), BlocksFor(newSize));
      return 0;
    }
    var oldBlocks, newBlocks := BlocksFor(inode.size), BlocksFor(newSize);
    if newSize > inode.size {
      var done := Extend(vol, inode, i, oldBlocks, newBlocks);
      if !done {
        return -2;
      }
    } else {
      Release(vol, inode, i, newBlocks, oldBlocks);
    }
    inode.size := newSize;
    return 0;
  }
}

/**
 source/kernel/fs/minix/minix_misc.c: the zone map and the block map of a Minix volume, as the
 kernel sees them through its block buffers.  `view` is the whole volume as a `Store`.
 */
module MinixVolume {
  import opened MinixStore
  import opened BitMap

  /** The part of minix_inode_desc_t that the block map uses. */
  class Inode {
    const zone: array<int>
    var size: nat

    constructor ()
      ensures fresh(zone) && zone[..] == seq(9, _ => 0) && size == 0
    {
      zone := new int[9](_ => 0);
      size := 0;
    }
  }

  class Volume {
    const first: nat             // firstdatazone
    const zones: nat
    const zoneMap: array<bv8>
    const inodes: seq<Inode>
    var disk: map<int, Block>
    ghost var view: Store      // the volume as a value
    ghost var free: set<int>   // the blocks minix_dblk_alloc can hand out

    /**
     The map covers `(zones - first + 1 + 7) / 8` bytes, the blocks it stands for exist on the device,
     and none of them has a number that an error code turns into as a 16-bit block number.
     */
    ghost predicate Shaped()
      reads this
    {
      && 0 < first <= zones && zoneMap.Length == (zones - first + 8) / 8 && Limit() <= 65534
      && (forall b :: first <= b < Limit() ==> b in disk.Keys)
      && 65534 !in disk && 65535 !in disk
      && (forall i :: 0 <= i < |inodes| ==> inodes[i].zone.Length == 9 && inodes[i].zone as object != zoneMap)
      && (forall i, j :: 0 <= i < j < |inodes| ==> inodes[i].zone != inodes[j].zone)
    }

    /** An empty volume on a device: nothing marked, nothing mapped. */
    constructor (first: nat, zones: nat, inodes: seq<Inode>, disk: map<int, Block>)
      requires 0 < first <= zones && first + 8 * ((zones - first + 8) / 8) <= 65534
      requires forall b :: first <= b < first + 8 * ((zones - first + 8) / 8) ==> b in disk.Keys
      requires 65534 !in disk && 65535 !in disk
      requires forall i :: 0 <= i < |inodes| ==> inodes[i].zone[..] == seq(9, _ => 0)
      requires forall i, j :: 0 <= i < j < |inodes| ==> inodes[i].zone != inodes[j].zone
      ensures this.first == first && this.zones == zones && this.inodes == inodes && this.disk == disk && fresh(zoneMap)
      ensures Valid() && Sound(view) && view.used == {} && forall s :: Ref(view, s) == 0
    {
      var m := new bv8[(zones - first + 8) / 8](_ => 0);
      this.first, this.zones, this.inodes, this.disk, zoneMap := first, zones, inodes, disk, m;
      new;
      forall n: int ensures !BitIn(0, n % 8) && !Bit(zoneMap[..], n) {
      }
      view, free := Store(Marked(zoneMap[..]), disk, Slots()), Unmarked(zoneMap[..]);
      forall s ensures Ref(view, s) == 0 {
        EmptyRef(view, s);
      }
    }

    /** One past the last block the map can stand for. */
    function Limit(): int {
      first + 8 * zoneMap.Length
    }

    predicate BlockBit(m: seq<bv8>, b: int) {
      Bit(m, b - first)
    }

    /** The blocks of the partition that map `m` marks. */
    ghost function Marked(m: seq<bv8>): set<int> {
      set b: int | first <= b < first + zones && BlockBit(m, b)
    }

    /** The blocks minix_dblk_alloc can hand out under map `m`. */
    ghost function Unmarked(m: seq<bv8>): set<int> {
      set b: int | first <= b < first + zones && b < first + 8 * |m| && !BlockBit(m, b)
    }

    lemma MarkedSet(m: seq<bv8>, i: nat, j: nat)
      requires i < |m| && j < 8 && !Bit(m, 8 * i + j) && 8 * i + j < zones
      ensures var m' := m[i := m[i] | Mask(j)]; var b := first + 8 * i + j;
              b in Unmarked(m) && Marked(m') == Marked(m) + {b} && Unmarked(m') == Unmarked(m) - {b}
    {
      BitSet(m, i, j);
    }

    lemma MarkedClear(m: seq<bv8>, i: nat, j: nat)
      requires i < |m| && j < 8 && 8 * i + j < zones
      ensures var m' := m[i := m[i] & !Mask(j)]; var b := first + 8 * i + j;
              Marked(m') == Marked(m) - {b} && Unmarked(m') == Unmarked(m) + {b}
    {
      BitClear(m, i, j);
    }

    ghost function Slots(): map<nat, seq<int>>
      reads set i | 0 <= i < |inodes| :: inodes[i].zone
    {
      map i: nat | i < |inodes| :: inodes[i].zone[..]
    }

    ghost predicate Valid()
      reads this, zoneMap, set i | 0 <= i < |inodes| :: inodes[i].zone
    {
      Shaped() && view == Store(Marked(zoneMap[..]), disk, Slots()) && free == Unmarked(zoneMap[..])
    }

    ghost predicate Owns(inode: Inode, i: nat) {
      i < |inodes| && inodes[i] == inode
    }

    // ---- the writes ----

    /** Sets one bit of the map. */
    method SetBit(i: nat, j: nat)
      requires Valid() && i < zoneMap.Length && j < 8
      requires !Bit(zoneMap[..], 8 * i + j) && 8 * i + j < zones
      modifies zoneMap, `view, `free
      ensures Valid() && first + 8 * i + j in old(free) && free == old(free) - {first + 8 * i + j}
      ensures view == Store(old(view).used + {first + 8 * i + j}, old(view).disk, old(view).zone)
    {
      MarkedSet(zoneMap[..], i, j);
      SetByte(i, zoneMap[i] | Mask(j));
    }

    /** Clears one bit of the map. */
    method ClearBit(i: nat, j: nat)
      requires Valid() && i < zoneMap.Length && j < 8 && 8 * i + j < zones
      modifies zoneMap, `view, `free
      ensures Valid() && free == old(free) + {first + 8 * i + j}
      ensures view == Store(old(view).used - {first + 8 * i + j}, old(view).disk, old(view).zone)
    {
      MarkedClear(zoneMap[..], i, j);
      SetByte(i, zoneMap[i] & !Mask(j));
    }

    method SetByte(i: nat, v: bv8)
      requires Valid() && i < zoneMap.Length
      modifies zoneMap, `view, `free
      ensures Valid() && free == Unmarked(old(zoneMap[..])[i := v])
      ensures view == Store(Marked(old(zoneMap[..])[i := v]), old(view).disk, old(view).zone)
    {
      zoneMap[i] := v;
      view, free := Store(Marked(zoneMap[..]), view.disk, view.zone), Unmarked(zoneMap[..]);
      assert zoneMap[..] == old(zoneMap[..])[i := v];
      assert forall i :: 0 <= i < |inodes| ==> inodes[i].zone[..] == old(inodes[i].zone[..]);
    }

    /** A block number is kept in 16 bits. */
    static function U16(v: int): int {
      v % 65536
    }

    method PutZone(inode: Inode, ghost i: nat, k: nat, v: int)
      requires Valid() && Owns(inode, i) && k < 9
      modifies inode.zone, `view
      ensures Valid() && free == old(free)
      ensures Exists(old(view), Zone(i, k)) && view == Put(old(view), Zone(i, k), U16(v))
    {
      inode.zone[k] := U16(v);
      view := Put(view, Zone(i, k), U16(v));
      assert forall j :: 0 <= j < |inodes| && j != i ==> inodes[j].zone[..] == old(inodes[j].zone[..]);
      assert inode.zone[..] == old(inode.zone[..])[k := U16(v)];
    }

    method PutBlock(b: int, data: Block)
      requires Valid() && b in disk
      modifies `disk, `view
      ensures Valid() && free == old(free) && view == Fill(old(view), b, data)
    {
      disk := disk[b := data];
      view := Fill(view, b, data);
    }

    method PutWordAt(p: int, k: nat, v: int)
      requires Valid() && p in disk && k < POINTERS
      modifies `disk, `view
      ensures Valid() && free == old(free) && p in old(view).disk
      ensures view == Fill(old(view), p, PutWord(old(view).disk[p], k, U16(v)))
    {
      PutBlock(p, PutWord(disk[p], k, U16(v)));
    }

    // ---- allocation ----

    /** minix_dblk_alloc: the lowest free block, marked and zeroed. */
    method AllocBlock() returns (r: int)
      requires Valid()
      modifies zoneMap, `disk, `view, `free
      ensures Valid()
      ensures r > 0 ==> r in old(free) && view == Mark(old(view), r) && free == old(free) - {r}
      ensures r > 0 ==> forall b <- old(free) :: r <= b
      ensures r <= 0 ==> (r == -1 || r == -2) && old(free) == {} && view == old(view) && free == {}
    {
      for i := 0 to zoneMap.Length
        invariant Valid() && zoneMap[..] == old(zoneMap[..]) && disk == old(disk) && view == old(view)
        invariant free == old(free)
        invariant forall n :: 0 <= n < 8 * i ==> Bit(zoneMap[..], n)
      {
        FullByte(zoneMap[i]);
        if zoneMap[i] != 0xFF {
          for j := 0 to 8
            invariant Valid() && zoneMap[..] == old(zoneMap[..]) && disk == old(disk) && view == old(view)
            invariant free == old(free)
            invariant forall n :: 0 <= n < 8 * i + j ==> Bit(zoneMap[..], n)
            invariant exists k :: j <= k < 8 && !BitIn(zoneMap[i], k)
          {
            if zoneMap[i] & Mask(j) == 0 {
              assert forall b :: 0 <= b < 8 * i + j ==> Bit(zoneMap[..], b);
              if first + (i * 8 + j) >= first + zones {
                return -2;
              }
              SetBit(i, j);
              r := first + (i * 8 + j);
              PutBlock(r, Zeros());
              return;
            }
          }
        }
      }
      return -1;
    }

    /** minix_dblk_free: clears the mark of a block that has one. */
    method FreeBlock(blk: int) returns (r: int)
      requires Valid() && (blk < Limit() || blk >= first + zones)
      modifies zoneMap, `view, `free
      ensures Valid() && r == if blk in old(view).used then 0 else -1
      ensures view == Store(old(view).used - {blk}, old(view).disk, old(view).zone)
      ensures free == old(free) + if r == 0 then {blk} else {}
    {
      if blk < first || blk >= first + zones {
        return -1;
      }
      var bitOffset := blk - first;
      var i, j := bitOffset / 8, bitOffset % 8;
      if zoneMap[i] & Mask(j) == 0 {
        assert !BlockBit(zoneMap[..], blk);
        return -1;
      }
      assert BlockBit(zoneMap[..], blk) && bitOffset == 8 * i + j;
      ClearBit(i, j);
      return 0;
    }

    // ---- a new block into an empty slot ----

    /** What storing the result `b` of an allocation in slot `s` does to the volume. */
    ghost predicate Stored(st: Store, was: set<int>, s: Slot, b: int)
      reads this
    {
      && Exists(st, s)
      && if was == {} then (b == -1 || b == -2) && free == {} && view == Put(st, s, U16(b))
         else b in was && 0 < b < 65534 && Exists(Mark(st, b), s) && view == Hang(st, s, b) && free == was - {b}
    }

    method HangZone(inode: Inode, ghost i: nat, k: nat) returns (b: int)
      requires Valid() && Owns(inode, i) && k < 9
      modifies zoneMap, `disk, inode.zone, `view, `free
      ensures Valid() && Stored(old(view), old(free), Zone(i, k), b)
    {
      b := AllocBlock();
      PutZone(inode, i, k, b);
    }

    method HangEntry(p: int, ghost s: Slot, k: nat) returns (b: int)
      requires Valid() && Sound(view) && k < POINTERS
      requires !s.Zone? && s.k == k && Ref(view, Parent(s)) == p && p != 0
      modifies zoneMap, `disk, `view, `free
      ensures Valid() && Stored(old(view), old(free), s, b)
    {
      hide Slots, Sound, Put, Hang, Exists;
      b := AllocBlock();
      EntryStored(old(view), s, p, b);
      PutWordAt(p, k, b);
    }

    /** An entry of a pointer block is stored, after `b` has been marked or with nothing marked. */
    static lemma EntryStored(st: Store, s: Slot, p: int, b: int)
      requires Sound(st) && b !in st.used && b < 65536
      requires !s.Zone? && s.k < POINTERS && Ref(st, Parent(s)) == p && p != 0
      ensures Exists(st, s) && p in st.disk && Put(st, s, U16(b)) == Fill(st, p, PutWord(st.disk[p], s.k, U16(b)))
      ensures b > 0 ==>
        var mid := Mark(st, b);
        Exists(mid, s) && p in mid.disk && Hang(st, s, b) == Fill(mid, p, PutWord(mid.disk[p], s.k, U16(b)))
    {
      hide Put, Hang, Fill, Mark, Exists, Sound;
      RefOnDisk(st, Parent(s));
      PutEntry(st, s, p, U16(b));
      if b > 0 {
        MinixStore.HangEntry(st, s, p, b);
      }
    }

    // ---- inode_get_block ----

    lemma ZoneRef(inode: Inode, i: nat, k: nat)
      requires Valid() && Owns(inode, i) && k < 9
      ensures inode.zone.Length == 9 && inode.zone[k] == Ref(view, Zone(i, k))
    {
    }

    method HandleDirect(inode: Inode, ghost i: nat, fb: nat, create: bool) returns (r: int)
      requires Valid() && Owns(inode, i) && Sound(view) && fb < DIRECT
      modifies zoneMap, `disk, inode.zone, `view, `free
      ensures Valid()
      ensures Fetched(old(view), old(free), view, free, LeafSlot(i, fb), MissingPointers(old(view), i, fb), create, r)
    {
      hide Sound, Mapped, SameFiles, Put, Mark, Exists, Ref;
      ZoneRef(inode, i, fb);
      if inode.zone[fb] != 0 {
        return inode.zone[fb];
      }
      if create {
        var b := AllocBlock();
        if b > 0 {
          HangLeaf(old(view), Zone(i, fb), b);
          PutZone(inode, i, fb, b);
          return b;
        }
      }
      SameAsItself(view);
      return -1;
    }

    /** The data block in entry `k` of the pointer block `p`, the common end of the two indirect handlers. */
    method HandleEntry(p: int, ghost s: Slot, k: nat, create: bool) returns (r: int)
      requires Valid() && Sound(view) && p in disk && p != 0 && k < POINTERS
      requires (s.Ind? || s.DblInd?) && s.k == k && Ref(view, Parent(s)) == p
      modifies zoneMap, `disk, `view, `free
      ensures Valid()
      ensures Fetched(old(view), old(free), view, free, s, 0, create, r)
    {
      hide Sound, Mapped, SameFiles, Keeps, Put, Mark, Slots, Exists;
      MinixStore.PutEntry(view, s, p, 0);
      SameAsItself(view);
      if Word(disk[p], k) != 0 {
        return Word(disk[p], k);
      }
      if create {
        var b := AllocBlock();
        if b > 0 {
          MinixStore.HangEntry(old(view), s, p, b);
          HangLeaf(old(view), s, b);
          PutWordAt(p, k, b);
          return b;
        }
      }
      return -1;
    }

    /** The pointer block `p` of slot `s`, hung there if it was missing and `create` is set. */
    ghost predicate Reached(st: Store, was: set<int>, s: Slot, create: bool, p: int)
      reads this
    {
      if Ref(st, s) != 0 || !create then p == Ref(st, s) && view == st && free == was
      else if was != {} then 
        && SameFiles(st, view) && Sound(view) && st.used <= view.used && p in was && free == was - {p}
        && forall t :: Ref(view, t) == if t == s then p else Ref(st, t)
      else p != 0 && p !in disk && !Sound(view) && free == {}
    }

    method ReachZone(inode: Inode, ghost i: nat, k: nat, create: bool) returns (p: int)
      requires Valid() && Owns(inode, i) && Sound(view) && 7 <= k < 9
      modifies zoneMap, `disk, inode.zone, `view, `free
      ensures Valid() && Reached(old(view), old(free), Zone(i, k), create, p)
    {
      hide Sound, Mapped, SameFiles;
      assert inode.zone[k] == Ref(view, Zone(i, k));
      if inode.zone[k] == 0 && create {
        var b := HangZone(inode, i, k);
        if b > 0 { HangPointer(old(view), Zone(i, k), b); }
        assert inode.zone[k] == Ref(view, Zone(i, k));
        if inode.zone[k] !in disk && Sound(view) { RefOnDisk(view, Zone(i, k)); }
      }
      return inode.zone[k];
    }

    /** handle_indirect_block: file blocks 7 to 518, through zone[7]. */
    method HandleIndirect(inode: Inode, ghost i: nat, fb: nat, create: bool) returns (r: int)
      requires Valid() && Owns(inode, i) && Sound(view) && DIRECT <= fb < INDIRECT_LIMIT
      modifies zoneMap, `disk, inode.zone, `view, `free
      ensures Valid()
      ensures Fetched(old(view), old(free), view, free, LeafSlot(i, fb), MissingPointers(old(view), i, fb), create, r)
    {
      hide Sound, Mapped, SameFiles;
      var p := ReachZone(inode, i, 7, create);
      if p == 0 {
        return -1;
      }
      if Sound(view) { RefOnDisk(view, Zone(i, 7)); }
      if p !in disk {
        return -2;
      }
      ghost var st1 := view;
      r := HandleEntry(p, Ind(i, fb - DIRECT), fb - DIRECT, create);
      if Ref(old(view), Zone(i, 7)) == 0 {
        FetchedBelow(old(view), old(free), p, st1, view, free, Ind(i, fb - DIRECT), 0, r);
      }
    }

    /**
     Entry `k` of the double indirect block `p`, filled with a new pointer block if it is empty and
     `create` is set.
     */
    method ReachEntry(p: int, ghost i: nat, k: nat, create: bool) returns (q: int)
      requires Valid() && Sound(view) && k < POINTERS && Ref(view, Zone(i, 8)) == p && p != 0
      modifies zoneMap, `disk, `view, `free
      ensures Valid() && Reached(old(view), old(free), Dbl(i, k), create, q)
    {
      hide Sound, Mapped, SameFiles, Exists, Fill, Keeps, Slots;
      RefOnDisk(view, Zone(i, 8));
      q := Word(disk[p], k);
      if q == 0 && create {
        var b := HangEntry(p, Dbl(i, k), k);
        if b > 0 {
          HangPointer(old(view), Dbl(i, k), b);
        }
        q := U16(b);
        if q !in disk && Sound(view) { RefOnDisk(view, Dbl(i, k)); }
      }
    }

    /** handle_double_indirect_block: the file blocks from 519 on, through zone[8]. */
    method HandleDoubleIndirect(inode: Inode, ghost i: nat, fb: nat, create: bool) returns (r: int)
      requires Valid() && Owns(inode, i) && Sound(view) && INDIRECT_LIMIT <= fb < FILE_LIMIT
      modifies zoneMap, `disk, inode.zone, `view, `free
      ensures Valid()
      ensures Fetched(old(view), old(free), view, free, LeafSlot(i, fb), MissingPointers(old(view), i, fb), create, r)
    {
      hide Sound, Mapped, SameFiles, Slots;
      var k1, k2 := (fb - INDIRECT_LIMIT) / POINTERS, (fb - INDIRECT_LIMIT) % POINTERS;
      var p := ReachZone(inode, i, 8, create);
      assert Ref(old(view), Zone(i, 8)) == 0 ==> Ref(old(view), Dbl(i, k1)) == 0;
      if p == 0 {
        return -1;
      }
      if Sound(view) { RefOnDisk(view, Zone(i, 8)); }
      if p !in disk {
        return -2;
      }
      ghost var st1 := view;
      r := HandleSecond(p, i, k1, k2, create);
      if Ref(old(view), Zone(i, 8)) == 0 {
        FetchedBelow(old(view), old(free), p, st1, view, free, DblInd(i, k1, k2), 1, r);
      }
    }

    /** The second half of handle_double_indirect_block, from the double indirect block `p` on. */
    method HandleSecond(p: int, ghost i: nat, k1: nat, k2: nat, create: bool) returns (r: int)
      requires Valid() && Sound(view) && k1 < POINTERS && k2 < POINTERS && Ref(view, Zone(i, 8)) == p && p != 0
      modifies zoneMap, `disk, `view, `free
      ensures Valid()
      ensures var need := if Ref(old(view), Dbl(i, k1)) == 0 then 1 else 0;
              Fetched(old(view), old(free), view, free, DblInd(i, k1, k2), need, create, r)
    {
      hide Sound, Mapped, SameFiles;
      var q := ReachEntry(p, i, k1, create);
      if q == 0 {
        return -1;
      }
      if Sound(view) { RefOnDisk(view, Dbl(i, k1)); }
      if q !in disk {
        return -3;
      }
      ghost var st1 := view;
      r := HandleEntry(q, DblInd(i, k1, k2), k2, create);
      if Ref(old(view), Dbl(i, k1)) == 0 {
        FetchedBelow(old(view), old(free), q, st1, view, free, DblInd(i, k1, k2), 0, r);
      }
    }

    /** inode_get_block */
    method GetBlock(inode: Inode, ghost i: nat, fb: int, create: bool) returns (r: int)
      requires Valid() && Owns(inode, i) && Sound(view) && fb < FILE_LIMIT
      modifies zoneMap, `disk, inode.zone, `view, `free
      ensures Valid()
      ensures if fb < 0 then r == -1 && view == old(view) && free == old(free)
              else Fetched(old(view), old(free), view, free, LeafSlot(i, fb), MissingPointers(old(view), i, fb),
                create, r)
    {
      if fb < 0 {
        return -1;
      }
      if fb < DIRECT {
        r := HandleDirect(inode, i, fb, create);
      } else if fb < INDIRECT_LIMIT {
        r := HandleIndirect(inode, i, fb, create);
      } else {
        r := HandleDoubleIndirect(inode, i, fb, create);
      }
    }
  }

  /** One free block, and it is used up: the next call of an unmapped file block far enough out corrupts the volume. */
  method OutOfBlocks(disk: map<int, Block>) returns (vol: Volume, a: int, b: int)
    requires (forall d :: 1 <= d < 9 ==> d in disk.Keys) && 65534 !in disk && 65535 !in disk
    ensures vol.Valid() && a == 1 && b < 0 && !Sound(vol.view)
  {
    var inode := new Inode();
    vol := new Volume(1, 1, [inode], disk);
    OneFree(vol);
    a := vol.GetBlock(inode, 0, 0, true);
    assert vol.free == {};
    b := vol.GetBlock(inode, 0, 7, true);
  }

  lemma OneFree(vol: Volume)
    requires vol.Valid() && vol.first == vol.zones == 1 && vol.view.used == {}
    ensures vol.free == {1}
  {
    assert 1 in vol.Marked(vol.zoneMap[..]) <==> vol.BlockBit(vol.zoneMap[..], 1);
  }
}

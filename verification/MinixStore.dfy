/**
 The block map of a Minix volume as a value: which blocks are marked in the zone map, what every
 block holds, and the nine zone slots of every inode.

 A slot is a place that holds a block number.  `Ref` follows slots through the pointer blocks.
 `Sound` says that no block hangs in two slots and that every referenced block is marked; every
 operation on the volume is made of the four steps below, each of which keeps `Sound`.
 */
module MinixStore {
  import opened Bytes

  const BLOCK_SIZE: nat := 1024
  const POINTERS: nat := 512   // block numbers (two bytes each) in a pointer block
  const DIRECT: nat := 7
  const INDIRECT_LIMIT: nat := 519
  const FILE_LIMIT: nat := 262663  // one past the last file block the map can address

  type Block = b: seq<byte> | |b| == 1024 witness seq(1024, _ => 0)

  function Zeros(): Block {
    seq(1024, _ => 0)
  }

  datatype Store = Store(used: set<int>, disk: map<int, Block>, zone: map<nat, seq<int>>)

  /** Zone: in the inode.  Ind: in the indirect block.  Dbl: in the double indirect block, and DblInd below it. */
  datatype Slot = Zone(i: nat, k: nat) | Ind(i: nat, k: nat) | Dbl(i: nat, k: nat) | DblInd(i: nat, k1: nat, k: nat)

  function Word(b: Block, k: nat): int
    requires k < POINTERS
  {
    b[2 * k] as int + 256 * (b[2 * k + 1] as int)
  }

  function PutWord(b: Block, k: nat, v: int): Block
    requires k < POINTERS && 0 <= v < 65536
  {
    b[2 * k := v % 256][2 * k + 1 := v / 256]
  }

  lemma WordPutWord(b: Block, k: nat, v: int, j: nat)
    requires k < POINTERS && j < POINTERS && 0 <= v < 65536
    ensures Word(PutWord(b, k, v), j) == if j == k then v else Word(b, j)
  {
  }

  /** Entry `k` of pointer block `b`; no block, no entry. */
  function EntryOf(st: Store, b: int, k: nat): int {
    if b == 0 || b !in st.disk || k >= POINTERS then 0 else Word(st.disk[b], k)
  }

  /** How many pointer blocks lie above the slot. */
  function Depth(s: Slot): nat {
    match s
    case Zone(_, _) => 0
    case Ind(_, _) => 1
    case Dbl(_, _) => 1
    case DblInd(_, _, _) => 2
  }

  function Ref(st: Store, s: Slot): int
    decreases Depth(s)
  {
    match s
    case Zone(i, k) => if i in st.zone && k < |st.zone[i]| then st.zone[i][k] else 0
    case Ind(i, k) => EntryOf(st, Ref(st, Zone(i, 7)), k)
    case Dbl(i, k) => EntryOf(st, Ref(st, Zone(i, 8)), k)
    case DblInd(i, k1, k) => EntryOf(st, Ref(st, Dbl(i, k1)), k)
  }

  /** The slot that leads to the block this slot is in. */
  function Parent(s: Slot): Slot {
    match s
    case Zone(i, _) => s
    case Ind(i, _) => Zone(i, 7)
    case Dbl(i, _) => Zone(i, 8)
    case DblInd(i, k1, _) => Dbl(i, k1)
  }

  /** Slots for data blocks, as opposed to pointer blocks. */
  predicate IsLeaf(s: Slot) {
    s.Ind? || s.DblInd? || (s.Zone? && s.k < DIRECT)
  }

  /** The slot of file block `fb` of inode `i`. */
  function LeafSlot(i: nat, fb: nat): (s: Slot)
    requires fb < FILE_LIMIT
    ensures IsLeaf(s)
  {
    if fb < DIRECT then Zone(i, fb)
    else if fb < INDIRECT_LIMIT then Ind(i, fb - DIRECT)
    else DblInd(i, (fb - INDIRECT_LIMIT) / POINTERS, (fb - INDIRECT_LIMIT) % POINTERS)
  }

  lemma LeafSlotInjective(i: nat, fb: nat, j: nat, gb: nat)
    requires fb < FILE_LIMIT && gb < FILE_LIMIT && LeafSlot(i, fb) == LeafSlot(j, gb)
    ensures i == j && fb == gb
  {
  }

  /** The block behind file block `fb` of inode `i`, 0 if there is none. */
  function BlockOf(st: Store, i: nat, fb: nat): int
    requires fb < FILE_LIMIT
  {
    Ref(st, LeafSlot(i, fb))
  }

  lemma EmptyRef(st: Store, s: Slot)
    requires forall i <- st.zone :: forall k :: 0 <= k < |st.zone[i]| ==> st.zone[i][k] == 0
    ensures Ref(st, s) == 0
  {
    match s
    case DblInd(i, k1, _) => assert Ref(st, Dbl(i, k1)) == 0;
    case _ =>
  }

  ghost predicate Sound(st: Store) {
    && (forall i <- st.zone :: |st.zone[i]| == 9)
    && (forall s :: Ref(st, s) != 0 ==> Ref(st, s) in st.used)
    && (forall s, t :: s != t && Ref(st, s) == Ref(st, t) ==> Ref(st, s) == 0)
    && (forall b <- st.used :: b in st.disk && 0 < b < 65536)
  }

  /** A marked block that no slot holds and that is all zero. */
  ghost predicate Spare(st: Store, b: int) {
    b in st.used && b in st.disk && st.disk[b] == Zeros() && forall s :: Ref(st, s) != b
  }

  /** The slot exists: its inode does, or the pointer block it is in. */
  predicate Exists(st: Store, s: Slot) {
    if s.Zone? then s.i in st.zone && s.k < |st.zone[s.i]|
    else s.k < POINTERS && Ref(st, Parent(s)) != 0 && Ref(st, Parent(s)) in st.disk
  }

  // ---- the steps ----

  function Mark(st: Store, b: int): Store {
    Store(st.used + {b}, st.disk[b := Zeros()], st.zone)
  }

  function Put(st: Store, s: Slot, v: int): Store
    requires Exists(st, s) && 0 <= v < 65536
  {
    if s.Zone? then Store(st.used, st.disk, st.zone[s.i := st.zone[s.i][s.k := v]])
    else Store(st.used, st.disk[Ref(st, Parent(s)) := PutWord(st.disk[Ref(st, Parent(s))], s.k, v)], st.zone)
  }

  function Drop(st: Store, s: Slot): Store
    requires Exists(st, s)
  {
    Store(st.used - {Ref(st, s)}, Put(st, s, 0).disk, Put(st, s, 0).zone)
  }

  function Fill(st: Store, b: int, data: Block): Store {
    Store(st.used, st.disk[b := data], st.zone)
  }

  /** Marking a free block and zeroing it. */
  lemma MarkSound(st: Store, b: int)
    requires Sound(st) && b !in st.used && 0 < b < 65536
    ensures Sound(Mark(st, b)) && Spare(Mark(st, b), b)
    ensures forall s :: Ref(Mark(st, b), s) == Ref(st, s)
  {
    var st' := Mark(st, b);
    forall s ensures Ref(st', s) == Ref(st, s) {
      MarkRef(st, b, s);
    }
  }

  lemma {:induction false} MarkRef(st: Store, b: int, s: Slot)
    requires Sound(st) && b !in st.used
    ensures Ref(Mark(st, b), s) == Ref(st, s)
    decreases Depth(s)
  {
    if !s.Zone? {
      MarkRef(st, b, Parent(s));
    }
  }

  /** Hanging a spare block into an empty slot. */
  lemma PutSound(st: Store, s: Slot, b: int)
    requires Sound(st) && Spare(st, b) && Exists(st, s) && Ref(st, s) == 0
    ensures Sound(Put(st, s, b))
    ensures forall t :: Ref(Put(st, s, b), t) == if t == s then b else Ref(st, t)
  {
    forall t ensures Ref(Put(st, s, b), t) == if t == s then b else Ref(st, t) {
      PutRef(st, s, b, t);
    }
  }

  lemma {:induction false} PutRef(st: Store, s: Slot, b: int, t: Slot)
    requires Sound(st) && Spare(st, b) && Exists(st, s) && Ref(st, s) == 0
    ensures Ref(Put(st, s, b), t) == if t == s then b else Ref(st, t)
    decreases Depth(t)
  {
    var st' := Put(st, s, b);
    if !t.Zone? {
      PutRef(st, s, b, Parent(t));
      if Parent(t) == s {
        // `t` is in the spare block: nothing was there, and nothing is
        assert Ref(st', Parent(t)) == b && st'.disk[b] == Zeros();
      } else if !s.Zone? && Ref(st, Parent(t)) == Ref(st, Parent(s)) && Ref(st, Parent(t)) != 0 && t.k < POINTERS {
        assert Parent(t) == Parent(s);
        WordPutWord(st.disk[Ref(st, Parent(s))], s.k, b, t.k);
      }
    }
  }

  /** Nothing hangs below the slot. */
  ghost predicate Childless(st: Store, s: Slot) {
    forall t :: t != s && Parent(t) == s ==> Ref(st, t) == 0
  }

  lemma LeafChildless(st: Store, s: Slot)
    requires IsLeaf(s)
    ensures Childless(st, s)
  {
  }

  /** Emptying a slot below which nothing hangs, and clearing the mark of its block. */
  lemma DropSound(st: Store, s: Slot)
    requires Sound(st) && Exists(st, s) && Childless(st, s)
    ensures Sound(Drop(st, s))
    ensures forall t :: Ref(Drop(st, s), t) == if t == s then 0 else Ref(st, t)
  {
    forall t ensures Ref(Drop(st, s), t) == if t == s then 0 else Ref(st, t) {
      DropRef(st, s, t);
    }
  }

  lemma {:induction false} DropRef(st: Store, s: Slot, t: Slot)
    requires Sound(st) && Exists(st, s) && Childless(st, s)
    ensures Ref(Drop(st, s), t) == if t == s then 0 else Ref(st, t)
    decreases Depth(t)
  {
    if !t.Zone? {
      DropRef(st, s, Parent(t));
      var p := Ref(st, Parent(t));
      if Parent(t) != s && !s.Zone? && p == Ref(st, Parent(s)) && p != 0 && t.k < POINTERS {
        assert Parent(t) == Parent(s);
        WordPutWord(st.disk[Ref(st, Parent(s))], s.k, 0, t.k);
      }
    }
  }

  /** Writing a data block. */
  lemma FillSound(st: Store, s: Slot, data: Block)
    requires Sound(st) && IsLeaf(s) && Ref(st, s) != 0
    ensures Sound(Fill(st, Ref(st, s), data))
    ensures forall t :: Ref(Fill(st, Ref(st, s), data), t) == Ref(st, t)
  {
    forall t ensures Ref(Fill(st, Ref(st, s), data), t) == Ref(st, t) {
      FillRef(st, s, data, t);
    }
  }

  lemma {:induction false} FillRef(st: Store, s: Slot, data: Block, t: Slot)
    requires Sound(st) && IsLeaf(s) && Ref(st, s) != 0
    ensures Ref(Fill(st, Ref(st, s), data), t) == Ref(st, t)
    decreases Depth(t)
  {
    if !t.Zone? {
      FillRef(st, s, data, Parent(t));
      assert !IsLeaf(Parent(t));
    }
  }

  // ---- hanging a new block into a slot ----

  function Hang(st: Store, s: Slot, b: int): Store
    requires Exists(Mark(st, b), s) && 0 <= b < 65536
  {
    Put(Mark(st, b), s, b)
  }

  /** Storing into an entry of a pointer block, seen as a write of that block. */
  lemma PutEntry(st: Store, s: Slot, p: int, v: int)
    requires !s.Zone? && s.k < POINTERS && p == Ref(st, Parent(s)) && p != 0 && p in st.disk && 0 <= v < 65536
    ensures Exists(st, s) && Put(st, s, v) == Fill(st, p, PutWord(st.disk[p], s.k, v))
    ensures Ref(st, s) == Word(st.disk[p], s.k)
  {
  }

  lemma HangEntry(st: Store, s: Slot, p: int, b: int)
    requires Sound(st) && b !in st.used && 0 < b < 65536
    requires !s.Zone? && s.k < POINTERS && p == Ref(st, Parent(s)) && p != 0
    ensures Exists(st, s) && Exists(Mark(st, b), s) && p in Mark(st, b).disk
    ensures Hang(st, s, b) == Fill(Mark(st, b), p, PutWord(Mark(st, b).disk[p], s.k, b))
  {
    MarkRef(st, b, Parent(s));
    PutEntry(Mark(st, b), s, p, b);
  }

  /** Every data block stays where it is and keeps its contents. */
  ghost predicate Keeps(st: Store, st': Store) {
    forall t :: IsLeaf(t) && Ref(st, t) != 0 ==>
      && Ref(st', t) == Ref(st, t)
      && Ref(st, t) in st.disk && Ref(st, t) in st'.disk && st'.disk[Ref(st, t)] == st.disk[Ref(st, t)]
  }

  /** No file block but the one of slot `s` is mapped or unmapped. */
  ghost predicate OnlyMaps(st: Store, st': Store, s: Slot) {
    forall t :: IsLeaf(t) && t != s ==> Ref(st', t) == Ref(st, t)
  }

  lemma HangSound(st: Store, s: Slot, b: int)
    requires Sound(st) && b !in st.used && 0 < b < 65536 && Exists(st, s) && Ref(st, s) == 0
    ensures Exists(Mark(st, b), s)
    ensures var st' := Hang(st, s, b);
            && Sound(st') && Keeps(st, st') && OnlyMaps(st, st', s)
            && st'.used == st.used + {b} && b in st'.disk && st'.disk[b] == Zeros()
            && (forall t :: Ref(st', t) == if t == s then b else Ref(st, t))
  {
    MarkSound(st, b);
    PutSound(Mark(st, b), s, b);
    assert s.Zone? || !IsLeaf(Parent(s));
  }

  /** How many pointer blocks are missing on the way to the slot of a file block. */
  function MissingPointers(st: Store, i: nat, fb: nat): nat
    requires fb < FILE_LIMIT
  {
    match LeafSlot(i, fb)
    case Zone(_, _) => 0
    case Ind(_, _) => if Ref(st, Zone(i, 7)) == 0 then 1 else 0
    case DblInd(_, k1, _) => if Ref(st, Zone(i, 8)) == 0 then 2 else if Ref(st, Dbl(i, k1)) == 0 then 1 else 0
    case Dbl(_, _) => 0
  }

  /**
   In a sound volume every slot leads to a block of the device; a failed allocation of a pointer
   block breaks this.
   */
  lemma RefOnDisk(st: Store, s: Slot)
    requires Sound(st) && Ref(st, s) != 0
    ensures Ref(st, s) in st.disk && Ref(st, s) in st.used && Ref(st, s) > 0
  {
  }

  /** No file block is mapped, unmapped or changed; pointer blocks may have come. */
  ghost predicate SameFiles(st: Store, st': Store) {
    && Sound(st') && Keeps(st, st') && st'.zone.Keys == st.zone.Keys
    && forall t :: IsLeaf(t) ==> Ref(st', t) == Ref(st, t)
  }

  /** The unmapped file block of slot `s` now has the unmarked block `b`, all zero; no other file block differs. */
  ghost predicate Mapped(st: Store, st': Store, s: Slot, b: int) {
    && Sound(st') && Keeps(st, st') && OnlyMaps(st, st', s) && st'.zone.Keys == st.zone.Keys
    && Ref(st, s) == 0 && Ref(st', s) == b && b > 0 && b !in st.used && b in st'.disk && st'.disk[b] == Zeros()
  }

  lemma HangPointer(st: Store, s: Slot, b: int)
    requires Sound(st) && b !in st.used && 0 < b < 65536 && Exists(st, s) && Ref(st, s) == 0 && !IsLeaf(s)
    ensures Exists(Mark(st, b), s) && SameFiles(st, Hang(st, s, b))
    ensures forall t :: Ref(Hang(st, s, b), t) == if t == s then b else Ref(st, t)
  {
    HangSound(st, s, b);
  }

  lemma HangLeaf(st: Store, s: Slot, b: int)
    requires Sound(st) && b !in st.used && 0 < b < 65536 && Exists(st, s) && Ref(st, s) == 0 && IsLeaf(s)
    ensures Exists(Mark(st, b), s) && Mapped(st, Hang(st, s, b), s, b)
  {
    HangSound(st, s, b);
  }

  lemma SameAsItself(st: Store)
    requires Sound(st)
    ensures SameFiles(st, st)
  {
  }

  /**
   Fetching the block of leaf slot `s`, from volume `st` with free blocks `free` to `st'` with
   `free'`, when `need` pointer blocks are missing on the way.  With fewer free blocks than that the
   failure code of the allocation lands in a slot.
   */
  ghost predicate Fetched(st: Store, free: set<int>, st': Store, free': set<int>, s: Slot, need: nat, create: bool,
                          r: int) {
    if Ref(st, s) != 0 then r == Ref(st, s) && st' == st && free' == free
    else if !create then r == -1 && st' == st && free' == free
    else if |free| > need then
      Mapped(st, st', s, r) && r in free && free' <= free - {r} && |free'| == |free| - need - 1
    else if |free| == need then r == -1 && SameFiles(st, st') && free' == {}
    else r < 0 && !Sound(st') && free' == {}
  }

  /** One more missing pointer block above. */
  lemma FetchedBelow(st: Store, free: set<int>, p: int, st1: Store, st2: Store, free2: set<int>, s: Slot, need: nat,
                     r: int)
    requires Sound(st) && SameFiles(st, st1) && p in free && st.used <= st1.used && IsLeaf(s) && Ref(st, s) == 0
    requires Fetched(st1, free - {p}, st2, free2, s, need, true, r)
    ensures Fetched(st, free, st2, free2, s, need + 1, true, r)
  {
  }

  /**
   A call that finds no block either maps one or fails, and the volume stays sound exactly if the
   pointer blocks could be had.
   */
  lemma FetchedSound(st: Store, free: set<int>, st': Store, free': set<int>, s: Slot, need: nat, r: int)
    requires Sound(st) && Ref(st, s) == 0 && Fetched(st, free, st', free', s, need, true, r)
    ensures Sound(st') <==> |free| >= need
    ensures r > 0 <==> |free| > need
  {
  }

  // ---- runs of calls ----

  datatype Call = Call(i: nat, fb: nat, create: bool)

  ghost predicate Step(st: Store, free: set<int>, st': Store, free': set<int>, c: Call, r: int) {
    c.fb < FILE_LIMIT && Fetched(st, free, st', free', LeafSlot(c.i, c.fb), MissingPointers(st, c.i, c.fb), c.create, r)
  }

  /** Any calls on any inodes, one after the other: the volume and its free blocks before and after each. */
  ghost predicate Run(sts: seq<Store>, frees: seq<set<int>>, calls: seq<Call>, rs: seq<int>) {
    && |sts| == |frees| == |calls| + 1 && |rs| == |calls|
    && forall k :: 0 <= k < |calls| ==> Step(sts[k], frees[k], sts[k + 1], frees[k + 1], calls[k], rs[k])
  }

  lemma StepKeeps(st: Store, free: set<int>, st': Store, free': set<int>, c: Call, r: int)
    requires Sound(st) && Step(st, free, st', free', c, r) && |free| >= 3
    ensures Sound(st') && Keeps(st, st') && |free'| >= |free| - 3
    ensures c.create ==> r > 0 && Ref(st', LeafSlot(c.i, c.fb)) == r
  {
    SameAsItself(st);
  }

  lemma KeepsTwice(st: Store, st1: Store, st2: Store)
    requires Keeps(st, st1) && Keeps(st1, st2)
    ensures Keeps(st, st2)
  {
  }

  /**
   Given enough free blocks a run keeps the volume sound and every mapped file block where it is,
   with its contents.
   */
  lemma {:induction false} RunKeeps(sts: seq<Store>, frees: seq<set<int>>, calls: seq<Call>, rs: seq<int>, m: nat,
                                    n: nat)
    requires Run(sts, frees, calls, rs) && Sound(sts[0]) && |frees[0]| >= 3 * |calls| && m <= n <= |calls|
    ensures Sound(sts[m]) && Sound(sts[n]) && Keeps(sts[m], sts[n]) && |frees[n]| >= 3 * (|calls| - n)
    ensures m < |calls| && calls[m].create ==> rs[m] > 0 && Ref(sts[m + 1], LeafSlot(calls[m].i, calls[m].fb)) == rs[m]
    decreases n
  {
    hide Sound, Keeps, Step, LeafSlot, Ref;
    if m < n {
      RunKeeps(sts, frees, calls, rs, m, n - 1);
      StepKeeps(sts[n - 1], frees[n - 1], sts[n], frees[n], calls[n - 1], rs[n - 1]);
      KeepsTwice(sts[m], sts[n - 1], sts[n]);
    } else {
      if n > 0 {
        RunKeeps(sts, frees, calls, rs, n - 1, n - 1);
        StepKeeps(sts[n - 1], frees[n - 1], sts[n], frees[n], calls[n - 1], rs[n - 1]);
      }
      KeepsItself(sts[n]);
      if n < |calls| {
        StepKeeps(sts[n], frees[n], sts[n + 1], frees[n + 1], calls[n], rs[n]);
      }
    }
  }

  lemma KeepsItself(st: Store)
    requires Sound(st)
    ensures Keeps(st, st)
  {
  }

  /** Along such a run different file blocks, of one file or of several, are given different blocks. */
  lemma RunDistinct(sts: seq<Store>, frees: seq<set<int>>, calls: seq<Call>, rs: seq<int>, m: nat, n: nat)
    requires Run(sts, frees, calls, rs) && Sound(sts[0]) && |frees[0]| >= 3 * |calls| && m < n < |calls|
    requires calls[m].create && calls[n].create
    ensures rs[m] == rs[n] <==> (calls[m].i == calls[n].i && calls[m].fb == calls[n].fb)
  {
    RunKeeps(sts, frees, calls, rs, m, m);
    RunKeeps(sts, frees, calls, rs, n, n);
    RunKeeps(sts, frees, calls, rs, m + 1, n + 1);
    var s, t := LeafSlot(calls[m].i, calls[m].fb), LeafSlot(calls[n].i, calls[n].fb);
    assert Ref(sts[n + 1], s) == rs[m] && Ref(sts[n + 1], t) == rs[n];
    if s == t { LeafSlotInjective(calls[m].i, calls[m].fb, calls[n].i, calls[n].fb); }
  }
}

/**
 source/kernel/fs/buffer.c: a write-back cache of 64 pages of four blocks each, the least recently
 used one giving way.  `view` is the plain page store it stands for.

 Buffers are named by their index in fs_buffer; the red-black tree that finds them by key is a map.
 A device is the map of the pages it has: reading another page fails, writing one it has does not.
 */
module BufferCache {
  import M = MinixStore

  const BUFFERS: nat := 64   // FS_BUFFER_NR

  /** A device and the number of the first of four blocks. */
  datatype Key = Key(major: int, minor: int, blk: nat)

  function ZeroPage(): seq<M.Block> {
    [M.Zeros(), M.Zeros(), M.Zeros(), M.Zeros()]
  }

  type Page = p: seq<M.Block> | |p| == 4 witness ZeroPage()

  /** buffer_t */
  datatype Buffer = Buffer(key: Key, page: Page, dirty: bool, valid: bool)

  function Released(): Buffer {
    Buffer(Key(0, 0, 0), ZeroPage(), false, false)
  }

  /** align_down(blk, 4) */
  function PageOf(major: int, minor: int, blk: nat): Key {
    Key(major, minor, blk / 4 * 4)
  }

  // ---- where the buffers are ----

  function Below(n: nat): (r: set<nat>)
    ensures |r| == n && forall i: nat :: i in r <==> i < n
  {
    if n == 0 then {} else Below(n - 1) + {n - 1}
  }

  /** Every buffer is in exactly one place: on the free list, on the LRU list or in hand. */
  ghost predicate Placed(free: seq<nat>, lru: seq<nat>, hand: multiset<nat>, all: set<nat>) {
    multiset(free) + multiset(lru) + hand == multiset(all) && |all| == BUFFERS && forall b <- all :: b < BUFFERS
  }

  lemma Counts(f: seq<nat>, l: seq<nat>, hand: multiset<nat>, all: set<nat>)
    requires Placed(f, l, hand, all)
    ensures |f| + |l| + |hand| == BUFFERS
  {
    assert |multiset(f) + multiset(l) + hand| == |multiset(f)| + |multiset(l)| + |hand|;
    assert |multiset(all)| == |all|;
  }

  lemma FirstToHand(f: seq<nat>, l: seq<nat>, all: set<nat>)
    requires Placed(f, l, multiset{}, all) && l != []
    ensures Placed(f, l[1..], multiset{l[0]}, all)
  {
    assert l == [l[0]] + l[1..];
  }

  lemma FreeToHand(f: seq<nat>, l: seq<nat>, all: set<nat>)
    requires Placed(f, l, multiset{}, all) && f != []
    ensures Placed(f[1..], l, multiset{f[0]}, all)
  {
    assert f == [f[0]] + f[1..];
  }

  lemma OutOfHand(f: seq<nat>, l: seq<nat>, b: nat, all: set<nat>)
    requires Placed(f, l, multiset{b}, all)
    ensures Placed(f + [b], l, multiset{}, all) && Placed(f, l + [b], multiset{}, all)
    ensures b < BUFFERS && b !in l && b !in f
  {
    assert (multiset(f) + multiset(l) + multiset{b})[b] == multiset(f)[b] + multiset(l)[b] + 1;
    assert b in multiset(all);
  }

  lemma LruDistinct(f: seq<nat>, l: seq<nat>, all: set<nat>, i: nat, j: nat)
    requires Placed(f, l, multiset{}, all) && i < j < |l|
    ensures l[i] != l[j]
  {
    assert l == l[..i] + [l[i]] + l[i + 1..] && l[j] in l[i + 1..];
    var x := l[i];
    assert multiset(l)[x] == multiset(l[..i])[x] + 1 + multiset(l[i + 1..])[x];
    assert (multiset(f) + multiset(l) + multiset{})[x] <= multiset(all)[x] <= 1;
  }

  /** Buffer `k` of the LRU list moved to its end. */
  function Touched(l: seq<nat>, k: nat): seq<nat>
    requires k < |l|
  {
    l[..k] + l[k + 1..] + [l[k]]
  }

  lemma ToTheEnd(f: seq<nat>, l: seq<nat>, k: nat, all: set<nat>)
    requires Placed(f, l, multiset{}, all) && k < |l|
    ensures Placed(f, Touched(l, k), multiset{}, all) && forall b :: b in Touched(l, k) <==> b in l
  {
    assert l == l[..k] + [l[k]] + l[k + 1..];
  }

  // ---- what they hold ----

  /** The tree leads to valid buffers, each under its own key; a clean one is as on the device. */
  predicate Treed(bufs: seq<Buffer>, tree: map<Key, nat>, disk: map<Key, Page>) {
    && |bufs| == BUFFERS
    && forall k <- tree :: tree[k] < BUFFERS && k in disk && bufs[tree[k]].key == k && bufs[tree[k]].valid
         && (!bufs[tree[k]].dirty ==> bufs[tree[k]].page == disk[k])
  }

  /** The buffers in the tree are those on the LRU list and in hand. */
  predicate Indexed(bufs: seq<Buffer>, tree: map<Key, nat>, lru: seq<nat>, hand: multiset<nat>) {
    && |bufs| == BUFFERS
    && (forall k <- tree :: tree[k] in lru || tree[k] in hand)
    && forall b <- lru :: b < BUFFERS && bufs[b].key in tree && tree[bufs[b].key] == b
  }

  lemma FirstIndexed(bufs: seq<Buffer>, tree: map<Key, nat>, lru: seq<nat>)
    requires Indexed(bufs, tree, lru, multiset{}) && lru != []
    ensures Indexed(bufs, tree, lru[1..], multiset{lru[0]})
    ensures lru[0] < BUFFERS && bufs[lru[0]].key in tree && tree[bufs[lru[0]].key] == lru[0]
  {
    assert lru == [lru[0]] + lru[1..] && lru[0] in lru;
  }

  /** The plain store: what is in the cache counts, and the device for the rest. */
  predicate Viewed(bufs: seq<Buffer>, tree: map<Key, nat>, disk: map<Key, Page>, view: map<Key, Page>) {
    && view.Keys == disk.Keys
    && forall k <- view :: view[k] == if k in tree && tree[k] < |bufs| then bufs[tree[k]].page else disk[k]
  }

  /** A clean buffer in hand leaves the tree: the store is the same. */
  lemma Dropped(bufs: seq<Buffer>, tree: map<Key, nat>, disk: map<Key, Page>, view: map<Key, Page>, lru: seq<nat>,
                b: nat)
    requires Treed(bufs, tree, disk) && Indexed(bufs, tree, lru, multiset{b}) && Viewed(bufs, tree, disk, view)
    requires b < BUFFERS && b !in lru && bufs[b].key in tree && tree[bufs[b].key] == b && !bufs[b].dirty
    ensures var bufs', tree' := bufs[b := Released()], tree - {bufs[b].key};
            Treed(bufs', tree', disk) && Indexed(bufs', tree', lru, multiset{}) && Viewed(bufs', tree', disk, view)
  {
    var bufs', tree' := bufs[b := Released()], tree - {bufs[b].key};
    forall k <- tree' ensures tree'[k] == tree[k] && tree[k] != b {
      assert k in tree && bufs[tree[k]].key == k;
    }
  }

  lemma SameKeys(bufs: seq<Buffer>, tree: map<Key, nat>, disk: map<Key, Page>, view: map<Key, Page>)
    requires Viewed(bufs, tree, disk, view)
    ensures view.Keys == disk.Keys
  {
  }

  lemma Seen(bufs: seq<Buffer>, tree: map<Key, nat>, disk: map<Key, Page>, view: map<Key, Page>, lru: seq<nat>, k: Key)
    requires Treed(bufs, tree, disk) && Indexed(bufs, tree, lru, multiset{}) && Viewed(bufs, tree, disk, view)
    requires k in tree
    ensures tree[k] < BUFFERS && tree[k] in lru && k in view
    ensures bufs[tree[k]].key == k && bufs[tree[k]].page == view[k]
  {
  }

  /** A buffer outside the tree can be given any contents. */
  lemma Unused(bufs: seq<Buffer>, tree: map<Key, nat>, lru: seq<nat>, b: nat)
    requires Indexed(bufs, tree, lru, multiset{}) && b !in lru
    ensures forall k <- tree :: tree[k] != b
  {
  }

  lemma UnusedReleased(bufs: seq<Buffer>, tree: map<Key, nat>, disk: map<Key, Page>, view: map<Key, Page>,
                       lru: seq<nat>, b: nat)
    requires Treed(bufs, tree, disk) && Indexed(bufs, tree, lru, multiset{}) && Viewed(bufs, tree, disk, view)
    requires b < BUFFERS && b !in lru
    ensures var bufs' := bufs[b := Released()];
            Treed(bufs', tree, disk) && Indexed(bufs', tree, lru, multiset{}) && Viewed(bufs', tree, disk, view)
  {
    Unused(bufs, tree, lru, b);
  }

  /** A page is read into a free buffer and put under its key. */
  lemma Loaded(bufs: seq<Buffer>, tree: map<Key, nat>, disk: map<Key, Page>, view: map<Key, Page>, lru: seq<nat>,
               b: nat, k: Key)
    requires Treed(bufs, tree, disk) && Indexed(bufs, tree, lru, multiset{}) && Viewed(bufs, tree, disk, view)
    requires b < BUFFERS && b !in lru && k !in tree && k in disk
    ensures var bufs', tree' := bufs[b := Buffer(k, disk[k], false, true)], tree[k := b];
            Treed(bufs', tree', disk) && Indexed(bufs', tree', lru + [b], multiset{}) &&
              Viewed(bufs', tree', disk, view)
  {
    Unused(bufs, tree, lru, b);
  }

  class Cache {
    var bufs: seq<Buffer>       // fs_buffer
    var free: seq<nat>
    var lru: seq<nat>
    var tree: map<Key, nat>
    var disk: map<Key, Page>
    ghost var view: map<Key, Page>
    ghost const all: set<nat>   // the buffers

    ghost predicate Held(hand: multiset<nat>, indexed: multiset<nat>)
      reads this
    {
      && |bufs| == BUFFERS && Placed(free, lru, hand, all) && Treed(bufs, tree, disk)
      && Indexed(bufs, tree, lru, indexed) && Viewed(bufs, tree, disk, view)
    }

    ghost predicate Valid()
      reads this
    {
      Held(multiset{}, multiset{})
    }

    /** fs_buffer_init */
    constructor (disk: map<Key, Page>)
      ensures Valid() && this.disk == disk && view == disk && lru == []
    {
      bufs, this.disk, tree, lru, view := seq(BUFFERS, _ => Released()), disk, map[], [], disk;
      free := seq(BUFFERS, i requires 0 <= i < BUFFERS => i);
      ghost var n: nat :| n == BUFFERS;
      all := Below(n);
      new;
      IdsAre(free, |free|);
    }

    /** Every buffer is free or recently used, and no two hold the same page of the same device. */
    lemma Partition(i: nat, j: nat)
      requires Valid()
      ensures |free| + |lru| == BUFFERS
      ensures i < j < |lru| ==> lru[i] < BUFFERS && lru[j] < BUFFERS && bufs[lru[i]].key != bufs[lru[j]].key
    {
      Counts(free, lru, multiset{}, all);
      if i < j < |lru| {
        LruDistinct(free, lru, all, i, j);
        assert lru[i] in lru && lru[j] in lru;
      }
    }

    /** The page of a buffer as it stands goes to the device. */
    method WriteBack(b: nat, ghost hand: multiset<nat>)
      requires Treed(bufs, tree, disk) && Viewed(bufs, tree, disk, view)
      requires Indexed(bufs, tree, lru, hand) && b < BUFFERS && bufs[b].key in tree && tree[bufs[b].key] == b
      modifies `disk, `bufs
      ensures Treed(bufs, tree, disk) && Viewed(bufs, tree, disk, view) && Indexed(bufs, tree, lru, hand)
      ensures |bufs| == BUFFERS && disk.Keys == old(disk).Keys
      ensures bufs == old(bufs)[b := old(bufs)[b].(dirty := false)]
      ensures disk == old(disk)[bufs[b].key := bufs[b].page]
    {
      if bufs[b].dirty {
        disk := disk[bufs[b].key := bufs[b].page];
        bufs := bufs[b := bufs[b].(dirty := false)];
      }
    }

    /** fs_contend_buffer: a buffer no longer on the LRU list is written back if dirty, and freed. */
    method Contend(b: nat)
      requires Held(multiset{b}, multiset{b}) && b < BUFFERS && bufs[b].key in tree && tree[bufs[b].key] == b
      modifies `free, `tree, `disk, `bufs
      ensures Valid() && free == old(free) + [b]
      ensures disk == old(disk)[old(bufs)[b].key := old(bufs)[b].page] && disk.Keys == old(disk).Keys
      ensures tree.Keys <= old(tree).Keys
    {
      hide Placed, Treed, Viewed, Indexed;
      OutOfHand(free, lru, b, all);
      hide Placed, Treed, Viewed;
      WriteBack(b, multiset{b});
      Dropped(bufs, tree, disk, view, lru, b);
      tree := tree - {bufs[b].key};
      bufs := bufs[b := Released()];
      free := free + [b];
    }

    /** page_LRU: the least recently used buffer gives way. */
    method PageLru() returns (b: nat)
      requires Valid() && free == []
      modifies `free, `lru, `tree, `disk, `bufs
      ensures Held(multiset{b}, multiset{})
      ensures old(lru) == [b] + lru && free == [] && disk.Keys == old(disk).Keys && tree.Keys <= old(tree).Keys
    {
      hide Placed, Treed, Viewed, Indexed;
      Counts(free, lru, multiset{}, all);
      FirstToHand(free, lru, all);
      FirstIndexed(bufs, tree, lru);
      b := lru[0];
      lru := lru[1..];
      Contend(b);
      FreeToHand(free, lru, all);
      b := free[0];
      free := free[1..];
    }

    /** get_free_buffer */
    method GetFree() returns (b: nat)
      requires Valid()
      modifies `free, `lru, `tree, `disk, `bufs
      ensures Held(multiset{b}, multiset{}) && disk.Keys == old(disk).Keys && tree.Keys <= old(tree).Keys
      ensures old(lru) == if old(free) == [] then [b] + lru else lru
      ensures old(free) == if old(free) == [] then free else [b] + free
    {
      if |free| == 0 {
        b := PageLru();
        return;
      }
      FreeToHand(free, lru, all);
      hide Placed;
      b := free[0];
      free := free[1..];
    }

    /** The buffer with the key moves to the end of the LRU list. */
    method Touch(k: Key) returns (b: nat)
      requires Valid() && k in tree
      modifies `lru
      ensures Valid() && b == tree[k] && b < BUFFERS && b in lru && lru[|lru| - 1] == b
      ensures exists i :: 0 <= i < |old(lru)| && old(lru)[i] == b && lru == Touched(old(lru), i)
    {
      b := tree[k];
      var i :| 0 <= i < |lru| && lru[i] == b;
      ToTheEnd(free, lru, i, all);
      lru := Touched(lru, i);
    }

    /** release_buffer on a buffer that was never put under a key. */
    method GiveBack(b: nat)
      requires Held(multiset{b}, multiset{})
      modifies `free, `bufs
      ensures Valid()
    {
      hide Placed, Treed, Viewed, Indexed;
      OutOfHand(free, lru, b, all);
      UnusedReleased(bufs, tree, disk, view, lru, b);
      bufs := bufs[b := Released()];
      free := free + [b];
    }

    /** The page is read from the device into a buffer in hand. */
    method FillFrom(b: nat, k: Key)
      requires Held(multiset{b}, multiset{}) && k !in tree && k in disk
      modifies `lru, `tree, `bufs
      ensures Valid() && b < BUFFERS && tree == old(tree)[k := b] && lru == old(lru) + [b]
    {
      hide Placed, Treed, Viewed, Indexed;
      OutOfHand(free, lru, b, all);
      Loaded(bufs, tree, disk, view, lru, b, k);
      bufs := bufs[b := Buffer(k, disk[k], false, true)];
      lru := lru + [b];
      tree := tree[k := b];
    }

    /** A free buffer filled with a page of the device. */
    method Load(k: Key) returns (b: nat, ok: bool)
      requires Valid() && k !in tree
      modifies `free, `lru, `tree, `disk, `bufs
      ensures Valid() && disk.Keys == old(disk).Keys && ok == (k in disk)
      ensures ok ==> b < BUFFERS && k in tree && tree[k] == b && lru != [] && lru[|lru| - 1] == b
      ensures ok && old(free) != [] ==> lru == old(lru) + [b]
      ensures ok && old(free) == [] ==> [b] + lru == old(lru) + [b]
    {
      hide Placed, Treed, Viewed, Indexed;
      b := GetFree();
      ok := k in disk;
      if !ok {
        GiveBack(b);
        return;
      }
      FillFrom(b, k);
    }

    /**
     fs_read_to_buffer: the buffer with the page of the block, now the most recently used.  It fails
     exactly if the device has no such page.  Whatever gives way, the store is the same.
     */
    method Fetch(major: int, minor: int, blk: nat, change: bool) returns (b: nat, ok: bool)
      requires Valid()
      modifies `free, `lru, `tree, `disk, `bufs
      ensures Valid() && ok == (PageOf(major, minor, blk) in view)
      ensures ok ==> b < BUFFERS && lru != [] && lru[|lru| - 1] == b && b in lru
      ensures ok ==> bufs[b].key == PageOf(major, minor, blk) && bufs[b].page == view[PageOf(major, minor, blk)]
      ensures ok && change ==> bufs[b].dirty
      ensures ok && PageOf(major, minor, blk) in old(tree) ==>
        exists i :: 0 <= i < |old(lru)| && old(lru)[i] == b && lru == Touched(old(lru), i)
      ensures ok && PageOf(major, minor, blk) !in old(tree) && old(free) != [] ==> lru == old(lru) + [b]
      ensures ok && PageOf(major, minor, blk) !in old(tree) && old(free) == [] ==> [b] + lru == old(lru) + [b]
    {
      hide Placed, Treed, Viewed, Indexed;
      var k := PageOf(major, minor, blk);
      SameKeys(bufs, tree, disk, view);
      ok := true;
      if k in tree {
        b := Touch(k);
      } else {
        b, ok := Load(k);
        if !ok {
          return;
        }
      }
      Seen(bufs, tree, disk, view, lru, k);
      if change {
        SetDirty(b);
      }
    }

    method SetDirty(b: nat)
      requires Valid() && b in lru
      modifies `bufs
      ensures Valid() && b < BUFFERS && bufs == old(bufs)[b := old(bufs)[b].(dirty := true)]
    {
      bufs := bufs[b := bufs[b].(dirty := true)];
    }

    /** A caller writes block `j` of a buffer it fetched for modification. */
    method StoreBlock(b: nat, j: nat, data: M.Block)
      requires Valid() && b in lru && j < 4 && bufs[b].dirty
      modifies `bufs, `view
      ensures Valid() && bufs[b].key in old(view) && |old(view)[bufs[b].key]| == 4
      ensures view == old(view)[bufs[b].key := old(view)[bufs[b].key][j := data]]
      ensures bufs == old(bufs)[b := old(bufs)[b].(page := view[bufs[b].key])]
    {
      var k := bufs[b].key;
      bufs := bufs[b := bufs[b].(page := bufs[b].page[j := data])];
      view := view[k := bufs[b].page];
    }

    /** fs_sync_buffer */
    method SyncBuffer(b: nat)
      requires Valid() && b in lru
      modifies `disk, `bufs
      ensures Valid() && b < BUFFERS && bufs == old(bufs)[b := old(bufs)[b].(dirty := false)]
      ensures disk == old(disk)[bufs[b].key := bufs[b].page]
    {
      hide Placed, Treed, Viewed;
      assert bufs[b].key in tree && tree[bufs[b].key] == b && b < BUFFERS;
      hide Indexed;
      WriteBack(b, multiset{});
    }

    /** sys_sync: afterwards the device is the store. */
    method Sync()
      requires Valid()
      modifies `disk, `bufs
      ensures Valid() && disk == view
    {
      hide Placed, Treed, Viewed;
      assert forall b <- lru :: b < BUFFERS;
      hide Indexed;
      var i := 0;
      while i < |lru|
        invariant 0 <= i <= |lru| && Valid()
        invariant forall j :: 0 <= j < i ==> lru[j] < BUFFERS && !bufs[lru[j]].dirty
      {
        assert lru[i] in lru;
        assert forall j :: 0 <= j < i ==> bufs[lru[j]] == bufs[lru[j]].(dirty := false);
        SyncBuffer(lru[i]);
        i := i + 1;
      }
      AllClean(bufs, tree, disk, view, lru);
    }
  }

  lemma AllClean(bufs: seq<Buffer>, tree: map<Key, nat>, disk: map<Key, Page>, view: map<Key, Page>, lru: seq<nat>)
    requires Treed(bufs, tree, disk) && Indexed(bufs, tree, lru, multiset{}) && Viewed(bufs, tree, disk, view)
    requires forall j :: 0 <= j < |lru| ==> lru[j] < BUFFERS && !bufs[lru[j]].dirty
    ensures disk == view
  {
    forall k <- view ensures view[k] == disk[k] {
      if k in tree {
        var j :| 0 <= j < |lru| && lru[j] == tree[k];
      }
    }
  }

  // ---- single blocks ----

  /** The block a caller sees under its number. */
  function BlockAt(view: map<Key, Page>, major: int, minor: int, blk: nat): M.Block
    requires PageOf(major, minor, blk) in view
  {
    view[PageOf(major, minor, blk)][blk % 4]
  }

  /** Storing a block changes that block and no other. */
  lemma StoredBlock(view: map<Key, Page>, major: int, minor: int, blk: nat, data: M.Block, ma: int, mi: int, other: nat)
    requires PageOf(major, minor, blk) in view && PageOf(ma, mi, other) in view
    ensures var k := PageOf(major, minor, blk);
            BlockAt(view[k := view[k][blk % 4 := data]], ma, mi, other)
            == if ma == major && mi == minor && other == blk then data else BlockAt(view, ma, mi, other)
  {
    if PageOf(major, minor, blk) == PageOf(ma, mi, other) && blk % 4 == other % 4 {
      assert blk == other;
    }
  }

  lemma {:induction false} IdsAre(q: seq<nat>, n: nat)
    requires |q| == n && forall i :: 0 <= i < n ==> q[i] == i
    ensures multiset(q) == multiset(Below(n))
  {
    if n > 0 {
      IdsAre(q[..n - 1], n - 1);
      assert q == q[..n - 1] + [n - 1];
    }
  }
}

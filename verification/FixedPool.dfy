/**
 The fixed pool of source/kernel/mem/buddy_system.c: power-of-two buckets on a red-black tree, each
 aligned to its own capacity.  The search for a buddy walks that tree, ordered by capacity, by address,
 and so may miss one; a bucket freed without a buddy being found is not put back.  An update of the tree
 may leave it in any shape here.
 */
module FixedPool {
  import opened BuddyBuckets
  import opened BuddyPool
  import opened RedBlackShape

  predicate Aligned(start: int, b: Bucket) {
    Power(b.capacity) && (b.addr - start) % b.capacity == 0
  }

  /** fix_get_buddy: the other half of the aligned pair the bucket is in. */
  function BuddyOf(start: int, b: Bucket): Bucket
    requires b.capacity > 0
  {
    if (b.addr - start) % (2 * b.capacity) == 0 then Bucket(b.addr + b.capacity, b.capacity)
    else Bucket(b.addr - b.capacity, b.capacity)
  }

  predicate Covers(b: Bucket, d: Bucket) {
    b.addr <= d.addr && d.addr + d.capacity <= b.addr + b.capacity
  }

  // ---- multiples ----

  lemma {:induction false} AtLeastOne(d: nat, c: nat)
    requires d >= 1
    ensures d * c >= c
  {
    if d > 1 {
      AtLeastOne(d - 1, c);
      Distributes(d - 1, 1, c);
    }
  }

  lemma Distributes(a: int, b: int, c: int)
    ensures (a + b) * c == a * c + b * c
  {
  }

  lemma NoRest(k: int, q: int, r: int, c: nat)
    requires k * c == q * c + r && 0 <= r < c
    ensures r == 0 && k == q
  {
    Distributes(k - q, q, c);
    assert (k - q) * c == r;
    if k > q {
      AtLeastOne(k - q, c);
    } else if k < q {
      AtLeastOne(q - k, c);
      Distributes(k - q, q - k, c);
    }
  }

  lemma Quotient(x: int, c: nat)
    requires c > 0
    ensures x == x / c * c + x % c && 0 <= x % c < c
  {
  }

  /** `x` is a multiple of `c`. */
  lemma MultipleMod(x: int, k: int, c: nat)
    requires c > 0 && x == k * c
    ensures x % c == 0
  {
    Quotient(x, c);
    NoRest(k, x / c, x % c, c);
  }

  lemma Doubled(k: int, c: int)
    ensures k * (2 * c) == 2 * k * c
  {
  }

  /** Halving keeps alignment. */
  lemma HalvesAligned(start: int, b: Bucket)
    requires Aligned(start, b) && b.capacity / 2 % 2 == 0 && b.capacity >= 2
    ensures Aligned(start, LeftHalf(b)) && Aligned(start, RightHalf(b))
  {
    var c, x := b.capacity / 2, b.addr - start;
    assert b.capacity == 2 * c;
    Quotient(x, b.capacity);
    var k := x / b.capacity;
    Doubled(k, c);
    MultipleMod(x, 2 * k, c);
    Distributes(2 * k, 1, c);
    MultipleMod(x + c, 2 * k + 1, c);
  }

  /** The buddy is a twin, and joined with it the bucket is aligned again. */
  lemma BuddyAligned(start: int, b: Bucket)
    requires Aligned(start, b)
    ensures Twins(b, BuddyOf(start, b)) && Aligned(start, Joined(b, BuddyOf(start, b)))
  {
    var c, x := b.capacity, b.addr - start;
    TwiceAPower(c);
    if x % (2 * c) != 0 {
      Quotient(x, c);
      var k := x / c;
      if k % 2 == 0 {
        Doubled(k / 2, c);
        MultipleMod(x, k / 2, 2 * c);
      } else {
        Distributes(k, -1, c);
        Doubled((k - 1) / 2, c);
        MultipleMod(x - c, (k - 1) / 2, 2 * c);
      }
    }
  }

  lemma TwiceAPower(c: nat)
    requires Power(c)
    ensures Power(2 * c)
  {
    assert 2 * c / 2 == c && 2 * c % 2 == 0;
  }

  ghost predicate AllAligned(start: int, s: set<Bucket>) {
    forall b <- s :: Aligned(start, b)
  }

  // ---- the tree ----

  /** bucket_compare */
  predicate Less(b: Bucket, d: Bucket) {
    b.capacity < d.capacity || (b.capacity == d.capacity && b.addr < d.addr)
  }

  function Listing(b: Bucket): Entry<Bucket> {
    Entry(b.capacity, b)
  }

  /** The in-order walk of the tree: the buckets of `s`, by capacity and then by address. */
  ghost predicate Orders(l: seq<Entry<Bucket>>, s: set<Bucket>) {
    && (forall i :: 0 <= i < |l| ==> l[i] == Listing(l[i].item) && l[i].item in s)
    && (forall b <- s :: Listing(b) in l)
    && (forall i, j :: 0 <= i < j < |l| ==> Less(l[i].item, l[j].item))
  }

  lemma PutOrders(l: seq<Entry<Bucket>>, s: set<Bucket>, b: Bucket, k: nat)
    requires Orders(l, s) && b !in s && k <= |l|
    requires (forall i :: 0 <= i < k ==> Less(l[i].item, b)) && (k < |l| ==> !Less(l[k].item, b))
    ensures Orders(l[..k] + [Listing(b)] + l[k..], s + {b})
  {
    var r := l[..k] + [Listing(b)] + l[k..];
    forall i, j | 0 <= i < j < |r| ensures Less(r[i].item, r[j].item) {
      if k < |l| { assert Less(b, l[k].item); }
    }
    assert r[k] == Listing(b);
    forall d <- s ensures Listing(d) in r {
      var i :| 0 <= i < |l| && l[i] == Listing(d);
      assert r[if i < k then i else i + 1] == l[i];
    }
  }

  lemma TakeOrders(l: seq<Entry<Bucket>>, s: set<Bucket>, k: nat)
    requires Orders(l, s) && k < |l|
    ensures Orders(l[..k] + l[k + 1..], s - {l[k].item})
  {
    var r := l[..k] + l[k + 1..];
    forall d <- s - {l[k].item} ensures Listing(d) in r {
      var i :| 0 <= i < |l| && l[i] == Listing(d);
      assert r[if i < k then i else i - 1] == l[i];
    }
  }

  /** The walk of fix_get_buddy: down the tree by address. */
  predicate Walk(t: Shape<Bucket>, d: Bucket) {
    t.Fork? && (t.entry.item == d || Walk(if t.entry.item.addr < d.addr then t.right else t.left, d))
  }

  lemma {:induction false} WalkFinds(t: Shape<Bucket>, d: Bucket)
    requires Walk(t, d)
    ensures exists e :: e in Inorder(t) && e.item == d
  {
    if t.entry.item != d {
      WalkFinds(if t.entry.item.addr < d.addr then t.right else t.left, d);
    }
  }

  lemma NothingFound(t: Shape<Bucket>, d: Bucket)
    requires forall e <- Inorder(t) :: e.item != d
    ensures !Walk(t, d)
  {
    if Walk(t, d) {
      WalkFinds(t, d);
    }
  }

  /** Every bucket above the hole is on the same side of `d` by address as in the tree. */
  predicate Agrees(c: Path<Bucket>, d: Bucket) {
    match c
    case Top => true
    case InLeft(e, _, _, up) => d.addr <= e.item.addr && Agrees(up, d)
    case InRight(e, _, _, up) => e.item.addr < d.addr && Agrees(up, d)
  }

  /** The walk finds what is on the tree, in the subtree `s`, exactly if the addresses lead there from above. */
  lemma {:induction false} WalkAgrees(c: Path<Bucket>, s: Shape<Bucket>, d: Bucket)
    requires forall e <- Before(c) + After(c) :: e.item != d
    ensures Walk(Plug(c, s), d) <==> Agrees(c, d) && Walk(s, d)
    decreases c
  {
    if !c.Top? {
      var up := c.up;
      forall e <- Before(up) + After(up) ensures e.item != d {
        assert e in Before(c) + After(c);
      }
      WalkAgrees(up, Rise(c, s), d);
      assert c.entry in Before(c) + After(c);
      forall e <- Inorder(c.sibling) ensures e.item != d {
        assert e in Before(c) + After(c);
      }
      NothingFound(c.sibling, d);
    }
  }

  /** Among buckets of one capacity the walk finds all there are. */
  lemma {:induction false} SameSizeFound(t: Shape<Bucket>, s: set<Bucket>, d: Bucket)
    requires Orders(Inorder(t), s) && forall b <- s :: b.capacity == d.capacity
    ensures Walk(t, d) <==> d in s
  {
    hide Orders;
    if Walk(t, d) {
      WalkFinds(t, d);
      OrdersItems(Inorder(t), s);
    }
    if d in s {
      Parted(t, s, d);
      if Less(d, t.entry.item) {
        SameSizeFound(t.left, ItemsOf(Inorder(t.left)), d);
      } else if Less(t.entry.item, d) {
        SameSizeFound(t.right, ItemsOf(Inorder(t.right)), d);
      }
    }
  }

  ghost function ItemsOf(l: seq<Entry<Bucket>>): set<Bucket> {
    set e <- l :: e.item
  }

  lemma OrdersItems(l: seq<Entry<Bucket>>, s: set<Bucket>)
    requires Orders(l, s)
    ensures ItemsOf(l) == s && forall e <- l :: e.item in s
  {
    forall b <- s ensures b in ItemsOf(l) {
      assert Listing(b) in l;
    }
  }

  lemma PartOrders(l: seq<Entry<Bucket>>, s: set<Bucket>, i: nat, j: nat)
    requires Orders(l, s) && i <= j <= |l|
    ensures Orders(l[i..j], ItemsOf(l[i..j])) && ItemsOf(l[i..j]) <= s
  {
    var r := l[i..j];
    assert forall k :: 0 <= k < |r| ==> r[k] == l[i + k] && r[k] in r;
  }

  /** The parts of `l` from `i` to `j` when that is `a`, `x` and `b`. */
  lemma Sliced<T>(l: seq<T>, i: nat, j: nat, a: seq<T>, x: T, b: seq<T>)
    requires i <= j <= |l| && l[i..j] == a + [x] + b
    ensures var m := i + |a|; m < j && l[m] == x && l[i..m] == a && l[m + 1..j] == b
  {
    var r, m := l[i..j], i + |a|;
    assert |r| == |a| + 1 + |b|;
    assert l[m] == r[|a|] && l[i..m] == r[..|a|] && l[m + 1..j] == r[|a| + 1..];
  }

  /** A bucket of a tree is in its root or on the side its order says. */
  lemma Parted(t: Shape<Bucket>, s: set<Bucket>, d: Bucket)
    requires Orders(Inorder(t), s) && d in s
    ensures t.Fork? && t.entry.item in s
    ensures Orders(Inorder(t.left), ItemsOf(Inorder(t.left))) && ItemsOf(Inorder(t.left)) <= s
    ensures Orders(Inorder(t.right), ItemsOf(Inorder(t.right))) && ItemsOf(Inorder(t.right)) <= s
    ensures || d == t.entry.item
            || (d in ItemsOf(Inorder(t.left)) && Less(d, t.entry.item))
            || (d in ItemsOf(Inorder(t.right)) && Less(t.entry.item, d))
  {
    hide Orders, Less, ItemsOf;
    var l := Inorder(t);
    OrderedPlace(l, s, d);
    assert l[0..|l|] == l;
    Sliced(l, 0, |l|, Inorder(t.left), t.entry, Inorder(t.right));
    var m := |Inorder(t.left)|;
    PartOrders(l, s, 0, m);
    PartOrders(l, s, m + 1, |l|);
    SidesOf(l, s, d, m);
  }

  lemma OrderedPlace(l: seq<Entry<Bucket>>, s: set<Bucket>, d: Bucket)
    requires Orders(l, s) && d in s
    ensures l != []
  {
    assert Listing(d) in l;
  }

  lemma SidesOf(l: seq<Entry<Bucket>>, s: set<Bucket>, d: Bucket, m: nat)
    requires Orders(l, s) && d in s && m < |l|
    ensures l[m].item in s
    ensures || d == l[m].item
            || (d in ItemsOf(l[0..m]) && Less(d, l[m].item))
            || (d in ItemsOf(l[m + 1..|l|]) && Less(l[m].item, d))
  {
    var k :| 0 <= k < |l| && l[k] == Listing(d);
    if k < m {
      assert l[0..m][k] == l[k];
    } else if k > m {
      assert l[m + 1..|l|][k - (m + 1)] == l[k];
    }
  }

  /**
   A free buddy that the walk misses.  A pool of 128 bytes at 0 has this tree after six calls: 12 bytes
   are allocated at 0 (a bucket of 16), 4 at 16 (of 8) and 12 at 32 (of 16), and then the second and the
   first are freed.  The sixth frees the third, `Bucket(32, 16)`.  Its buddy `Bucket(48, 16)` is free, but
   it is on the left of a larger bucket with a lower address, and the walk goes right there.
   */
  lemma BuddyMissed(t: Shape<Bucket>)
    requires t == Fork(Fork(Leaf, Listing(Bucket(48, 16)), Red, Leaf), Listing(Bucket(0, 32)), Black,
                       Fork(Leaf, Listing(Bucket(64, 64)), Red, Leaf))
    ensures RedBlack(t) && Orders(Inorder(t), {Bucket(48, 16), Bucket(0, 32), Bucket(64, 64)})
    ensures BuddyOf(0, Bucket(32, 16)) == Bucket(48, 16) && !Walk(t, Bucket(48, 16))
  {
    assert Inorder(t.left) == [Listing(Bucket(48, 16))];
    assert Inorder(t.right) == [Listing(Bucket(64, 64))];
    assert Inorder(t) == [Listing(Bucket(48, 16)), Listing(Bucket(0, 32)), Listing(Bucket(64, 64))];
  }

  /** Whatever its shape, a red-black tree of these three buckets has that one at its root: the walk always misses. */
  lemma AlwaysMissed(t: Shape<Bucket>)
    requires RedBlack(t) && Inorder(t) == [Listing(Bucket(48, 16)), Listing(Bucket(0, 32)), Listing(Bucket(64, 64))]
    ensures !Walk(t, Bucket(48, 16))
  {
    var l, r := t.left, t.right;
    assert |Inorder(l)| + 1 + |Inorder(r)| == 3;
    Small(l);
    Small(r);
    assert Inorder(t)[|Inorder(l)|] == t.entry;
    assert Inorder(r) == Inorder(t)[2..];
    NothingFound(r, Bucket(48, 16));
  }

  /** A balanced tree of two nodes is black at its root, unlike one of none. */
  lemma Small(s: Shape<Bucket>)
    requires Balanced(s)
    ensures |Inorder(s)| == 2 ==> BlackHeight(s) > 0
    ensures |Inorder(s)| == 0 ==> BlackHeight(s) == 0
  {
    if |Inorder(s)| == 2 {
      assert |Inorder(s.left)| + |Inorder(s.right)| == 1;
      assert s.left.Fork? || s.right.Fork?;
    }
  }

  class Fixed {
    const start: int
    var tree: Shape<Bucket>
    var live: map<int, nat>        // the capacity of the bucket behind each header
    ghost var free: set<Bucket>    // the buckets on the tree
    ghost var used: set<Bucket>
    ghost var held: iset<int>      // the bytes some bucket holds

    /** The buckets on the tree, those in use and `b` do not overlap, hold `held`, and are aligned. */
    ghost predicate Holding(b: set<Bucket>)
      reads this
    {
      && Orders(Inorder(tree), free) && free !! used && (free + used) !! b
      && (forall d :: d in used <==> d.addr in live && live[d.addr] == d.capacity)
      && Tiles(free + used + b, held) && AllAligned(start, free + used + b)
    }

    ghost predicate Valid()
      reads this
    {
      Holding({})
    }

    /** buddy_system_init, once the size is cut down to a power of two. */
    constructor (start: int, size: nat)
      requires Power(size)
      ensures Valid() && this.start == start && live == map[]
      ensures free == {Bucket(start, size)} && held == Bytes(Bucket(start, size))
    {
      this.start, live, tree := start, map[], Fork(Leaf, Listing(Bucket(start, size)), Black, Leaf);
      free, used, held := {Bucket(start, size)}, {}, Bytes(Bucket(start, size));
      new;
      assert Inorder(tree) == [Listing(Bucket(start, size))];
      AddTiles({}, iset{}, Bucket(start, size));
      assert free + used + {} == {} + {Bucket(start, size)} && held == iset{} + Bytes(Bucket(start, size));
      MultipleMod(0, 0, size);
    }

    /** rb_tree_find_first_greater_or_equal by capacity: the first bucket of the order that holds `n` bytes. */
    method FirstAtLeast(n: nat) returns (b: Found)
      requires Orders(Inorder(tree), free)
      ensures b.Some? ==> b.bucket in free && b.bucket.capacity >= n
      ensures b.Some? ==> forall d <- free :: d.capacity < n || d == b.bucket || Less(b.bucket, d)
      ensures b.None? <==> forall d <- free :: d.capacity < n
    {
      hide Orders, Less, Listing;
      b := None;
      var t := tree;
      ghost var l := Inorder(tree);
      ghost var i, j := 0, |l|;
      while t.Fork?
        invariant 0 <= i <= j <= |l| && l[i..j] == Inorder(t)
        invariant forall k :: 0 <= k < i ==> l[k].item.capacity < n
        invariant forall k :: j <= k < |l| ==> l[k].item.capacity >= n
        invariant b == if j < |l| then Some(l[j].item) else None
        decreases t
      {
        ghost var m := i + |Inorder(t.left)|;
        OneDown(l, free, n, i, j, t);
        if t.entry.item.capacity >= n {
          b := Some(t.entry.item);
          t, j := t.left, m;
        } else {
          t, i := t.right, m + 1;
        }
      }
      FoundFirst(l, free, n, j);
    }

    static lemma FoundFirst(l: seq<Entry<Bucket>>, s: set<Bucket>, n: nat, j: nat)
      requires Orders(l, s) && j <= |l|
      requires (forall k :: 0 <= k < j ==> l[k].item.capacity < n)
      requires forall k :: j <= k < |l| ==> l[k].item.capacity >= n
      ensures if j == |l| then forall d <- s :: d.capacity < n
              else l[j].item in s && forall d <- s :: d.capacity < n || d == l[j].item || Less(l[j].item, d)
    {
      forall d <- s ensures exists k :: 0 <= k < |l| && l[k].item == d {
        assert Listing(d) in l;
      }
    }

    /** The subtree `t` is the part of the order from `i` to `j`; on which side of its root the search goes on. */
    static lemma OneDown(l: seq<Entry<Bucket>>, s: set<Bucket>, n: nat, i: nat, j: nat, t: Shape<Bucket>)
      requires Orders(l, s) && i <= j <= |l| && t.Fork? && l[i..j] == Inorder(t)
      ensures var m := i + |Inorder(t.left)|;
              && m < j && l[m] == t.entry && l[i..m] == Inorder(t.left) && l[m + 1..j] == Inorder(t.right)
              && (t.entry.item.capacity >= n ==> forall k :: m <= k < |l| ==> l[k].item.capacity >= n)
              && (t.entry.item.capacity < n ==> forall k :: 0 <= k <= m ==> l[k].item.capacity < n)
    {
      hide Orders, Less, Listing;
      Sliced(l, i, j, Inorder(t.left), t.entry, Inorder(t.right));
      RestOrders(l, s, n, i + |Inorder(t.left)|);
    }

    static lemma RestOrders(l: seq<Entry<Bucket>>, s: set<Bucket>, n: nat, m: nat)
      requires Orders(l, s) && m < |l|
      ensures l[m].item.capacity >= n ==> forall k :: m <= k < |l| ==> l[k].item.capacity >= n
      ensures l[m].item.capacity < n ==> forall k :: 0 <= k <= m ==> l[k].item.capacity < n
    {
    }

    /** Some tree with the given in-order walk. */
    method AnyTree(l: seq<Entry<Bucket>>) returns (t: Shape<Bucket>)
      ensures Inorder(t) == l
      decreases |l|
    {
      if l == [] {
        return Leaf;
      }
      var k: int := *;
      if k < 0 || k >= |l| {
        k := 0;
      }
      var color: Color := *;
      var left := AnyTree(l[..k]);
      var right := AnyTree(l[k + 1..]);
      return Fork(left, l[k], color, right);
    }

    /** rb_tree_insert */
    method Put(b: Bucket)
      requires Orders(Inorder(tree), free) && b !in free
      modifies `tree, `free
      ensures Orders(Inorder(tree), free) && free == old(free) + {b}
    {
      var l, k := Inorder(tree), 0;
      while k < |l| && Less(l[k].item, b)
        invariant 0 <= k <= |l| && forall i :: 0 <= i < k ==> Less(l[i].item, b)
      {
        k := k + 1;
      }
      PutOrders(l, free, b, k);
      tree := AnyTree(l[..k] + [Listing(b)] + l[k..]);
      free := free + {b};
    }

    /** rb_tree_remove */
    method Take(b: Bucket)
      requires Orders(Inorder(tree), free) && b in free
      modifies `tree, `free
      ensures Orders(Inorder(tree), free) && free == old(free) - {b}
    {
      var l := Inorder(tree);
      var k :| 0 <= k < |l| && l[k] == Listing(b);
      TakeOrders(l, free, k);
      tree := AnyTree(l[..k] + l[k + 1..]);
      free := free - {b};
    }

    /** One halving: the right half goes to the tree. */
    method Split(b: Bucket) returns (l: Bucket)
      requires Holding({b}) && b.capacity >= 2 && b.capacity / 2 % 2 == 0
      modifies `tree, `free
      ensures l == LeftHalf(b) && Holding({l}) && free == old(free) + {RightHalf(b)}
    {
      var r := RightHalf(b);
      l := LeftHalf(b);
      assert b in free + used + {b};
      HalvesAligned(start, b);
      hide Aligned;
      SplitTiles(free + used + {b}, held, b);
      Put(r);
      assert free + used + {l} == old(free) + used + {b} - {b} + {l, r};
      Even(start, b);
      assert held - Dropped(b) == held;
    }

    static lemma Even(start: int, b: Bucket)
      requires Aligned(start, b) && b.capacity >= 2
      ensures b.capacity % 2 == 0
    {
    }

    /** buddy_system_alloc: the front of the first bucket of the order that is large enough, `b0`. */
    method Alloc(size: nat) returns (p: Ptr, ghost b0: Bucket)
      requires Valid()
      modifies this
      ensures Valid() && held == old(held)
      ensures p == Null <==> size == 0 || forall b <- old(free) :: b.capacity < size + HEADER
      ensures p == Null ==> tree == old(tree) && live == old(live)
      ensures p.At? ==> b0 in old(free) && b0.capacity >= size + HEADER && p.addr == b0.addr + HEADER
      ensures p.At? ==> forall d <- old(free) :: d.capacity < size + HEADER || d == b0 || Less(b0, d)
      ensures p.At? ==>
        var a := b0.addr;
        && a !in old(live) && a in live && live == old(live)[a := live[a]] && live[a] >= size + HEADER
        && live[a] / 2 < size + HEADER && Aligned(start, Bucket(a, live[a]))
      ensures forall b <- free :: b in old(free) || b.capacity >= size + HEADER
    {
      hide Tiles, Aligned, Orders;
      b0 := Bucket(0, 0);
      if size == 0 {
        return Null, b0;
      }
      var n := size + HEADER;
      var found := FirstAtLeast(n);
      if found.None? {
        return Null, b0;
      }
      var b := found.bucket;
      b0 := b;
      Take(b);
      assert free + used + {b} == old(free) + used + {};
      while b.capacity / 2 >= n && b.capacity / 2 % 2 == 0
        invariant Holding({b}) && b.capacity >= n && b.addr == b0.addr && live == old(live) && held == old(held)
        invariant forall d <- free :: d in old(free) || d.capacity >= n
        decreases b.capacity
      {
        b := Split(b);
      }
      HandOut(b, n);
      p := At(b.addr + HEADER);
    }

    /** The header is written: the bucket in hand is in use. */
    method HandOut(b: Bucket, n: nat)
      requires Holding({b}) && b.capacity >= n >= 4 && !(b.capacity / 2 >= n && b.capacity / 2 % 2 == 0)
      modifies `live, `used
      ensures Holding({}) && b.addr !in old(live) && live == old(live)[b.addr := b.capacity]
      ensures b.capacity / 2 < n && Aligned(start, b)
    {
      hide Orders;
      ghost var s := free + used + {b};
      assert b in s && Aligned(start, b);
      assert Power(b.capacity) && Power(b.capacity / 2);
      ghost var d := Bucket(b.addr, if b.addr in live then live[b.addr] else 0);
      if d in used {
        assert Holds(b, b.addr) && Holds(d, b.addr);
        SharedByte(s, held, b, d, b.addr);
        assert false;
      }
      live := live[b.addr := b.capacity];
      used := used + {b};
      assert free + used + {} == s;
    }

    /** fix_get_buddy: the buddy, if the walk finds it. */
    method GetBuddy(b: Bucket) returns (d: Found)
      requires b.capacity > 0 && Orders(Inorder(tree), free)
      ensures d == if Walk(tree, BuddyOf(start, b)) then Some(BuddyOf(start, b)) else None
      ensures d.Some? ==> d.bucket in free
    {
      var addr := if (b.addr - start) % (2 * b.capacity) == 0 then b.addr + b.capacity else b.addr - b.capacity;
      var t := tree;
      if Walk(tree, BuddyOf(start, b)) {
        WalkFinds(tree, BuddyOf(start, b));
      }
      while t.Fork?
        invariant Walk(tree, BuddyOf(start, b)) <==> Walk(t, BuddyOf(start, b))
        decreases t
      {
        if t.entry.item.addr == addr && t.entry.item.capacity == b.capacity {
          return Some(t.entry.item);
        } else if t.entry.item.addr < addr {
          t := t.right;
        } else {
          t := t.left;
        }
      }
      return None;
    }

    /** One join with the buddy `d`. */
    method Join(b: Bucket, d: Bucket) returns (j: Bucket)
      requires Holding({b}) && d in free && d == BuddyOf(start, b)
      modifies `tree, `free
      ensures j == Joined(b, d) && Holding({j}) && free == old(free) - {d} && j.capacity > 0
    {
      ghost var s := free + used + {b};
      assert b in s && d in s && Aligned(start, b);
      BuddyAligned(start, b);
      hide Aligned, Orders;
      JoinTiles(s, held, b, d);
      Take(d);
      j := Joined(b, d);
      assert free + used + {j} == s - {b, d} + {j};
    }

    /** The bucket behind a header. */
    function BucketAt(a: int): (b: Bucket)
      requires a in live
      reads this
    {
      Bucket(a, live[a])
    }

    /** Freeing `p` leaves its bytes with the pool: there are none, or the walk finds the buddy. */
    ghost predicate Keeps(p: Ptr)
      requires p.At? ==> p.addr - HEADER in live
      reads this
    {
      p.At? ==> live[p.addr - HEADER] > 0 && Walk(tree, BuddyOf(start, BucketAt(p.addr - HEADER)))
    }

    /**
     buddy_system_free: unless the walk finds the buddy at once the bucket is lost; else its bytes
     stay with the pool.
     */
    method Free(p: Ptr)
      requires Valid() && (p.At? ==> p.addr - HEADER in live)
      modifies this
      ensures Valid() && live == if p.At? then old(live) - {p.addr - HEADER} else old(live)
      ensures held == if old(Keeps(p)) then old(held) else old(held) - Bytes(old(BucketAt(p.addr - HEADER)))
      ensures p.Null? || !old(Keeps(p)) ==> tree == old(tree) && free == old(free)
      ensures p.At? && old(Keeps(p)) ==>
        var b := old(BucketAt(p.addr - HEADER)); exists r :: r in free && Covers(r, Joined(b, BuddyOf(start, b)))
    {
      if p.Null? {
        return;
      }
      hide Tiles, Aligned, AllAligned, Orders;
      var b := Bucket(p.addr - HEADER, live[p.addr - HEADER]);
      TakeBack(b);
      var d := GetBuddy(b);
      if d.None? {
        Lose(b);
        return;
      }
      ghost var r := JoinUp(b, d);
    }

    /** The joining loop, and the bucket goes back to the tree. */
    method JoinUp(b0: Bucket, d0: Found) returns (ghost r: Bucket)
      requires Holding({b0}) && b0.capacity > 0 && (d0.Some? ==> d0.bucket in free && d0.bucket == BuddyOf(start, b0))
      modifies `tree, `free
      ensures Valid() && r in free && Covers(r, if d0.Some? then Joined(b0, d0.bucket) else b0)
    {
      hide Tiles, Aligned, AllAligned, Orders;
      var b, d := b0, d0;
      while d.Some?
        invariant Holding({b}) && b.capacity > 0
        invariant d.Some? ==> d.bucket in free && d.bucket == BuddyOf(start, b)
        invariant (b == b0 && d == d0) || Covers(b, if d0.Some? then Joined(b0, d0.bucket) else b0)
        decreases |free|
      {
        b := Join(b, d.bucket);
        d := GetBuddy(b);
      }
      PutBack(b);
      r := b;
    }

    method PutBack(b: Bucket)
      requires Holding({b})
      modifies `tree, `free
      ensures Valid() && free == old(free) + {b}
    {
      hide Tiles, Aligned, AllAligned, Orders;
      ghost var s := free + used + {b};
      Put(b);
      assert free + used + {} == s;
    }

    /** The early return: the bucket in hand goes nowhere. */
    ghost method Lose(b: Bucket)
      requires Holding({b})
      modifies `held
      ensures Valid() && held == old(held) - Bytes(b)
    {
      DropTiles(free + used, held, b);
      hide Aligned;
      held := held - Bytes(b);
      assert free + used + {} == free + used;
    }

    method TakeBack(b: Bucket)
      requires Valid() && b.addr in live && live[b.addr] == b.capacity
      modifies `live, `used
      ensures Holding({b}) && live == old(live) - {b.addr} && b.capacity > 0
    {
      assert b in used && b in free + used + {};
      live := live - {b.addr};
      used := used - {b};
      assert free + used + {b} == old(free + used + {});
    }
  }

  /** Both halves of a pool of 16 bytes are handed out, and the first is freed: its bytes are in no bucket any more. */
  method HalfLost() returns (pool: Fixed)
    ensures pool.Valid() && 0 !in pool.live && pool.held == Bytes(Bucket(0, 16)) - Bytes(Bucket(0, 8))
  {
    assert Power(1) && Power(2) && Power(4) && Power(8) && Power(16);
    pool := new Fixed(0, 16);
    ghost var b0, b1;
    var p, q;
    p, b0 := pool.Alloc(4);
    FirstHalf(pool);
    q, b1 := pool.Alloc(4);
    SecondHalf(pool);
    pool.Free(p);
  }

  /** After the first allocation of `HalfLost` the other half is the only free bucket. */
  lemma FirstHalf(pool: Fixed)
    requires pool.Valid() && pool.start == 0 && pool.held == Bytes(Bucket(0, 16))
    requires 0 in pool.live && pool.live == map[0 := pool.live[0]]
    requires Power(pool.live[0]) && pool.live[0] >= 8 && pool.live[0] / 2 < 8
    requires forall b <- pool.free :: b == Bucket(0, 16) || b.capacity >= 8
    ensures pool.live[0] == 8 && pool.free == {Bucket(8, 8)}
  {
    var s, b := pool.free + pool.used + {}, Bucket(0, pool.live[0]);
    PowerEight(b.capacity);
    assert pool.used == {b} && !Holds(b, 8) && Holds(Bucket(0, 16), 8) && 8 in pool.held;
    var d :| d in s && Holds(d, 8);
    assert d in pool.free && b in s && Apart(b, d);
    forall e | e in s ensures 0 <= e.addr && e.addr + e.capacity <= 16 {
      assert Holds(e, e.addr) && Holds(e, e.addr + e.capacity - 1);
      assert e.addr in pool.held && e.addr + e.capacity - 1 in pool.held;
    }
    assert d == Bucket(8, 8);
    forall e | e in pool.free ensures e == d {
      assert e != d ==> Apart(e, d) && Apart(e, b);
    }
  }

  lemma PowerEight(c: nat)
    requires Power(c) && 8 <= c < 16
    ensures c == 8
  {
    assert Power(c / 2) && Power(c / 2 / 2);
  }

  /** A bucket in use at the address of the buddy: the walk does not find it. */
  lemma SecondHalf(pool: Fixed)
    requires pool.Valid() && pool.start == 0 && 0 in pool.live && pool.live[0] == 8 && 8 in pool.live
    ensures !pool.Keeps(At(0 + HEADER))
  {
    var s, d := pool.free + pool.used + {}, Bucket(8, pool.live[8]);
    assert d in pool.used && Holds(d, 8) && Holds(Bucket(8, 8), 8);
    assert BuddyOf(0, Bucket(0, 8)) == Bucket(8, 8);
    if Walk(pool.tree, Bucket(8, 8)) {
      WalkFinds(pool.tree, Bucket(8, 8));
      OrdersItems(Inorder(pool.tree), pool.free);
      assert Bucket(8, 8) in s && d in s;
      SharedByte(s, pool.held, d, Bucket(8, 8), 8);
    }
  }
}

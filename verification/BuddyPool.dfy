/**
 The dynamic pool of source/kernel/mem/buddy_system.c: free buckets in zones by capacity, the zones in
 a red-black tree (here a map, the tree being the subject of RbTree), and a header in front of every
 allocation that leads back to its bucket (here the map `live`).
 */
module BuddyPool {
  import opened BuddyBuckets
  import opened Sequences

  const HEADER: nat := 4

  datatype Ptr = Null | At(addr: int)
  datatype Found = None | Some(bucket: Bucket)

  /** The zones list exactly the buckets of `s`, each once and under its own capacity. */
  ghost predicate Lists(z: map<nat, seq<int>>, s: set<Bucket>) {
    && (forall b :: b in s <==> b.capacity in z && b.addr in z[b.capacity])
    && forall c <- z :: NoDup(z[c])
  }

  predicate NoEmpty(z: map<nat, seq<int>>) {
    forall c <- z :: z[c] != []
  }

  function Appended(z: map<nat, seq<int>>, b: Bucket): map<nat, seq<int>> {
    z[b.capacity := (if b.capacity in z then z[b.capacity] else []) + [b.addr]]
  }

  lemma AppendedLists(z: map<nat, seq<int>>, s: set<Bucket>, b: Bucket)
    requires Lists(z, s) && b !in s
    ensures Lists(Appended(z, b), s + {b})
    ensures forall c :: NoEmpty(z - {c}) ==> NoEmpty(Appended(z, b) - {c})
  {
    var z', c := Appended(z, b), b.capacity;
    forall d ensures d in s + {b} <==> d.capacity in z' && d.addr in z'[d.capacity] {
      if d.capacity == c {
        assert d.addr in z'[c] <==> d.addr == b.addr || (c in z && d.addr in z[c]);
      }
    }
    if c in z { assert b.addr !in z[c]; }
    forall k | NoEmpty(z - {k}) ensures NoEmpty(z' - {k}) {
      forall d <- z' - {k} ensures z'[d] != [] {
        assert d == c || d in z - {k};
      }
    }
  }

  /** One address taken out of a zone. */
  function Taken(z: map<nat, seq<int>>, c: nat, k: nat): map<nat, seq<int>>
    requires c in z && k < |z[c]|
  {
    z[c := z[c][..k] + z[c][k + 1..]]
  }

  lemma TakenLists(z: map<nat, seq<int>>, s: set<Bucket>, c: nat, k: nat)
    requires Lists(z, s) && c in z && k < |z[c]|
    ensures Bucket(z[c][k], c) in s && Lists(Taken(z, c, k), s - {Bucket(z[c][k], c)})
  {
    var q, t := z[c], Taken(z, c, k)[c];
    assert forall i :: 0 <= i < |t| ==> t[i] == if i < k then q[i] else q[i + 1];
    forall a ensures a in t <==> a in q && a != q[k] {
      if a in q {
        var i :| 0 <= i < |q| && q[i] == a;
        assert i < k ==> t[i] == a;
        assert i > k ==> t[i - 1] == a;
      }
    }
  }

  lemma DroppedLists(z: map<nat, seq<int>>, s: set<Bucket>, c: nat)
    requires Lists(z, s) && c in z && z[c] == []
    ensures Lists(z - {c}, s)
  {
  }

  /** All capacities even, as they are unless an odd one was added by sbrk (1 is never halved). */
  ghost predicate Evens(s: set<Bucket>) {
    forall b <- s :: b.capacity % 2 == 0 || b.capacity == 1
  }

  predicate Power(n: nat) {
    n == 1 || (n > 0 && n % 2 == 0 && Power(n / 2))
  }

  ghost predicate Powers(s: set<Bucket>) {
    forall b <- s :: Power(b.capacity)
  }

  lemma PowersEven(s: set<Bucket>)
    requires Powers(s)
    ensures Evens(s)
  {
  }

  /** What is left of `n` when it is halved as long as it is even. */
  function OddPart(n: nat): (r: nat)
    ensures r <= n
  {
    if n > 0 && n % 2 == 0 then OddPart(n / 2) else n
  }

  lemma {:induction false} OddPartOfPower(n: nat)
    requires Power(n)
    ensures OddPart(n / 2) <= 1
  {
    if n > 1 && n / 2 > 1 {
      OddPartOfPower(n / 2);
    }
  }

  /** The byte lost when a bucket is taken for `n` bytes: the last one, if it is odd and gets halved at all. */
  ghost function LostFor(b: Bucket, n: nat): iset<int> {
    if b.capacity / 2 >= n && b.capacity / 2 % 2 == 0 then Dropped(b) else iset{}
  }

  /** The first bucket in the zone of the least capacity that is at least `n`. */
  ghost predicate BestFit(z: map<nat, seq<int>>, s: set<Bucket>, n: nat, b: Bucket) {
    && b in s && b.capacity >= n && (forall d <- s :: d.capacity < n || d.capacity >= b.capacity)
    && b.capacity in z && z[b.capacity] != [] && z[b.capacity][0] == b.addr
  }

  lemma SplitKinds(s: set<Bucket>, b: Bucket)
    requires b in s && b.capacity / 2 % 2 == 0 && b.capacity >= 2
    ensures Evens(s) ==> Evens(s - {b} + {LeftHalf(b), RightHalf(b)}) && Dropped(b) == iset{}
    ensures Powers(s) ==> Powers(s - {b} + {LeftHalf(b), RightHalf(b)})
  {
  }

  lemma PowerTaken(s: set<Bucket>, b: Bucket)
    requires Powers(s) && b in s
    ensures OddPart(b.capacity / 2) <= 1
  {
    OddPartOfPower(b.capacity);
  }

  /** Joining a bucket in hand with a free twin. */
  lemma JoinKinds(s: set<Bucket>, b: Bucket, d: Bucket)
    requires b in s && d in s && b.capacity > 0
    ensures Evens(s) ==> Evens(s - {b, d} + {Joined(b, d)})
    ensures Powers(s) ==> Powers(s - {b, d} + {Joined(b, d)})
  {
    assert 2 * b.capacity / 2 == b.capacity && 2 * b.capacity % 2 == 0;
    if Powers(s) { assert Power(Joined(b, d).capacity); }
  }

  lemma NoTwinsAdded(s: set<Bucket>, b: Bucket)
    requires b.capacity > 0
    ensures NoTwins(s + {b}) <==> NoTwins(s) && forall d <- s :: !Twins(b, d)
  {
    if NoTwins(s + {b}) {
      assert forall d <- s :: d in s + {b} && b in s + {b};
    }
  }

  lemma NewSize(s: set<Bucket>, b: Bucket)
    requires NoTwins(s) && b.capacity > 0 && forall d <- s :: d.capacity != b.capacity
    ensures NoTwins(s + {b})
  {
  }

  lemma FewerTwins(s: set<Bucket>, t: set<Bucket>)
    requires t <= s
    ensures NoTwins(s) ==> NoTwins(t)
  {
  }

  class Pool {
    var zones: map<nat, seq<int>>   // the addresses of the free buckets of each capacity, in list order
    var live: map<int, nat>         // the capacity of the bucket behind each header
    ghost var free: set<Bucket>
    ghost var used: set<Bucket>
    ghost var managed: iset<int>    // every byte ever handed to the pool
    ghost var lost: iset<int>       // the bytes no bucket holds any more

    /** The buckets on the zones, those in use and `b` tile the memory. */
    ghost predicate Holding(b: set<Bucket>)
      reads this
    {
      && Lists(zones, free) && free !! used && (free + used) !! b && lost <= managed
      && (forall d :: d in used <==> d.addr in live && live[d.addr] == d.capacity)
      && Tiles(free + used + b, managed - lost)
    }

    ghost predicate Valid()
      reads this
    {
      Holding({}) && NoEmpty(zones)
    }

    ghost function Buckets(): set<Bucket>
      reads this
    {
      free + used
    }

    /** find_zone_by_capacity and list_insert_last */
    method Append(b: Bucket)
      requires Holding({b})
      modifies `zones, `free
      ensures Holding({}) && free == old(free) + {b} && zones == Appended(old(zones), b)
      ensures NoEmpty(old(zones)) ==> NoEmpty(zones)
    {
      AppendedLists(zones, free, b);
      zones := Appended(zones, b);
      free := free + {b};
      assert free + used + {} == old(free) + used + {b};
    }

    /** The zone of least capacity that is at least `n`, as rb_tree_find_first_greater_or_equal finds it. */
    method FirstAtLeast(n: nat) returns (c: nat, found: bool)
      requires Valid()
      ensures found ==> c in zones && c >= n && forall b <- free :: b.capacity < n || b.capacity >= c
      ensures !found <==> forall b <- free :: b.capacity < n
    {
      c, found := 0, false;
      var rest := zones.Keys;
      while rest != {}
        invariant rest <= zones.Keys
        invariant found ==> c in zones && c >= n && forall d <- zones :: d >= n && d !in rest ==> c <= d
        invariant !found ==> forall d <- zones :: d !in rest ==> d < n
        decreases |rest|
      {
        var d :| d in rest;
        rest := rest - {d};
        if d >= n && (!found || d < c) {
          c, found := d, true;
        }
      }
      if found {
        assert zones[c][0] in zones[c] && Bucket(zones[c][0], c) in free;
      }
    }

    /** dynamic_get_buddy: the first free bucket of the same capacity that touches `b`. */
    method GetBuddy(b: Bucket) returns (d: Found)
      requires Lists(zones, free)
      ensures d.Some? ==> d.bucket in free && Twins(b, d.bucket)
      ensures d.None? ==> forall e <- free :: !Twins(b, e)
    {
      if b.capacity !in zones {
        return None;
      }
      var q := zones[b.capacity];
      for i := 0 to |q|
        invariant forall j :: 0 <= j < i ==> !Twins(b, Bucket(q[j], b.capacity))
      {
        if q[i] + b.capacity == b.addr || b.addr + b.capacity == q[i] {
          return Some(Bucket(q[i], b.capacity));
        }
      }
      return None;
    }

    /** list_remove of a free bucket, and of its zone if that is now empty. */
    method Unlink(d: Bucket)
      requires Lists(zones, free) && NoEmpty(zones) && d in free
      modifies `zones, `free
      ensures Lists(zones, free) && NoEmpty(zones) && free == old(free) - {d}
    {
      var k :| 0 <= k < |zones[d.capacity]| && zones[d.capacity][k] == d.addr;
      TakenLists(zones, free, d.capacity, k);
      zones := Taken(zones, d.capacity, k);
      free := free - {d};
      DropEmpty(d.capacity);
    }

    method DropEmpty(c: nat)
      requires Lists(zones, free) && NoEmpty(zones - {c}) && c in zones
      modifies `zones
      ensures Lists(zones, free) && NoEmpty(zones)
    {
      if zones[c] == [] {
        DroppedLists(zones, free, c);
        zones := zones - {c};
      } else {
        assert forall d <- zones :: d != c ==> d in zones - {c};
      }
    }

    /** One halving: the left half stays in hand, the right half goes to the zone of its capacity. */
    method Split(b: Bucket) returns (l: Bucket)
      requires Holding({b}) && b.capacity >= 2
      modifies `zones, `free, `lost
      ensures l == LeftHalf(b) && Holding({l})
      ensures free == old(free) + {RightHalf(b)} && lost == old(lost) + Dropped(b)
      ensures free + used + {l} == old(free + used + {b}) - {b} + {l, RightHalf(b)}
      ensures forall c :: NoEmpty(old(zones) - {c}) ==> NoEmpty(zones - {c})
      ensures zones.Keys == old(zones).Keys + {b.capacity / 2}
    {
      SplitTiles(free + used + {b}, managed - lost, b);
      var r := RightHalf(b);
      l := LeftHalf(b);
      AppendedLists(zones, free, r);
      zones := Appended(zones, r);
      free, lost := free + {r}, lost + Dropped(b);
      assert free + used + {l} == old(free) + used + {b} - {b} + {l, r};
      assert managed - lost == managed - old(lost) - Dropped(b);
    }

    /** What splitting keeps, from the free buckets `f`, all buckets `s` and the lost bytes `l` on. */
    ghost predicate Kept(f: set<Bucket>, s: set<Bucket>, l: iset<int>, now: set<Bucket>)
      reads this
    {
      && (NoTwins(f) ==> NoTwins(free))
      && (Evens(s) ==> Evens(now) && lost == l)
      && (Powers(s) ==> Powers(now) && lost == l)
    }

    /** The splitting loop: `b` is halved as long as the half still holds `n` bytes and is even. */
    method SplitDown(b0: Bucket, n: nat) returns (b: Bucket)
      requires Holding({b0}) && b0.capacity >= n > 0
      requires forall d <- free :: d.capacity < n || d.capacity >= b0.capacity
      modifies `zones, `free, `lost
      ensures Holding({b}) && b.addr == b0.addr && b.capacity >= n
      ensures b.capacity / 2 < n || b.capacity / 2 % 2 == 1
      ensures b.capacity / 2 < n <==> OddPart(b0.capacity / 2) < n
      ensures lost == old(lost) + LostFor(b0, n)
      ensures Kept(old(free), old(free + used + {b0}), old(lost), free + used + {b})
      ensures NoEmpty(old(zones) - {b0.capacity}) ==> NoEmpty(zones - {b0.capacity})
      ensures old(zones).Keys <= zones.Keys
    {
      hide Lists, Tiles, Evens, Powers, NoTwins, NoEmpty;
      b := b0;
      while b.capacity / 2 >= n && b.capacity / 2 % 2 == 0
        invariant Holding({b}) && b.addr == b0.addr && b.capacity >= n
        invariant forall d <- free :: d.capacity < n || d.capacity >= b.capacity
        invariant OddPart(b.capacity / 2) == OddPart(b0.capacity / 2)
        invariant (b == b0 && lost == old(lost)) || (b.capacity % 2 == 0 && lost == old(lost) + LostFor(b0, n))
        invariant Kept(old(free), old(free + used + {b0}), old(lost), free + used + {b})
        invariant NoEmpty(old(zones) - {b0.capacity}) ==> NoEmpty(zones - {b0.capacity})
        invariant old(zones).Keys <= zones.Keys
        decreases b.capacity
      {
        if NoTwins(free) { NewSize(free, RightHalf(b)); }
        SplitKinds(free + used + {b}, b);
        if Powers(old(free + used + {b0})) { PowersEven(free + used + {b}); }
        b := Split(b);
      }
    }

    /** list_remove_first on a zone, which may leave it empty. */
    method TakeFirst(c: nat) returns (b: Bucket)
      requires Valid() && c in zones
      modifies `zones, `free
      ensures b.capacity == c && b in old(free) && free == old(free) - {b} && Holding({b})
      ensures old(zones)[c] != [] && old(zones)[c][0] == b.addr
      ensures Kept(old(free), old(Buckets()), lost, free + used + {b}) && free + used + {b} == old(free + used)
      ensures zones.Keys == old(zones).Keys && NoEmpty(zones - {c})
    {
      b := Bucket(zones[c][0], c);
      TakenLists(zones, free, c, 0);
      zones := Taken(zones, c, 0);
      free := free - {b};
      assert free + used + {b} == old(free) + used + {};
    }

    /** The header is written: the bucket in hand is in use. */
    method HandOut(b: Bucket)
      requires Holding({b})
      modifies `live, `used
      ensures Holding({}) && b.addr !in old(live) && live == old(live)[b.addr := b.capacity] && used == old(used) + {b}
    {
      var s := free + used + {b};
      if b.addr in live {
        assert Bucket(b.addr, live[b.addr]) in used;
        assert b in s && Bucket(b.addr, live[b.addr]) in s && Holds(b, b.addr) &&
          Holds(Bucket(b.addr, live[b.addr]), b.addr);
        SharedByte(s, managed - lost, b, Bucket(b.addr, live[b.addr]), b.addr);
        assert false;
      }
      live := live[b.addr := b.capacity];
      used := used + {b};
      assert free + used + {} == s;
    }

    /**
     buddy_system_dynamic_alloc: Null exactly if nothing was asked for or no free bucket is large enough,
     else the front of the best fitting bucket, `b0`.
     */
    method Alloc(size: nat) returns (p: Ptr, ghost b0: Bucket)
      requires Valid()
      modifies this
      ensures Valid() && managed == old(managed)
      ensures p == Null <==> size == 0 || forall b <- old(free) :: b.capacity < size + HEADER
      ensures p == Null ==> zones == old(zones) && live == old(live) && free == old(free) && lost == old(lost)
      ensures p.At? ==> BestFit(old(zones), old(free), size + HEADER, b0) && p.addr == b0.addr + HEADER
      ensures p.At? ==>
        var a := b0.addr;
        && a !in old(live) && a in live && live == old(live)[a := live[a]] && live[a] >= size + HEADER
        && (live[a] / 2 < size + HEADER || live[a] / 2 % 2 == 1)
        && (live[a] / 2 < size + HEADER <==> OddPart(b0.capacity / 2) < size + HEADER)
        && (old(Powers(Buckets())) ==> live[a] / 2 < size + HEADER)
      ensures p.At? ==> lost == old(lost) + LostFor(b0, size + HEADER)
      ensures Kept(old(free), old(Buckets()), old(lost), Buckets())
    {
      hide Lists, Tiles, Evens, Powers, NoTwins, NoEmpty;
      b0 := Bucket(0, 0);
      if size == 0 {
        return Null, b0;
      }
      var n := size + HEADER;
      var c, found := FirstAtLeast(n);
      if !found {
        return Null, b0;
      }
      var first := TakeFirst(c);
      b0 := first;
      if old(Powers(Buckets())) { PowerTaken(old(Buckets()), b0); }
      var b := SplitDown(first, n);
      DropEmpty(c);
      ghost var s := free + used + {b};
      HandOut(b);
      assert Buckets() == s;
      p := At(b.addr + HEADER);
    }

    /** The bucket behind a header goes out of use and into the hand. */
    method TakeBack(a: int) returns (b: Bucket)
      requires Valid() && a in live
      modifies `live, `used
      ensures b == Bucket(a, old(live)[a]) && Holding({b}) && live == old(live) - {a} && b.capacity > 0
      ensures free + used + {b} == old(Buckets())
    {
      b := Bucket(a, live[a]);
      assert b in used && b in free + used + {};
      live := live - {a};
      used := used - {b};
      assert free + used + {b} == old(free + used + {});
    }

    /** One join: the twin `d` leaves its zone and `b` grows over it. */
    method Join(b: Bucket, d: Bucket) returns (j: Bucket)
      requires Holding({b}) && NoEmpty(zones) && d in free && Twins(b, d)
      modifies `zones, `free
      ensures Holding({j}) && NoEmpty(zones) && free == old(free) - {d} && j == Joined(b, d)
      ensures free + used + {j} == old(free + used + {b}) - {b, d} + {Joined(b, d)}
    {
      ghost var s := free + used + {b};
      JoinTiles(s, managed - lost, b, d);
      Unlink(d);
      j := Joined(b, d);
      assert free + used + {j} == s - {b, d} + {j};
    }

    /** The joining loop: as long as a free twin touches the bucket in hand. */
    method JoinUp(b0: Bucket) returns (b: Bucket)
      requires Holding({b0}) && NoEmpty(zones) && b0.capacity > 0
      modifies `zones, `free
      ensures Holding({b}) && NoEmpty(zones) && b.capacity > 0 && forall e <- free :: !Twins(b, e)
      ensures Kept(old(free), old(free + used + {b0}), lost, free + used + {b})
    {
      hide Lists, Tiles, Evens, Powers, NoTwins, NoEmpty, Twins;
      b := b0;
      var d := GetBuddy(b);
      while d.Some?
        invariant Holding({b}) && NoEmpty(zones) && b.capacity > 0
        invariant d.Some? ==> d.bucket in free && Twins(b, d.bucket)
        invariant d.None? ==> forall e <- free :: !Twins(b, e)
        invariant free <= old(free) && Kept(old(free), old(free + used + {b0}), lost, free + used + {b})
        decreases |free|
      {
        JoinKinds(free + used + {b}, b, d.bucket);
        b := Join(b, d.bucket);
        FewerTwins(old(free), free);
        d := GetBuddy(b);
      }
    }

    /** buddy_system_dynamic_free: free twins are joined until there are none, and the bucket goes to its zone. */
    method Free(p: Ptr)
      requires Valid() && (p.At? ==> p.addr - HEADER in live)
      modifies this
      ensures Valid() && managed == old(managed) && lost == old(lost)
      ensures live == if p.At? then old(live) - {p.addr - HEADER} else old(live)
      ensures Kept(old(free), old(Buckets()), old(lost), Buckets())
    {
      if p.Null? {
        return;
      }
      hide Lists, Tiles, Evens, Powers, NoTwins, NoEmpty, Twins;
      var b := TakeBack(p.addr - HEADER);
      b := JoinUp(b);
      NoTwinsAdded(free, b);
      ghost var s := free + used + {b};
      Append(b);
      assert free + used == s;
    }

    /** buddy_system_dynamic_expand (sbrk): the only step after which free twins can be left side by side. */
    method Expand(addr: int, capacity: nat)
      requires Valid() && capacity > 0 && managed !! Bytes(Bucket(addr, capacity))
      modifies this
      ensures Valid() && live == old(live) && lost == old(lost)
      ensures managed == old(managed) + Bytes(Bucket(addr, capacity))
      ensures free == old(free) + {Bucket(addr, capacity)}
      ensures NoTwins(free) <==> old(NoTwins(free)) && forall d <- old(free) :: !Twins(Bucket(addr, capacity), d)
      ensures old(Evens(Buckets())) && capacity % 2 == 0 ==> Evens(Buckets())
      ensures old(Powers(Buckets())) && Power(capacity) ==> Powers(Buckets())
    {
      hide Lists, Tiles, NoTwins, NoEmpty, Twins;
      var b := Bucket(addr, capacity);
      AddTiles(free + used + {}, managed - lost, b);
      managed := managed + Bytes(b);
      assert managed - lost == old(managed - lost) + Bytes(b);
      assert free + used + {b} == free + used + {} + {b};
      NoTwinsAdded(free, b);
      Append(b);
    }

    /** buddy_dynamic_system_init, once the size is cut down to a power of two. */
    constructor (start: int, size: nat)
      requires Power(size)
      ensures Valid() && live == map[] && lost == iset{} && managed == Bytes(Bucket(start, size))
      ensures free == {Bucket(start, size)} && NoTwins(free) && Powers(Buckets())
    {
      zones, live := map[size := [start]], map[];
      free, used, managed, lost := {Bucket(start, size)}, {}, Bytes(Bucket(start, size)), iset{};
      new;
      var b := Bucket(start, size);
      AddTiles({}, iset{}, b);
      assert free + used + {} == {} + {b};
      assert managed - lost == iset{} + Bytes(b);
    }
  }

  /** A region of 13 bytes loses its last one to an allocation of 1; all of one of 14 bytes is handed out for it. */
  method OddRegion(capacity: nat) returns (pool: Pool, p: Ptr)
    requires capacity == 13 || capacity == 14
    ensures p == At(104) && 100 in pool.live
    ensures capacity == 13 ==> pool.live[100] / 2 < 1 + HEADER && pool.lost == iset{112}
    ensures capacity == 14 ==> pool.live[100] / 2 >= 1 + HEADER && pool.lost == iset{}
  {
    assert Power(1);
    pool := new Pool(0, 1);
    pool.Expand(100, capacity);
    ghost var f := pool.free;
    assert Bucket(100, capacity) in f && f == {Bucket(0, 1), Bucket(100, capacity)};
    ghost var b0;
    p, b0 := pool.Alloc(1);
    assert b0 == Bucket(100, capacity);
  }

  /** A region right behind a free bucket of its size is left beside it. */
  method TwinRegion() returns (pool: Pool)
    ensures pool.Valid() && !NoTwins(pool.free)
  {
    pool := new Pool(0, 1);
    assert Twins(Bucket(1, 1), Bucket(0, 1));
    pool.Expand(1, 1);
  }

  // ---- the table of powers of two and its binary searches ----

  const BITS: nat := 32   // OS_32

  function TwoTo(i: nat): (r: nat)
    ensures r > i
  {
    if i == 0 then 1 else 2 * TwoTo(i - 1)
  }

  lemma {:induction false} TwoToPower(i: nat)
    ensures Power(TwoTo(i))
  {
    if i > 0 {
      TwoToPower(i - 1);
      assert 2 * TwoTo(i - 1) / 2 == TwoTo(i - 1) && TwoTo(i) % 2 == 0;
    }
  }

  lemma {:induction false} TwoToGrows(i: nat, j: nat)
    requires i < j
    ensures TwoTo(i) < TwoTo(j)
  {
    if i < j - 1 {
      TwoToGrows(i, j - 1);
    }
  }

  /** find_greater_or_equal_capacity: the least power in the table that is not below, 0 if there is none. */
  method FindGreaterOrEqual(table: array<nat>, capacity: nat) returns (r: nat)
    requires table.Length == BITS && forall i :: 0 <= i < BITS ==> table[i] == TwoTo(i)
    ensures r == 0 <==> capacity > TwoTo(BITS - 1)
    ensures r != 0 ==> Power(r) && r >= capacity && forall i :: 0 <= i < BITS && TwoTo(i) >= capacity ==> r <= TwoTo(i)
  {
    var left, right := 0, BITS - 1;
    while left < right
      invariant 0 <= left <= right < BITS
      invariant forall i :: 0 <= i < left ==> TwoTo(i) < capacity
      invariant right < BITS - 1 ==> TwoTo(right) >= capacity
    {
      var mid := left + (right - left) / 2;
      if table[mid] >= capacity {
        right := mid;
      } else {
        forall i | 0 <= i < mid ensures TwoTo(i) < capacity { TwoToGrows(i, mid); }
        left := mid + 1;
      }
    }
    r := if table[left] >= capacity then table[left] else 0;
    TwoToPower(left);
    forall i | left < i < BITS ensures TwoTo(left) < TwoTo(i) { TwoToGrows(left, i); }
  }

  /** find_less_or_equal_capacity: the greatest power in the table that is not above, 0 for 0. */
  method FindLessOrEqual(table: array<nat>, capacity: nat) returns (r: nat)
    requires table.Length == BITS && forall i :: 0 <= i < BITS ==> table[i] == TwoTo(i)
    ensures r == 0 <==> capacity == 0
    ensures r != 0 ==> Power(r) && r <= capacity && forall i :: 0 <= i < BITS && TwoTo(i) <= capacity ==> TwoTo(i) <= r
  {
    var left, right := 0, BITS - 1;
    while left < right
      invariant 0 <= left <= right < BITS
      invariant forall i :: right < i < BITS ==> TwoTo(i) > capacity
      invariant left > 0 ==> TwoTo(left) <= capacity
    {
      var mid := left + (right - left + 1) / 2;
      if table[mid] <= capacity {
        left := mid;
      } else {
        forall i | mid < i < BITS ensures TwoTo(i) > capacity { TwoToGrows(mid, i); }
        right := mid - 1;
      }
    }
    r := if table[left] <= capacity then table[left] else 0;
    TwoToPower(left);
    forall i | 0 <= i < left ensures TwoTo(i) < TwoTo(left) { TwoToGrows(i, left); }
  }
}

/**
 Buckets of memory as the buddy pools of source/kernel/mem/buddy_system.c cut and join them: sets of
 address ranges that tile the managed bytes.
 */
module BuddyBuckets {

  datatype Bucket = Bucket(addr: int, capacity: nat)

  predicate Holds(b: Bucket, x: int) {
    b.addr <= x < b.addr + b.capacity
  }

  ghost function Bytes(b: Bucket): iset<int> {
    iset x: int | Holds(b, x)
  }

  predicate Apart(b: Bucket, d: Bucket) {
    b.addr + b.capacity <= d.addr || d.addr + d.capacity <= b.addr
  }

  /** Same size, one right after the other: what dynamic_get_buddy looks for. */
  predicate Twins(b: Bucket, d: Bucket) {
    b.capacity == d.capacity && (b.addr + b.capacity == d.addr || d.addr + d.capacity == b.addr)
  }

  /** The buckets do not overlap and hold exactly the given bytes. */
  ghost predicate Tiles(s: set<Bucket>, bytes: iset<int>) {
    && (forall b <- s :: b.capacity > 0)
    && (forall b, d :: b in s && d in s && b != d ==> Apart(b, d))
    && (forall x :: x in bytes <==> exists b :: b in s && Holds(b, x))
  }

  ghost predicate NoTwins(s: set<Bucket>) {
    forall b, d :: b in s && d in s ==> !Twins(b, d)
  }

  lemma Overlap(s: set<Bucket>, bytes: iset<int>, b: Bucket, d: Bucket)
    requires Tiles(s, bytes) && b in s && d != b && !Apart(b, d)
    ensures d !in s
  {
  }

  lemma SharedByte(s: set<Bucket>, bytes: iset<int>, b: Bucket, d: Bucket, x: int)
    requires Tiles(s, bytes) && b in s && d in s && Holds(b, x) && Holds(d, x)
    ensures b == d
  {
  }

  // ---- cutting and joining ----

  function LeftHalf(b: Bucket): Bucket {
    Bucket(b.addr, b.capacity / 2)
  }

  function RightHalf(b: Bucket): Bucket {
    Bucket(b.addr + b.capacity / 2, b.capacity / 2)
  }

  /** Halving drops the last byte of a bucket of odd capacity. */
  ghost function Dropped(b: Bucket): iset<int> {
    if b.capacity % 2 == 1 then iset{b.addr + b.capacity - 1} else iset{}
  }

  lemma SplitTiles(s: set<Bucket>, bytes: iset<int>, b: Bucket)
    requires Tiles(s, bytes) && b in s && b.capacity >= 2
    ensures Tiles(s - {b} + {LeftHalf(b), RightHalf(b)}, bytes - Dropped(b))
    ensures LeftHalf(b) !in s && RightHalf(b) !in s && LeftHalf(b) != RightHalf(b)
    ensures Dropped(b) <= bytes
  {
    var l, r := LeftHalf(b), RightHalf(b);
    var t := s - {b} + {l, r};
    assert Holds(b, b.addr + b.capacity - 1);
    Overlap(s, bytes, b, l);
    Overlap(s, bytes, b, r);
    forall x ensures x in bytes - Dropped(b) <==> exists d :: d in t && Holds(d, x) {
      if Holds(b, x) {
        assert x in bytes && l in t && r in t;
        assert x in Dropped(b) || Holds(l, x) || Holds(r, x);
      }
      if d :| d in t && Holds(d, x) {
        assert d in s || Holds(b, x);
        if d in s && Holds(b, x) { SharedByte(s, bytes, b, d, x); }
      }
      if x in bytes && !Holds(b, x) {
        var d :| d in s && Holds(d, x);
        assert d in t;
      }
    }
  }

  /** Twins joined: the lower address, twice the capacity. */
  function Joined(b: Bucket, d: Bucket): Bucket {
    Bucket(if b.addr < d.addr then b.addr else d.addr, 2 * b.capacity)
  }

  lemma JoinTiles(s: set<Bucket>, bytes: iset<int>, b: Bucket, d: Bucket)
    requires Tiles(s, bytes) && b in s && d in s && Twins(b, d)
    ensures Tiles(s - {b, d} + {Joined(b, d)}, bytes) && Joined(b, d) !in s && b != d
  {
    var j := Joined(b, d);
    var t := s - {b, d} + {j};
    Overlap(s, bytes, b, j);
    assert j in t && forall x :: Holds(j, x) <==> Holds(b, x) || Holds(d, x);
    forall x ensures x in bytes <==> exists e :: e in t && Holds(e, x) {
      if Holds(j, x) {
        assert x in bytes;
      } else if e :| e in s && Holds(e, x) {
        assert e in t;
      }
    }
    forall e, f | e in t && f in t && e != f ensures Apart(e, f) {
      var o := if e == j then f else e;
      if e == j || f == j {
        assert o in s && Apart(o, b) && Apart(o, d);
      }
    }
  }

  lemma AddTiles(s: set<Bucket>, bytes: iset<int>, b: Bucket)
    requires Tiles(s, bytes) && b.capacity > 0 && bytes !! Bytes(b)
    ensures Tiles(s + {b}, bytes + Bytes(b)) && b !in s
  {
    assert Holds(b, b.addr);
    forall d | d in s ensures Apart(b, d) && d != b {
      var x := if d.addr < b.addr then b.addr else d.addr;
      assert Holds(d, d.addr) && (Holds(b, x) ==> x in Bytes(b)) && (Holds(d, x) ==> x in bytes);
    }
    var t := s + {b};
    forall x ensures x in bytes + Bytes(b) <==> exists d :: d in t && Holds(d, x) {
      if x in bytes {
        var d :| d in s && Holds(d, x);
        assert d in t;
      }
      assert b in t && (x in Bytes(b) <==> Holds(b, x));
    }
  }

  lemma DropTiles(s: set<Bucket>, bytes: iset<int>, b: Bucket)
    requires Tiles(s + {b}, bytes) && b !in s
    ensures Tiles(s, bytes - Bytes(b)) && Bytes(b) <= bytes
  {
    forall x ensures x in bytes - Bytes(b) <==> exists d :: d in s && Holds(d, x) {
      if d :| d in s && Holds(d, x) {
        assert d in s + {b} && b in s + {b};
        if Holds(b, x) { SharedByte(s + {b}, bytes, b, d, x); }
      }
      if x in bytes && !Holds(b, x) {
        var d :| d in s + {b} && Holds(d, x);
        assert d in s;
      }
    }
    forall x | Holds(b, x) ensures x in bytes {
      assert b in s + {b};
    }
  }
}

/**
 The two-level page table of source/kernel/mem/pdt.c, and the scatter list of source/kernel/dev/dma.c
 built over it.  Permission bits other than the present bit are left out.
 */
module Paging {

  const PAGE: nat := 4096
  const ENTRIES: nat := 1024
  const PAGES: nat := 0x10_0000         // page numbers and frame numbers are 20 bits
  const ADDRESSES: nat := 0x1_0000_0000

  datatype Entry = Entry(present: bool, frame: nat)

  predicate IsTable(t: seq<Entry>) {
    |t| == ENTRIES && forall e <- t :: e.frame < PAGES
  }

  /** The directory and the second-level tables by their frames; no table serves two directory entries. */
  predicate Tables(dir: seq<Entry>, tables: map<nat, seq<Entry>>) {
    && |dir| == ENTRIES && (forall f <- tables :: IsTable(tables[f]))
    && (forall i :: 0 <= i < ENTRIES && dir[i].present ==> dir[i].frame in tables)
    && (forall i, j :: 0 <= i < j < ENTRIES && dir[i].present && dir[j].present ==> dir[i].frame != dir[j].frame)
  }

  /** The frame of page `p`, -1 if it has none. */
  function FrameOf(dir: seq<Entry>, tables: map<nat, seq<Entry>>, p: nat): int
    requires Tables(dir, tables) && p < PAGES
  {
    var d := dir[p / ENTRIES];
    if d.present && tables[d.frame][p % ENTRIES].present then tables[d.frame][p % ENTRIES].frame else -1
  }

  /** A new empty table behind a directory entry that had none changes no translation. */
  lemma TableAdded(dir: seq<Entry>, tables: map<nat, seq<Entry>>, i: nat, f: nat, empty: seq<Entry>)
    requires Tables(dir, tables) && i < ENTRIES && !dir[i].present && f !in tables
    requires IsTable(empty) && forall e <- empty :: !e.present
    ensures var dir', tables' := dir[i := Entry(true, f)], tables[f := empty];
            Tables(dir', tables') && forall p :: 0 <= p < PAGES ==> FrameOf(dir', tables', p) == FrameOf(dir, tables, p)
  {
  }

  /** One entry of one table set changes the translation of one page. */
  lemma EntrySet(dir: seq<Entry>, tables: map<nat, seq<Entry>>, q: nat, e: Entry)
    requires Tables(dir, tables) && q < PAGES && dir[q / ENTRIES].present && e.frame < PAGES
    ensures var f := dir[q / ENTRIES].frame; var tables' := tables[f := tables[f][q % ENTRIES := e]];
            && Tables(dir, tables')
            && forall p :: 0 <= p < PAGES ==>
                 FrameOf(dir, tables', p) == if p == q then (if e.present then e.frame else -1)
                   else FrameOf(dir, tables, p)
  {
    var f := dir[q / ENTRIES].frame;
    var tables' := tables[f := tables[f][q % ENTRIES := e]];
    assert IsTable(tables[f]);
    forall p | 0 <= p < PAGES && p != q
      ensures Tables(dir, tables') && FrameOf(dir, tables', p) == FrameOf(dir, tables, p)
    {
      if p / ENTRIES == q / ENTRIES {
        assert p % ENTRIES != q % ENTRIES;
      }
    }
  }

  class AddressSpace {
    var dir: seq<Entry>
    var tables: map<nat, seq<Entry>>
    var free: set<nat>      // frames mm_bitmap_alloc_page can hand out

    ghost predicate Valid()
      reads this
    {
      Tables(dir, tables) && (forall f <- free :: f < PAGES && f !in tables)
    }

    ghost function At(p: nat): int
      requires Valid() && p < PAGES
      reads this
    {
      FrameOf(dir, tables, p)
    }

    constructor (free: set<nat>)
      requires forall f <- free :: f < PAGES
      ensures Valid() && this.free == free && forall p :: 0 <= p < PAGES ==> At(p) == -1
    {
      dir, tables, this.free := seq(ENTRIES, _ => Entry(false, 0)), map[], free;
    }

    /** No directory entry has changed but, if it was absent, `i`, whose table has taken one frame. */
    ghost predicate OneTable(dir0: seq<Entry>, free0: set<nat>, i: nat)
      reads this
    {
      && |dir| == |dir0| == ENTRIES && i < ENTRIES && dir[i].present
      && (forall j :: 0 <= j < ENTRIES && j != i ==> dir[j] == dir0[j])
      && |free| == |free0| - (if dir0[i].present then 0 else 1)
    }

    /** The part of pdt_set_one_entry that makes sure of the second-level table. */
    method NeedTable(i: nat)
      requires Valid() && i < ENTRIES && (dir[i].present || free != {})
      modifies this
      ensures Valid() && dir[i].present && forall p :: 0 <= p < PAGES ==> At(p) == old(At(p))
      ensures OneTable(old(dir), old(free), i)
      ensures old(dir[i].present) ==> dir == old(dir) && tables == old(tables) && free == old(free)
    {
      if !dir[i].present {
        var f :| f in free;
        var empty := seq(ENTRIES, _ => Entry(false, 0));
        TableAdded(dir, tables, i, f, empty);
        free := free - {f};
        tables := tables[f := empty];
        dir := dir[i := Entry(true, f)];
      }
    }

    /** pdt_set_one_entry on page `p`: -1 exactly if it is mapped already. */
    method SetOne(p: nat, frame: nat, present: bool) returns (r: int)
      requires Valid() && p < PAGES && frame < PAGES && (dir[p / ENTRIES].present || free != {})
      modifies this
      ensures Valid() && r == if old(At(p)) == -1 then 0 else -1
      ensures forall q :: 0 <= q < PAGES ==> At(q) == if q == p && r == 0 && present then frame else old(At(q))
      ensures OneTable(old(dir), old(free), p / ENTRIES)
      ensures r == -1 ==> dir == old(dir) && tables == old(tables) && free == old(free)
    {
      NeedTable(p / ENTRIES);
      var f := dir[p / ENTRIES].frame;
      if tables[f][p % ENTRIES].present {
        return -1;
      }
      EntrySet(dir, tables, p, Entry(present, frame));
      tables := tables[f := tables[f][p % ENTRIES := Entry(present, frame)]];
      return 0;
    }

    /** The pages of a range, rounded up, in 32 bits. */
    static function PagesOf(size: nat): nat {
      (size + PAGE - 1) % ADDRESSES / PAGE
    }

    /** The page or frame number `i` after that of `addr`, addresses wrapping around in 32 bits. */
    static function Next(addr: nat, i: nat): (r: nat)
      ensures r < PAGES
    {
      (addr / PAGE + i) % PAGES
    }

    /** The directory entries without a table that the pages from number `i` of a range to `n` need. */
    static ghost function Absent(dir: seq<Entry>, vm: nat, i: nat, n: nat): set<nat> {
      set d | 0 <= d < |dir| && !dir[d].present && Needs(vm, i, n, d)
    }

    static ghost predicate Needs(vm: nat, i: nat, n: nat, d: nat) {
      exists j :: i <= j < n && Next(vm, j) / ENTRIES == d
    }

    /** There are frames for the tables that the first `n` pages of the range need, up to one already mapped. */
    ghost predicate EnoughFrames(vm: nat, n: nat)
      requires Valid()
      reads this
    {
      exists k :: 0 <= k <= n && (k == n || At(Next(vm, k)) != -1) && |free| >= |Absent(dir, vm, 0, k)|
    }

    /** A table that is there is not needed any more. */
    static lemma AbsentShrinks(dir: seq<Entry>, dir': seq<Entry>, vm: nat, i: nat, n: nat)
      requires i < n && |dir| == |dir'| == ENTRIES && dir'[Next(vm, i) / ENTRIES].present
      requires forall j :: 0 <= j < ENTRIES && j != Next(vm, i) / ENTRIES ==> dir'[j] == dir[j]
      ensures var d := Next(vm, i) / ENTRIES;
              |Absent(dir', vm, i + 1, n)| <= |Absent(dir, vm, i, n)| - (if dir[d].present then 0 else 1)
    {
      var d := Next(vm, i) / ENTRIES;
      assert Needs(vm, i, n, d);
      var before, after := Absent(dir, vm, i, n), Absent(dir', vm, i + 1, n);
      assert d !in after;
      forall e | e in after ensures e in before - {d} {
        var j :| i + 1 <= j < n && Next(vm, j) / ENTRIES == e;
        assert Needs(vm, i, n, e);
      }
      SubsetSize(after, before - {d});
    }

    /** The directory entries with a table after the first `n` pages of the range, from `dir0` on. */
    static ghost predicate Tabled(dir0: seq<Entry>, dir: seq<Entry>, vm: nat, n: nat) {
      && |dir| == |dir0| == ENTRIES
      && forall d :: 0 <= d < ENTRIES ==> (dir[d].present <==> dir0[d].present || Needs(vm, 0, n, d))
    }

    /** One page more needs one table more exactly if its directory entry has none by then. */
    static lemma AbsentGrows(dir0: seq<Entry>, vm: nat, n: nat)
      requires |dir0| == ENTRIES
      ensures var d := Next(vm, n) / ENTRIES;
              && (forall e :: Needs(vm, 0, n + 1, e) <==> Needs(vm, 0, n, e) || e == d)
              && |Absent(dir0, vm, 0, n + 1)|
                   == |Absent(dir0, vm, 0, n)| + (if dir0[d].present || Needs(vm, 0, n, d) then 0 else 1)
    {
      var d := Next(vm, n) / ENTRIES;
      forall e ensures Needs(vm, 0, n + 1, e) <==> Needs(vm, 0, n, e) || e == d {
        if j :| 0 <= j < n + 1 && Next(vm, j) / ENTRIES == e {
          assert j == n || Needs(vm, 0, n, e);
        }
        if j :| 0 <= j < n && Next(vm, j) / ENTRIES == e {
          assert Needs(vm, 0, n + 1, e);
        }
        assert Next(vm, n) / ENTRIES == e ==> Needs(vm, 0, n + 1, e);
      }
      var before, after := Absent(dir0, vm, 0, n), Absent(dir0, vm, 0, n + 1);
      if dir0[d].present || Needs(vm, 0, n, d) {
        assert after == before;
      } else {
        assert after == before + {d};
      }
    }

    lemma TabledMore(dir0: seq<Entry>, was: seq<Entry>, free0: set<nat>, vm: nat, n: nat)
      requires Tabled(dir0, was, vm, n)
      requires OneTable(was, free0, Next(vm, n) / ENTRIES)
      ensures Tabled(dir0, dir, vm, n + 1)
      ensures |free| - |free0| == |Absent(dir0, vm, 0, n)| - |Absent(dir0, vm, 0, n + 1)|
    {
      AbsentGrows(dir0, vm, n);
    }

    static lemma {:induction false} SubsetSize(a: set<nat>, b: set<nat>)
      requires a <= b
      ensures |a| <= |b|
    {
      if a != {} {
        var x :| x in a;
        SubsetSize(a - {x}, b - {x});
      }
    }

    /**
     pdt_set_entry: pages are mapped in order up to the first that is mapped already; `done` of them are.
     Success means all of them, and every other page translates as before, though tables were added.
     */
    method SetEntry(vm: nat, ph: nat, size: nat, present: bool) returns (r: int, ghost done: nat)
      requires Valid() && vm < ADDRESSES && ph < ADDRESSES && size < ADDRESSES && vm % PAGE == 0 && ph % PAGE == 0
      requires EnoughFrames(vm, PagesOf(size))
      modifies this
      ensures Valid() && done <= PagesOf(size) && (r == 0 || r == -1) && (r == 0 <==> done == PagesOf(size))
      ensures r == -1 ==> At(Next(vm, done)) != -1 && old(At(Next(vm, done))) != -1
      ensures done <= PAGES
      ensures Tabled(old(dir), dir, vm, done) && |free| == old(|free|) - |Absent(old(dir), vm, 0, done)|
      ensures forall i :: 0 <= i < done ==>
        old(At(Next(vm, i))) == -1 && At(Next(vm, i)) == if present then Next(ph, i) else -1
      ensures forall q :: 0 <= q < PAGES && (forall i :: 0 <= i < done ==> Next(vm, i) != q) ==> At(q) == old(At(q))
    {
      hide Tables, FrameOf, Absent, Needs, Tabled;
      done := 0;
      TabledNone(vm);
      var loop := PagesOf(size);
      ghost var k :| 0 <= k <= loop && (k == loop || At(Next(vm, k)) != -1) && |free| >= |Absent(dir, vm, 0, k)|;
      var i := 0;
      while i < loop
        invariant 0 <= i <= k <= loop && i <= PAGES && done == i && Valid()
        invariant |free| >= |Absent(dir, vm, i, k)|
        invariant Tabled(old(dir), dir, vm, i) && |free| == old(|free|) - |Absent(old(dir), vm, 0, i)|
        invariant forall j :: 0 <= j < i ==>
          old(At(Next(vm, j))) == -1 && At(Next(vm, j)) == if present then Next(ph, j) else -1
        invariant forall q :: 0 <= q < PAGES && (forall j :: 0 <= j < i ==> Next(vm, j) != q) ==> At(q) == old(At(q))
      {
        forall j | 0 <= j < i ensures Next(vm, j) != Next(vm, i) {
          NextDiffer(vm / PAGE, j, i);
        }
        DirSize();
        if i < k {
          FrameNeeded(vm, i, k);
        } else {
          MappedHasTable(Next(vm, i));
        }
        ghost var dir0, free0 := dir, free;
        r := SetOne(Next(vm, i), Next(ph, i), present);
        if r < 0 {
          return -1, i;
        }
        AbsentShrinks(dir0, dir, vm, i, k);
        TabledMore(old(dir), dir0, free0, vm, i);
        i := i + 1;
        done := i;
      }
      return 0, i;
    }

    lemma TabledNone(vm: nat)
      requires Valid()
      ensures Tabled(dir, dir, vm, 0) && Absent(dir, vm, 0, 0) == {}
    {
    }

    lemma DirSize()
      requires Valid()
      ensures |dir| == ENTRIES
    {
    }

    lemma FrameNeeded(vm: nat, i: nat, n: nat)
      requires Valid() && i < n && |free| >= |Absent(dir, vm, i, n)|
      ensures dir[Next(vm, i) / ENTRIES].present || free != {}
    {
      var d := Next(vm, i) / ENTRIES;
      if !dir[d].present {
        assert Needs(vm, i, n, d);
        assert d in Absent(dir, vm, i, n);
      }
    }

    lemma MappedHasTable(p: nat)
      requires Valid() && p < PAGES && At(p) != -1
      ensures dir[p / ENTRIES].present
    {
    }

    static lemma NextDiffer(p: nat, i: nat, j: nat)
      requires i < j < PAGES
      ensures (p + i) % PAGES != (p + j) % PAGES
    {
    }

    /** The physical address of a virtual one, 0 if there is none. */
    ghost function PhysicalOf(vm: nat): nat
      requires Valid() && vm < ADDRESSES
      reads this
    {
      if At(vm / PAGE) == -1 then 0 else At(vm / PAGE) * PAGE + vm % PAGE
    }

    /** vm_to_ph */
    method VmToPh(vm: nat) returns (r: nat)
      requires Valid() && vm < ADDRESSES
      ensures r == PhysicalOf(vm)
    {
      var i, j := vm / PAGE / ENTRIES, vm / PAGE % ENTRIES;
      if !dir[i].present {
        return 0;
      }
      var t := tables[dir[i].frame];
      if t[j].present {
        return t[j].frame * PAGE + vm % PAGE;
      }
      return 0;
    }

    /** Byte `x` of a mapped range: where it is, and where it goes. */
    static lemma ByteOfRange(addr: nat, x: nat)
      requires addr < ADDRESSES && addr % PAGE == 0
      ensures (addr + x) % ADDRESSES == Next(addr, x / PAGE) * PAGE + x % PAGE
    {
      var a, b := addr / PAGE, x / PAGE;
      assert addr + x == (a + b) * PAGE + x % PAGE;
      WrapPages(a + b, x % PAGE);
    }

    static lemma WrapPages(n: nat, y: nat)
      requires y < PAGE
      ensures (n * PAGE + y) % ADDRESSES == n % PAGES * PAGE + y
    {
      var q, r := n / PAGES, n % PAGES;
      assert n == q * PAGES + r;
      assert n * PAGE + y == q * ADDRESSES + (r * PAGE + y);
      WrapOnce(q, r * PAGE + y);
    }

    static lemma WrapOnce(q: nat, z: nat)
      requires z < ADDRESSES
      ensures (q * ADDRESSES + z) % ADDRESSES == z
    {
    }

    /** What pdt_set_entry promises, byte by byte. */
    lemma RangeTranslates(vm: nat, ph: nat, pages: nat, x: nat)
      requires Valid() && vm < ADDRESSES && ph < ADDRESSES && vm % PAGE == 0 && ph % PAGE == 0 && x < pages * PAGE
      requires forall i :: 0 <= i < pages ==> At(Next(vm, i)) == Next(ph, i)
      ensures PhysicalOf((vm + x) % ADDRESSES) == (ph + x) % ADDRESSES
    {
      ByteOfRange(vm, x);
      ByteOfRange(ph, x);
      var p := Next(vm, x / PAGE);
      assert x / PAGE < pages;
      assert (p * PAGE + x % PAGE) / PAGE == p && (p * PAGE + x % PAGE) % PAGE == x % PAGE;
      assert At(p) == Next(ph, x / PAGE);
    }
  }

  // ---- source/kernel/dev/dma.c ----

  /** scatter_node_t */
  datatype Segment = Segment(vstart: nat, phstart: nat, len: nat)

  /** `n` addresses from `start` on. */
  function Run(start: nat, n: nat): (r: seq<nat>)
    ensures |r| == n && forall i :: 0 <= i < n ==> r[i] == start + i
  {
    seq(n, i requires 0 <= i < n => start + i)
  }

  /** The physical addresses of a scatter list, byte by byte. */
  function Flat(l: seq<Segment>): seq<nat> {
    if l == [] then [] else Flat(l[..|l| - 1]) + Run(l[|l| - 1].phstart, l[|l| - 1].len)
  }

  /** No segment goes on where the one before it ends. */
  predicate Maximal(l: seq<Segment>) {
    forall i :: 0 <= i < |l| - 1 ==> l[i].phstart + l[i].len != l[i + 1].phstart
  }

  /** Further bytes go into the last segment if they follow it, else into a new one. */
  function Extended(l: seq<Segment>, s: Segment): seq<Segment> {
    if l != [] && l[|l| - 1].phstart + l[|l| - 1].len == s.phstart
    then l[..|l| - 1] + [l[|l| - 1].(len := l[|l| - 1].len + s.len)]
    else l + [s]
  }

  lemma ExtendedFlat(l: seq<Segment>, s: Segment)
    ensures Flat(Extended(l, s)) == Flat(l) + Run(s.phstart, s.len)
    ensures Maximal(l) ==> Maximal(Extended(l, s))
  {
    var e := Extended(l, s);
    if |e| == |l| {
      var last := l[|l| - 1];
      assert e[..|e| - 1] == l[..|l| - 1];
      assert Run(last.phstart, last.len + s.len) == Run(last.phstart, last.len) + Run(s.phstart, s.len);
    } else {
      assert e[..|e| - 1] == l;
    }
  }

  class ScatterList {
    var list: seq<Segment>

    constructor ()
      ensures list == []
    {
      list := [];
    }

    /** The physical addresses of the virtual range. */
    ghost static function Translation(a: AddressSpace, vm: nat, n: nat): (r: seq<nat>)
      requires a.Valid() && vm + n <= ADDRESSES
      reads a
      ensures |r| == n && forall i :: 0 <= i < n ==> r[i] == a.PhysicalOf(vm + i)
    {
      if n == 0 then [] else Translation(a, vm, n - 1) + [a.PhysicalOf(vm + (n - 1))]
    }

    static function PageOf(vm: nat): nat {
      vm / PAGE
    }

    /** Where a round of scatter_list_map looks an address up: at the start of the range and of each further page. */
    static predicate Looked(vm: nat, v: nat) {
      v == vm || v % PAGE == 0
    }

    /**
     scatter_list_map: the list grows by exactly the translation of the range, in order, and stays
     without segments that could be one.  It fails exactly if an address it looks up has the physical
     address 0, with what lies before the first of them in the list.
     */
    method Map(a: AddressSpace, vm: nat, len: int) returns (r: int, ghost n: nat)
      requires a.Valid() && vm < ADDRESSES && (len > 0 ==> vm + len <= ADDRESSES - PAGE)
      modifies this
      ensures len <= 0 ==> r == -22 && n == 0
      ensures len > 0 ==> n <= len && (r == 0 || r == -14) && (r == 0 <==> n == len)
      ensures len > 0 ==> (r == -14 <==> exists v :: vm <= v < vm + len && Looked(vm, v) && a.PhysicalOf(v) == 0)
      ensures r == -14 ==> Looked(vm, vm + n) && a.PhysicalOf(vm + n) == 0
      ensures forall v :: vm <= v < vm + n && Looked(vm, v) ==> a.PhysicalOf(v) != 0
      ensures forall v :: vm <= v < vm + n ==> a.At(PageOf(v)) != -1
      ensures Flat(list) == Flat(old(list)) + Translation(a, vm, n)
      ensures Maximal(old(list)) ==> Maximal(list)
    {
      hide Flat, Translation, Maximal, Tables, FrameOf;
      n := 0;
      assert Flat(list) + Translation(a, vm, 0) == Flat(list);
      if len <= 0 {
        return -22, 0;
      }
      var current, end := vm, vm + len;
      while current < end
        invariant vm <= current <= end && n == current - vm && (current < end ==> Looked(vm, current))
        invariant forall v :: vm <= v < vm + n && Looked(vm, v) ==> a.PhysicalOf(v) != 0
        invariant forall v :: vm <= v < vm + n ==> a.At(PageOf(v)) != -1
        invariant Flat(list) == Flat(old(list)) + Translation(a, vm, n)
        invariant Maximal(old(list)) ==> Maximal(list)
        decreases end - current
      {
        var pageEnd := current / PAGE * PAGE + PAGE;
        if pageEnd > end {
          pageEnd := end;
        }
        var ph := a.VmToPh(current);
        if ph == 0 {
          return -14, n;
        }
        RunAdded(a, vm, n, pageEnd - current, Flat(old(list)));
        OnePage(current, pageEnd);
        PhysicalZero(a, current);
        Append(Segment(current, ph, pageEnd - current));
        current := pageEnd;
        n := current - vm;
      }
      return 0, n;
    }

    /** The bytes of one round are in one page, and none but the first starts it. */
    static lemma OnePage(from: nat, to: nat)
      requires to <= from / PAGE * PAGE + PAGE
      ensures forall v :: from <= v < to ==> PageOf(v) == PageOf(from)
      ensures forall v :: from < v < to ==> v % PAGE != 0
    {
    }

    /** Nothing, or frame 0 from its start on. */
    static lemma PhysicalZero(a: AddressSpace, vm: nat)
      requires a.Valid() && vm < ADDRESSES
      ensures a.PhysicalOf(vm) == 0 <==> a.At(PageOf(vm)) == -1 || (a.At(PageOf(vm)) == 0 && vm % PAGE == 0)
    {
    }

    /** One round adds the translation of its bytes. */
    static lemma RunAdded(a: AddressSpace, vm: nat, m: nat, n: nat, flat: seq<nat>)
      requires a.Valid() && vm + m < ADDRESSES && vm + m + n <= ADDRESSES && (vm + m) % PAGE + n <= PAGE
      requires a.PhysicalOf(vm + m) != 0
      ensures flat + Translation(a, vm, m) + Run(a.PhysicalOf(vm + m), n) == flat + Translation(a, vm, m + n)
    {
      hide Translation, Tables, FrameOf;
      PageRun(a, vm + m, n);
      TranslationGrows(a, vm, m, n);
      Assoc(flat, Translation(a, vm, m), Run(a.PhysicalOf(vm + m), n));
    }

    /** The end of one round: the last segment is extended, or a new one added. */
    method Append(s: Segment)
      modifies this
      ensures Flat(list) == Flat(old(list)) + Run(s.phstart, s.len) && (Maximal(old(list)) ==> Maximal(list))
    {
      ExtendedFlat(list, s);
      if |list| > 0 && list[|list| - 1].phstart + list[|list| - 1].len == s.phstart {
        list := list[..|list| - 1] + [list[|list| - 1].(len := list[|list| - 1].len + s.len)];
      } else {
        list := list + [s];
      }
    }

    static lemma Assoc(a: seq<nat>, b: seq<nat>, c: seq<nat>)
      ensures a + (b + c) == a + b + c
    {
    }

    /** Within a page physical addresses follow each other. */
    static lemma PageRun(a: AddressSpace, vm: nat, n: nat)
      requires a.Valid() && vm % PAGE + n <= PAGE && vm + n <= ADDRESSES && vm < ADDRESSES && a.PhysicalOf(vm) != 0
      ensures Translation(a, vm, n) == Run(a.PhysicalOf(vm), n)
    {
      forall i | 0 <= i < n ensures Translation(a, vm, n)[i] == a.PhysicalOf(vm) + i {
        assert (vm + i) / PAGE == vm / PAGE && (vm + i) % PAGE == vm % PAGE + i;
      }
    }

    static lemma TranslationGrows(a: AddressSpace, vm: nat, m: nat, n: nat)
      requires a.Valid() && vm + m + n <= ADDRESSES
      ensures Translation(a, vm, m) + Translation(a, vm + m, n) == Translation(a, vm, m + n)
    {
      var both := Translation(a, vm, m) + Translation(a, vm + m, n);
      forall i | 0 <= i < m + n ensures both[i] == a.PhysicalOf(vm + i) {
        if i >= m {
          assert vm + m + (i - m) == vm + i;
        }
      }
    }
  }

  /** The first page mapped to the first frame, as the kernel has it: its start counts as having no translation. */
  method FrameZeroRefused() returns (mapped: int, r: int)
    ensures mapped == 0 && r == -14
  {
    var a := new AddressSpace({7});
    OneFrameEnough(a);
    assert AddressSpace.Next(0, 0) == 0;
    ghost var done;
    mapped, done := a.SetEntry(0, 0, PAGE, true);
    assert AddressSpace.PagesOf(PAGE) == 1;
    assert a.At(0) == 0;
    var l := new ScatterList();
    ghost var n;
    ScatterList.PhysicalZero(a, 0);
    assert ScatterList.Looked(0, 0) && a.PhysicalOf(0) == 0;
    r, n := l.Map(a, 0, PAGE);
  }

  lemma OneFrameEnough(a: AddressSpace)
    requires a.Valid() && a.free == {7}
    ensures a.EnoughFrames(0, 1)
  {
    assert AddressSpace.Absent(a.dir, 0, 0, 1) <= {0};
    AddressSpace.SubsetSize(AddressSpace.Absent(a.dir, 0, 0, 1), {0});
  }
}

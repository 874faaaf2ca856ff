/**
 source/kernel/net/ipv4.c over the packets of Package: ipv4_frag_out, the list of fragments of one
 datagram, and ipv4_frag_join_pkg.  The network interface is taken to send what it is given.
 */
module Ipv4 {
  import opened Bytes
  import opened Ipv4Header
  import opened Ipv4Fragments
  import opened Package

  /** A fresh packet with `n` bytes of `pkg` from `pos` on behind the header `h`. */
  method MakeFragment(pkg: Pkg, h: Head, pos: nat, n: nat) returns (f: Pkg)
    requires pkg.Ready() && n > 0 && pos + n <= pkg.total
    modifies pkg`pos, pkg`cur, pkg`inner
    ensures fresh(f) && pkg.Ready() && f.Valid() && f.Bytes() == Encode(h) + pkg.Bytes()[pos..pos + n]
  {
    hide Encode, Content, Start, Overwritten;
    f := new Pkg(n + SIZE);
    var _ := f.Memcpy(SIZE, pkg, pos, n);
    var _ := f.Lseek(0);
    var _ := f.Write(Encode(h));
    HeaderFirst(seq(n + SIZE, _ => 0), Encode(h), pkg.Bytes()[pos..pos + n]);
  }

  lemma HeaderFirst(zeros: seq<byte>, head: seq<byte>, body: seq<byte>)
    requires |zeros| == |head| + |body|
    ensures Overwritten(Overwritten(zeros, |head|, body), 0, head[..|head|]) == head + body
  {
  }

  /** ipv4_frag_out, ip_route being `route`: the result, what was sent, and what is left in `*dest`. */
  method FragOut(pkg: Pkg, mtu: nat, id: nat, protocol: nat, src: nat, dest: nat, route: nat -> Route)
    returns (r: int, sent: seq<seq<byte>>, to: nat)
    requires pkg.Ready() && mtu > 0
    modifies pkg`pos, pkg`cur, pkg`inner
    ensures pkg.Ready() && to == DestAfter(route, dest, |sent|)
    ensures mtu > SIZE ==> sent == SentFrom(Datagram(id, protocol, src, dest, pkg.Bytes()), route, mtu, 0)
    ensures mtu > SIZE ==>
      r == if |sent| == |FragmentsFrom(Datagram(id, protocol, src, dest, pkg.Bytes()), mtu, 0)| then pkg.total else -4
    ensures mtu <= SIZE && pkg.total > mtu ==> r == -2 && sent == []
    ensures mtu <= SIZE && pkg.total <= mtu ==> r == if pkg.total == 0 || route(dest).Via? then pkg.total else -4
    ensures mtu <= SIZE && pkg.total <= mtu ==> |sent| == if pkg.total > 0 && route(dest).Via? then 1 else 0
  {
    hide Encode, Content, Start, FragmentAt;
    ghost var d := Datagram(id, protocol, src, dest, pkg.Bytes());
    var sum, remain, curPos := 0, pkg.total, 0;
    sent, to := [], dest;
    while remain != 0
      invariant pkg.Ready() && 0 <= remain == pkg.total - curPos && 0 <= curPos && sum == curPos
      invariant to == DestAfter(route, dest, |sent|)
      invariant mtu > SIZE ==> sent + SentFrom(d.(dest := to), route, mtu, curPos) == SentFrom(d, route, mtu, 0)
      invariant mtu > SIZE ==> |sent| + |FragmentsFrom(d.(dest := to), mtu, curPos)| == |FragmentsFrom(d, mtu, 0)|
      invariant mtu <= SIZE ==>
        (curPos == 0 && sent == []) || (0 < curPos == pkg.total <= mtu && |sent| == 1 && route(dest).Via?)
      decreases remain
    {
      var n := remain;
      if remain > mtu {
        n := mtu - SIZE;
        if n <= 0 {
          // package_memcpy refuses to copy nothing
          return -2, [], dest;
        }
      }
      var more := if remain - n > 0 then 1 else 0;
      var head := Head(4, SIZE, 0, 0, n + SIZE, id, more, curPos / 8, 64, protocol, 0, src, to);
      var f := MakeFragment(pkg, head, curPos, n);
      var entry := route(to);
      if entry.Unreachable? {
        assert sent + [] == sent;
        return -4, sent, to;
      }
      ghost var e := d.(dest := to);
      DestAfterMore(route, dest, |sent|);
      if entry.gateway != 0 {
        to := entry.gateway;
      }
      if mtu > SIZE {
        SentMore(d, e.dest, route, mtu, curPos, n, head, Content(f.blocks), sent);
      }
      sent := sent + [Content(f.blocks)];
      curPos := curPos + n;
      remain := remain - n;
      sum := sum + n;
    }
    r := sum;
    assert sent + [] == sent;
  }

  /** One round: the packet `f` with the header `h` is the fragment to be sent next. */
  lemma SentMore(d: Datagram, to: nat, route: nat -> Route, mtu: nat, pos: nat, n: nat, h: Head, f: seq<byte>,
                 sent: seq<seq<byte>>)
    requires mtu > SIZE && pos < |d.payload| && pos + n <= |d.payload| && n == Cut(d, mtu, pos) && route(to).Via?
    requires h == HeadAt(d.(dest := to), pos, n) && f == Encode(h) + d.payload[pos..pos + n]
    ensures var e, e' := d.(dest := to), d.(dest := NextDest(route, to));
            && sent + SentFrom(e, route, mtu, pos) == (sent + [f]) + SentFrom(e', route, mtu, pos + n)
            && |FragmentsFrom(e, mtu, pos)| == 1 + |FragmentsFrom(e', mtu, pos + n)|
  {
    hide Encode;
    var e := d.(dest := to);
    SameCuts(e, NextDest(route, to), mtu, pos + n);
    assert e.(dest := NextDest(route, to)) == d.(dest := NextDest(route, to));
    Regrouped(sent, f, SentFrom(d.(dest := NextDest(route, to)), route, mtu, pos + n));
  }

  lemma {:induction false} DestAfterMore(route: nat -> Route, dest: nat, k: nat)
    ensures DestAfter(route, dest, k + 1) == NextDest(route, DestAfter(route, dest, k))
    decreases k
  {
    if k > 0 {
      DestAfterMore(route, NextDest(route, dest), k - 1);
    }
  }

  lemma Regrouped(a: seq<seq<byte>>, x: seq<byte>, b: seq<seq<byte>>)
    ensures a + ([x] + b) == (a + [x]) + b
  {
  }

  /** ip_frag_t: the fragments of one datagram that have come in. */
  class FragList {
    var list: seq<seq<byte>>

    ghost predicate Valid()
      reads this
    {
      Packets(list) && Sorted(list)
    }

    constructor ()
      ensures Valid() && list == []
    {
      list := [];
    }

    /** ipv4_frag_insert_pkg */
    method Insert(p: seq<byte>)
      requires Valid() && IsPacket(p)
      modifies this
      ensures Valid() && list == Inserted(old(list), p)
    {
      hide Offset;
      InsertedSorted(list, p);
      var k := 0;
      while k < |list|
        invariant 0 <= k <= |list| && list == old(list)
        invariant Inserted(list, p) == list[..k] + Inserted(list[k..], p)
      {
        assert list[k..][0] == list[k] && list == list[..k] + list[k..];
        if Offset(p) < Offset(list[k]) {
          Regrouped(list[..k], p, list[k..]);
          list := list[..k] + [p] + list[k..];
          return;
        } else if Offset(p) == Offset(list[k]) {
          return;
        }
        InsertedStep(list, p, k);
        k := k + 1;
      }
      assert list[..k] == list && list[k..] == [];
      list := list + [p];
    }

    /** ipv4_frag_is_all_arrived */
    method IsAllArrived() returns (all: bool)
      requires Valid()
      ensures all <==> AllArrived(list)
    {
      hide Offset, More, DataLen;
      if |list| <= 1 {
        return false;
      }
      if Offset(list[0]) != 0 || !More(list[0]) {
        return false;
      }
      var k := 0;
      while k < |list|
        invariant 0 <= k < |list| && (Chain(list) <==> Chain(list[k..]))
      {
        if More(list[k]) {
          if k + 1 == |list| || Offset(list[k + 1]) != DataLen(list[k]) + Offset(list[k]) {
            return false;
          }
          assert list[k..][1..] == list[k + 1..];
          k := k + 1;
        } else {
          return true;
        }
      }
      return true;
    }
  }

  lemma InsertedStep(l: seq<seq<byte>>, p: seq<byte>, k: nat)
    requires Packets(l) && IsPacket(p) && k < |l| && Offset(p) > Offset(l[k])
    requires Inserted(l, p) == l[..k] + Inserted(l[k..], p)
    ensures Inserted(l, p) == l[..k + 1] + Inserted(l[k + 1..], p)
  {
    hide Offset;
    assert l[k..][1..] == l[k + 1..] && l[k..][0] == l[k];
    assert Inserted(l[k..], p) == [l[k]] + Inserted(l[k + 1..], p);
    Regrouped(l[..k], l[k], Inserted(l[k + 1..], p));
    assert l[..k] + [l[k]] == l[..k + 1];
  }

  // ---- joining ----

  /** The packets of a list, all different, with their headers in their first blocks. */
  ghost predicate Listed(l: seq<Pkg>)
    reads l
  {
    && (forall i, j :: 0 <= i < j < |l| ==> l[i] != l[j])
    && forall i :: 0 <= i < |l| ==> l[i].Valid() && l[i].total > SIZE && l[i].blocks[0].size >= SIZE
  }

  ghost function Contents(l: seq<Pkg>): (r: seq<seq<byte>>)
    reads l
    ensures |r| == |l| && forall i :: 0 <= i < |l| ==> r[i] == l[i].Bytes()
  {
    seq(|l|, i requires 0 <= i < |l| reads l => l[i].Bytes())
  }

  /** ipv4_frag_join_pkg, the packets themselves being joined. */
  method JoinPackets(l: seq<Pkg>) returns (to: Pkg)
    requires Listed(l) && l != []
    modifies l
    ensures to == l[0] && to.Valid() && Packets(old(Contents(l))) && to.Bytes() == Joined(old(Contents(l)))
    ensures old(l[0].Ready() && l[0].cur != -1) ==> to.Ready()
  {
    hide Pkg.CursorAt, Start;
    ghost var was := Contents(l);
    to := l[0];
    var k := 1;
    assert was[..1] == [was[0]];
    while k < |l|
      invariant 1 <= k <= |l| && to == l[0] && to.Valid()
      invariant old(l[0].Ready() && l[0].cur != -1) ==> to.Ready() && to.cur != -1
      invariant forall i :: k <= i < |l| ==>
        l[i].Valid() && l[i].Bytes() == was[i] && l[i].total > SIZE && l[i].blocks[0].size >= SIZE
      invariant Packets(was) && to.Bytes() == Joined(was[..k])
    {
      var from := l[k];
      var _ := from.ShrinkFront(SIZE);
      to.Join(from);
      JoinedMore(was, k);
      k := k + 1;
    }
    assert was[..k] == was;
  }

  lemma JoinedMore(l: seq<seq<byte>>, k: nat)
    requires Packets(l) && 0 < k < |l|
    ensures Joined(l[..k + 1]) == Joined(l[..k]) + l[k][SIZE..]
  {
    assert l[..k + 1][1..] == l[..k][1..] + [l[k]];
    BodiesMore(l[..k][1..], l[k]);
  }

  lemma {:induction false} BodiesMore(l: seq<seq<byte>>, p: seq<byte>)
    requires Packets(l) && IsPacket(p)
    ensures Packets(l + [p]) && Bodies(l + [p]) == Bodies(l) + p[SIZE..]
  {
    if l == [] {
      assert Bodies([p]) == p[SIZE..] + Bodies([]);
      assert l + [p] == [p];
    } else {
      BodiesMore(l[1..], p);
      assert (l + [p])[1..] == l[1..] + [p];
    }
  }
}

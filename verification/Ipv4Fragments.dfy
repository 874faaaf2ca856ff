/**
 Fragments of a datagram (section 3.2 of RFC 791) as source/kernel/net/ipv4.c cuts them and puts
 them together again, packets being their bytes.
 */
module Ipv4Fragments {
  import opened Bytes
  import opened Ipv4Header

  /** What the headers of all fragments of one datagram share. */
  datatype Datagram = Datagram(id: nat, protocol: nat, src: nat, dest: nat, payload: seq<byte>)

  predicate Fields(d: Datagram) {
    d.id < 65536 && d.protocol < 256 && d.src < 0x1_0000_0000 && d.dest < 0x1_0000_0000
  }

  /** The header ipv4_frag_out fills in for the `n` payload bytes from `pos` on; no checksum. */
  function HeadAt(d: Datagram, pos: nat, n: nat): Head {
    var more := if pos + n < |d.payload| then 1 else 0;
    Head(4, SIZE, 0, 0, n + SIZE, d.id, more, pos / 8, 64, d.protocol, 0, d.src, d.dest)
  }

  function FragmentAt(d: Datagram, pos: nat, n: nat): seq<byte>
    requires pos + n <= |d.payload|
  {
    Encode(HeadAt(d, pos, n)) + d.payload[pos..pos + n]
  }

  /** How much of the payload goes into the fragment that starts at `pos`: the test is against the whole MTU. */
  function Cut(d: Datagram, mtu: nat, pos: nat): nat
    requires mtu > SIZE && pos <= |d.payload|
  {
    if |d.payload| - pos > mtu then mtu - SIZE else |d.payload| - pos
  }

  function FragmentsFrom(d: Datagram, mtu: nat, pos: nat): seq<seq<byte>>
    requires mtu > SIZE && pos <= |d.payload|
    decreases |d.payload| - pos
  {
    if pos == |d.payload| then []
    else [FragmentAt(d, pos, Cut(d, mtu, pos))] + FragmentsFrom(d, mtu, pos + Cut(d, mtu, pos))
  }

  /** What ip_route finds for an address: nothing, or an entry with its gateway, 0 for none. */
  datatype Route = Unreachable | Via(gateway: nat)

  /** The address left in `*dest` when a fragment to `dest` has been sent: the gateway takes its place. */
  function NextDest(route: nat -> Route, dest: nat): nat {
    if route(dest).Via? && route(dest).gateway != 0 then route(dest).gateway else dest
  }

  /** The same after `k` fragments. */
  function DestAfter(route: nat -> Route, dest: nat, k: nat): nat
    decreases k
  {
    if k == 0 then dest else DestAfter(route, NextDest(route, dest), k - 1)
  }

  /** What ipv4_frag_out sends from `pos` on, up to a fragment that has no route. */
  function SentFrom(d: Datagram, route: nat -> Route, mtu: nat, pos: nat): (r: seq<seq<byte>>)
    requires mtu > SIZE && pos <= |d.payload|
    ensures Packets(r)
    decreases |d.payload| - pos
  {
    if pos == |d.payload| || route(d.dest).Unreachable? then []
    else [FragmentAt(d, pos, Cut(d, mtu, pos))]
         + SentFrom(d.(dest := NextDest(route, d.dest)), route, mtu, pos + Cut(d, mtu, pos))
  }

  /** Gateways are 32-bit addresses. */
  ghost predicate Routes(route: nat -> Route) {
    forall dest: nat :: route(dest).Via? ==> route(dest).gateway < 0x1_0000_0000
  }

  /** There is a route, and it goes there directly, or one fragment does. */
  predicate KeepsDest(d: Datagram, route: nat -> Route, mtu: nat, pos: nat) {
    route(d.dest).Via? && (route(d.dest).gateway in {0, d.dest} || |d.payload| - pos <= mtu)
  }

  // ---- what the receiver reads off a fragment ----

  predicate IsPacket(p: seq<byte>) {
    |p| >= SIZE
  }

  function Offset(p: seq<byte>): nat
    requires IsPacket(p)
  {
    Decode(p).fragOffset
  }

  predicate More(p: seq<byte>)
    requires IsPacket(p)
  {
    Decode(p).flags % 2 == 1
  }

  /** uint16_t data_len */
  function DataLen(p: seq<byte>): nat
    requires IsPacket(p)
  {
    (Decode(p).totalLen - Decode(p).headLen) % 65536
  }

  lemma FragmentFields(d: Datagram, pos: nat, n: nat)
    requires Fields(d) && pos + n <= |d.payload| && pos < 65536 && n + SIZE < 65536
    ensures var p := FragmentAt(d, pos, n);
            IsPacket(p) && Offset(p) == pos / 8 * 8 && DataLen(p) == n && (More(p) <==> pos + n < |d.payload|)
  {
    hide Encode, Decode;
    DecodeEncode(HeadAt(d, pos, n), d.payload[pos..pos + n]);
  }

  // ---- collecting ----

  predicate Packets(l: seq<seq<byte>>) {
    forall i :: 0 <= i < |l| ==> IsPacket(l[i])
  }

  /** By offset, no offset twice. */
  predicate Sorted(l: seq<seq<byte>>)
    requires Packets(l)
  {
    forall i, j :: 0 <= i < j < |l| ==> Offset(l[i]) < Offset(l[j])
  }

  /** ipv4_frag_insert_pkg: before the first fragment further on; a second one with the same offset is left out. */
  function Inserted(l: seq<seq<byte>>, p: seq<byte>): (r: seq<seq<byte>>)
    requires Packets(l) && IsPacket(p)
    ensures Packets(r)
  {
    if l == [] then [p]
    else if Offset(p) < Offset(l[0]) then [p] + l
    else if Offset(p) == Offset(l[0]) then l
    else [l[0]] + Inserted(l[1..], p)
  }

  predicate NewOffset(l: seq<seq<byte>>, p: seq<byte>)
    requires Packets(l) && IsPacket(p)
  {
    forall i :: 0 <= i < |l| ==> Offset(l[i]) != Offset(p)
  }

  lemma {:induction false} InsertedElements(l: seq<seq<byte>>, p: seq<byte>)
    requires Packets(l) && IsPacket(p) && Sorted(l)
    ensures forall q :: q in Inserted(l, p) <==> q in l || (q == p && NewOffset(l, p))
  {
    hide Offset;
    if l != [] && Offset(p) > Offset(l[0]) {
      InsertedElements(l[1..], p);
      assert l == [l[0]] + l[1..];
      assert NewOffset(l, p) <==> NewOffset(l[1..], p) by {
        assert forall i :: 0 < i < |l| ==> l[i] == l[1..][i - 1];
      }
    }
  }

  lemma {:induction false} InsertedSorted(l: seq<seq<byte>>, p: seq<byte>)
    requires Packets(l) && IsPacket(p) && Sorted(l)
    ensures Sorted(Inserted(l, p))
  {
    hide Offset;
    if l != [] && Offset(p) > Offset(l[0]) {
      InsertedSorted(l[1..], p);
      InsertedElements(l[1..], p);
      var r := Inserted(l[1..], p);
      forall i | 0 <= i < |r| ensures Offset(l[0]) < Offset(r[i]) {
        assert r[i] in r;
      }
      assert forall i :: 0 < i <= |r| ==> ([l[0]] + r)[i] == r[i - 1];
    }
  }

  /** From here on every fragment is followed by the next one, up to one without the flag. */
  predicate Chain(l: seq<seq<byte>>)
    requires Packets(l) && l != []
  {
    More(l[0]) ==> |l| > 1 && Offset(l[1]) == DataLen(l[0]) + Offset(l[0]) && Chain(l[1..])
  }

  /** ipv4_frag_is_all_arrived */
  predicate AllArrived(l: seq<seq<byte>>)
    requires Packets(l)
  {
    |l| > 1 && Offset(l[0]) == 0 && More(l[0]) && Chain(l)
  }

  /** The first packet whole, and then the others without their headers. */
  function Bodies(l: seq<seq<byte>>): seq<byte>
    requires Packets(l)
  {
    if l == [] then [] else l[0][SIZE..] + Bodies(l[1..])
  }

  /** ipv4_frag_join_pkg */
  function Joined(l: seq<seq<byte>>): seq<byte>
    requires Packets(l) && l != []
  {
    l[0] + Bodies(l[1..])
  }

  // ---- reassembly ----

  /** The fragments of one datagram: each is followed by the next, and only the last says it is the last. */
  predicate Train(f: seq<seq<byte>>) {
    && |f| > 1 && Packets(f) && Offset(f[0]) == 0 && !More(f[|f| - 1])
    && forall k :: 0 <= k < |f| - 1 ==> More(f[k]) && Follows(f, k)
  }

  predicate Follows(f: seq<seq<byte>>, k: nat)
    requires Packets(f) && k + 1 < |f|
  {
    DataLen(f[k]) > 0 && Offset(f[k + 1]) == DataLen(f[k]) + Offset(f[k])
  }

  lemma {:induction false} TrainRises(f: seq<seq<byte>>, i: nat, j: nat)
    requires Train(f) && i < j < |f|
    ensures Offset(f[i]) < Offset(f[j])
  {
    hide Offset, More, DataLen;
    assert Follows(f, j - 1);
    if i < j - 1 {
      TrainRises(f, i, j - 1);
    }
  }

  lemma TrainSorted(f: seq<seq<byte>>)
    requires Train(f)
    ensures Sorted(f)
  {
    hide Offset, More, DataLen;
    forall i, j | 0 <= i < j < |f| ensures Offset(f[i]) < Offset(f[j]) {
      TrainRises(f, i, j);
    }
  }

  lemma {:induction false} TrainChain(f: seq<seq<byte>>, k: nat)
    requires Train(f) && k < |f|
    ensures Chain(f[k..])
    decreases |f| - k
  {
    hide Offset, More, DataLen;
    if k < |f| - 1 {
      TrainChain(f, k + 1);
      assert f[k..][1..] == f[k + 1..] && Follows(f, k);
    }
  }

  /** The list after the fragments `f[arr[0]]`, `f[arr[1]]` and so on have come in, in this order. */
  function Collected(f: seq<seq<byte>>, arr: seq<nat>): (r: seq<seq<byte>>)
    requires Packets(f) && forall i :: 0 <= i < |arr| ==> arr[i] < |f|
    ensures Packets(r)
  {
    if arr == [] then [] else Inserted(Collected(f, arr[..|arr| - 1]), f[arr[|arr| - 1]])
  }

  /** Whatever the order and the repetitions, the list is sorted and holds exactly what has come in. */
  lemma {:induction false} CollectedAre(f: seq<seq<byte>>, arr: seq<nat>)
    requires Train(f) && forall i :: 0 <= i < |arr| ==> arr[i] < |f|
    ensures Sorted(Collected(f, arr))
    ensures forall k :: 0 <= k < |f| ==> (f[k] in Collected(f, arr) <==> k in arr)
    ensures forall q <- Collected(f, arr) :: q in f
  {
    hide Inserted, Offset, Follows, More;
    if arr != [] {
      var before, m := arr[..|arr| - 1], arr[|arr| - 1];
      CollectedAre(f, before);
      var l := Collected(f, before);
      InsertedSorted(l, f[m]);
      InsertedElements(l, f[m]);
      TrainSorted(f);
      assert arr == before + [m];
      SameOffset(f, l, m);
    }
  }

  /** A fragment with the offset of `f[m]` is `f[m]`. */
  lemma SameOffset(f: seq<seq<byte>>, l: seq<seq<byte>>, m: nat)
    requires Packets(f) && Sorted(f) && Packets(l) && m < |f| && forall q <- l :: q in f
    ensures NewOffset(l, f[m]) <==> f[m] !in l
    ensures forall k :: 0 <= k < |f| && k != m ==> f[k] != f[m]
  {
    hide Offset, More, DataLen;
    forall i | 0 <= i < |l| && Offset(l[i]) == Offset(f[m]) ensures l[i] == f[m] {
      assert l[i] in l;
      var k :| 0 <= k < |f| && f[k] == l[i];
    }
  }

  /** A chain that starts with `f[k]` runs through all of `f` from there. */
  lemma {:induction false} ChainRuns(f: seq<seq<byte>>, l: seq<seq<byte>>, k: nat)
    requires Train(f) && k < |f| && l != [] && Packets(l) && (forall q <- l :: q in f) && l[0] == f[k] && Chain(l)
    ensures |l| >= |f| - k && forall j :: k <= j < |f| ==> f[j] == l[j - k]
    decreases |f| - k
  {
    hide Offset, More, DataLen;
    if k < |f| - 1 {
      TrainSorted(f);
      assert Follows(f, k) && l[1] in f;
      var m :| 0 <= m < |f| && f[m] == l[1];
      assert m == k + 1;
      ChainRuns(f, l[1..], k + 1);
      forall j | k + 1 <= j < |f| ensures f[j] == l[j - k] {
        assert l[1..][j - (k + 1)] == l[j - k];
      }
    }
  }

  lemma {:induction false} SameElements(a: seq<seq<byte>>, b: seq<seq<byte>>)
    requires Packets(a) && Packets(b) && Sorted(a) && Sorted(b) && (forall q :: q in a <==> q in b)
    ensures a == b
  {
    hide Offset, More, DataLen;
    assert a != [] ==> a[0] in a;
    assert b != [] ==> b[0] in b;
    if a != [] && b != [] {
      assert a[0] in b && b[0] in a;
      assert a[0] == b[0];
      assert a == [a[0]] + a[1..] && b == [b[0]] + b[1..];
      assert forall i :: 0 <= i < |a| - 1 ==> a[1..][i] == a[i + 1];
      assert forall i :: 0 <= i < |b| - 1 ==> b[1..][i] == b[i + 1];
      assert a[0] !in a[1..] && b[0] !in b[1..];
      forall q ensures q in a[1..] <==> q in b[1..] {
        assert q in a <==> q == a[0] || q in a[1..];
        assert q in b <==> q == b[0] || q in b[1..];
      }
      SameElements(a[1..], b[1..]);
    }
  }

  /** All fragments count as arrived exactly when every one of them has come in, and then the list is the train. */
  lemma Reassembly(f: seq<seq<byte>>, arr: seq<nat>)
    requires Train(f) && forall i :: 0 <= i < |arr| ==> arr[i] < |f|
    ensures AllArrived(Collected(f, arr)) <==> forall k :: 0 <= k < |f| ==> k in arr
    ensures AllArrived(Collected(f, arr)) ==> Collected(f, arr) == f
  {
    hide Offset, More, DataLen;
    var l := Collected(f, arr);
    CollectedAre(f, arr);
    TrainSorted(f);
    if forall k :: 0 <= k < |f| ==> k in arr {
      AllIn(f, l);
    }
    if AllArrived(l) {
      ArrivedAll(f, l);
    }
  }

  lemma AllIn(f: seq<seq<byte>>, l: seq<seq<byte>>)
    requires Train(f) && Packets(l) && Sorted(l) && (forall q <- l :: q in f) && forall k :: 0 <= k < |f| ==> f[k] in l
    ensures l == f && AllArrived(l)
  {
    hide Offset, More, DataLen;
    TrainSorted(f);
    SameElements(l, f);
    TrainChain(f, 0);
    assert f[0..] == f;
  }

  lemma ArrivedAll(f: seq<seq<byte>>, l: seq<seq<byte>>)
    requires Train(f) && Packets(l) && Sorted(l) && (forall q <- l :: q in f) && AllArrived(l)
    ensures l == f && forall k :: 0 <= k < |f| ==> f[k] in l
  {
    hide Offset, More, DataLen;
    TrainSorted(f);
    assert l[0] in f;
    var m :| 0 <= m < |f| && f[m] == l[0];
    assert m == 0;
    ChainRuns(f, l, 0);
    forall k | 0 <= k < |f| ensures f[k] in l {
      assert f[k] == l[k - 0];
    }
    SameElements(l, f);
  }

  // ---- cutting ----

  /** A payload that needs at least two fragments, within the 16 bits of a total length and of an offset. */
  predicate Cuttable(d: Datagram, mtu: nat) {
    Fields(d) && SIZE < mtu <= 65515 && mtu < |d.payload| <= 65535
  }

  /** What `k` full fragments carry. */
  function Full(mtu: nat, k: nat): nat
    requires mtu > SIZE
  {
    k * (mtu - SIZE)
  }

  /** The `k`th fragment starts after `k` full ones, and it is the last exactly if what is left is not above the MTU. */
  lemma {:induction false} FragmentIs(d: Datagram, mtu: nat, pos: nat, k: nat)
    requires mtu > SIZE && pos <= |d.payload| && k < |FragmentsFrom(d, mtu, pos)|
    ensures var at := pos + Full(mtu, k);
            && at < |d.payload| && FragmentsFrom(d, mtu, pos)[k] == FragmentAt(d, at, Cut(d, mtu, at))
            && (k + 1 == |FragmentsFrom(d, mtu, pos)| <==> |d.payload| - at <= mtu)
    decreases k
  {
    hide FragmentAt;
    if k > 0 {
      var next := pos + Cut(d, mtu, pos);
      assert next != |d.payload|;
      FragmentIs(d, mtu, next, k - 1);
      Steps(pos, k, mtu - SIZE);
    }
  }

  lemma Steps(pos: nat, k: nat, c: nat)
    requires k > 0
    ensures pos + c + (k - 1) * c == pos + k * c
  {
  }

  /** The fragments of `Fields` with what the receiver reads off them. */
  lemma FragmentReads(d: Datagram, mtu: nat, k: nat)
    requires Cuttable(d, mtu) && k < |FragmentsFrom(d, mtu, 0)|
    ensures var f, at := FragmentsFrom(d, mtu, 0)[k], Full(mtu, k);
            && IsPacket(f) && Offset(f) == at / 8 * 8 && at < |d.payload|
            && (More(f) <==> k + 1 < |FragmentsFrom(d, mtu, 0)|) && (More(f) ==> DataLen(f) == mtu - SIZE)
  {
    hide Offset, More, DataLen, FragmentAt;
    FragmentIs(d, mtu, 0, k);
    var at := Full(mtu, k);
    FragmentFields(d, at, Cut(d, mtu, at));
  }

  lemma AtLeastTwo(d: Datagram, mtu: nat)
    requires Cuttable(d, mtu)
    ensures |FragmentsFrom(d, mtu, 0)| > 1 && Packets(FragmentsFrom(d, mtu, 0))
  {
    hide Offset, More, DataLen, FragmentAt;
    var f := FragmentsFrom(d, mtu, 0);
    FragmentIs(d, mtu, 0, 0);
    assert Full(mtu, 0) == 0;
    forall k | 0 <= k < |f| ensures IsPacket(f[k]) {
      FragmentReads(d, mtu, k);
    }
  }

  /** The fragments form a train exactly if full fragments carry a multiple of eight bytes. */
  lemma FragmentsTrain(d: Datagram, mtu: nat)
    requires Cuttable(d, mtu)
    ensures Train(FragmentsFrom(d, mtu, 0)) <==> (mtu - SIZE) % 8 == 0
  {
    hide Offset, More, DataLen, FragmentAt, FragmentsFrom;
    var f, c := FragmentsFrom(d, mtu, 0), mtu - SIZE;
    AtLeastTwo(d, mtu);
    FragmentReads(d, mtu, 0);
    FragmentReads(d, mtu, 1);
    FragmentReads(d, mtu, |f| - 1);
    if c % 8 == 0 {
      forall k | 0 <= k < |f| - 1 ensures More(f[k]) && Follows(f, k) {
        FragmentReads(d, mtu, k);
        FragmentReads(d, mtu, k + 1);
        Multiple(c, k);
        Multiple(c, k + 1);
        Steps(0, k + 1, c);
      }
    } else {
      assert Full(mtu, 1) == c;
      assert !Follows(f, 0);
    }
  }

  lemma Multiple(c: nat, k: nat)
    requires c % 8 == 0
    ensures k * c / 8 * 8 == k * c
  {
    var e := c / 8;
    assert k * c == k * e * 8;
  }

  /** Otherwise no collection of the fragments ever counts as complete. */
  lemma NeverArrived(d: Datagram, mtu: nat, l: seq<seq<byte>>)
    requires Cuttable(d, mtu) && (mtu - SIZE) % 8 != 0
    requires Packets(l) && forall q <- l :: q in FragmentsFrom(d, mtu, 0)
    ensures !AllArrived(l)
  {
    hide More, DataLen, FragmentAt, FragmentsFrom;
    var f, c := FragmentsFrom(d, mtu, 0), mtu - SIZE;
    if |l| > 1 {
      assert l[0] in f && l[1] in f;
      var j :| 0 <= j < |f| && f[j] == l[0];
      FragmentReads(d, mtu, j);
      MultipleOfEight(l[0]);
      MultipleOfEight(l[1]);
    }
  }

  lemma MultipleOfEight(p: seq<byte>)
    requires IsPacket(p)
    ensures Offset(p) % 8 == 0
  {
  }

  lemma FragmentBody(d: Datagram, pos: nat, n: nat)
    requires pos + n <= |d.payload|
    ensures IsPacket(FragmentAt(d, pos, n)) && FragmentAt(d, pos, n)[SIZE..] == d.payload[pos..pos + n]
  {
    hide Encode;
  }

  lemma RestSplits(s: seq<byte>, pos: nat, n: nat)
    requires pos + n <= |s|
    ensures s[pos..pos + n] + s[pos + n..] == s[pos..]
  {
  }

  lemma {:induction false} BodiesFrom(d: Datagram, mtu: nat, pos: nat)
    requires mtu > SIZE && pos <= |d.payload|
    ensures Packets(FragmentsFrom(d, mtu, pos)) && Bodies(FragmentsFrom(d, mtu, pos)) == d.payload[pos..]
    decreases |d.payload| - pos
  {
    hide FragmentAt;
    if pos < |d.payload| {
      var n := Cut(d, mtu, pos);
      BodiesFrom(d, mtu, pos + n);
      FragmentBody(d, pos, n);
      RestSplits(d.payload, pos, n);
      assert FragmentsFrom(d, mtu, pos)[1..] == FragmentsFrom(d, mtu, pos + n);
    }
  }

  /** Put together, the fragments are the first header and the whole payload. */
  lemma JoinedIs(d: Datagram, mtu: nat)
    requires Cuttable(d, mtu)
    ensures var f := FragmentsFrom(d, mtu, 0);
            f != [] && Packets(f) && Joined(f) == Encode(HeadAt(d, 0, mtu - SIZE)) + d.payload
  {
    hide Encode;
    BodiesFrom(d, mtu, 0);
    var f := FragmentsFrom(d, mtu, 0);
    assert f[0] == f[0][..SIZE] + f[0][SIZE..] && f[0][..SIZE] == Encode(HeadAt(d, 0, mtu - SIZE));
    assert d.payload[0..] == d.payload;
  }

  /**
   In any order and with any repetitions: complete when the last missing fragment is in, and then
   the payload is back.
   */
  lemma PutTogether(d: Datagram, mtu: nat, arr: seq<nat>)
    requires Cuttable(d, mtu) && (mtu - SIZE) % 8 == 0
    requires forall i :: 0 <= i < |arr| ==> arr[i] < |FragmentsFrom(d, mtu, 0)|
    ensures var f := FragmentsFrom(d, mtu, 0);
            && Packets(f)
            && var l := Collected(f, arr);
               && (AllArrived(l) <==> forall k :: 0 <= k < |f| ==> k in arr)
               && (AllArrived(l) ==> Joined(l)[SIZE..] == d.payload)
  {
    hide Offset, More, DataLen, FragmentAt, FragmentsFrom, AllArrived, Joined, Encode, HeadAt;
    FragmentsTrain(d, mtu);
    Reassembly(FragmentsFrom(d, mtu, 0), arr);
    JoinedIs(d, mtu);
  }

  // ---- sending through a gateway ----

  function DestOf(p: seq<byte>): nat
    requires IsPacket(p)
  {
    Decode(p).dest
  }

  lemma FragmentDest(d: Datagram, pos: nat, n: nat)
    requires d.dest < 0x1_0000_0000 && pos + n <= |d.payload|
    ensures IsPacket(FragmentAt(d, pos, n)) && DestOf(FragmentAt(d, pos, n)) == d.dest
  {
    hide Hi, Lo, Word, Long, Pack, High, Low;
    DecodePrefix(Encode(HeadAt(d, pos, n)), d.payload[pos..pos + n]);
    LongOfBytes(d.dest);
  }

  /** The `k`th fragment sent is that of the datagram to where the gateways before have led. */
  lemma {:induction false} SentIs(d: Datagram, route: nat -> Route, mtu: nat, pos: nat, k: nat)
    requires Routes(route) && d.dest < 0x1_0000_0000
    requires mtu > SIZE && pos <= |d.payload| && k < |SentFrom(d, route, mtu, pos)|
    ensures var to := DestAfter(route, d.dest, k);
            && k < |FragmentsFrom(d, mtu, pos)| == |FragmentsFrom(d.(dest := to), mtu, pos)|
            && SentFrom(d, route, mtu, pos)[k] == FragmentsFrom(d.(dest := to), mtu, pos)[k]
            && IsPacket(SentFrom(d, route, mtu, pos)[k]) && DestOf(SentFrom(d, route, mtu, pos)[k]) == to
    decreases k
  {
    hide FragmentAt, DestOf;
    if k == 0 {
      FragmentDest(d, pos, Cut(d, mtu, pos));
      assert d.(dest := d.dest) == d;
    } else {
      var e := d.(dest := NextDest(route, d.dest));
      SentIs(e, route, mtu, pos + Cut(d, mtu, pos), k - 1);
      assert e.(dest := DestAfter(route, d.dest, k)) == d.(dest := DestAfter(route, d.dest, k));
      SameCuts(d, DestAfter(route, d.dest, k), mtu, pos + Cut(d, mtu, pos));
      SameCuts(d, e.dest, mtu, pos + Cut(d, mtu, pos));
    }
  }

  lemma {:induction false} SameCuts(d: Datagram, to: nat, mtu: nat, pos: nat)
    requires mtu > SIZE && pos <= |d.payload|
    ensures |FragmentsFrom(d, mtu, pos)| == |FragmentsFrom(d.(dest := to), mtu, pos)|
    decreases |d.payload| - pos
  {
    hide FragmentAt;
    if pos < |d.payload| {
      SameCuts(d, to, mtu, pos + Cut(d, mtu, pos));
    }
  }

  /** What is sent is the datagram cut up, whole and to its destination, exactly if the destination is kept. */
  lemma {:induction false} SentKept(d: Datagram, route: nat -> Route, mtu: nat, pos: nat)
    requires Routes(route) && d.dest < 0x1_0000_0000 && mtu > SIZE && pos < |d.payload|
    ensures SentFrom(d, route, mtu, pos) == FragmentsFrom(d, mtu, pos) <==> KeepsDest(d, route, mtu, pos)
    decreases |d.payload| - pos
  {
    hide FragmentAt, DestOf;
    var next := pos + Cut(d, mtu, pos);
    if route(d.dest).Via? && |d.payload| - pos > mtu {
      var e := d.(dest := NextDest(route, d.dest));
      assert SentFrom(d, route, mtu, pos)[1..] == SentFrom(e, route, mtu, next);
      assert FragmentsFrom(d, mtu, pos)[1..] == FragmentsFrom(d, mtu, next);
      if e.dest == d.dest {
        assert e == d;
        SentKept(d, route, mtu, next);
      } else if route(e.dest).Via? {
        FragmentDest(d, next, Cut(d, mtu, next));
        FragmentDest(e, next, Cut(e, mtu, next));
        assert SentFrom(e, route, mtu, next)[0] != FragmentsFrom(d, mtu, next)[0];
      }
    }
  }

  /** Two fragments through a gateway: the second is addressed to the gateway. */
  lemma GatewayTakesOver(d: Datagram, route: nat -> Route)
    requires d == Datagram(0, 17, 1, 2, seq(29, _ => 0)) && forall dest: nat :: route(dest) == Via(3)
    ensures var s := SentFrom(d, route, 28, 0);
            |s| == 2 && Packets(s) && DestOf(s[0]) == 2 && DestOf(s[1]) == 3
  {
    hide FragmentAt, DestOf;
    var e := d.(dest := 3);
    assert SentFrom(e, route, 28, 29) == [];
    assert SentFrom(e, route, 28, 8) == [FragmentAt(e, 8, 21)];
    assert SentFrom(d, route, 28, 0) == [FragmentAt(d, 0, 8), FragmentAt(e, 8, 21)];
    FragmentDest(d, 0, 8);
    FragmentDest(e, 8, 21);
  }

  lemma {:induction false} SameCollected(f: seq<seq<byte>>, g: seq<seq<byte>>, arr: seq<nat>)
    requires Packets(f) && Packets(g)
    requires forall i :: 0 <= i < |arr| ==> arr[i] < |f| && arr[i] < |g| && f[arr[i]] == g[arr[i]]
    ensures Collected(f, arr) == Collected(g, arr)
  {
    hide Inserted;
    if arr != [] {
      SameCollected(f, g, arr[..|arr| - 1]);
    }
  }

  /**
   What arrives at the destination, of what was sent and in any order, makes up the datagram exactly
   if the destination was kept and every fragment has come in, and then the payload is back.
   */
  lemma RoundTrip(d: Datagram, route: nat -> Route, mtu: nat, arr: seq<nat>)
    requires Routes(route) && Cuttable(d, mtu) && (mtu - SIZE) % 8 == 0
    requires Arrive(SentFrom(d, route, mtu, 0), d.dest, arr)
    ensures var s := SentFrom(d, route, mtu, 0); var l := Collected(s, arr);
            && (AllArrived(l) <==> KeepsDest(d, route, mtu, 0) && forall k :: 0 <= k < |s| ==> k in arr)
            && (AllArrived(l) ==> Joined(l)[SIZE..] == d.payload)
  {
    hide DestOf, FragmentAt, FragmentsFrom, SentFrom, AllArrived, Joined, Collected;
    var s, f := SentFrom(d, route, mtu, 0), FragmentsFrom(d, mtu, 0);
    AtLeastTwo(d, mtu);
    SentKept(d, route, mtu, 0);
    forall i | 0 <= i < |arr| ensures arr[i] < |f| && s[arr[i]] == f[arr[i]] {
      SentIs(d, route, mtu, 0, arr[i]);
      assert d.(dest := d.dest) == d;
    }
    PutTogether(d, mtu, arr);
    SameCollected(s, f, arr);
    if !KeepsDest(d, route, mtu, 0) && 1 in arr {
      OthersLost(d, route, mtu, arr);
    }
  }

  /** The fragments `s[arr[0]]`, `s[arr[1]]` and so on are addressed to `dest`. */
  predicate Arrive(s: seq<seq<byte>>, dest: nat, arr: seq<nat>)
    requires Packets(s)
  {
    forall i :: 0 <= i < |arr| ==> arr[i] < |s| && DestOf(s[arr[i]]) == dest
  }

  lemma OthersLost(d: Datagram, route: nat -> Route, mtu: nat, arr: seq<nat>)
    requires Routes(route) && Cuttable(d, mtu) && !KeepsDest(d, route, mtu, 0)
    requires Arrive(SentFrom(d, route, mtu, 0), d.dest, arr)
    ensures 1 !in arr
  {
    hide DestOf, FragmentAt, SentFrom;
    if 1 in arr {
      var i :| 0 <= i < |arr| && arr[i] == 1;
      SentFirst(d, route, mtu);
      assert DestAfter(route, d.dest, 1) == NextDest(route, d.dest) != d.dest;
      SentIs(d, route, mtu, 0, 1);
    }
  }

  lemma SentFirst(d: Datagram, route: nat -> Route, mtu: nat)
    requires mtu > SIZE && SentFrom(d, route, mtu, 0) != []
    ensures route(d.dest).Via?
  {
    hide FragmentAt;
  }
}

/**
 source/kernel/net/net_tools/package.c: packets as lists of data blocks of 128 bytes, each holding a
 part of the packet somewhere in the middle, with a read and write cursor.  What a packet is for its
 users is `Content`, the bytes of its blocks one after the other.

 The pools the blocks come from are taken to be large enough.
 */
module Package {
  import opened Bytes

  const BLOCK: nat := 128   // PKG_DATA_BLK_SIZE

  datatype Blk = Blk(offset: nat, size: nat, data: seq<byte>)

  predicate Fits(b: Blk) {
    |b.data| == BLOCK && b.offset + b.size <= BLOCK
  }

  type Block = b: Blk | Fits(b) witness Blk(0, 0, seq(128, _ => 0))

  function Part(b: Block): (r: seq<byte>)
    ensures |r| == b.size
  {
    b.data[b.offset..b.offset + b.size]
  }

  function Content(bs: seq<Block>): seq<byte> {
    if bs == [] then [] else Part(bs[0]) + Content(bs[1..])
  }

  /** Where block `k` starts in the content. */
  function Start(bs: seq<Block>, k: nat): nat
    requires k <= |bs|
  {
    |Content(bs[..k])|
  }

  lemma {:induction false} ContentJoin(a: seq<Block>, b: seq<Block>)
    ensures Content(a + b) == Content(a) + Content(b)
  {
    if a == [] {
      assert a + b == b;
    } else {
      ContentJoin(a[1..], b);
      assert (a + b)[1..] == a[1..] + b && (a + b)[0] == a[0];
    }
  }

  lemma Assoc(a: seq<byte>, b: seq<byte>, c: seq<byte>)
    ensures a + (b + c) == a + b + c
  {
  }

  /** The content around block `k`. */
  lemma ContentAt(bs: seq<Block>, k: nat)
    requires k < |bs|
    ensures Content(bs) == Content(bs[..k]) + Part(bs[k]) + Content(bs[k + 1..])
  {
    assert bs == bs[..k] + bs[k..];
    ContentJoin(bs[..k], bs[k..]);
    assert bs[k..][0] == bs[k] && bs[k..][1..] == bs[k + 1..];
    Assoc(Content(bs[..k]), Part(bs[k]), Content(bs[k + 1..]));
  }

  lemma StartNext(bs: seq<Block>, k: nat)
    requires k < |bs|
    ensures Start(bs, k + 1) == Start(bs, k) + bs[k].size <= |Content(bs)|
  {
    assert bs[..k + 1] == bs[..k] + [bs[k]];
    ContentJoin(bs[..k], [bs[k]]);
    assert Content([bs[k]]) == Part(bs[k]) + Content([]);
    ContentAt(bs, k);
  }

  lemma SliceOfMiddle(a: seq<byte>, b: seq<byte>, c: seq<byte>, i: nat, n: nat)
    requires i + n <= |b|
    ensures (a + b + c)[|a| + i..|a| + i + n] == b[i..i + n]
  {
  }

  lemma SliceOfSlice(d: seq<byte>, o: nat, m: nat, i: nat, n: nat)
    requires o + m <= |d| && i + n <= m
    ensures d[o..o + m][i..i + n] == d[o + i..o + i + n]
  {
    var l, r := d[o..o + m][i..i + n], d[o + i..o + i + n];
    forall k | 0 <= k < n ensures l[k] == r[k] {
      assert l[k] == d[o..o + m][i + k] == d[o + i + k];
    }
  }

  /** Bytes inside one block. */
  lemma SliceAt(bs: seq<Block>, k: nat, i: nat, n: nat)
    requires k < |bs| && i + n <= bs[k].size
    ensures Start(bs, k) + i + n <= |Content(bs)|
    ensures Content(bs)[Start(bs, k) + i..Start(bs, k) + i + n] == bs[k].data[bs[k].offset + i..bs[k].offset + i + n]
  {
    hide Content;
    ContentAt(bs, k);
    SliceOfMiddle(Content(bs[..k]), Part(bs[k]), Content(bs[k + 1..]), i, n);
    SliceOfSlice(bs[k].data, bs[k].offset, bs[k].size, i, n);
  }

  /** `src` written over `s` at position `p`. */
  function Overwritten(s: seq<byte>, p: nat, src: seq<byte>): (r: seq<byte>)
    requires p + |src| <= |s|
    ensures |r| == |s| && forall k :: 0 <= k < |s| ==> r[k] == if p <= k < p + |src| then src[k - p] else s[k]
  {
    s[..p] + src + s[p + |src|..]
  }

  function Stored(b: Block, i: nat, src: seq<byte>): (r: Block)
    requires i + |src| <= b.size
  {
    Blk(b.offset, b.size, Overwritten(b.data, b.offset + i, src))
  }

  lemma StoredPart(b: Block, i: nat, src: seq<byte>)
    requires i + |src| <= b.size
    ensures Part(Stored(b, i, src)) == Overwritten(Part(b), i, src)
  {
  }

  lemma OverwriteMiddle(a: seq<byte>, b: seq<byte>, c: seq<byte>, i: nat, src: seq<byte>)
    requires i + |src| <= |b|
    ensures a + Overwritten(b, i, src) + c == Overwritten(a + b + c, |a| + i, src)
  {
  }

  lemma StoreAt(bs: seq<Block>, k: nat, i: nat, src: seq<byte>)
    requires k < |bs| && i + |src| <= bs[k].size
    ensures Start(bs, k) + i + |src| <= |Content(bs)|
    ensures Content(bs[k := Stored(bs[k], i, src)]) == Overwritten(Content(bs), Start(bs, k) + i, src)
    ensures Start(bs[k := Stored(bs[k], i, src)], k) == Start(bs, k)
  {
    hide Content, Part, Overwritten;
    var t := bs[k := Stored(bs[k], i, src)];
    assert t[..k] == bs[..k] && t[k + 1..] == bs[k + 1..];
    ContentAt(bs, k);
    ContentAt(t, k);
    StoredPart(bs[k], i, src);
    OverwriteMiddle(Content(bs[..k]), Part(bs[k]), Content(bs[k + 1..]), i, src);
  }

  /** `s[p..p + m]` and then `n` more bytes. */
  lemma SliceGrows(s: seq<byte>, p: nat, m: nat, n: nat)
    requires p + m + n <= |s|
    ensures s[p..p + m] + s[p + m..p + m + n] == s[p..p + m + n]
  {
  }

  lemma PrefixGrows(s: seq<byte>, m: nat, n: nat, k: nat)
    requires m + k <= n <= |s|
    ensures s[..m] + s[m..n][..k] == s[..m + k]
  {
  }

  lemma PrefixOfSlice(s: seq<byte>, p: nat, n: nat, m: nat)
    requires m <= n && p + n <= |s|
    ensures s[p..p + n][..m] == s[p..p + m]
  {
  }

  function Least(a: int, b: int, c: int): int {
    if a <= b && a <= c then a else if b <= c then b else c
  }

  lemma OverwriteGrows(s: seq<byte>, p: nat, a: seq<byte>, b: seq<byte>)
    requires p + |a| + |b| <= |s|
    ensures Overwritten(Overwritten(s, p, a), p + |a|, b) == Overwritten(s, p, a + b)
  {
  }

  lemma FirstShrunk(bs: seq<Block>, n: nat)
    requires bs != [] && n < bs[0].size
    ensures Content(bs[0 := Blk(bs[0].offset + n, bs[0].size - n, bs[0].data)]) == Content(bs)[n..]
  {
    var b: Block := Blk(bs[0].offset + n, bs[0].size - n, bs[0].data);
    assert bs[0 := b][1..] == bs[1..];
    SliceOfSlice(bs[0].data, bs[0].offset, bs[0].size, n, bs[0].size - n);
    assert Part(bs[0])[n..] == Part(b);
  }

  predicate TwoBlocksHold(bs: seq<Block>, n: nat)
    requires bs != []
  {
    bs[0].size >= n || (|bs| > 1 && bs[0].size + bs[1].size >= n)
  }

  /** How many bytes the second block can give the first, up to `n`. */
  function Moved(bs: seq<Block>, n: nat): nat
    requires |bs| > 1 && bs[0].size < n <= BLOCK
  {
    if n - bs[0].size > bs[1].size then bs[1].size else n - bs[0].size
  }

  /** The first block moved to the front of its buffer and filled up to `n` bytes from the second. */
  function Integrated(bs: seq<Block>, n: nat): (r: seq<Block>)
    requires |bs| > 1 && bs[0].size < n <= BLOCK
    ensures r != [] && r[0].size == n
  {
    var b, next, more := bs[0], bs[1], Moved(bs, n);
    var dest := Part(b) + next.data[next.offset..next.offset + more] + b.data[b.size + more..];
    [Blk(0, n, dest)] +
    (if next.size == more then [] else [Blk(next.offset + more, next.size - more, next.data)]) + bs[2..]
  }

  lemma IntegratedHead(bs: seq<Block>, n: nat)
    requires |bs| > 1 && bs[0].size < n <= BLOCK
    ensures |Part(Integrated(bs, n)[0])| == n
    ensures TwoBlocksHold(bs, n) ==> Part(Integrated(bs, n)[0]) == Part(bs[0]) + Part(bs[1])[..Moved(bs, n)]
  {
    SliceOfSlice(bs[1].data, bs[1].offset, bs[1].size, 0, Moved(bs, n));
  }

  lemma IntegratedTail(bs: seq<Block>, n: nat)
    requires |bs| > 1 && bs[0].size < n <= BLOCK
    ensures Content(Integrated(bs, n)[1..]) == Part(bs[1])[Moved(bs, n)..] + Content(bs[2..])
  {
    var next, more, t := bs[1], Moved(bs, n), Integrated(bs, n);
    if next.size == more {
      assert t[1..] == bs[2..];
      assert Part(next)[more..] == [];
    } else {
      assert t[1..][1..] == bs[2..];
      SliceOfSlice(next.data, next.offset, next.size, more, next.size - more);
      assert Part(next)[more..] == Part(t[1]);
    }
  }

  lemma Regroup(a: seq<byte>, b: seq<byte>, k: nat, c: seq<byte>)
    requires k <= |b|
    ensures (a + b[..k]) + (b[k..] + c) == a + (b + c)
  {
  }

  lemma IntegratedContent(bs: seq<Block>, n: nat)
    requires |bs| > 1 && bs[0].size < n <= BLOCK
    ensures if TwoBlocksHold(bs, n) then Content(Integrated(bs, n)) == Content(bs)
            else |Content(Integrated(bs, n))| > |Content(bs)|
  {
    hide Part, Integrated, Stored;
    IntegratedHead(bs, n);
    IntegratedTail(bs, n);
    assert bs[1..][1..] == bs[2..];
    assert Content(bs) == Part(bs[0]) + (Part(bs[1]) + Content(bs[2..]));
    Regroup(Part(bs[0]), Part(bs[1]), Moved(bs, n), Content(bs[2..]));
  }

  /** A header of 15 bytes over blocks of 5, 5 and 10: the packet grows by 5 bytes it never had. */
  lemma ThreeBlocks(bs: seq<Block>)
    requires |bs| == 3 && bs[0].size == 5 && bs[1].size == 5 && bs[2].size == 10
    ensures |Content(bs)| == 20 && |Content(Integrated(bs, 15))| == 25 && Integrated(bs, 15)[0].size == 15
  {
    assert bs[1..][1..] == bs[2..] && bs[2..][1..] == [] && Content(bs[2..]) == Part(bs[2]) + Content([]);
    assert Content(bs[1..]) == Part(bs[1]) + Content(bs[2..]);
    var r := Integrated(bs, 15);
    assert r == [r[0], bs[2]];
    assert r[1..] == bs[2..];
  }

  /** The blocks of a fresh packet, all full but possibly the last. */
  method ZeroBlocks(size: nat) returns (bs: seq<Block>)
    ensures Content(bs) == seq(size, _ => 0) && (size > 0 ==> bs != [])
  {
    bs := [];
    var remain := size;
    while remain > 0
      invariant 0 <= remain <= size && (remain < size ==> bs != [])
      invariant |Content(bs)| == size - remain && forall k :: 0 <= k < |Content(bs)| ==> Content(bs)[k] == 0
    {
      var n := if remain < BLOCK then remain else BLOCK;
      var b: Block := Blk(0, n, seq(BLOCK, _ => 0));
      ContentJoin(bs, [b]);
      assert Content([b]) == Part(b) + Content([]);
      assert Part(b) == seq(n, _ => 0);
      bs := bs + [b];
      remain := remain - n;
    }
    assert |Content(bs)| == size;
  }

  class Pkg {
    var total: nat
    var blocks: seq<Block>
    var pos: nat
    var cur: int     // index of curblk, -1 for NULL
    var inner: nat   // inner_offset

    ghost predicate Valid()
      reads this
    {
      |Content(blocks)| == total && blocks != []
    }

    ghost function Bytes(): seq<byte>
      reads this
    {
      Content(blocks)
    }

    /** The cursor stands at position `p`; NULL only at the end. */
    ghost predicate CursorAt(p: nat)
      reads this
    {
      if cur == -1 then p == total
      else p <= total && 0 <= cur < |blocks| && inner <= blocks[cur].size && Start(blocks, cur) + inner == p
    }

    ghost predicate Ready()
      reads this
    {
      Valid() && CursorAt(pos)
    }

    /** package_alloc: `size` zero bytes. */
    constructor (size: nat)
      requires size > 0
      ensures Ready() && pos == 0 && Bytes() == seq(size, _ => 0)
    {
      var bs := ZeroBlocks(size);
      total, blocks, pos, cur, inner := size, bs, 0, 0, 0;
    }

    /** package_lseek */
    method Lseek(offset: int) returns (r: int)
      requires Valid()
      modifies `pos, `cur, `inner
      ensures Valid() && r == if 0 <= offset <= total then 0 else -1
      ensures r == 0 ==> pos == offset && CursorAt(pos) && (cur == -1 <==> pos == total)
      ensures r != 0 ==> pos == old(pos) && cur == old(cur) && inner == old(inner)
    {
      if offset < 0 || offset > total {
        return -1;
      }
      var k, remain := 0, offset;
      cur, inner, pos := 0, 0, offset;
      while remain >= blocks[k].size
        invariant 0 <= k < |blocks| && remain >= 0 && Start(blocks, k) + remain == offset
        invariant Valid() && pos == offset
        decreases |blocks| - k
      {
        remain := remain - blocks[k].size;
        StartNext(blocks, k);
        k := k + 1;
        if k == |blocks| {
          // the list can only run out at the end of the packet
          assert blocks[..k] == blocks;
          cur, inner := -1, 0;
          return 0;
        }
      }
      StartNext(blocks, k);
      cur, inner := k, remain;
      return 0;
    }

    /** Past the end of the block at the cursor, if there is a next one; package_read and package_write alike. */
    method NextBlock() returns (more: bool)
      requires Valid() && 0 <= cur < |blocks| && inner == blocks[cur].size
      modifies `cur, `inner
      ensures more <==> old(cur) + 1 < |blocks|
      ensures cur == if more then old(cur) + 1 else old(cur)
      ensures inner == if more then 0 else old(inner)
      ensures CursorAt(Start(blocks, old(cur)) + old(inner))
      ensures !more ==> Start(blocks, cur) + inner == total
    {
      StartNext(blocks, cur);
      if cur + 1 == |blocks| {
        assert blocks[..cur + 1] == blocks;
        return false;
      }
      cur, inner := cur + 1, 0;
      return true;
    }

    /** One round of package_read: what the block at the cursor has of the next `want` bytes. */
    method ReadSome(ghost p: nat, want: nat) returns (data: seq<byte>)
      requires Valid() && cur != -1 && CursorAt(p) && p + want <= total && want > 0
      modifies `cur, `inner
      ensures Valid() && cur != -1 && |data| <= want && CursorAt(p + |data|)
      ensures data == Bytes()[p..p + |data|]
      ensures |data| > 0 || cur > old(cur)
    {
      hide Content, Part;
      var b := blocks[cur];
      var n := if want < b.size - inner then want else b.size - inner;
      SliceAt(blocks, cur, inner, n);
      data := b.data[b.offset + inner..b.offset + inner + n];
      inner := inner + n;
      if want > n || inner + b.offset >= BLOCK {
        // there is no next block only when nothing is left to read
        var _ := NextBlock();
      }
    }

    /** package_read, the bytes it copies to the buffer being `data`. */
    method Read(len: int) returns (r: int, data: seq<byte>)
      requires Ready()
      modifies `pos, `cur, `inner
      ensures Ready()
      ensures len <= 0 ==> r == -1 && data == [] && pos == old(pos)
      ensures len > 0 ==> pos == old(pos) + r == if old(pos) + len > total then total else old(pos) + len
      ensures len > 0 ==> r >= 0 && data == Bytes()[old(pos)..pos]
    {
      hide Content, Start;
      if len <= 0 {
        return -1, [];
      }
      var n := len;
      if pos + n > total {
        n := total - pos;
      }
      data := [];
      if cur == -1 {
        return 0, data;
      }
      var remain := n;
      while remain > 0
        invariant Valid() && remain == n - |data| >= 0 && pos == old(pos) && pos + n <= total
        invariant cur != -1 && CursorAt(pos + |data|)
        invariant data == Bytes()[pos..pos + |data|]
        decreases remain, |blocks| - cur
      {
        var some := ReadSome(pos + |data|, remain);
        SliceGrows(Bytes(), pos, |data|, |some|);
        data := data + some;
        remain := remain - |some|;
      }
      pos := pos + n - remain;
      r := n - remain;
    }

    /** One round of package_write. */
    method WriteSome(ghost p: nat, src: seq<byte>) returns (n: nat)
      requires Valid() && cur != -1 && CursorAt(p) && p + |src| <= total && src != []
      modifies `blocks, `cur, `inner
      ensures Valid() && cur != -1 && |blocks| == old(|blocks|) && n <= |src| && CursorAt(p + n)
      ensures Bytes() == Overwritten(old(Bytes()), p, src[..n])
      ensures n > 0 || cur > old(cur)
    {
      var b := blocks[cur];
      n := if |src| < b.size - inner then |src| else b.size - inner;
      StoreAt(blocks, cur, inner, src[..n]);
      blocks := blocks[cur := Stored(b, inner, src[..n])];
      inner := inner + n;
      if |src| > n || inner + b.offset >= BLOCK {
        var _ := NextBlock();
      }
    }

    /** package_write */
    method Write(buf: seq<byte>) returns (r: int)
      requires Ready()
      modifies `blocks, `pos, `cur, `inner
      ensures Ready()
      ensures old(cur) == -1 ==> r == -1 && Bytes() == old(Bytes()) && pos == old(pos)
      ensures old(cur) != -1 ==> pos == old(pos) + r == if old(pos) + |buf| > total then total else old(pos) + |buf|
      ensures old(cur) != -1 ==> 0 <= r <= |buf| && Bytes() == Overwritten(old(Bytes()), old(pos), buf[..r])
    {
      hide Content, Start, Part, Overwritten;
      var n := |buf|;
      if pos + n > total {
        n := total - pos;
      }
      if cur == -1 {
        return -1;
      }
      var done := 0;
      while done < n
        invariant Valid() && done <= n <= |buf| && pos == old(pos) && pos + n <= total
        invariant cur != -1 && CursorAt(pos + done)
        invariant Bytes() == Overwritten(old(Bytes()), pos, buf[..done])
        decreases n - done, |blocks| - cur
      {
        var some := WriteSome(pos + done, buf[done..n]);
        OverwriteGrows(old(Bytes()), pos, buf[..done], buf[done..n][..some]);
        PrefixGrows(buf, done, n, some);
        done := done + some;
      }
      pos := pos + done;
      r := done;
    }

    /** Where a cursor at `pos` stands once package_lseek has been called, its result being ignored. */
    static function Sought(offset: int, pos: nat, total: nat): nat {
      if 0 <= offset <= total then offset else pos
    }

    /** package_memcpy: up to `len` bytes of `src`, as far as both packets reach, come to stand in this one. */
    method Memcpy(offset: int, src: Pkg, srcOffset: int, len: int) returns (r: int)
      requires Ready() && src.Ready() && src != this
      modifies `blocks, `pos, `cur, `inner, src`pos, src`cur, src`inner
      ensures Ready() && src.Ready()
      ensures len <= 0 ==> r == -1 && Bytes() == old(Bytes())
      ensures len > 0 ==> r == 0
      ensures len > 0 ==> (
        var to, from := Sought(offset, old(pos), total), Sought(srcOffset, old(src.pos), src.total);
        var n := Least(len, src.total - from, total - to);
        Bytes() == Overwritten(old(Bytes()), to, src.Bytes()[from..from + n]))
    {
      hide Content, Start, Overwritten, Least;
      if len <= 0 {
        return -1;
      }
      var _ := Lseek(offset);
      var _ := src.Lseek(srcOffset);
      CopyHere(src, len);
      return 0;
    }

    /** The bytes from one cursor on come to stand from the other on. */
    method CopyHere(src: Pkg, len: int)
      requires Ready() && src.Ready() && src != this && len > 0
      modifies `blocks, `pos, `cur, `inner, src`pos, src`cur, src`inner
      ensures Ready() && src.Ready()
      ensures var n := Least(len, src.total - old(src.pos), total - old(pos));
              Bytes() == Overwritten(old(Bytes()), old(pos), src.Bytes()[old(src.pos)..old(src.pos) + n])
    {
      hide Content, Start;
      ghost var to, from := pos, src.pos;
      var n, buf := src.Read(len);
      var _ := Write(buf);
      ghost var m := Least(len, src.total - from, total - to);
      PrefixOfSlice(src.Bytes(), from, n, m);
    }

    /** package_join: the blocks of `from` are moved behind those of this packet. */
    method Join(from: Pkg)
      requires Valid() && from.Valid() && from != this
      modifies `total, `blocks, from
      ensures Valid() && Bytes() == old(Bytes()) + old(from.Bytes()) && from.blocks == []
      ensures old(Ready()) ==> (Ready() <==> old(cur != -1 || from.total == 0))
      ensures pos == old(pos) && cur == old(cur) && inner == old(inner)
    {
      ContentJoin(blocks, from.blocks);
      assert 0 <= cur < |blocks| ==> (blocks + from.blocks)[..cur] == blocks[..cur];
      total := total + from.total;
      blocks := blocks + from.blocks;
      from.total, from.blocks, from.pos, from.cur, from.inner := 0, [], 0, -1, 0;
    }

    /** package_shrank_front as far as the bytes to go lie in the first block. */
    method ShrinkFront(n: nat) returns (r: int)
      requires Valid() && (n <= total ==> n < total && n <= blocks[0].size)
      modifies this
      ensures r == if n > old(total) then -1 else 0
      ensures r == -1 ==> Valid() && Bytes() == old(Bytes())
      ensures r == 0 ==> Ready() && pos == 0 && cur != -1 && Bytes() == old(Bytes())[n..]
    {
      if n > total {
        return -1;
      }
      var b := blocks[0];
      if b.size > n {
        FirstShrunk(blocks, n);
        blocks := blocks[0 := Blk(b.offset + n, b.size - n, b.data)];
      } else {
        assert Content(blocks)[n..] == Content(blocks[1..]);
        blocks := blocks[1..];
      }
      total := total - n;
      r := Lseek(0);
    }

    /**
     package_integrate_header: the first `n` bytes come to lie in the first block.  Where they are
     spread over more than two blocks the first block is given bytes it does not have.
     */
    method IntegrateHeader(n: nat) returns (r: int)
      requires Valid()
      modifies `blocks
      ensures r == if n == 0 || n > total || n > BLOCK then -1 else 0
      ensures r == 0 && old(TwoBlocksHold(blocks, n)) ==> Valid() && Bytes() == old(Bytes()) && blocks[0].size >= n
      ensures r == 0 && old(!TwoBlocksHold(blocks, n)) ==> |Content(blocks)| > total
      ensures r == -1 ==> blocks == old(blocks)
    {
      if n == 0 || n > total || n > BLOCK {
        return -1;
      }
      var b := blocks[0];
      if b.size >= n {
        return 0;
      }
      assert |blocks| == 1 ==> Content(blocks) == Part(b) + Content([]);
      blocks := Integrated(blocks, n);
      IntegratedContent(old(blocks), n);
      return 0;
    }
  }
}

/**
 Files as bytes: what a volume holds at every offset of every file, and what reading, writing and
 mapping a block mean at that level.
 */
module MinixFile {
  import opened Bytes
  import opened MinixStore

  const FILE_BYTES: nat := 268966912   // FILE_LIMIT blocks

  /** The byte at an offset of a file, -1 where no block is mapped. */
  function ByteAt(st: Store, i: nat, off: nat): int
    requires off < FILE_BYTES
  {
    var b := BlockOf(st, i, off / BLOCK_SIZE);
    if b != 0 && b in st.disk then st.disk[b][off % BLOCK_SIZE] else -1
  }

  /** What a write of `data` at offset `from` of file `i` leaves at an offset of file `j`. */
  function WrittenByte(st: Store, i: nat, from: nat, data: seq<byte>, j: nat, off: nat): int
    requires off < FILE_BYTES
  {
    if j == i && from <= off < from + |data| then data[off - from]
    else if ByteAt(st, j, off) >= 0 then ByteAt(st, j, off)
    else if j == i && data != [] && from / BLOCK_SIZE <= off / BLOCK_SIZE <= (from + |data| - 1) / BLOCK_SIZE then 0
    else -1
  }

  ghost predicate Written(st: Store, st': Store, i: nat, from: nat, data: seq<byte>) {
    forall j: nat, off: nat :: off < FILE_BYTES ==> ByteAt(st', j, off) == WrittenByte(st, i, from, data, j, off)
  }

  lemma NothingWritten(st: Store, st': Store, i: nat, from: nat)
    requires Sound(st) && SameFiles(st, st')
    ensures Written(st, st', i, from, [])
  {
    forall j: nat, off: nat | off < FILE_BYTES ensures ByteAt(st', j, off) == ByteAt(st, j, off) {
      var s := LeafSlot(j, off / BLOCK_SIZE);
      assert Ref(st', s) == Ref(st, s);
    }
  }

  lemma WrittenTwice(st: Store, st1: Store, st2: Store, i: nat, from: nat, d1: seq<byte>, d2: seq<byte>)
    requires Written(st, st1, i, from, d1) && Written(st1, st2, i, from + |d1|, d2)
    ensures Written(st, st2, i, from, d1 + d2)
  {
    forall j: nat, off: nat | off < FILE_BYTES
      ensures ByteAt(st2, j, off) == WrittenByte(st, i, from, d1 + d2, j, off)
    {
      assert ByteAt(st1, j, off) == WrittenByte(st, i, from, d1, j, off);
      assert ByteAt(st2, j, off) == WrittenByte(st1, i, from + |d1|, d2, j, off);
    }
  }

  /** Block `b` with `data` laid over it from offset `k` on. */
  function Overlay(b: Block, k: nat, data: seq<byte>): Block
    requires k + |data| <= BLOCK_SIZE
  {
    b[..k] + data + b[k + |data|..]
  }

  /** The file block at hand is mapped, by `st1`, and then overwritten in part. */
  lemma BlockWritten(st: Store, st1: Store, i: nat, off: nat, data: seq<byte>)
    requires off + |data| <= FILE_BYTES && off % BLOCK_SIZE + |data| <= BLOCK_SIZE && data != []
    requires var s := LeafSlot(i, off / BLOCK_SIZE);
             if Ref(st, s) != 0 then st1 == st && Sound(st) else Mapped(st, st1, s, Ref(st1, s)) && Ref(st1, s) != 0
    ensures var b := BlockOf(st1, i, off / BLOCK_SIZE);
            && b in st1.disk && Sound(Fill(st1, b, Overlay(st1.disk[b], off % BLOCK_SIZE, data)))
            && Written(st, Fill(st1, b, Overlay(st1.disk[b], off % BLOCK_SIZE, data)), i, off, data)
  {
    var s := LeafSlot(i, off / BLOCK_SIZE);
    var b := Ref(st1, s);
    var full := Overlay(st1.disk[b], off % BLOCK_SIZE, data);
    FillSound(st1, s, full);
    forall j: nat, o: nat | o < FILE_BYTES
      ensures ByteAt(Fill(st1, b, full), j, o) == WrittenByte(st, i, off, data, j, o)
    {
      BlockWrittenAt(st, st1, i, off, data, full, j, o);
    }
  }

  lemma BlockWrittenAt(st: Store, st1: Store, i: nat, off: nat, data: seq<byte>, full: Block, j: nat, o: nat)
    requires off + |data| <= FILE_BYTES && off % BLOCK_SIZE + |data| <= BLOCK_SIZE && data != [] && o < FILE_BYTES
    requires var s := LeafSlot(i, off / BLOCK_SIZE);
             && (if Ref(st, s) != 0 then st1 == st && Sound(st)
               else Mapped(st, st1, s, Ref(st1, s)) && Ref(st1, s) != 0)
             && Ref(st1, s) in st1.disk && full == Overlay(st1.disk[Ref(st1, s)], off % BLOCK_SIZE, data)
             && (forall t :: Ref(Fill(st1, Ref(st1, s), full), t) == Ref(st1, t))
    ensures ByteAt(Fill(st1, BlockOf(st1, i, off / BLOCK_SIZE), full), j, o) == WrittenByte(st, i, off, data, j, o)
  {
    hide Ref;
    var s, t := LeafSlot(i, off / BLOCK_SIZE), LeafSlot(j, o / BLOCK_SIZE);
    var b := Ref(st1, s);
    assert Ref(Fill(st1, b, full), t) == Ref(st1, t);
    if j == i && o / BLOCK_SIZE == off / BLOCK_SIZE {
      assert (off + |data| - 1) / BLOCK_SIZE == off / BLOCK_SIZE;
      assert o - off == o % BLOCK_SIZE - off % BLOCK_SIZE;
    } else {
      if t == s { LeafSlotInjective(i, off / BLOCK_SIZE, j, o / BLOCK_SIZE); }
      assert (off + |data| - 1) / BLOCK_SIZE == off / BLOCK_SIZE;
    }
  }

  // ---- reading ----

  /** How many bytes a read may return: inside the file and the buffer. */
  function Readable(size: nat, bufSize: int, whence: int, readSize: int): int {
    var n := if readSize > bufSize then bufSize else readSize;
    if whence + n > size then size - whence else n
  }

  /** `n` bytes of a file, -1 standing for a byte of a hole. */
  function FileBytes(st: Store, i: nat, off: nat, n: nat): (r: seq<int>)
    requires off + n <= FILE_BYTES
    ensures |r| == n && forall k :: 0 <= k < n ==> r[k] == ByteAt(st, i, off + k)
  {
    seq(n, k requires 0 <= k < n => ByteAt(st, i, off + k))
  }

  lemma FileBytesSplit(st: Store, i: nat, off: nat, m: nat, n: nat)
    requires off + m + n <= FILE_BYTES
    ensures FileBytes(st, i, off, m) + FileBytes(st, i, off + m, n) == FileBytes(st, i, off, m + n)
  {
    var both := FileBytes(st, i, off, m) + FileBytes(st, i, off + m, n);
    forall k | 0 <= k < m + n ensures both[k] == FileBytes(st, i, off, m + n)[k] {
      if k >= m {
        assert both[k] == FileBytes(st, i, off + m, n)[k - m];
        assert off + m + (k - m) == off + k;
      }
    }
  }

  /** The bytes of the file block around `off`. */
  lemma BlockBytes(st: Store, i: nat, off: nat, n: nat)
    requires Sound(st) && off + n <= FILE_BYTES && off % BLOCK_SIZE + n <= BLOCK_SIZE && n > 0
    ensures var b := BlockOf(st, i, off / BLOCK_SIZE);
            if b == 0 then ByteAt(st, i, off) == -1
            else b > 0 && b in st.disk && FileBytes(st, i, off, n) == st.disk[b][off % BLOCK_SIZE..off % BLOCK_SIZE + n]
  {
    forall k | 0 <= k < n ensures FileBytes(st, i, off, n)[k] == ByteAt(st, i, off + k)
        && (off + k) / BLOCK_SIZE == off / BLOCK_SIZE && (off + k) % BLOCK_SIZE == off % BLOCK_SIZE + k {
    }
  }

  /** The bytes read are the ones in the file, up to what may be read or to the first hole. */
  ghost predicate ReadOff(st: Store, i: nat, whence: nat, n: int, data: seq<byte>)
    requires whence + n <= FILE_BYTES
  {
    && |data| <= n && data == FileBytes(st, i, whence, |data|)
    && (|data| < n ==> ByteAt(st, i, whence + |data|) == -1)
  }

  /** Reading what was just written gives back the bytes written. */
  lemma ReadBack(st: Store, st': Store, i: nat, from: nat, data: seq<byte>, n: nat, got: seq<byte>)
    requires Written(st, st', i, from, data) && from + n <= FILE_BYTES && n <= |data|
    requires ReadOff(st', i, from, n, got)
    ensures got == data[..n]
  {
    forall k | 0 <= k < n ensures ByteAt(st', i, from + k) == data[k] {
      assert ByteAt(st', i, from + k) == WrittenByte(st, i, from, data, i, from + k);
    }
  }

  // ---- mapping blocks without writing ----

  /** File blocks `lo` to `hi` of file `i` may have been mapped, to zeros; all other bytes are as they were. */
  ghost predicate Grown(st: Store, st': Store, i: nat, lo: nat, hi: nat) {
    forall j: nat, off: nat :: off < FILE_BYTES ==>
      || ByteAt(st', j, off) == ByteAt(st, j, off)
      || (j == i && lo <= off / BLOCK_SIZE < hi && ByteAt(st, j, off) == -1 && ByteAt(st', j, off) == 0)
  }

  lemma GrownNothing(st: Store, st': Store, i: nat, lo: nat, hi: nat)
    requires Sound(st) && SameFiles(st, st')
    ensures Grown(st, st', i, lo, hi)
  {
    NothingWritten(st, st', i, 0);
  }

  lemma GrownTwice(st: Store, st1: Store, st2: Store, i: nat, lo: nat, hi: nat)
    requires Grown(st, st1, i, lo, hi) && Grown(st1, st2, i, lo, hi)
    ensures Grown(st, st2, i, lo, hi)
  {
  }

  lemma GrownBlock(st: Store, st': Store, i: nat, fb: nat, b: int, lo: nat, hi: nat)
    requires Sound(st) && lo <= fb < hi && fb < FILE_LIMIT && b > 0
    requires var s := LeafSlot(i, fb); if Ref(st, s) != 0 then st' == st else Mapped(st, st', s, b)
    ensures Grown(st, st', i, lo, hi) && Sound(st') && BlockOf(st', i, fb) != 0
  {
    forall j: nat, off: nat | off < FILE_BYTES
      ensures ByteAt(st', j, off) == ByteAt(st, j, off)
           || (j == i && lo <= off / BLOCK_SIZE < hi && ByteAt(st, j, off) == -1 && ByteAt(st', j, off) == 0)
    {
      if LeafSlot(j, off / BLOCK_SIZE) == LeafSlot(i, fb) {
        LeafSlotInjective(i, fb, j, off / BLOCK_SIZE);
      }
    }
  }

  lemma GrownKeeps(st: Store, st': Store, i: nat, lo: nat, hi: nat, fb: nat)
    requires Sound(st) && Grown(st, st', i, lo, hi) && fb < FILE_LIMIT && BlockOf(st, i, fb) != 0
    ensures BlockOf(st', i, fb) != 0
  {
    assert ByteAt(st, i, fb * BLOCK_SIZE) >= 0;
    assert ByteAt(st', i, fb * BLOCK_SIZE) >= 0;
  }
}

/**
 source/kernel/fs/minix/minix_inode.c: reading, writing and truncating a file over the block map.
 The modification time is left out.
 */
module MinixInode {
  import opened Bytes
  import opened MinixStore
  import opened MinixFile
  import opened MinixVolume

  function Min(a: int, b: int): int {
    if a < b then a else b
  }

  /** minix_inode_read, the bytes it copies to the buffer being `data`. */
  method Read(vol: Volume, inode: Inode, ghost i: nat, bufSize: int, whence: int, readSize: int)
    returns (r: int, data: seq<byte>)
    requires vol.Valid() && vol.Owns(inode, i) && Sound(vol.view) && inode.size <= FILE_BYTES
    modifies vol, vol.zoneMap, inode.zone
    ensures vol.Valid() && vol.view == old(vol.view)
    ensures r < 0 <==> bufSize <= 0 || whence < 0 || readSize < 0
    ensures if r < 0 then r == -1 && data == []
            else if whence >= inode.size then r == 0 && data == []
            else r == |data| && ReadOff(vol.view, i, whence, Readable(inode.size, bufSize, whence, readSize), data)
  {
    data := [];
    if bufSize <= 0 || whence < 0 || readSize < 0 {
      return -1, data;
    }
    if whence >= inode.size {
      return 0, data;
    }
    var n := readSize;
    if n > bufSize {
      n := bufSize;
    }
    if whence + n > inode.size {
      n := inode.size - whence;
    }
    if n <= 0 {
      return 0, data;
    }
    data := ReadBlocks(vol, inode, i, whence, n);
    return |data|, data;
  }

  /** The loop of minix_inode_read. */
  method ReadBlocks(vol: Volume, inode: Inode, ghost i: nat, whence: nat, n: nat) returns (data: seq<byte>)
    requires vol.Valid() && vol.Owns(inode, i) && Sound(vol.view) && whence + n <= FILE_BYTES
    modifies vol, vol.zoneMap, inode.zone
    ensures vol.Valid() && vol.view == old(vol.view)
    ensures ReadOff(vol.view, i, whence, n, data)
  {
    hide Sound, ByteAt, FileBytes;
    data := [];
    var offset := whence;
    while |data| < n
      invariant vol.Valid() && vol.view == old(vol.view) && offset == whence + |data| && |data| <= n
      invariant data == FileBytes(vol.view, i, whence, |data|)
    {
      var fblock, blkOffset := offset / BLOCK_SIZE, offset % BLOCK_SIZE;
      var b := vol.GetBlock(inode, i, fblock, false);
      BlockBytes(vol.view, i, offset, Min(BLOCK_SIZE - blkOffset, n - |data|));
      if b <= 0 {
        break;
      }
      var copySize := BLOCK_SIZE - blkOffset;
      if copySize > n - |data| {
        copySize := n - |data|;
      }
      FileBytesSplit(vol.view, i, whence, |data|, copySize);
      data := data + vol.disk[b][blkOffset..blkOffset + copySize];
      offset := offset + copySize;
    }
  }

  /** How many file blocks a range of `n` bytes touches. */
  function BlocksTouched(from: nat, n: nat): nat {
    if n == 0 then 0 else (from + n - 1) / BLOCK_SIZE - from / BLOCK_SIZE + 1
  }

  /** One round of the loop of minix_inode_write: the rest of `buf` that fits into the file block at `offset`. */
  method WriteBlock(vol: Volume, inode: Inode, ghost i: nat, offset: nat, buf: seq<byte>) returns (copied: nat)
    requires vol.Valid() && vol.Owns(inode, i) && Sound(vol.view) && buf != [] && offset + |buf| <= FILE_BYTES
    modifies vol, vol.zoneMap, inode.zone
    ensures vol.Valid() && copied <= |buf|
    ensures copied == 0 ==> vol.free == {} && (Sound(vol.view) ==> Written(old(vol.view), vol.view, i, offset, []))
    ensures copied > 0 ==> copied == Min(BLOCK_SIZE - offset % BLOCK_SIZE, |buf|)
    ensures copied > 0 ==> Sound(vol.view) && Written(old(vol.view), vol.view, i, offset, buf[..copied])
    ensures vol.free <= old(vol.free) && (copied == 0 ==> |old(vol.free)| < 3) && |vol.free| >= |old(vol.free)| - 3
  {
    hide Sound, Written;
    var fblock, blkOffset := offset / BLOCK_SIZE, offset % BLOCK_SIZE;
    if BlockOf(vol.view, i, fblock) != 0 { RefOnDisk(vol.view, LeafSlot(i, fblock)); }
    var b := vol.GetBlock(inode, i, fblock, true);
    if b <= 0 {
      if Sound(vol.view) { NothingWritten(old(vol.view), vol.view, i, offset); }
      return 0;
    }
    copied := BLOCK_SIZE - blkOffset;
    if copied > |buf| {
      copied := |buf|;
    }
    BlockWritten(old(vol.view), vol.view, i, offset, buf[..copied]);
    vol.PutBlock(b, Overlay(vol.disk[b], blkOffset, buf[..copied]));
  }

  /** The loop of minix_inode_write. */
  method WriteBlocks(vol: Volume, inode: Inode, ghost i: nat, whence: nat, buf: seq<byte>) returns (written: nat)
    requires vol.Valid() && vol.Owns(inode, i) && Sound(vol.view) && whence + |buf| <= FILE_BYTES
    modifies vol, vol.zoneMap, inode.zone, inode`size
    ensures vol.Valid() && written <= |buf|
    ensures Sound(vol.view) ==> Written(old(vol.view), vol.view, i, whence, buf[..written])
    ensures written == |buf| ==> Sound(vol.view)
    ensures written < |buf| ==> vol.free == {} && |old(vol.free)| < 3 * BlocksTouched(whence, |buf|)
    ensures inode.size == if written > 0 && whence + written > old(inode.size) then whence + written
      else old(inode.size)
  {
    hide Sound, Written, BlocksTouched;
    written := 0;
    var offset := whence;
    SameAsItself(vol.view);
    NothingWritten(vol.view, vol.view, i, whence);
    while written < |buf|
      invariant vol.Valid() && Sound(vol.view) && written <= |buf| && offset == whence + written
      invariant Written(old(vol.view), vol.view, i, whence, buf[..written])
      invariant written == 0 || written == |buf| || offset % BLOCK_SIZE == 0
      invariant |vol.free| >= |old(vol.free)| - 3 * BlocksTouched(whence, written)
      invariant inode.size == if written > 0 && offset > old(inode.size) then offset else old(inode.size)
    {
      ghost var st := vol.view;
      var copied := WriteBlock(vol, inode, i, offset, buf[written..]);
      PrefixGrows(buf, written, copied);
      if copied == 0 {
        if Sound(vol.view) { WrittenTwice(old(vol.view), st, vol.view, i, whence, buf[..written], []); }
        TouchedMore(whence, written, |buf| - written);
        break;
      }
      WrittenTwice(old(vol.view), st, vol.view, i, whence, buf[..written], buf[written..][..copied]);
      TouchedMore(whence, written, copied);
      written := written + copied;
      offset := offset + copied;
      if offset > inode.size {
        inode.size := offset;
      }
    }
  }

  lemma PrefixGrows(s: seq<byte>, m: nat, n: nat)
    requires m + n <= |s|
    ensures s[..m + n] == s[..m] + s[m..][..n]
  {
  }

  lemma TouchedMore(from: nat, m: nat, n: nat)
    requires n > 0 && (m == 0 || (from + m) % BLOCK_SIZE == 0)
    ensures BlocksTouched(from, m + n) >= BlocksTouched(from, m) + 1
  {
  }

  /** minix_inode_write */
  method Write(vol: Volume, inode: Inode, ghost i: nat, buf: seq<byte>, bufSize: int, whence: int, writeSize: int)
    returns (r: int)
    requires vol.Valid() && vol.Owns(inode, i) && Sound(vol.view)
    requires bufSize <= |buf| && whence + Min(writeSize, bufSize) <= FILE_BYTES
    modifies vol, vol.zoneMap, inode.zone, inode`size
    ensures vol.Valid()
    ensures r < 0 <==> bufSize <= 0 || whence < 0 || writeSize < 0
    ensures r < 0 ==> r == -1 && vol.view == old(vol.view) && inode.size == old(inode.size)
    ensures r >= 0 ==> r <= Min(writeSize, bufSize)
    ensures r >= 0 && Sound(vol.view) ==> Written(old(vol.view), vol.view, i, whence, buf[..r])
    ensures r >= 0 ==> inode.size == if r > 0 && whence + r > old(inode.size) then whence + r else old(inode.size)
    ensures r == Min(writeSize, bufSize) ==> Sound(vol.view)
    ensures 0 <= r < Min(writeSize, bufSize) ==>
      vol.free == {} && |old(vol.free)| < 3 * BlocksTouched(whence, Min(writeSize, bufSize))
  {
    if bufSize <= 0 || whence < 0 || writeSize < 0 {
      return -1;
    }
    var n := writeSize;
    if n > bufSize {
      n := bufSize;
    }
    if n <= 0 {
      SameAsItself(vol.view);
      NothingWritten(vol.view, vol.view, i, whence);
      return 0;
    }
    r := WriteBlocks(vol, inode, i, whence, buf[..n]);
    assert buf[..n][..r] == buf[..r];
  }
}

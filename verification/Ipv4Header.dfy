/**
 The IPv4 header as ipv4_set_header packs it and parse_ipv4_header unpacks it
 (source/kernel/net/ipv4.c; section 3.1 of RFC 791).  The two treat the fragment offset differently:
 it is stored as given, in units of eight bytes, and comes back in bytes.
 */
module Ipv4Header {
  import opened Bytes

  const SIZE: nat := 20

  datatype Head = Head(version: nat, headLen: nat, dscp: nat, enc: nat, totalLen: nat, id: nat, flags: nat,
                       fragOffset: nat, ttl: nat, protocol: nat, checksum: nat, src: nat, dest: nat)

  /** The widths of the fields, and what four bits of header length can say. */
  predicate InRange(h: Head) {
    && h.version < 16 && h.headLen < 64 && h.headLen % 4 == 0 && h.dscp < 64 && h.enc < 4
    && h.totalLen < 65536 && h.id < 65536 && h.flags < 8 && h.fragOffset < 8192
    && h.ttl < 256 && h.protocol < 256 && h.checksum < 65536
    && h.src < 0x1_0000_0000 && h.dest < 0x1_0000_0000
  }

  function Hi(v: nat): byte {
    v / 256 % 256
  }

  function Lo(v: nat): byte {
    v % 256
  }

  function Word(a: byte, b: byte): (r: nat)
    ensures r < 65536
  {
    256 * a as nat + b as nat
  }

  function Long(v: nat, w: nat): nat {
    65536 * v + w
  }

  /** Two fields in one number, the lower one below `n`, and the fields of a number. */
  function Pack(n: nat, high: nat, low: nat): nat {
    high * n + low
  }

  function High(n: nat, v: nat): nat
    requires n > 0
  {
    v / n
  }

  function Low(n: nat, v: nat): nat
    requires n > 0
  {
    v % n
  }

  /** Flags and fragment offset. */
  function FlagsAndOffset(h: Head): nat {
    Pack(8192, h.flags % 8, h.fragOffset % 8192)
  }

  /** Byte `k` of the header, multi-byte fields in network byte order. */
  function ByteOf(h: Head, k: nat): byte
    requires k < SIZE
  {
    match k
    case 0 => Pack(16, h.version % 16, h.headLen / 4 % 16)
    case 1 => Pack(4, h.dscp % 64, h.enc % 4)
    case 2 => Hi(h.totalLen)
    case 3 => Lo(h.totalLen)
    case 4 => Hi(h.id)
    case 5 => Lo(h.id)
    case 6 => Hi(FlagsAndOffset(h))
    case 7 => Lo(FlagsAndOffset(h))
    case 8 => Lo(h.ttl)
    case 9 => Lo(h.protocol)
    case 10 => Hi(h.checksum)
    case 11 => Lo(h.checksum)
    case 12 => Hi(h.src / 65536)
    case 13 => Lo(h.src / 65536)
    case 14 => Hi(h.src)
    case 15 => Lo(h.src)
    case 16 => Hi(h.dest / 65536)
    case 17 => Lo(h.dest / 65536)
    case 18 => Hi(h.dest)
    case _ => Lo(h.dest)
  }

  /** ipv4_set_header */
  function Encode(h: Head): (r: seq<byte>)
    ensures |r| == SIZE
  {
    seq(SIZE, k requires 0 <= k < SIZE => ByteOf(h, k))
  }

  /** parse_ipv4_header */
  function Decode(b: seq<byte>): Head
    requires |b| >= SIZE
  {
    var f := Word(b[6], b[7]);
    Head(High(16, b[0]), Low(16, b[0]) * 4, High(4, b[1]), Low(4, b[1]), Word(b[2], b[3]), Word(b[4], b[5]),
         High(8192, f), Low(8192, f) * 8, b[8] as nat, b[9] as nat, Word(b[10], b[11]),
         Long(Word(b[12], b[13]), Word(b[14], b[15])), Long(Word(b[16], b[17]), Word(b[18], b[19])))
  }

  /** The header with its offset in units of eight bytes, as ipv4_set_header wants it. */
  function InUnits(h: Head): Head {
    h.(fragOffset := h.fragOffset / 8)
  }

  lemma WordOfBytes(v: nat)
    requires v < 65536
    ensures Word(Hi(v), Lo(v)) == v
  {
  }

  lemma LongOfBytes(v: nat)
    requires v < 0x1_0000_0000
    ensures Long(Word(Hi(v / 65536), Lo(v / 65536)), Word(Hi(v), Lo(v))) == v
  {
    WordOfBytes(v / 65536);
    WordOfBytes(v % 65536);
    LowHalf(v);
  }

  lemma LowHalf(v: nat)
    ensures Hi(v) == Hi(v % 65536) && Lo(v) == Lo(v % 65536)
  {
    var q, r := v / 65536, v % 65536;
    assert v == 256 * (256 * q) + r;
    assert v / 256 == 256 * q + r / 256;
  }

  lemma BytesOfWord(a: byte, b: byte)
    ensures Hi(Word(a, b)) == a && Lo(Word(a, b)) == b
  {
  }

  lemma BytesOfLong(v: nat, w: nat)
    requires v < 65536 && w < 65536
    ensures Long(v, w) / 65536 == v && Hi(Long(v, w)) == Hi(w) && Lo(Long(v, w)) == Lo(w)
  {
    LowHalf(Long(v, w));
    assert Long(v, w) % 65536 == w;
  }

  lemma FieldsOfPack(n: nat, high: nat, low: nat)
    requires low < n && n in {4, 16, 8192}
    ensures High(n, Pack(n, high, low)) == high && Low(n, Pack(n, high, low)) == low
  {
    if n == 4 {
    } else if n == 16 {
    } else {
    }
  }

  lemma FieldRanges(a: byte, b: byte, f: nat)
    requires f < 65536
    ensures High(16, a) < 16 && Low(16, a) < 16 && High(4, b) < 64 && Low(4, b) < 4 && High(8192, f) < 8
    ensures Low(8192, f) < 8192
  {
  }

  lemma LongRange(v: nat, w: nat)
    requires v < 65536 && w < 65536
    ensures Long(v, w) < 0x1_0000_0000
  {
  }

  lemma Eighths(v: nat)
    ensures v * 8 / 8 == v
  {
  }

  lemma FourFold(v: nat)
    requires v < 16
    ensures v * 4 % 4 == 0 && v * 4 / 4 % 16 == v
  {
  }

  lemma PackOfFields(n: nat, v: nat)
    requires n > 0
    ensures Pack(n, High(n, v), Low(n, v)) == v && Low(n, v) < n
  {
  }

  lemma Quarters(v: nat)
    requires v % 4 == 0 && v < 64
    ensures v / 4 % 16 * 4 == v
  {
  }

  lemma SmallByte(v: nat)
    requires v < 256
    ensures Lo(v) == v
  {
  }

  /** Packing and unpacking gives the header back, whatever follows it, the offset now in bytes. */
  lemma DecodeEncode(h: Head, rest: seq<byte>)
    requires InRange(h)
    ensures Decode(Encode(h) + rest) == h.(fragOffset := 8 * h.fragOffset)
  {
    hide Hi, Lo, Word, Long, Pack, High, Low;
    Quarters(h.headLen);
    FieldsOfPack(16, h.version % 16, h.headLen / 4 % 16);
    FieldsOfPack(4, h.dscp % 64, h.enc % 4);
    FieldsOfPack(8192, h.flags % 8, h.fragOffset % 8192);
    WordOfBytes(h.totalLen);
    WordOfBytes(h.id);
    FlagsWord(h.flags % 8, h.fragOffset % 8192);
    WordOfBytes(Pack(8192, h.flags % 8, h.fragOffset % 8192));
    SmallByte(h.ttl);
    SmallByte(h.protocol);
    WordOfBytes(h.checksum);
    LongOfBytes(h.src);
    LongOfBytes(h.dest);
    DecodePrefix(Encode(h), rest);
  }

  lemma FlagsWord(flags: nat, units: nat)
    requires flags < 8 && units < 8192
    ensures Pack(8192, flags, units) < 65536
  {
  }

  lemma DecodePrefix(b: seq<byte>, rest: seq<byte>)
    requires |b| == SIZE
    ensures Decode(b + rest) == Decode(b)
  {
  }

  /** Unpacking and packing gives every header back byte for byte. */
  lemma EncodeDecode(b: seq<byte>)
    requires |b| == SIZE
    ensures InRange(InUnits(Decode(b))) && Encode(InUnits(Decode(b))) == b
  {
    hide Hi, Lo, Word, Long, Pack, High, Low;
    var h, f := InUnits(Decode(b)), Word(b[6], b[7]);
    assert |b| == |Encode(h)| == SIZE;
    FieldRanges(b[0], b[1], f);
    LongRange(Word(b[12], b[13]), Word(b[14], b[15]));
    LongRange(Word(b[16], b[17]), Word(b[18], b[19]));
    Eighths(Low(8192, f));
    FourFold(Low(16, b[0]));
    PackOfFields(16, b[0]);
    PackOfFields(4, b[1]);
    PackOfFields(8192, f);
    BytesOfWord(b[2], b[3]);
    BytesOfWord(b[4], b[5]);
    BytesOfWord(b[6], b[7]);
    SmallByte(b[8]);
    SmallByte(b[9]);
    BytesOfWord(b[10], b[11]);
    BytesOfWord(b[12], b[13]);
    BytesOfWord(b[14], b[15]);
    BytesOfWord(b[16], b[17]);
    BytesOfWord(b[18], b[19]);
    BytesOfLong(Word(b[12], b[13]), Word(b[14], b[15]));
    BytesOfLong(Word(b[16], b[17]), Word(b[18], b[19]));
    var e := Encode(h);
    assert e[0] == b[0] && e[1] == b[1] && e[2] == b[2] && e[3] == b[3] && e[4] == b[4];
    assert e[5] == b[5] && e[6] == b[6] && e[7] == b[7] && e[8] == b[8] && e[9] == b[9];
    assert e[10] == b[10] && e[11] == b[11] && e[12] == b[12] && e[13] == b[13] && e[14] == b[14];
    assert e[15] == b[15] && e[16] == b[16] && e[17] == b[17] && e[18] == b[18] && e[19] == b[19];
  }
}

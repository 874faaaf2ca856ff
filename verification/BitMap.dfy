/**
 A bitmap of bytes, as the zone map of source/kernel/fs/minix/minix_misc.c keeps it: bit `n` is
 bit `n % 8` of byte `n / 8`, tested and changed through the mask `1 << (n % 8)`.
 */
module BitMap {

  function Mask(j: nat): bv8
    requires j < 8
  {
    if j == 0 then 1 else if j == 1 then 2 else if j == 2 then 4 else if j == 3 then 8
    else if j == 4 then 16 else if j == 5 then 32 else if j == 6 then 64 else 128
  }

  predicate BitIn(b: bv8, j: nat)
    requires j < 8
  {
    b & Mask(j) != 0
  }

  lemma FullByte(b: bv8)
    ensures b == 0xFF <==> forall j :: 0 <= j < 8 ==> BitIn(b, j)
  {
    if b != 0xFF {
      assert !BitIn(b, 0) || !BitIn(b, 1) || !BitIn(b, 2) || !BitIn(b, 3)
          || !BitIn(b, 4) || !BitIn(b, 5) || !BitIn(b, 6) || !BitIn(b, 7);
    }
  }

  lemma ByteSet(b: bv8, j: nat, k: nat)
    requires j < 8 && k < 8
    ensures BitIn(b | Mask(j), k) <==> k == j || BitIn(b, k)
  {
  }

  lemma ByteClear(b: bv8, j: nat, k: nat)
    requires j < 8 && k < 8
    ensures BitIn(b & !Mask(j), k) <==> k != j && BitIn(b, k)
  {
  }

  predicate Bit(m: seq<bv8>, n: int) {
    0 <= n < 8 * |m| && BitIn(m[n / 8], n % 8)
  }

  lemma BitSet(m: seq<bv8>, i: nat, j: nat)
    requires i < |m| && j < 8
    ensures forall n :: Bit(m[i := m[i] | Mask(j)], n) <==> n == 8 * i + j || Bit(m, n)
  {
    forall n: int ensures Bit(m[i := m[i] | Mask(j)], n) <==> n == 8 * i + j || Bit(m, n) {
      if 0 <= n < 8 * |m| && n / 8 == i {
        ByteSet(m[i], j, n % 8);
      }
    }
  }

  lemma BitClear(m: seq<bv8>, i: nat, j: nat)
    requires i < |m| && j < 8
    ensures forall n :: Bit(m[i := m[i] & !Mask(j)], n) <==> n != 8 * i + j && Bit(m, n)
  {
    forall n: int ensures Bit(m[i := m[i] & !Mask(j)], n) <==> n != 8 * i + j && Bit(m, n) {
      if 0 <= n < 8 * |m| && n / 8 == i {
        ByteClear(m[i], j, n % 8);
      }
    }
  }
}

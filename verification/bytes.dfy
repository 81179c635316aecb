/** Single bits of a Java byte, as BaseCryptoRandomStream reads and writes
    them: bit k is the k-th least significant. */
module Bytes {
  import opened JavaLang

  type Byte = bv8

  /** GetByteBitPosition(b, k) for the k that `p % 8` can produce. For k in
      0..7 it is bit k; a negative k makes the int shift count 32 + k, which
      after sign extension reads the byte's top bit. */
  function ByteBit(b: Byte, k: int): (r: Bit)
    requires -8 < k < 8
    ensures k >= 0 ==> (r == 1 <==> (b >> k) & 1 == 1)
    ensures k < 0 ==> (r == 1 <==> b & 0x80 == 0x80)
  {
    if k >= 0 then (if (b >> k) & 1 == 1 then 1 else 0)
    else if b & 0x80 == 0x80 then 1 else 0
  }

  /** SetByteBitPosition(b, k, v): v = 0 clears bit k, v = 1 sets it, any
      other byte value matches no case of the switch. A negative k shifts
      the one to bit 32 + k, outside the byte, so nothing changes. */
  function SetByteBit(b: Byte, k: int, v: int): (r: Byte)
    requires -8 < k < 8
  {
    if k < 0 then b
    else if v == 0 then b & !(1 << k)
    else if v == 1 then b | (1 << k)
    else b
  }

  lemma SetByteBitReadsBack(b: Byte, k: int, v: int)
    requires 0 <= k < 8 && (v == 0 || v == 1)
    ensures ByteBit(SetByteBit(b, k, v), k) == v
  {
  }

  /** The byte with only bit k set. */
  function Mask(k: int): (m: Byte)
    requires 0 <= k < 8
  {
    1 << k
  }

  lemma MaskBit(k: int, j: int)
    requires 0 <= k < 8 && 0 <= j < 8
    ensures (Mask(k) >> j) & 1 == if j == k then 1 else 0
  {
  }

  lemma SetByteBitKeepsOthers(b: Byte, k: int, j: int, v: int)
    requires 0 <= k < 8 && 0 <= j < 8 && j != k
    ensures ByteBit(SetByteBit(b, k, v), j) == ByteBit(b, j)
  {
    MaskBit(k, j);
    var m := Mask(k);
    assert ((b | m) >> j) & 1 == ((b >> j) & 1) | ((m >> j) & 1);
    assert ((b & !m) >> j) & 1 == ((b >> j) & 1) & (!(m >> j) & 1);
  }

  /** A value other than 0 or 1, or a negative k, leaves the byte alone. */
  lemma SetByteBitIgnores(b: Byte, k: int, v: int)
    requires -8 < k < 8 && (k < 0 || (v != 0 && v != 1))
    ensures SetByteBit(b, k, v) == b
  {
  }

  /** Bit i of an or is the or of the bits. */
  lemma OrBit(a: Byte, b: Byte, i: int)
    requires 0 <= i < 8
    ensures ByteBit(a | b, i) == if ByteBit(a, i) == 1 || ByteBit(b, i) == 1 then 1 else 0
  {
    assert ((a | b) >> i) & 1 == ((a >> i) & 1) | ((b >> i) & 1);
  }

  lemma MaskByteBit(k: int, i: int)
    requires 0 <= k < 8 && 0 <= i < 8
    ensures ByteBit(Mask(k), i) == if i == k then 1 else 0
    ensures ByteBit(0, i) == 0
  {
    MaskBit(k, i);
  }
}

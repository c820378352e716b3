/** Fixed-width integers of the x86 host and little-endian field access over
    a header buffer. Reads past the end of the buffer yield NUL bytes; a
    32-bit store that does not fit inside the buffer is dropped. */
module Bytes {

  type byte = x: int | 0 <= x < 0x100
  type u16 = x: int | 0 <= x < 0x1_0000
  type u32 = x: int | 0 <= x < 0x1_0000_0000

  /** Bit 31 of a table entry's length word: the component's payload is in the file. */
  const PresentBit: int := 0x8000_0000

  /** Assignment of a wider value to a `u16_t` (truncation, see `WrapIsTruncation`). */
  function Wrap16(x: nat): u16
    decreases x
  {
    if x < 0x1_0000 then x else Wrap16(x - 0x1_0000)
  }

  /** Assignment of a wider value to a `u32_t` (truncation, see `WrapIsTruncation`). */
  function Wrap32(x: nat): u32
    decreases x
  {
    if x < 0x1_0000_0000 then x else Wrap32(x - 0x1_0000_0000)
  }

  /** Both wraps keep the low 16 or 32 bits. */
  lemma {:induction false} WrapIsTruncation(x: nat)
    ensures Wrap16(x) == x % 0x1_0000
    ensures Wrap32(x) == x % 0x1_0000_0000
    decreases x
  {
    if x >= 0x1_0000 {
      WrapIsTruncation(x - 0x1_0000);
    }
    if x >= 0x1_0000_0000 {
      WrapIsTruncation(x - 0x1_0000_0000);
    }
  }

  /** Adding to an already wrapped cursor wraps like adding to the unwrapped one. */
  lemma {:induction false} Wrap32Add(a: nat, b: nat)
    ensures Wrap32(Wrap32(a) + b) == Wrap32(a + b)
    decreases a
  {
    if a >= 0x1_0000_0000 {
      Wrap32Add(a - 0x1_0000_0000, b);
    }
  }

  /** The byte at `p`, or NUL when `p` lies outside `buf`. */
  function ByteAt(buf: seq<byte>, p: int): byte {
    if 0 <= p < |buf| then buf[p] else 0
  }

  /** `256^n` */
  function Pow256(n: nat): (r: nat)
    ensures r >= 1
  {
    if n == 0 then 1 else 0x100 * Pow256(n - 1)
  }

  /** The `n`-byte little-endian unsigned value stored at `p`. */
  function LittleEndianAt(buf: seq<byte>, p: int, n: nat): (r: nat)
    decreases n
    ensures r < Pow256(n)
  {
    if n == 0 then 0 else ByteAt(buf, p) + 0x100 * LittleEndianAt(buf, p + 1, n - 1)
  }

  /** `*(u16_t *)(buf + p)` on a little-endian host. */
  function U16At(buf: seq<byte>, p: int): u16 {
    LittleEndianAt(buf, p, 2)
  }

  /** `*(u32_t *)(buf + p)` on a little-endian host. */
  function U32At(buf: seq<byte>, p: int): u32 {
    LittleEndianAt(buf, p, 4)
  }

  /** The byte-level meaning of `U16At`. */
  lemma U16AtBytes(buf: seq<byte>, p: int)
    ensures U16At(buf, p) == ByteAt(buf, p) + 0x100 * ByteAt(buf, p + 1)
  {
    assert LittleEndianAt(buf, p + 1, 1) == ByteAt(buf, p + 1) + 0x100 * LittleEndianAt(buf, p + 2, 0);
  }

  /** The byte-level meaning of `U32At`. */
  lemma U32AtBytes(buf: seq<byte>, p: int)
    ensures U32At(buf, p) ==
      ByteAt(buf, p) + 0x100 * (ByteAt(buf, p + 1) + 0x100 * (ByteAt(buf, p + 2) + 0x100 * ByteAt(buf, p + 3)))
  {
    assert LittleEndianAt(buf, p + 3, 1) == ByteAt(buf, p + 3) + 0x100 * LittleEndianAt(buf, p + 4, 0);
    assert LittleEndianAt(buf, p + 2, 2) == ByteAt(buf, p + 2) + 0x100 * LittleEndianAt(buf, p + 3, 1);
    assert LittleEndianAt(buf, p + 1, 3) == ByteAt(buf, p + 1) + 0x100 * LittleEndianAt(buf, p + 2, 2);
  }

  /** The four little-endian bytes of `v`, least significant first. */
  function LittleEndian4(v: u32): (r: seq<byte>)
    ensures |r| == 4
  {
    var q1 := v / 0x100;
    var q2 := q1 / 0x100;
    [v % 0x100, q1 % 0x100, q2 % 0x100, q2 / 0x100]
  }

  /** The bytes of `LittleEndian4(v)` read back as `v`. */
  lemma LittleEndian4Value(v: u32)
    ensures var b := LittleEndian4(v);
      b[0] as int + 0x100 * (b[1] as int + 0x100 * (b[2] as int + 0x100 * b[3] as int)) == v
  {
    var q1 := v / 0x100;
    var q2 := q1 / 0x100;
    assert v == v % 0x100 + 0x100 * q1;
    assert q1 == q1 % 0x100 + 0x100 * q2;
    assert q2 == q2 % 0x100 + 0x100 * (q2 / 0x100);
  }

  /** Four bytes that read as `v` are the bytes of `v`. */
  lemma LittleEndian4Unique(v: u32, b0: byte, b1: byte, b2: byte, b3: byte)
    requires b0 as int + 0x100 * (b1 as int + 0x100 * (b2 as int + 0x100 * b3 as int)) == v
    ensures LittleEndian4(v) == [b0, b1, b2, b3]
  {
    var q1: int := b1 + 0x100 * (b2 + 0x100 * b3);
    var q2: int := b2 + 0x100 * b3;
    assert v / 0x100 == q1 && v % 0x100 == b0;
    assert q1 / 0x100 == q2 && q1 % 0x100 == b1;
    assert q2 / 0x100 == b3 && q2 % 0x100 == b2;
  }

  /** `*(u32_t *)(buf + p) = v`, dropped when the word does not fit in `buf`. */
  function WriteU32(buf: seq<byte>, p: nat, v: u32): (r: seq<byte>)
    ensures |r| == |buf|
    ensures forall q :: 0 <= q < |buf| && !(p <= q < p + 4) ==> r[q] == buf[q]
    ensures p + 4 <= |buf| ==> U32At(r, p) == v
    ensures p + 4 > |buf| ==> r == buf
  {
    if p + 4 <= |buf| then
      var r := buf[..p] + LittleEndian4(v) + buf[p + 4..];
      WrittenWordReads(buf, p, v, r);
      r
    else
      buf
  }

  lemma WrittenWordReads(buf: seq<byte>, p: nat, v: u32, r: seq<byte>)
    requires p + 4 <= |buf| && r == buf[..p] + LittleEndian4(v) + buf[p + 4..]
    ensures U32At(r, p) == v
  {
    var b := LittleEndian4(v);
    assert ByteAt(r, p) == b[0] && ByteAt(r, p + 1) == b[1];
    assert ByteAt(r, p + 2) == b[2] && ByteAt(r, p + 3) == b[3];
    U32AtBytes(r, p);
    LittleEndian4Value(v);
  }

  /** Storing the value a word already holds leaves the buffer as it was. */
  lemma WriteSameValue(buf: seq<byte>, p: nat, v: u32)
    requires p + 4 <= |buf| && U32At(buf, p) == v
    ensures WriteU32(buf, p, v) == buf
  {
    U32AtBytes(buf, p);
    LittleEndian4Unique(v, buf[p], buf[p + 1], buf[p + 2], buf[p + 3]);
    assert buf == buf[..p] + [buf[p], buf[p + 1], buf[p + 2], buf[p + 3]] + buf[p + 4..];
  }

  /** Equal words inside two buffers have equal bytes. */
  lemma EqualWordsEqualBytes(a: seq<byte>, b: seq<byte>, p: nat)
    requires p + 4 <= |a| && p + 4 <= |b| && U32At(a, p) == U32At(b, p)
    ensures a[p] == b[p] && a[p + 1] == b[p + 1] && a[p + 2] == b[p + 2] && a[p + 3] == b[p + 3]
  {
    var v := U32At(a, p);
    var wa := WriteU32(a, p, v);
    var wb := WriteU32(b, p, v);
    WriteSameValue(a, p, v);
    WriteSameValue(b, p, v);
    assert wa[p..p + 4] == LittleEndian4(v) == wb[p..p + 4];
    assert a[p..p + 4] == b[p..p + 4];
  }

  /** The four bytes at `p` read the same in `a` and `b`. */
  predicate SameWordBytes(a: seq<byte>, b: seq<byte>, p: int) {
    && ByteAt(a, p) == ByteAt(b, p) && ByteAt(a, p + 1) == ByteAt(b, p + 1)
    && ByteAt(a, p + 2) == ByteAt(b, p + 2) && ByteAt(a, p + 3) == ByteAt(b, p + 3)
  }

  /** A word is determined by its four bytes. */
  lemma SameBytesSameWord(a: seq<byte>, b: seq<byte>, p: int)
    requires SameWordBytes(a, b, p)
    ensures U32At(a, p) == U32At(b, p)
  {
    U32AtBytes(a, p);
    U32AtBytes(b, p);
  }

  /** `x | COMPONENT_PRESENT_BITMASK` */
  function SetPresent(x: u32): u32 {
    if x >= PresentBit then x else x + PresentBit
  }

  /** `x & ~COMPONENT_PRESENT_BITMASK` */
  function MaskLength(x: u32): u32 {
    if x >= PresentBit then x - PresentBit else x
  }
}

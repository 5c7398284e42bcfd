/** Little-endian access to raw bytes.

    A block is cast to packed C structs by the scanner; here every field access is a read at a byte
    offset.  Reads are total: an offset outside the bytes yields 0.  */
module Bytes {
  const TWO_TO_THE_16: nat := 0x1_0000
  const TWO_TO_THE_32: nat := 0x1_0000_0000
  const TWO_TO_THE_63: nat := 0x8000_0000_0000_0000
  const TWO_TO_THE_64: nat := 0x1_0000_0000_0000_0000

  type byte = x: int | 0 <= x < 0x100
  type uint16 = x: int | 0 <= x < TWO_TO_THE_16
  type uint32 = x: int | 0 <= x < TWO_TO_THE_32
  type uint64 = x: int | 0 <= x < TWO_TO_THE_64

  function U8(b: seq<byte>, off: int): byte {
    if 0 <= off < |b| then b[off] else 0
  }

  function U16(b: seq<byte>, off: int): uint16 {
    U8(b, off) + 0x100 * U8(b, off + 1)
  }

  function U32(b: seq<byte>, off: int): uint32 {
    U16(b, off) + TWO_TO_THE_16 * U16(b, off + 2)
  }

  function U64(b: seq<byte>, off: int): uint64 {
    U32(b, off) + TWO_TO_THE_32 * U32(b, off + 4)
  }

  /** A C string: the bytes up to the first NUL.  */
  function CString(b: seq<byte>, off: int): seq<byte>
    decreases |b| - off
  {
    if off < 0 || off >= |b| || b[off] == 0 then [] else [b[off]] + CString(b, off + 1)
  }

  function Enc16(x: uint16): (e: seq<byte>)
    ensures |e| == 2
  {
    [x % 0x100, x / 0x100]
  }

  function Enc32(x: uint32): (e: seq<byte>)
    ensures |e| == 4
  {
    Enc16(x % TWO_TO_THE_16) + Enc16(x / TWO_TO_THE_16)
  }

  function Enc64(x: uint64): (e: seq<byte>)
    ensures |e| == 8
  {
    Enc32(x % TWO_TO_THE_32) + Enc32(x / TWO_TO_THE_32)
  }

  /** The bytes `part` are stored at offset `off` of `b`.  */
  predicate At(b: seq<byte>, off: int, part: seq<byte>) {
    0 <= off && off + |part| <= |b| && b[off..off + |part|] == part
  }

  lemma AtIndex(b: seq<byte>, off: int, part: seq<byte>)
    requires At(b, off, part)
    ensures forall j :: 0 <= j < |part| ==> U8(b, off + j) == part[j]
  {
    forall j | 0 <= j < |part| ensures U8(b, off + j) == part[j] {
      assert b[off..off + |part|][j] == b[off + j];
    }
  }

  lemma AtMiddle(a: seq<byte>, part: seq<byte>, c: seq<byte>)
    ensures At(a + part + c, |a|, part)
  {
    assert (a + part + c)[|a|..|a| + |part|] == part;
  }

  lemma AtWhole(b: seq<byte>)
    ensures At(b, 0, b)
  {
  }

  /** A piece of a stored piece is stored.  */
  lemma AtWithin(b: seq<byte>, off: int, part: seq<byte>, k: int, sub: seq<byte>)
    requires At(b, off, part) && At(part, k, sub)
    ensures At(b, off + k, sub)
  {
    AtIndex(b, off, part);
    AtIndex(part, k, sub);
    forall j | 0 <= j < |sub| ensures b[off + k + j] == sub[j] {
      assert U8(b, off + (k + j)) == part[k + j] == U8(part, k + j);
    }
    assert b[off + k..off + k + |sub|] == sub;
  }

  lemma AtSplit(b: seq<byte>, off: int, x: seq<byte>, y: seq<byte>)
    requires At(b, off, x + y)
    ensures At(b, off, x) && At(b, off + |x|, y)
  {
    var w := b[off..off + |x + y|];
    assert w[..|x|] == x && w[|x|..] == y;
    assert w[..|x|] == b[off..off + |x|] && w[|x|..] == b[off + |x|..off + |x| + |y|];
  }

  lemma ReadU16(b: seq<byte>, off: int, x: uint16)
    requires At(b, off, Enc16(x))
    ensures U16(b, off) == x
  {
    AtIndex(b, off, Enc16(x));
    assert U8(b, off) == Enc16(x)[0] && U8(b, off + 1) == Enc16(x)[1];
  }

  lemma ReadU32(b: seq<byte>, off: int, x: uint32)
    requires At(b, off, Enc32(x))
    ensures U32(b, off) == x
  {
    var lo, hi := Enc16(x % TWO_TO_THE_16), Enc16(x / TWO_TO_THE_16);
    AtSplit(b, off, lo, hi);
    ReadU16(b, off, x % TWO_TO_THE_16);
    ReadU16(b, off + 2, x / TWO_TO_THE_16);
  }

  lemma ReadU64(b: seq<byte>, off: int, x: uint64)
    requires At(b, off, Enc64(x))
    ensures U64(b, off) == x
  {
    var lo, hi := Enc32(x % TWO_TO_THE_32), Enc32(x / TWO_TO_THE_32);
    AtSplit(b, off, lo, hi);
    ReadU32(b, off, x % TWO_TO_THE_32);
    ReadU32(b, off + 4, x / TWO_TO_THE_32);
  }

  lemma ReadZeros(b: seq<byte>, off: int, zeros: seq<byte>, k: nat)
    requires At(b, off, zeros) && (forall j :: 0 <= j < |zeros| ==> zeros[j] == 0) && k + 4 <= |zeros|
    ensures U32(b, off + k) == 0
  {
    AtIndex(b, off, zeros);
    hide At;
    assert U8(b, off + k) == zeros[k] && U8(b, off + (k + 1)) == zeros[k + 1];
    assert U8(b, off + (k + 2)) == zeros[k + 2] && U8(b, off + (k + 3)) == zeros[k + 3];
  }
}

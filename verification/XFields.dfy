/** Extended fields of an inode: the scanner's walk over them, and the encoding it inverts.  */
module XFields {
  import opened Bytes
  import opened Wrappers

  const BLOB_HEADER: nat := 4  // a descriptor takes 4 bytes as well
  const DSTREAM: byte := 8

  /** Each field's data is padded to a multiple of 8 bytes.  */
  function Padded(n: nat): nat { (n + 7) / 8 * 8 }

  function Count(b: seq<byte>, blob: int): uint16 { U16(b, blob) }

  function KindAt(b: seq<byte>, blob: int, i: nat): byte { U8(b, blob + BLOB_HEADER + 4 * i) }

  function SizeAt(b: seq<byte>, blob: int, i: nat): uint16 { U16(b, blob + BLOB_HEADER + 4 * i + 2) }

  /** Where the data of field i starts, given a blob of Count fields.  */
  function DataAddress(b: seq<byte>, blob: int, i: nat): int {
    if i == 0 then blob + BLOB_HEADER + 4 * Count(b, blob)
    else DataAddress(b, blob, i - 1) + Padded(SizeAt(b, blob, i - 1))
  }

  /** From one field's data to the next it is the field's size, rounded up to a multiple of 8.  */
  lemma DataIsAligned(b: seq<byte>, blob: int, i: nat)
    ensures var size, advance := U16(b, blob + 4 + 4 * i + 2), DataAddress(b, blob, i + 1) - DataAddress(b, blob, i);
            advance % 8 == 0 && size <= advance < size + 8
    ensures DataAddress(b, blob, 0) == blob + 4 + 4 * U16(b, blob)
  {
    hide U16;
  }

  /** The fields of a file named "ab" with 1000 bytes, as they lie on a disk.  */
  const KNOWN_FIELDS: seq<byte> :=
    [2, 0, 24, 0, 4, 0, 3, 0, 8, 0, 8, 0, 97, 98, 0, 0, 0, 0, 0, 0, 232, 3, 0, 0, 0, 0, 0, 0]

  lemma KnownFieldsAreRead()
    ensures LastDstream(KNOWN_FIELDS, 0, Count(KNOWN_FIELDS, 0)) == Some(1000)
  {
    var b := KNOWN_FIELDS;
    assert U16(b, 0) == 2 && U8(b, 8) == 8 && U16(b, 6) == 3;
    assert DataAddress(b, 0, 0) == 12 && DataAddress(b, 0, 1) == 20;
    assert U8(b, 20) == 232 && U8(b, 21) == 3 && U8(b, 22) == 0 && U8(b, 23) == 0;
    assert U8(b, 24) == 0 && U8(b, 25) == 0 && U8(b, 26) == 0 && U8(b, 27) == 0;
    assert U64(b, 20) == 1000;
  }

  /** The size recorded by the last data stream among the first n fields.  */
  function LastDstream(b: seq<byte>, blob: int, n: nat): Option<uint64> {
    if n == 0 then None
    else if KindAt(b, blob, n - 1) == DSTREAM then Some(U64(b, DataAddress(b, blob, n - 1)))
    else LastDstream(b, blob, n - 1)
  }

  /** The scanner's loop.  */
  method FindDstream(b: seq<byte>, blob: int) returns (size: Option<uint64>)
    ensures size == LastDstream(b, blob, Count(b, blob))
  {
    var length: uint64 := 0;
    var hasSize := false;
    var count := U16(b, blob);
    var xdataptr: int := blob + BLOB_HEADER + 4 * (count as int);
    for i := 0 to count
      invariant xdataptr == DataAddress(b, blob, i)
      invariant (if hasSize then Some(length) else None) == LastDstream(b, blob, i)
    {
      var field := blob + BLOB_HEADER + 4 * i;
      if U8(b, field) == DSTREAM {
        length := U64(b, xdataptr);
        hasSize := true;
      }
      xdataptr := xdataptr + (U16(b, field + 2) + 7) / 8 * 8;
    }
    size := if hasSize then Some(length) else None;
  }

  // ----- The encoding

  datatype XField = XField(kind: byte, flags: byte, data: seq<byte>)

  predicate Encodable(fs: seq<XField>) {
    |fs| < TWO_TO_THE_16 && forall f :: f in fs ==> |f.data| < TWO_TO_THE_16
  }

  function Descriptor(f: XField): seq<byte>
    requires |f.data| < TWO_TO_THE_16
  {
    [f.kind, f.flags] + Enc16(|f.data|)
  }

  function Descriptors(fs: seq<XField>): (d: seq<byte>)
    requires forall f :: f in fs ==> |f.data| < TWO_TO_THE_16
    ensures |d| == 4 * |fs|
  {
    if fs == [] then [] else Descriptors(fs[..|fs| - 1]) + Descriptor(fs[|fs| - 1])
  }

  function PaddedData(data: seq<byte>): (d: seq<byte>)
    ensures |d| == Padded(|data|)
  {
    data + seq(Padded(|data|) - |data|, _ => 0)
  }

  function Data(fs: seq<XField>): seq<byte> {
    if fs == [] then [] else Data(fs[..|fs| - 1]) + PaddedData(fs[|fs| - 1].data)
  }

  function Header(count: uint16, used: uint16): (h: seq<byte>)
    ensures |h| == BLOB_HEADER
  {
    Enc16(count) + Enc16(used)
  }

  function Serialised(fs: seq<XField>, used: uint16): seq<byte>
    requires Encodable(fs)
  {
    Header(|fs|, used) + (Descriptors(fs) + Data(fs))
  }

  /** The sum of the padded sizes.  */
  function PaddedTotal(fs: seq<XField>): nat {
    if fs == [] then 0 else PaddedTotal(fs[..|fs| - 1]) + Padded(|fs[|fs| - 1].data|)
  }

  lemma {:induction false} DataLength(fs: seq<XField>)
    ensures |Data(fs)| == PaddedTotal(fs)
  {
    if fs != [] { DataLength(fs[..|fs| - 1]); }
  }

  lemma {:induction false} DescriptorAt(fs: seq<XField>, i: nat)
    requires i < |fs| && forall f :: f in fs ==> |f.data| < TWO_TO_THE_16
    ensures At(Descriptors(fs), 4 * i, Descriptor(fs[i]))
  {
    var n := |fs| - 1;
    var init := Descriptors(fs[..n]);
    if i == n {
      AtMiddle(init, Descriptor(fs[n]), []);
      assert init + Descriptor(fs[n]) + [] == Descriptors(fs);
    } else {
      DescriptorAt(fs[..n], i);
      assert At(Descriptors(fs), 0, init);
      AtWithin(Descriptors(fs), 0, init, 4 * i, Descriptor(fs[i]));
    }
  }

  lemma {:induction false} DataAt(fs: seq<XField>, i: nat)
    requires i < |fs|
    ensures At(Data(fs), PaddedTotal(fs[..i]), fs[i].data)
  {
    var n := |fs| - 1;
    var init := Data(fs[..n]);
    DataLength(fs[..n]);
    if i == n {
      var pad := seq(Padded(|fs[n].data|) - |fs[n].data|, _ => 0);
      AtMiddle(init, fs[n].data, pad);
      assert init + fs[n].data + pad == Data(fs);
    } else {
      DataAt(fs[..n], i);
      assert fs[..n][..i] == fs[..i];
      assert At(Data(fs), 0, init);
      AtWithin(Data(fs), 0, init, PaddedTotal(fs[..i]), fs[i].data);
    }
  }

  lemma SerialisedParts(b: seq<byte>, blob: int, fs: seq<XField>, used: uint16)
    requires Encodable(fs) && At(b, blob, Serialised(fs, used))
    ensures Count(b, blob) == |fs|
    ensures At(b, blob + BLOB_HEADER, Descriptors(fs))
    ensures At(b, blob + BLOB_HEADER + 4 * |fs|, Data(fs))
  {
    hide At, Descriptors, Data, Header, U16;
    Parts(b, blob, Header(|fs|, used), Descriptors(fs), Data(fs), |fs|);
    HeaderRead(b, blob, |fs|, used);
  }

  lemma Parts(b: seq<byte>, off: int, x: seq<byte>, y: seq<byte>, z: seq<byte>, n: nat)
    requires |x| == 4 && |y| == 4 * n && At(b, off, x + (y + z))
    ensures At(b, off, x) && At(b, off + 4, y) && At(b, off + 4 + 4 * n, z)
  {
    hide At;
    AtSplit(b, off, x, y + z);
    AtSplit(b, off + 4, y, z);
  }

  lemma HeaderRead(b: seq<byte>, blob: int, count: uint16, used: uint16)
    requires At(b, blob, Header(count, used))
    ensures Count(b, blob) == count
  {
    AtSplit(b, blob, Enc16(count), Enc16(used));
    ReadU16(b, blob, count);
  }

  lemma DescriptorRead(b: seq<byte>, blob: int, fs: seq<XField>, used: uint16, i: nat)
    requires Encodable(fs) && At(b, blob, Serialised(fs, used)) && i < |fs|
    ensures KindAt(b, blob, i) == fs[i].kind && SizeAt(b, blob, i) == |fs[i].data|
  {
    SerialisedParts(b, blob, fs, used);
    DescriptorAt(fs, i);
    var head, size := [fs[i].kind, fs[i].flags], Enc16(|fs[i].data|);
    var off := blob + BLOB_HEADER + 4 * i;
    AtWithin(b, blob + BLOB_HEADER, Descriptors(fs), 4 * i, head + size);
    AtSplit(b, off, head, size);
    AtIndex(b, off, head);
    assert U8(b, off + 0) == head[0];
    ReadU16(b, off + 2, |fs[i].data|);
  }

  /** The address the loop computes for field i is the start of the data area plus the padded sizes of the earlier
      fields.  */
  lemma {:induction false} AddressIsSumOfSizes(b: seq<byte>, blob: int, fs: seq<XField>, used: uint16, i: nat)
    requires Encodable(fs) && At(b, blob, Serialised(fs, used)) && i <= |fs|
    ensures DataAddress(b, blob, i) == blob + BLOB_HEADER + 4 * |fs| + PaddedTotal(fs[..i])
  {
    if i == 0 {
      SerialisedParts(b, blob, fs, used);
    } else {
      AddressIsSumOfSizes(b, blob, fs, used, i - 1);
      DescriptorRead(b, blob, fs, used, i - 1);
      assert fs[..i][..i - 1] == fs[..i - 1];
    }
  }

  /** The data of field i is stored at the address the loop computes for it.  */
  lemma AddressHoldsData(b: seq<byte>, blob: int, fs: seq<XField>, used: uint16, i: nat)
    requires Encodable(fs) && At(b, blob, Serialised(fs, used)) && i < |fs|
    ensures At(b, DataAddress(b, blob, i), fs[i].data)
  {
    hide At, Serialised;
    SerialisedParts(b, blob, fs, used);
    AddressIsSumOfSizes(b, blob, fs, used, i);
    DataAt(fs, i);
    AtWithin(b, blob + BLOB_HEADER + 4 * |fs|, Data(fs), PaddedTotal(fs[..i]), fs[i].data);
  }

  /** The first 8 bytes of the last data stream among the fields.  */
  function DstreamIn(fs: seq<XField>): Option<uint64> {
    if fs == [] then None
    else if fs[|fs| - 1].kind == DSTREAM then Some(U64(fs[|fs| - 1].data, 0))
    else DstreamIn(fs[..|fs| - 1])
  }

  /** The walk inverts the encoder: what it finds is the size in the last data stream field, and nothing
      when there is no such field.  */
  lemma WalkInvertsEncoding(b: seq<byte>, blob: int, fs: seq<XField>, used: uint16)
    requires Encodable(fs) && At(b, blob, Serialised(fs, used))
    requires forall f :: f in fs && f.kind == DSTREAM ==> |f.data| >= 8
    ensures Count(b, blob) == |fs|
    ensures LastDstream(b, blob, |fs|) == DstreamIn(fs)
  {
    SerialisedParts(b, blob, fs, used);
    WalkPrefix(b, blob, fs, used, |fs|);
    assert fs[..|fs|] == fs;
  }

  lemma {:induction false} WalkPrefix(b: seq<byte>, blob: int, fs: seq<XField>, used: uint16, n: nat)
    requires Encodable(fs) && At(b, blob, Serialised(fs, used)) && n <= |fs|
    requires forall f :: f in fs && f.kind == DSTREAM ==> |f.data| >= 8
    ensures LastDstream(b, blob, n) == DstreamIn(fs[..n])
  {
    hide At, Serialised, U16;
    if n > 0 {
      var f := fs[n - 1];
      DescriptorRead(b, blob, fs, used, n - 1);
      assert fs[..n][..n - 1] == fs[..n - 1];
      if f.kind == DSTREAM {
        AddressHoldsData(b, blob, fs, used, n - 1);
        AtIndex(b, DataAddress(b, blob, n - 1), f.data);
        SameU64(b, DataAddress(b, blob, n - 1), f.data);
      } else {
        WalkPrefix(b, blob, fs, used, n - 1);
      }
    }
  }

  lemma SameU64(b: seq<byte>, off: int, data: seq<byte>)
    requires At(b, off, data) && |data| >= 8
    ensures U64(b, off) == U64(data, 0)
  {
    AtIndex(b, off, data);
    forall j | 0 <= j < 8 ensures U8(b, off + j) == U8(data, j) {
    }
    assert off == off + 0;
    assert U16(b, off) == U16(data, 0) && U16(b, off + 2) == U16(data, 2);
    assert U16(b, off + 4) == U16(data, 4) && U16(b, off + 6) == U16(data, 6);
  }

  lemma SizeOfField(size: uint64)
    ensures DstreamIn([XField(DSTREAM, 0, Enc64(size))]) == Some(size)
  {
    hide Enc64, U64;
    AtWhole(Enc64(size));
    ReadU64(Enc64(size), 0, size);
  }

  lemma BlobLength(f: XField, used: uint16)
    requires |f.data| == 8
    ensures Encodable([f]) && |Serialised([f], used)| == 16
  {
    assert [f][..0] == [];
    assert Data([f][..0]) == [];
    assert Data([f]) == [] + PaddedData(f.data);
  }

  // ----- What the walk looks at

  /** From blob on, the bytes are those of tail, up to the end of both.  */
  ghost predicate EndsIn(b: seq<byte>, blob: int, tail: seq<byte>) {
    forall j: nat :: U8(b, blob + j) == U8(tail, j)
  }

  lemma StoredAtEnd(b: seq<byte>, blob: int, tail: seq<byte>)
    requires At(b, blob, tail) && blob + |tail| == |b|
    ensures EndsIn(b, blob, tail)
  {
    AtIndex(b, blob, tail);
  }

  lemma WordsFromEnd(b: seq<byte>, blob: int, tail: seq<byte>, j: nat)
    requires EndsIn(b, blob, tail)
    ensures U16(b, blob + j) == U16(tail, j) && U64(b, blob + j) == U64(tail, j)
  {
    assert U8(b, blob + (j + 0)) == U8(tail, j + 0) && U8(b, blob + (j + 1)) == U8(tail, j + 1);
    assert U8(b, blob + (j + 2)) == U8(tail, j + 2) && U8(b, blob + (j + 3)) == U8(tail, j + 3);
    assert U8(b, blob + (j + 4)) == U8(tail, j + 4) && U8(b, blob + (j + 5)) == U8(tail, j + 5);
    assert U8(b, blob + (j + 6)) == U8(tail, j + 6) && U8(b, blob + (j + 7)) == U8(tail, j + 7);
  }

  lemma {:induction false} AddressFromEnd(b: seq<byte>, blob: int, tail: seq<byte>, i: nat)
    requires EndsIn(b, blob, tail)
    ensures DataAddress(b, blob, i) == blob + DataAddress(tail, 0, i) && DataAddress(tail, 0, i) >= 0
  {
    hide EndsIn, U16, U64;
    if i == 0 {
      WordsFromEnd(b, blob, tail, 0);
    } else {
      AddressFromEnd(b, blob, tail, i - 1);
      WordsFromEnd(b, blob, tail, BLOB_HEADER + 4 * (i - 1) + 2);
    }
  }

  /** The walk looks only forward, so it sees the same in the bytes from the blob to the end.  */
  lemma {:induction false} WalkFromEnd(b: seq<byte>, blob: int, tail: seq<byte>, n: nat)
    requires EndsIn(b, blob, tail)
    ensures Count(b, blob) == Count(tail, 0) && LastDstream(b, blob, n) == LastDstream(tail, 0, n)
  {
    hide U16, U64;
    WordsFromEnd(b, blob, tail, 0);
    if n > 0 {
      WalkFromEnd(b, blob, tail, n - 1);
      AddressFromEnd(b, blob, tail, n - 1);
      WordsFromEnd(b, blob, tail, DataAddress(tail, 0, n - 1));
      assert U8(b, blob + (BLOB_HEADER + 4 * (n - 1))) == U8(tail, BLOB_HEADER + 4 * (n - 1));
    }
  }
}

/** Blocks given byte by byte, and what a scan makes of them, in numbers: nothing here is built or read with the
    constants of the model.  */
module KnownBlocks {
  import opened Bytes
  import opened Wrappers
  import opened Seqs
  import opened Merge
  import opened Node
  import opened NodeLayout
  import opened XFields
  import opened FileRecords
  import opened SealedNodes
  import opened Stream
  import Fletcher
  import Grouping

  // ----- A container superblock

  /** Its checksum, type 0x80000001, magic number, and a block size of 2048.  */
  function KnownSuperblock(): (b: seq<byte>)
    ensures |b| == 4096
  {
    [34, 107, 198, 2, 142, 52, 230, 58] + (Zeros(16) + ([1, 0, 0, 128] + (Zeros(4) +
      ([78, 88, 83, 66, 0, 8, 0, 0] + Zeros(4056)))))
  }

  lemma SuperblockParts()
    ensures var b := KnownSuperblock();
            && At(b, 0, [34, 107, 198, 2, 142, 52, 230, 58]) && At(b, 8, Zeros(16)) && At(b, 24, [1, 0, 0, 128])
            && At(b, 28, Zeros(4)) && At(b, 32, [78, 88, 83, 66, 0, 8, 0, 0]) && At(b, 40, Zeros(4056))
  {
    hide At, Zeros;
    var b := KnownSuperblock();
    var t: seq<byte>, m: seq<byte> := [1, 0, 0, 128], [78, 88, 83, 66, 0, 8, 0, 0];
    AtWhole(b);
    AtSplit(b, 0, [34, 107, 198, 2, 142, 52, 230, 58], Zeros(16) + (t + (Zeros(4) + (m + Zeros(4056)))));
    AtSplit(b, 8, Zeros(16), t + (Zeros(4) + (m + Zeros(4056))));
    AtSplit(b, 24, t, Zeros(4) + (m + Zeros(4056)));
    AtSplit(b, 28, Zeros(4), m + Zeros(4056));
    AtSplit(b, 32, m, Zeros(4056));
  }

  lemma FourBytes(b: seq<byte>, off: int, part: seq<byte>, k: nat)
    requires At(b, off, part) && k + 4 <= |part|
    ensures var w: int, x: int, y: int, z: int := part[k], part[k + 1], part[k + 2], part[k + 3];
            U16(b, off + k) == w + 0x100 * x && U32(b, off + k) == w + 0x100 * x + 0x1_0000 * y + 0x100_0000 * z
  {
    AtIndex(b, off, part);
    hide At;
    assert U8(b, off + (k + 0)) == part[k] && U8(b, off + (k + 1)) == part[k + 1];
    assert U8(b, off + (k + 2)) == part[k + 2] && U8(b, off + (k + 3)) == part[k + 3];
  }

  lemma SuperblockWords()
    ensures var b := KnownSuperblock();
            && U64(b, 0) == 0x3AE6_348E_02C6_6B22 && U16(b, 24) == 1
            && U32(b, 24) == 0x8000_0001 && U32(b, 32) == 0x4253_584E && U32(b, 36) == 2048
  {
    SuperblockParts();
    hide At, KnownSuperblock, U16;
    var b := KnownSuperblock();
    FourBytes(b, 0, [34, 107, 198, 2, 142, 52, 230, 58], 0);
    FourBytes(b, 0, [34, 107, 198, 2, 142, 52, 230, 58], 4);
    FourBytes(b, 24, [1, 0, 0, 128], 0);
    FourBytes(b, 32, [78, 88, 83, 66, 0, 8, 0, 0], 0);
    FourBytes(b, 32, [78, 88, 83, 66, 0, 8, 0, 0], 4);
  }

  lemma OtherWordsAreZero(j: nat)
    requires j < 1022 && j != 4 && j != 6 && j != 7
    ensures U32(KnownSuperblock(), 8 + 4 * j) == 0
  {
    SuperblockParts();
    hide At, U32, KnownSuperblock;
    var b := KnownSuperblock();
    if j < 4 {
      ReadZeros(b, 8, Zeros(16), 4 * j);
    } else if j == 5 {
      ReadZeros(b, 28, Zeros(4), 0);
    } else {
      ReadZeros(b, 40, Zeros(4056), 4 * j - 32);
    }
  }

  lemma SuperblockPayload()
    ensures var none: seq<uint32> := seq(1022, _ => 0);
            Payload(4096, KnownSuperblock()) == none[4 := 0x8000_0001][6 := 0x4253_584E][7 := 2048]
  {
    SuperblockWords();
    hide U32, U16, U64, KnownSuperblock;
    var b := KnownSuperblock();
    var none: seq<uint32> := seq(1022, _ => 0);
    var ws := none[4 := 0x8000_0001][6 := 0x4253_584E][7 := 2048];
    forall j | 0 <= j < 1022 ensures Payload(4096, b)[j] == ws[j] {
      PayloadWord(4096, b, j);
      if j != 4 && j != 6 && j != 7 { OtherWordsAreZero(j); }
    }
  }

  lemma KnownChecksum(ws: seq<uint32>)
    requires var none: seq<uint32> := seq(1022, _ => 0);
             ws == none[4 := 0x8000_0001][6 := 0x4253_584E][7 := 2048]
    ensures Fletcher.Checksum(ws) == 0x3AE6_348E_02C6_6B22
  {
    var none: seq<uint32> := seq(1022, _ => 0);
    Fletcher.SumsNonNegative(none);
    hide Fletcher.Sum, Fletcher.Weighted;
    Fletcher.SumUpdate(none, 4, 0x8000_0001);
    Fletcher.SumUpdate(none[4 := 0x8000_0001], 6, 0x4253_584E);
    Fletcher.SumUpdate(none[4 := 0x8000_0001][6 := 0x4253_584E], 7, 2048);
    assert Fletcher.Sum(ws) == 0x8000_0001 + 0x4253_584E + 2048;
    assert Fletcher.Weighted(ws) == 1018 * 0x8000_0001 + 1016 * 0x4253_584E + 1015 * 2048;
  }

  /** The block is accepted as it stands, and moves the scanner from its first state to this size and offset.  */
  lemma KnownSuperblockIsScanned()
    ensures Accepted(4096, KnownSuperblock())
    ensures INITIAL == Status(4096, 0)
    ensures Advance(Status(4096, 0), Sector(0x5000, KnownSuperblock())) == Status(2048, 0x5000)
    ensures Advance(Status(4096, 0x3000), Sector(0x5000, KnownSuperblock())) == Status(2048, 0x3000)
  {
    SuperblockWords();
    SuperblockPayload();
    hide KnownSuperblock, U16, U32, U64, Payload, Fletcher.Checksum;
    KnownChecksum(Payload(4096, KnownSuperblock()));
    SuperblockSetsStatus(Status(4096, 0), Sector(0x5000, KnownSuperblock()));
    SuperblockSetsStatus(Status(4096, 0x3000), Sector(0x5000, KnownSuperblock()));
  }

  // ----- A variable-size leaf

  /** Object header, node header and table of a leaf with four records: transaction 5, type 0x40000003.  */
  const LEAF_OBJECT: seq<byte> :=
    [0, 0, 0, 0, 0, 0, 0, 0, 99, 0, 0, 0, 0, 0, 0, 0, 5, 0, 0, 0, 0, 0, 0, 0, 3, 0, 0, 64, 14, 0, 0, 0]

  const LEAF_HEADER: seq<byte> := [2, 0, 0, 0, 4, 0, 0, 0, 4, 0, 34, 0, 1, 2, 3, 4, 5, 6, 7, 8, 9, 10, 11, 12]

  const LEAF_TABLE: seq<byte> :=
    [0, 0, 8, 0, 120, 0, 120, 0] + [8, 0, 16, 0, 144, 0, 24, 0] + [24, 0, 8, 0, 236, 0, 92, 0]
    + [32, 0, 15, 0, 254, 0, 18, 0]

  /** The keys of inode 20, an extent of it, inode 2, and an entry of inode 2.  */
  const FILE_KEY: seq<byte> := [20, 0, 0, 0, 0, 0, 0, 48]
  const EXTENT_KEY: seq<byte> := [20, 0, 0, 0, 0, 0, 0, 128, 0, 16, 0, 0, 0, 0, 0, 0]
  const DIRECTORY_KEY: seq<byte> := [2, 0, 0, 0, 0, 0, 0, 48]
  const ENTRY_KEY: seq<byte> := [2, 0, 0, 0, 0, 0, 0, 144, 3, 0, 0, 170, 97, 98, 0]

  /** A value with the fields of a file named "ab" of 1000 bytes.  */
  function FileValue(): (v: seq<byte>)
    ensures |v| == 120
  {
    [2, 0, 0, 0, 0, 0, 0, 0] + (Zeros(84) +
      [2, 0, 24, 0, 4, 0, 3, 0, 8, 0, 8, 0, 97, 98, 0, 0, 0, 0, 0, 0, 232, 3, 0, 0, 0, 0, 0, 0])
  }

  const EXTENT_VALUE: seq<byte> := [0, 16, 0, 0, 0, 0, 0, 1, 7, 0, 0, 0, 0, 0, 0, 0, 9, 0, 0, 0, 0, 0, 0, 0]

  const ENTRY_VALUE: seq<byte> := [20, 0, 0, 0, 0, 0, 0, 0, 1, 2, 3, 4, 5, 6, 7, 8, 56, 160]

  function DirectoryValue(): (v: seq<byte>)
    ensures |v| == 92
  {
    [1, 0, 0, 0, 0, 0, 0, 0] + Zeros(84)
  }

  function LeafValues(): (v: seq<byte>)
    ensures |v| == 254
  {
    ENTRY_VALUE + (DirectoryValue() + (EXTENT_VALUE + FileValue()))
  }

  function KnownLeaf(): (b: seq<byte>)
    ensures |b| == 4096
  {
    (LEAF_OBJECT + LEAF_HEADER) + ([7, 7, 7, 7] + (LEAF_TABLE + ([8, 8] +
      ((FILE_KEY + EXTENT_KEY + DIRECTORY_KEY + ENTRY_KEY) + (Zeros(3701) + LeafValues())))))
  }

  /** The same as a batch of records.  */
  function LeafOfFour(): Batch {
    Batch(Layout(LEAF_OBJECT, 2, 0, [1, 2, 3, 4, 5, 6, 7, 8, 9, 10, 11, 12], [7, 7, 7, 7], [8, 8], Zeros(3701), []),
          [FileInode(), FileExtent(), DirectoryInode(), DirectoryEntry()])
  }

  function FileInode(): FileRecord {
    InodeRec(20, 2, Zeros(84), [XField(4, 0, [97, 98, 0]), XField(8, 0, [232, 3, 0, 0, 0, 0, 0, 0])], 24)
  }

  function FileExtent(): FileRecord { ExtentRec(20, 4096, 0x100_0000_0000_1000, 7, 9) }

  function DirectoryInode(): FileRecord { InodeRec(2, 1, Zeros(84), [], 0) }

  function DirectoryEntry(): FileRecord { DirRec(2, 0xAA00_0003, [97, 98], 20, 0x807_0605_0403_0201, 0xA038, []) }

  // ----- Numbers as bytes

  lemma Enc16Is(x: uint16, e: seq<byte>)
    requires |e| == 2 && x == e[0] as int + 0x100 * e[1] as int
    ensures Enc16(x) == e
  {
  }

  lemma Enc32Is(x: uint32, e: seq<byte>)
    requires |e| == 4
    requires x == e[0] as int + 0x100 * e[1] as int + 0x1_0000 * e[2] as int + 0x100_0000 * e[3] as int
    ensures Enc32(x) == e
  {
    var lo, hi := e[0] as int + 0x100 * e[1] as int, e[2] as int + 0x100 * e[3] as int;
    assert x == lo + TWO_TO_THE_16 * hi && x % TWO_TO_THE_16 == lo && x / TWO_TO_THE_16 == hi;
    Enc16Is(lo, e[..2]);
    Enc16Is(hi, e[2..]);
    assert e == e[..2] + e[2..];
  }

  /** x is lo + 2^32 * hi, given byte by byte.  */
  lemma Enc64Is(x: uint64, lo: uint32, hi: uint32, e: seq<byte>)
    requires |e| == 8 && x == lo + 0x1_0000_0000 * hi
    requires lo == e[0] as int + 0x100 * e[1] as int + 0x1_0000 * e[2] as int + 0x100_0000 * e[3] as int
    requires hi == e[4] as int + 0x100 * e[5] as int + 0x1_0000 * e[6] as int + 0x100_0000 * e[7] as int
    ensures Enc64(x) == e
  {
    hide Enc32;
    assert x % TWO_TO_THE_32 == lo && x / TWO_TO_THE_32 == hi;
    Enc32Is(lo, e[..4]);
    Enc32Is(hi, e[4..]);
    assert e == e[..4] + e[4..];
  }

  // ----- The records as bytes

  lemma FieldBytes()
    ensures var fs := FileInode().fields;
            Encodable(fs) && Serialised(fs, 24)
            == [2, 0, 24, 0, 4, 0, 3, 0, 8, 0, 8, 0, 97, 98, 0, 0, 0, 0, 0, 0, 232, 3, 0, 0, 0, 0, 0, 0]
  {
    var f, g := XField(4, 0, [97, 98, 0]), XField(8, 0, [232, 3, 0, 0, 0, 0, 0, 0]);
    TwoFields(f, g);
    PaddedFields();
    DescribedFields();
    assert FileInode().fields == [f, g];
    hide Descriptors, Data, PaddedData, XFields.Header, Descriptor;
    assert Serialised([f, g], 24) == XFields.Header(2, 24) + (Descriptors([f, g]) + Data([f, g]));
  }

  lemma DescribedFields()
    ensures XFields.Header(2, 24) == [2, 0, 24, 0]
    ensures Descriptor(XField(4, 0, [97, 98, 0])) == [4, 0, 3, 0]
    ensures Descriptor(XField(8, 0, [232, 3, 0, 0, 0, 0, 0, 0])) == [8, 0, 8, 0]
  {
    Enc16Is(2, [2, 0]);
    Enc16Is(24, [24, 0]);
    Enc16Is(3, [3, 0]);
    Enc16Is(8, [8, 0]);
    hide Enc16;
  }

  lemma PaddedFields()
    ensures PaddedData([97, 98, 0]) == [97, 98, 0, 0, 0, 0, 0, 0]
    ensures PaddedData([232, 3, 0, 0, 0, 0, 0, 0]) == [232, 3, 0, 0, 0, 0, 0, 0]
  {
  }

  lemma TwoFields(f: XField, g: XField)
    requires |f.data| < 0x1_0000 && |g.data| < 0x1_0000
    ensures Descriptors([f, g]) == Descriptor(f) + Descriptor(g)
    ensures Data([f, g]) == PaddedData(f.data) + PaddedData(g.data)
  {
    hide Descriptor, PaddedData;
    assert [f, g][..1] == [f] && [f][..0] == [];
    assert Descriptors([f]) == [] + Descriptor(f) && Data([f]) == [] + PaddedData(f.data);
  }

  lemma FileInodeBytes()
    ensures Valid(FileInode()) && KeyBytes(FileInode()) == FILE_KEY
    ensures ValueBytes(FileInode()) == FileValue() && DstreamIn(FileInode().fields) == Some(1000)
  {
    FieldBytes();
    Enc64Is(0x3000_0000_0000_0014, 0x14, 0x3000_0000, [20, 0, 0, 0, 0, 0, 0, 48]);
    Enc64Is(2, 2, 0, [2, 0, 0, 0, 0, 0, 0, 0]);
    Enc64Is(1000, 1000, 0, [232, 3, 0, 0, 0, 0, 0, 0]);
    assert FileInode().fields[1] == XField(DSTREAM, 0, Enc64(1000));
    assert U64(FileInode().fields[1].data, 0) == 1000 by { hide Enc64, U64; KnownSize(); }
    hide Enc64, Zeros, Serialised, U64;
    assert KeyRest(FileInode()) == [];
  }

  lemma KnownSize()
    ensures U64([232, 3, 0, 0, 0, 0, 0, 0], 0) == 1000
  {
    hide Enc64, U64;
    Enc64Is(1000, 1000, 0, [232, 3, 0, 0, 0, 0, 0, 0]);
    AtWhole(Enc64(1000));
    ReadU64(Enc64(1000), 0, 1000);
  }

  lemma ExtentBytes()
    ensures Valid(FileExtent()) && KeyBytes(FileExtent()) == EXTENT_KEY
    ensures ValueBytes(FileExtent()) == EXTENT_VALUE
  {
    Enc64Is(0x8000_0000_0000_0014, 0x14, 0x8000_0000, [20, 0, 0, 0, 0, 0, 0, 128]);
    Enc64Is(4096, 4096, 0, [0, 16, 0, 0, 0, 0, 0, 0]);
    Enc64Is(0x100_0000_0000_1000, 0x1000, 0x100_0000, [0, 16, 0, 0, 0, 0, 0, 1]);
    Enc64Is(7, 7, 0, [7, 0, 0, 0, 0, 0, 0, 0]);
    Enc64Is(9, 9, 0, [9, 0, 0, 0, 0, 0, 0, 0]);
    hide Enc64;
  }

  lemma DirectoryBytes()
    ensures Valid(DirectoryInode()) && KeyBytes(DirectoryInode()) == DIRECTORY_KEY
    ensures ValueBytes(DirectoryInode()) == DirectoryValue()
  {
    Enc64Is(0x3000_0000_0000_0002, 2, 0x3000_0000, [2, 0, 0, 0, 0, 0, 0, 48]);
    Enc64Is(1, 1, 0, [1, 0, 0, 0, 0, 0, 0, 0]);
    hide Enc64, Zeros;
    assert KeyRest(DirectoryInode()) == [];
  }

  lemma EntryBytes()
    ensures Valid(DirectoryEntry()) && ValueBytes(DirectoryEntry()) == ENTRY_VALUE
    ensures KeyBytes(DirectoryEntry()) == ENTRY_KEY
  {
    Enc64Is(0x9000_0000_0000_0002, 2, 0x9000_0000, [2, 0, 0, 0, 0, 0, 0, 144]);
    Enc32Is(0xAA00_0003, [3, 0, 0, 170]);
    Enc64Is(20, 20, 0, [20, 0, 0, 0, 0, 0, 0, 0]);
    Enc64Is(0x807_0605_0403_0201, 0x403_0201, 0x807_0605, [1, 2, 3, 4, 5, 6, 7, 8]);
    Enc16Is(0xA038, [56, 160]);
    hide Enc64, Enc32, Enc16;
  }

  // ----- The leaf as bytes

  lemma OneMore(rs: seq<Record>, c: Record)
    ensures KeysLength(rs + [c]) == KeysLength(rs) + |c.key| && ValuesLength(rs + [c]) == ValuesLength(rs) + |c.value|
    ensures Keys(rs + [c]) == Keys(rs) + c.key && Values(rs + [c]) == c.value + Values(rs)
    ensures Small(rs + [c]) ==> Small(rs) && Table(false, rs + [c]) == Table(false, rs) + LocBytes(false,
              Loc(KeysLength(rs), |c.key|, ValuesLength(rs) + |c.value|, |c.value|))
  {
    hide LocBytes;
    assert (rs + [c])[..|rs|] == rs;
  }

  lemma LocIs(loc: Loc, e: seq<byte>)
    requires |e| == 8
    requires loc.keyOff == e[0] as int + 0x100 * e[1] as int && loc.keyLen == e[2] as int + 0x100 * e[3] as int
    requires loc.valOff == e[4] as int + 0x100 * e[5] as int && loc.valLen == e[6] as int + 0x100 * e[7] as int
    ensures LocBytes(false, loc) == e
  {
    Enc16Is(loc.keyOff, e[..2]);
    Enc16Is(loc.keyLen, e[2..4]);
    Enc16Is(loc.valOff, e[4..6]);
    Enc16Is(loc.valLen, e[6..]);
    hide Enc16;
    assert e == e[..2] + (e[2..4] + (e[4..6] + e[6..]));
  }

  function LeafRecords(): seq<Record> {
    [Record(FILE_KEY, FileValue())] + [Record(EXTENT_KEY, EXTENT_VALUE)] + [Record(DIRECTORY_KEY, DirectoryValue())]
    + [Record(ENTRY_KEY, ENTRY_VALUE)]
  }

  lemma LeafRecordsAreLaidOut()
    ensures var rs := LeafRecords();
            && KeysLength(rs) == 47 && ValuesLength(rs) == 254 && Small(rs) && Table(false, rs) == LEAF_TABLE
            && Keys(rs) == FILE_KEY + EXTENT_KEY + DIRECTORY_KEY + ENTRY_KEY && Values(rs) == LeafValues()
  {
    var a, b := Record(FILE_KEY, FileValue()), Record(EXTENT_KEY, EXTENT_VALUE);
    var c, d := Record(DIRECTORY_KEY, DirectoryValue()), Record(ENTRY_KEY, ENTRY_VALUE);
    hide FileValue, DirectoryValue, Keys, Values, KeysLength, ValuesLength, Table, LocBytes;
    LeafLocs();
    FourRecords(a, b, c, d);
    InOrder(a.value, b.value, c.value, d.value);
  }

  lemma LeafLocs()
    ensures LocBytes(false, Loc(0, 8, 120, 120)) == [0, 0, 8, 0, 120, 0, 120, 0]
    ensures LocBytes(false, Loc(8, 16, 144, 24)) == [8, 0, 16, 0, 144, 0, 24, 0]
    ensures LocBytes(false, Loc(24, 8, 236, 92)) == [24, 0, 8, 0, 236, 0, 92, 0]
    ensures LocBytes(false, Loc(32, 15, 254, 18)) == [32, 0, 15, 0, 254, 0, 18, 0]
  {
    hide LocBytes;
    LocIs(Loc(0, 8, 120, 120), [0, 0, 8, 0, 120, 0, 120, 0]);
    LocIs(Loc(8, 16, 144, 24), [8, 0, 16, 0, 144, 0, 24, 0]);
    LocIs(Loc(24, 8, 236, 92), [24, 0, 8, 0, 236, 0, 92, 0]);
    LocIs(Loc(32, 15, 254, 18), [32, 0, 15, 0, 254, 0, 18, 0]);
  }

  lemma FourRecords(a: Record, b: Record, c: Record, d: Record)
    requires |a.key| == 8 && |b.key| == 16 && |c.key| == 8 && |d.key| == 15
    requires |a.value| == 120 && |b.value| == 24 && |c.value| == 92 && |d.value| == 18
    ensures var rs := [a] + [b] + [c] + [d];
            && KeysLength(rs) == 47 && ValuesLength(rs) == 254 && Small(rs)
            && Table(false, rs) == LocBytes(false, Loc(0, 8, 120, 120)) + LocBytes(false, Loc(8, 16, 144, 24))
                 + LocBytes(false, Loc(24, 8, 236, 92)) + LocBytes(false, Loc(32, 15, 254, 18))
            && Keys(rs) == a.key + b.key + c.key + d.key
            && Values(rs) == d.value + (c.value + (b.value + (a.value + [])))
  {
    assert [] + [a] == [a];
    assert Keys([]) == [] && Values([]) == [] && Table(false, []) == [] && KeysLength([]) == ValuesLength([]) == 0;
    hide Keys, Values, KeysLength, ValuesLength, Table, LocBytes;
    OneMore([], a);
    OneMore([a], b);
    OneMore([a] + [b], c);
    OneMore([a] + [b] + [c], d);
  }

  lemma InOrder(a: seq<byte>, b: seq<byte>, c: seq<byte>, d: seq<byte>)
    ensures d + (c + (b + (a + []))) == d + (c + (b + a))
  {
  }

  lemma LeafRaw()
    ensures Storable(LeafOfFour().layout, LeafOfFour().records)
    ensures Raw(LeafOfFour().records) == LeafRecords()
  {
    FileInodeBytes();
    ExtentBytes();
    DirectoryBytes();
    EntryBytes();
    LeafRecordsAreLaidOut();
    hide FileInode, FileExtent, DirectoryInode, DirectoryEntry, Valid, KeyBytes, ValueBytes, FileValue, DirectoryValue,
      Zeros, Table, Keys, Values, KeysLength, ValuesLength;
    var rs := LeafOfFour().records;
    assert forall r :: r in rs ==> Valid(r);
    assert Raw(rs) == LeafRecords();
  }

  lemma LeafHeaderFacts()
    requires WellFormed(LeafOfFour().layout, LeafRecords())
    ensures var l, rs := LeafOfFour().layout, LeafRecords();
            && Enc16(l.flags) == [2, 0] && Enc16(l.level) == [0, 0] && Enc32(|rs|) == [4, 0, 0, 0]
            && Enc16(|l.gap|) == [4, 0] && Enc16(|Table(Fixed(l), rs)| + |l.slack|) == [34, 0]
            && l.objectHeader == LEAF_OBJECT && l.unused == [1, 2, 3, 4, 5, 6, 7, 8, 9, 10, 11, 12]
  {
    LeafRecordsAreLaidOut();
    Enc16Is(2, [2, 0]);
    Enc16Is(0, [0, 0]);
    Enc32Is(4, [4, 0, 0, 0]);
    Enc16Is(4, [4, 0]);
    Enc16Is(34, [34, 0]);
    hide Enc16, Enc32, Table, WellFormed, Keys, Values, KeysLength, ValuesLength;
  }

  lemma LeafHeaderIs()
    requires WellFormed(LeafOfFour().layout, LeafRecords())
    ensures NodeLayout.Header(LeafOfFour().layout, LeafRecords()) == LEAF_OBJECT + LEAF_HEADER
  {
    LeafHeaderFacts();
    HeaderFlattens();
    hide Enc16, Enc32, Table, LeafOfFour, LeafRecords, WellFormed, Fixed;
    HeaderFrom(LeafOfFour().layout, LeafRecords(), [2, 0], [0, 0], [4, 0, 0, 0], [4, 0], [34, 0]);
  }

  lemma HeaderFlattens()
    ensures [2, 0] + [0, 0] + [4, 0, 0, 0] + [4, 0] + [34, 0] + [1, 2, 3, 4, 5, 6, 7, 8, 9, 10, 11, 12] == LEAF_HEADER
    ensures [7, 0] + [0, 0] + [1, 0, 0, 0] + [0, 0] + [4, 0] + [1, 2, 3, 4, 5, 6, 7, 8, 9, 10, 11, 12] == ROOT_HEADER
  {
  }

  lemma HeaderFrom(
    l: Layout, rs: seq<Record>, flags: seq<byte>, level: seq<byte>, count: seq<byte>, off: seq<byte>, len: seq<byte>)
    requires WellFormed(l, rs) && Enc16(l.flags) == flags && Enc16(l.level) == level && Enc32(|rs|) == count
    requires Enc16(|l.gap|) == off && Enc16(|Table(Fixed(l), rs)| + |l.slack|) == len
    ensures NodeLayout.Header(l, rs) == l.objectHeader + (flags + level + count + off + len + l.unused)
  {
    hide Enc16, Enc32, Table, WellFormed;
  }

  lemma LeafIsLaidOut()
    ensures Writable(LeafOfFour()) && Unsealed(LeafOfFour()) == KnownLeaf()
    ensures BatchXid(LeafOfFour()) == 5 && !Fixed(LeafOfFour().layout)
  {
    LeafRaw();
    LeafHeaderIs();
    LeafRecordsAreLaidOut();
    ObjectIs5();
    LeafFacts();
    hide Raw, LeafRecords, Table, Keys, Values, KeysLength, ValuesLength, NodeLayout.Header, Zeros, LeafValues,
      Storable, U64, U32, WellFormed, Encoded, LeafOfFour, Fixed;
    EncodedFrom(LeafOfFour().layout, LeafRecords());
    assert LeafValues() + [] == LeafValues();
  }

  lemma LeafFacts()
    ensures var l := LeafOfFour().layout;
            && l.objectHeader == LEAF_OBJECT && l.gap == [7, 7, 7, 7] && l.slack == [8, 8] && l.free == Zeros(3701)
            && l.info == [] && !Fixed(l)
  {
    hide Zeros;
  }

  lemma EncodedFrom(l: Layout, rs: seq<Record>)
    requires WellFormed(l, rs)
    ensures Encoded(l, rs) == NodeLayout.Header(l, rs) + (l.gap + (Table(Fixed(l), rs) + (l.slack + (Keys(rs) +
              (l.free + (Values(rs) + l.info))))))
  {
    hide NodeLayout.Header, Table, Keys, Values, WellFormed;
  }

  lemma ObjectIs5()
    ensures U64(LEAF_OBJECT, 16) == 5 && U32(LEAF_OBJECT, 24) == 0x4000_0003
  {
    AtWhole(LEAF_OBJECT);
    hide At, U16;
    FourBytes(LEAF_OBJECT, 0, LEAF_OBJECT, 16);
    FourBytes(LEAF_OBJECT, 0, LEAF_OBJECT, 20);
    FourBytes(LEAF_OBJECT, 0, LEAF_OBJECT, 24);
  }

  // ----- What a scan makes of the leaf

  lemma GroupsOfFour()
    ensures var rs, id := LeafOfFour().records, RecordId();
            && Grouping.Ids(rs, id) == {2, 20} && Grouping.Group(rs, id, 2) == [DirectoryInode(), DirectoryEntry()]
            && Grouping.Group(rs, id, 20) == [FileInode(), FileExtent()]
  {
    var g, h := [FileInode(), FileExtent()], [DirectoryInode(), DirectoryEntry()];
    assert LeafOfFour().records == g + h;
    assert FileInode().id == FileExtent().id == 20 && DirectoryInode().id == DirectoryEntry().id == 2;
    hide LeafOfFour, FileInode, FileExtent, DirectoryInode, DirectoryEntry, Grouping.Group, Grouping.Ids;
    var m: nat, n: nat := 20, 2;
    Grouping.TwoRuns(g, h, RecordId(), m, n);
  }

  lemma MeaningOfPair(xid: uint64, r: FileRecord, q: FileRecord)
    requires r.InodeRec?
    ensures GroupMeaning(xid, [r, q]) == EventsOf(xid, r, false) + EventsOf(xid, q, true)
  {
    hide EventsOf;
    assert [r, q][..1] == [r] && r in [r];
    AloneInGroup(xid, r);
  }

  lemma MeaningOfGroups()
    ensures GroupMeaning(5, [DirectoryInode(), DirectoryEntry()])
         == [InodeEvent(2, 5, 1, None), DirEvent(20, 5, Some(2), [97, 98], 8)]
    ensures GroupMeaning(5, [FileInode(), FileExtent()])
         == [InodeEvent(20, 5, 2, Some(1000)), ExtentEvent(20, 5, Extent(4096, 7, 4096))]
  {
    FileInodeBytes();
    assert DstreamIn([]) == None;
    hide DstreamIn, GroupMeaning, Zeros;
    MeaningOfPair(5, FileInode(), FileExtent());
    MeaningOfPair(5, DirectoryInode(), DirectoryEntry());
  }

  lemma MeaningOfFour()
    ensures Meaning(5, LeafOfFour().records)
         == [InodeEvent(2, 5, 1, None), DirEvent(20, 5, Some(2), [97, 98], 8)]
            + [InodeEvent(20, 5, 2, Some(1000)), ExtentEvent(20, 5, Extent(4096, 7, 4096))]
  {
    GroupsOfFour();
    MeaningOfGroups();
    hide Grouping.Group, Grouping.Ids, Grouping.Ascending, GroupMeaning, FlatMap, LeafOfFour, FileInode, FileExtent,
      DirectoryInode, DirectoryEntry;
    var m: nat, n: nat := 2, 20;
    Grouping.AscendingTwo(m, n);
    FlatMapTwo(m, n, MeaningOfId(5, LeafOfFour().records));
  }

  /** The sealed leaf is a node, and amounts to these events: inode after inode, ids and types cut at 60 bits,
      extent lengths at 56, kinds at 4, and the size of the file taken from after its name.  */
  lemma KnownLeafIsScanned()
    ensures IsNode(4096, Sealed(KnownLeaf()))
    ensures BlockEvents(4096, Sealed(KnownLeaf()))
         == [InodeEvent(2, 5, 1, None), DirEvent(20, 5, Some(2), [97, 98], 8),
             InodeEvent(20, 5, 2, Some(1000)), ExtentEvent(20, 5, Extent(4096, 7, 4096))]
  {
    LeafIsLaidOut();
    LeafRaw();
    MeaningOfFour();
    hide LeafOfFour, KnownLeaf, Writable, Storable, Meaning, BlockEvents, IsNode, Sealed, Unsealed, BatchXid,
      Fixed, Seen;
    SealedNodeIsScanned(LeafOfFour());
    VariableSizeIsSeenWhole(LeafOfFour().layout, LeafOfFour().records);
  }

  // ----- A fixed-size root

  const ROOT_OBJECT: seq<byte> :=
    [0, 0, 0, 0, 0, 0, 0, 0, 99, 0, 0, 0, 0, 0, 0, 0, 5, 0, 0, 0, 0, 0, 0, 0, 2, 0, 0, 0, 14, 0, 0, 0]

  const ROOT_HEADER: seq<byte> := [7, 0, 0, 0, 1, 0, 0, 0, 0, 0, 4, 0, 1, 2, 3, 4, 5, 6, 7, 8, 9, 10, 11, 12]

  /** The tree info that ends it: keys of 8 bytes, values of 120.  */
  const ROOT_INFO: seq<byte> :=
    [0, 0, 0, 0, 0, 16, 0, 0, 8, 0, 0, 0, 120, 0, 0, 0, 8, 0, 0, 0, 120, 0, 0, 0,
     1, 0, 0, 0, 0, 0, 0, 0, 1, 0, 0, 0, 0, 0, 0, 0]

  function KnownRoot(): (b: seq<byte>)
    ensures |b| == 4096
  {
    (ROOT_OBJECT + ROOT_HEADER) + ([0, 0, 120, 0] + (FILE_KEY + (Zeros(3868) + (FileValue() + ROOT_INFO))))
  }

  function RootOfOne(): Batch {
    Batch(Layout(ROOT_OBJECT, 7, 0, [1, 2, 3, 4, 5, 6, 7, 8, 9, 10, 11, 12], [], [], Zeros(3868), ROOT_INFO),
          [FileInode()])
  }

  lemma RootRecordIsLaidOut()
    ensures var rs := [Record(FILE_KEY, FileValue())];
            && KeysLength(rs) == 8 && ValuesLength(rs) == 120 && Small(rs) && Table(true, rs) == [0, 0, 120, 0]
            && Keys(rs) == FILE_KEY && Values(rs) == FileValue()
  {
    var a := Record(FILE_KEY, FileValue());
    Enc16Is(0, [0, 0]);
    Enc16Is(120, [120, 0]);
    OneRecord(a);
    hide Enc16, FileValue;
    assert [a][..0] == [];
    assert Keys([a]) == [] + FILE_KEY && Values([a]) == a.value + [];
    assert Table(true, [a]) == [] + ([0, 0] + [120, 0]);
  }

  lemma RootIsLaidOut()
    ensures Writable(RootOfOne()) && Unsealed(RootOfOne()) == KnownRoot() && BatchXid(RootOfOne()) == 5
  {
    RootStorable();
    RootHeaderIs();
    RootRecordIsLaidOut();
    RootObjectIs5();
    hide Raw, Table, Keys, Values, KeysLength, ValuesLength, NodeLayout.Header, Zeros, FileValue, Storable, U64, U32,
      WellFormed, FileInode;
    Around((ROOT_OBJECT + ROOT_HEADER), [0, 0, 120, 0], FILE_KEY, Zeros(3868), FileValue(), ROOT_INFO);
  }

  lemma Around(h: seq<byte>, t: seq<byte>, k: seq<byte>, f: seq<byte>, v: seq<byte>, i: seq<byte>)
    ensures h + ([] + (t + ([] + (k + (f + (v + i)))))) == h + (t + (k + (f + (v + i))))
  {
  }

  lemma RootStorable()
    ensures Storable(RootOfOne().layout, RootOfOne().records)
    ensures Raw(RootOfOne().records) == [Record(FILE_KEY, FileValue())]
  {
    FileInodeBytes();
    RootRecordIsLaidOut();
    hide FileInode, Valid, KeyBytes, ValueBytes, FileValue, Zeros, Table, Keys, Values, KeysLength, ValuesLength;
    assert Raw(RootOfOne().records) == [Record(FILE_KEY, FileValue())];
  }

  lemma RootHeaderFacts()
    requires WellFormed(RootOfOne().layout, [Record(FILE_KEY, FileValue())])
    ensures var l, rs := RootOfOne().layout, [Record(FILE_KEY, FileValue())];
            && Enc16(l.flags) == [7, 0] && Enc16(l.level) == [0, 0] && Enc32(|rs|) == [1, 0, 0, 0]
            && Enc16(|l.gap|) == [0, 0] && Enc16(|Table(Fixed(l), rs)| + |l.slack|) == [4, 0]
            && l.objectHeader == ROOT_OBJECT && l.unused == [1, 2, 3, 4, 5, 6, 7, 8, 9, 10, 11, 12]
  {
    RootRecordIsLaidOut();
    Enc16Is(7, [7, 0]);
    Enc16Is(0, [0, 0]);
    Enc32Is(1, [1, 0, 0, 0]);
    Enc16Is(4, [4, 0]);
    hide Enc16, Enc32, Table, WellFormed, Keys, Values, KeysLength, ValuesLength, FileValue;
  }

  lemma RootHeaderIs()
    requires WellFormed(RootOfOne().layout, [Record(FILE_KEY, FileValue())])
    ensures NodeLayout.Header(RootOfOne().layout, [Record(FILE_KEY, FileValue())]) == ROOT_OBJECT + ROOT_HEADER
  {
    RootHeaderFacts();
    HeaderFlattens();
    hide Enc16, Enc32, Table, RootOfOne, WellFormed, Fixed, FileValue;
    HeaderFrom(RootOfOne().layout, [Record(FILE_KEY, FileValue())], [7, 0], [0, 0], [1, 0, 0, 0], [0, 0], [4, 0]);
  }

  lemma RootObjectIs5()
    ensures U64(ROOT_OBJECT, 16) == 5 && U32(ROOT_OBJECT, 24) == 2
  {
    AtWhole(ROOT_OBJECT);
    hide At, U16;
    FourBytes(ROOT_OBJECT, 0, ROOT_OBJECT, 16);
    FourBytes(ROOT_OBJECT, 0, ROOT_OBJECT, 20);
    FourBytes(ROOT_OBJECT, 0, ROOT_OBJECT, 24);
  }

  lemma RootAssumes120()
    ensures Storable(RootOfOne().layout, RootOfOne().records)
    ensures Fixed(RootOfOne().layout) && !CutsFields(RootOfOne().layout, RootOfOne().records)
  {
    RootStorable();
    InfoSays120();
    RootFacts();
    var l := RootOfOne().layout;
    hide U32, At, WellFormed, Valid, Raw, RootOfOne, Root, Fixed, AssumedValueSize, FileValue, FileInode;
    RootSize(l, Raw(RootOfOne().records));
  }

  lemma RootFacts()
    ensures var l := RootOfOne().layout; Root(l) && Fixed(l) && l.info == ROOT_INFO
  {
    hide Zeros, FileInode;
  }

  lemma InfoSays120()
    ensures U32(ROOT_INFO, 12) == 120
  {
    AtWhole(ROOT_INFO);
    hide At, U32;
    FourBytes(ROOT_INFO, 0, ROOT_INFO, 12);
  }

  lemma RootSize(l: Layout, raw: seq<Record>)
    requires WellFormed(l, raw) && Root(l)
    ensures AssumedValueSize(l, raw) == U32(l.info, 12) % 0x1_0000
  {
    hide U32;
  }

  lemma RootIsSeenWhole()
    ensures Storable(RootOfOne().layout, RootOfOne().records)
    ensures Seen(RootOfOne().layout, RootOfOne().records) == RootOfOne().records
  {
    RootAssumes120();
    FileFields();
    var w := RootOfOne();
    assert w.records == [FileInode()];
    hide Storable, DstreamIn, RootOfOne, CutsFields, Fixed, FileInode;
    assert SizeFound(w.layout, w.records, 0) == DstreamIn(FileInode().fields);
    hide SizeFound;
    assert SeenRecord(w.layout, w.records, 0) == FileInode();
  }

  lemma FileFields()
    ensures FileInode().InodeRec? && FileInode().fields != []
  {
  }

  /** The sealed root is a node as well, and its one record is read through offsets alone.  */
  lemma KnownRootIsScanned()
    ensures IsNode(4096, Sealed(KnownRoot()))
    ensures BlockEvents(4096, Sealed(KnownRoot())) == [InodeEvent(20, 5, 2, Some(1000))]
  {
    RootIsLaidOut();
    RootIsSeenWhole();
    FileInodeBytes();
    MeaningOfOne(5, FileInode());
    assert RootOfOne().records == [FileInode()];
    assert EventsOf(5, FileInode(), false) == [InodeEvent(20, 5, 2, Some(1000))];
    hide RootOfOne, KnownRoot, Writable, Storable, Meaning, BlockEvents, IsNode, Sealed, Unsealed, BatchXid,
      Seen, FileInode;
    SealedNodeIsScanned(RootOfOne());
  }
}

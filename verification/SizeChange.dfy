/** A superblock that declares another block size decides, by when it arrives, which blocks are accepted: a
    disk whose blocks do not read alike in every order.  */
module SizeChange {
  import opened Bytes
  import opened Wrappers
  import opened Merge
  import opened Node
  import opened NodeLayout
  import opened FileRecords
  import opened SealedNodes
  import opened Stream
  import opened Arrival
  import Fletcher

  function Records(): seq<FileRecord> { [InodeRec(20, 2, Zeros(84), [], 0)] }

  lemma RecordsFit()
    ensures FitsInBlock(Records())
  {
    SizesOfOne(Records()[0]);
  }

  /** The same records sealed by different transactions have different checksums.  */
  lemma ChecksumsDiffer(rs: seq<FileRecord>)
    requires FitsInBlock(rs)
    ensures StoredChecksum(SealedLeaf(5, rs)) != StoredChecksum(SealedLeaf(6, rs))
  {
    var a, b := SealedLeaf(5, rs), SealedLeaf(6, rs);
    hide SealedLeaf, FitsInBlock, Payload, U32, U64;
    XidWord(5, rs);
    XidWord(6, rs);
    if StoredChecksum(a) == StoredChecksum(b) {
      OnlyXidDiffers(5, 6, rs);
      assert Fletcher.Congruent(Payload(BUFFER_SIZE, b)[2], Payload(BUFFER_SIZE, a)[2]) by {
        if !Fletcher.Congruent(Payload(BUFFER_SIZE, b)[2], Payload(BUFFER_SIZE, a)[2]) {
          CorruptedBlockIsRejected(BUFFER_SIZE, a, b, 2);
        }
      }
    }
  }

  lemma XidWord(xid: uint32, rs: seq<FileRecord>)
    requires FitsInBlock(rs)
    ensures |Payload(BUFFER_SIZE, SealedLeaf(xid, rs))| == 1022
    ensures Payload(BUFFER_SIZE, SealedLeaf(xid, rs))[2] == xid
    ensures Accepted(BUFFER_SIZE, SealedLeaf(xid, rs))
  {
    var w, b := LeafBatch(xid, rs), SealedLeaf(xid, rs);
    LeafIsWritable(xid, rs);
    hide Encoded, WellFormed, Raw, Valid, LeafBatch, Accepted, U32, U64, FitsInBlock, BlockEvents, Meaning,
      BatchMeaning, Sealed, SealedLeaf, Fletcher.Words;
    SealedLeafIsScanned(xid, rs);
    ObjectHeaderIsRead(w.layout, Raw(rs), Unsealed(w));
    SealedIsAccepted(Unsealed(w));
    PayloadWord(BUFFER_SIZE, b, 2);
    LowWord(b, 16);
  }

  lemma LowWord(b: seq<byte>, off: int)
    requires U64(b, off) < TWO_TO_THE_32
    ensures U32(b, off) == U64(b, off)
  {
    hide U32;
  }

  lemma OnlyXidDiffers(x: uint64, y: uint64, rs: seq<FileRecord>)
    requires FitsInBlock(rs)
    requires StoredChecksum(SealedLeaf(x, rs)) == StoredChecksum(SealedLeaf(y, rs))
    ensures DifferInWordsAt(BUFFER_SIZE, SealedLeaf(x, rs), SealedLeaf(y, rs), 2)
  {
    LeafIsWritable(x, rs);
    LeafIsWritable(y, rs);
    hide WellFormed, Encoded, Raw, Valid, FitsInBlock, Payload, U64, Zeros, Enc64, Enc32, Used;
    var l, m := LeafBatch(x, rs).layout, LeafBatch(y, rs).layout;
    var a, b := Unsealed(LeafBatch(x, rs)), Unsealed(LeafBatch(y, rs));
    SealStores(a);
    SealStores(b);
    ObjectFirst(l, Raw(rs));
    ObjectFirst(m, Raw(rs));
    assert AfterObject(l, Raw(rs)) == AfterObject(m, Raw(rs));
    hide AfterObject;
    SameAround(Enc64(Fletcher.Checksum(Payload(BUFFER_SIZE, a))), Zeros(16), Enc64(x), Enc64(y),
               Enc32(TYPE_BTREE_NODE) + Zeros(4), AfterObject(l, Raw(rs)));
  }

  lemma SealStores(b: Block)
    ensures StoredChecksum(Sealed(b)) == Fletcher.Checksum(Payload(BUFFER_SIZE, b))
  {
    var sum := Fletcher.Checksum(Payload(BUFFER_SIZE, b));
    hide Payload, Fletcher.Checksum, Enc64, U64, At;
    AtEnd(Enc64(sum), b[CKSUM_SIZE..]);
    ReadU64(Sealed(b), 0, sum);
  }

  lemma SameAround(e: seq<byte>, z: seq<byte>, x: seq<byte>, y: seq<byte>, m: seq<byte>, t: seq<byte>)
    requires |e| == |x| == |y| == 8 && |z| == 16
    ensures var a, b := e + ((z + (x + m)) + t)[8..], e + ((z + (y + m)) + t)[8..];
            |a| == |b| && forall k :: 0 <= k < |a| && !(16 <= k < 24) ==> a[k] == b[k]
  {
  }

  /** A superblock that declares 8 bytes, of which a checksum covers none.  */
  function Shrinking(): Block {
    Zeros(24) + (Enc32(TYPE_NX_SUPERBLOCK) + (Zeros(4) + (Enc32(NX_MAGIC) + (Enc32(8) + Zeros(4056)))))
  }

  lemma ShrinkingParts()
    ensures TypeWord(Shrinking()) == TYPE_NX_SUPERBLOCK && U32(Shrinking(), 32) == NX_MAGIC
    ensures DeclaredSize(Shrinking()) == 8
  {
    hide Zeros, Enc32, At, U32;
    var b := Shrinking();
    AtWhole(b);
    var t, m, d, z := Enc32(TYPE_NX_SUPERBLOCK), Enc32(NX_MAGIC), Enc32(8), Zeros(4056);
    AtSplit(b, 0, Zeros(24), t + (Zeros(4) + (m + (d + z))));
    AtSplit(b, 24, t, Zeros(4) + (m + (d + z)));
    AtSplit(b, 28, Zeros(4), m + (d + z));
    AtSplit(b, 32, m, d + z);
    AtSplit(b, 36, d, z);
    ReadU32(b, 24, TYPE_NX_SUPERBLOCK);
    ReadU32(b, 32, NX_MAGIC);
    ReadU32(b, 36, 8);
  }

  lemma ShrinkingIsSuperblock()
    ensures IsSuperblock(BUFFER_SIZE, Sealed(Shrinking())) && DeclaredSize(Sealed(Shrinking())) == 8
  {
    var b := Shrinking();
    ShrinkingParts();
    hide Shrinking, Payload, U32, Accepted;
    SealedIsAccepted(b);
    SealedTail(b);
    SameWord(b, Sealed(b), 32);
    SameWord(b, Sealed(b), 36);
  }

  lemma SealedTail(b: Block)
    ensures forall k :: CKSUM_SIZE <= k < BUFFER_SIZE ==> U8(Sealed(b), k) == U8(b, k)
  {
    forall k | CKSUM_SIZE <= k < BUFFER_SIZE ensures U8(Sealed(b), k) == U8(b, k) {
      assert Sealed(b)[k] == b[CKSUM_SIZE..][k - CKSUM_SIZE];
    }
  }

  lemma NothingChecked(b: Block)
    ensures Accepted(8, b) ==> StoredChecksum(b) == Fletcher.Checksum([])
  {
    hide Fletcher.Checksum, StoredChecksum;
    assert Payload(8, b) == [];
  }

  /** A leaf with one file, sealed by a transaction that gives it another checksum than nothing has.  */
  lemma LeafRejectedWhenShrunk() returns (b: Block, e: Event)
    ensures IsNode(BUFFER_SIZE, b) && !IsSuperblock(BUFFER_SIZE, b) && !Accepted(8, b)
    ensures BlockEvents(BUFFER_SIZE, b) == [e] && e.inode == 20
  {
    RecordsFit();
    ChecksumsDiffer(Records());
    var xid: uint64 := if StoredChecksum(SealedLeaf(5, Records())) != Fletcher.Checksum([]) then 5 else 6;
    OneFile(xid);
    hide SealedLeaf, FitsInBlock, StoredChecksum, Meaning, Records, Accepted, NodeEvents, ObjectType, Fletcher.Checksum;
    b, e := SealedLeaf(xid, Records()), InodeEvent(20, xid, 2, None);
    SealedLeafIsScanned(xid, Records());
    NothingChecked(b);
  }

  lemma OneFile(xid: uint64)
    ensures Meaning(xid, Records()) == [InodeEvent(20, xid, 2, None)]
  {
    hide Meaning;
    MeaningOfOne(xid, Records()[0]);
  }

  /** Two blocks, valid at the standard size, of which one recovers a file or nothing at all depending on
      which is read first.  */
  lemma SizeChangeMatters() returns (a: Sector, b: Sector)
    ensures StreamFits(INITIAL, [a, b]) && StreamFits(INITIAL, [b, a])
    ensures 20 in Recovered(INITIAL, [a, b]) && Recovered(INITIAL, [b, a]) == map[]
    ensures !ReadsAlike(INITIAL, [a, b])
  {
    ShrinkingIsSuperblock();
    var leaf, e := LeafRejectedWhenShrunk();
    hide Shrinking, Sealed, Accepted, DeclaredSize, IsSuperblock, IsNode, BlockEvents, ReadsAlike, StreamFits,
      Recovered;
    a, b := Sector(0, leaf), Sector(4096, Sealed(Shrinking()));
    EitherOrder(a, b, e);
    if ReadsAlike(INITIAL, [a, b]) { ArrivalOrderDoesNotMatter(INITIAL, [a, b], [b, a]); }
  }

  lemma EitherOrder(a: Sector, b: Sector, e: Event)
    requires IsNode(BUFFER_SIZE, a.block) && !IsSuperblock(BUFFER_SIZE, a.block) && !Accepted(8, a.block)
    requires BlockEvents(BUFFER_SIZE, a.block) == [e]
    requires IsSuperblock(BUFFER_SIZE, b.block) && DeclaredSize(b.block) == 8
    ensures StreamFits(INITIAL, [a, b]) && StreamFits(INITIAL, [b, a])
    ensures e.inode in Recovered(INITIAL, [a, b]) && Recovered(INITIAL, [b, a]) == map[]
  {
    hide Accepted, DeclaredSize, NodeEvents;
    RunOfTwo(INITIAL, a, b);
    RunOfTwo(INITIAL, b, a);
    RunOne(map[], e);
    RunNone(map[]);
    assert StreamEvents(INITIAL, [a, b]) == [e] && StreamEvents(INITIAL, [b, a]) == [];
  }

  lemma RunOfTwo(st: Status, x: Sector, y: Sector)
    requires Fits(st) && Fits(Advance(st, x))
    ensures StreamFits(st, [x, y])
    ensures StreamEvents(st, [x, y]) == BlockEvents(st.size, x.block) + BlockEvents(Advance(st, x).size, y.block)
  {
    hide Advance, BlockEvents;
    var mid := Advance(st, x);
    assert [x, y][1..] == [y] && [y][1..] == [];
    assert StreamFits(Advance(mid, y), []) && StreamEvents(Advance(mid, y), []) == [];
    assert StreamFits(mid, [y]) && StreamEvents(mid, [y]) == BlockEvents(mid.size, y.block) + [];
  }
}

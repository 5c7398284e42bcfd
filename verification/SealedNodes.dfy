/** Blocks built from records: whatever a scan can recover, some disk holds.  */
module SealedNodes {
  import opened Bytes
  import opened Wrappers
  import opened Seqs
  import opened Merge
  import opened Node
  import XFields
  import opened NodeLayout
  import opened FileRecords
  import opened Stream
  import opened Arrival
  import Fletcher
  import Grouping

  // ----- Sealed nodes of any layout

  /** What one transaction wrote into one node.  */
  datatype Batch = Batch(layout: Layout, records: seq<FileRecord>)

  function BatchXid(w: Batch): uint64 { U64(w.layout.objectHeader, 16) }

  function BatchType(w: Batch): nat { U32(w.layout.objectHeader, 24) % TWO_TO_THE_16 }

  /** The records fill a block in this layout, and its header says that it is a node.  */
  predicate Writable(w: Batch) {
    && Storable(w.layout, w.records) && |Encoded(w.layout, Raw(w.records))| == BUFFER_SIZE
    && (BatchType(w) == TYPE_BTREE || BatchType(w) == TYPE_BTREE_NODE)
  }

  function Unsealed(w: Batch): Block
    requires Writable(w)
  {
    Encoded(w.layout, Raw(w.records))
  }

  function SealedNode(w: Batch): Block
    requires Writable(w)
  {
    Sealed(Unsealed(w))
  }

  /** What a scan makes of the node.  */
  ghost function BatchMeaning(): Batch -> seq<Event> {
    (w: Batch) => if Storable(w.layout, w.records) then Meaning(BatchXid(w), Seen(w.layout, w.records)) else []
  }

  /** Sealing a laid-out block is laying it out with another object header.  */
  lemma SealedIsLaidOut(l: Layout, raw: seq<Record>, b: Block) returns (m: Layout)
    requires WellFormed(l, raw) && b == Encoded(l, raw)
    ensures WellFormed(m, raw) && Sealed(b) == Encoded(m, raw)
    ensures m == l.(objectHeader := m.objectHeader)
  {
    var mark := Enc64(Fletcher.Checksum(Payload(BUFFER_SIZE, b)));
    m := l.(objectHeader := mark + l.objectHeader[CKSUM_SIZE..]);
    hide Encoded, Small, Table, Keys, Values, Fletcher.Checksum, Payload;
    ObjectFirst(l, raw);
    ObjectFirst(m, raw);
    assert AfterObject(l, raw) == AfterObject(m, raw);
    hide AfterObject;
    OtherMark(l.objectHeader, AfterObject(l, raw), mark);
  }

  lemma OtherMark(header: seq<byte>, rest: seq<byte>, mark: seq<byte>)
    requires |header| >= CKSUM_SIZE
    ensures mark + (header + rest)[CKSUM_SIZE..] == (mark + header[CKSUM_SIZE..]) + rest
  {
    assert (header + rest)[CKSUM_SIZE..] == header[CKSUM_SIZE..] + rest;
  }

  lemma ObjectHeaderIsRead(l: Layout, raw: seq<Record>, b: Block)
    requires WellFormed(l, raw) && b == Encoded(l, raw)
    ensures Xid(b) == U64(l.objectHeader, 16) && TypeWord(b) == U32(l.objectHeader, 24)
  {
    hide Encoded, U64, U32, Table, Keys, Values, Small;
    ObjectFirst(l, raw);
    WordsOfPrefix(l.objectHeader, AfterObject(l, raw), 16);
    WordsOfPrefix(l.objectHeader, AfterObject(l, raw), 24);
  }

  lemma WordsOfPrefix(x: seq<byte>, y: seq<byte>, off: nat)
    requires off + 8 <= |x|
    ensures U64(x + y, off) == U64(x, off) && U32(x + y, off) == U32(x, off)
  {
    forall k: nat | k < |x| ensures U8(x + y, k) == U8(x, k) {}
    hide U8;
  }

  lemma SealedIsNode(b: Block)
    requires ObjectType(b) == TYPE_BTREE || ObjectType(b) == TYPE_BTREE_NODE
    ensures IsNode(BUFFER_SIZE, Sealed(b)) && !IsSuperblock(BUFFER_SIZE, Sealed(b)) && Xid(Sealed(b)) == Xid(b)
  {
    hide Accepted, Payload, TypeWord, Xid, Sealed;
    SealedIsAccepted(b);
  }

  lemma SeenUnderOtherHeader(l: Layout, m: Layout, rs: seq<FileRecord>)
    requires Storable(l, rs) && Storable(m, rs) && m == l.(objectHeader := m.objectHeader)
    ensures Seen(m, rs) == Seen(l, rs)
  {
    hide Valid, Raw, Table, Keys, Values, U32, Small, XFields.LastDstream, XFields.DstreamIn, Sized;
    assert Ending(m, Raw(rs)) == Ending(l, Raw(rs));
    assert forall k :: 0 <= k < |rs| ==> SeenRecord(m, rs, k) == SeenRecord(l, rs, k);
  }

  /** Any node, once sealed, is accepted at the standard block size, is no superblock, and amounts to what is
      seen of its records.  */
  lemma SealedNodeIsScanned(w: Batch)
    requires Writable(w)
    ensures IsNode(BUFFER_SIZE, SealedNode(w)) && !IsSuperblock(BUFFER_SIZE, SealedNode(w))
    ensures BlockEvents(BUFFER_SIZE, SealedNode(w)) == BatchMeaning()(w)
  {
    var l, rs, b := w.layout, w.records, Unsealed(w);
    var m := SealedIsLaidOut(l, Raw(rs), b);
    SeenUnderOtherHeader(l, m, rs);
    ObjectHeaderIsRead(l, Raw(rs), b);
    hide Valid, WellFormed, Encoded, IsNode, IsSuperblock, NodeEvents, Meaning, Raw, Xid, TypeWord, Sealed, Seen;
    LaidOutNodeIsRead(m, rs, Sealed(b));
    SealedIsNode(b);
  }

  // ----- Disks made of nodes

  function NodeSector(pos: uint64, w: Batch): Sector
    requires Writable(w)
  {
    Sector(pos, SealedNode(w))
  }

  /** The sectors hold these batches, wherever on the disk.  */
  ghost predicate Holds(sectors: seq<Sector>, batches: seq<Batch>) {
    |sectors| == |batches| && forall k :: 0 <= k < |batches| ==>
      Writable(batches[k]) && sectors[k] == NodeSector(sectors[k].pos, batches[k])
  }

  /** Scanning a disk of sealed nodes amounts, from bytes to entries, to merging what is seen of what was
      written.  */
  lemma DiskMeansItsRecords(sectors: seq<Sector>, batches: seq<Batch>)
    requires Holds(sectors, batches)
    ensures OneSize(BUFFER_SIZE, sectors) && ReadsTheSame(INITIAL, sectors) && StreamFits(INITIAL, sectors)
    ensures Recovered(INITIAL, sectors) == Run(map[], FlatMap(batches, BatchMeaning()))
  {
    hide BatchMeaning, BlockEvents, IsSuperblock, Writable, SealedNode, StreamFits, Run, ReadsTheSame, ReadsAlike;
    forall s | s in sectors ensures !IsSuperblock(BUFFER_SIZE, s.block) {
      var k :| 0 <= k < |sectors| && sectors[k] == s;
      SealedNodeIsScanned(batches[k]);
    }
    OneSizeReadsTheSame(INITIAL, sectors);
    SameInOrder(INITIAL, sectors, sectors);
    EventsOfBatches(sectors, batches);
  }

  lemma {:induction false} EventsOfBatches(sectors: seq<Sector>, batches: seq<Batch>)
    requires Holds(sectors, batches)
    ensures FlatMap(sectors, EventsIn(BUFFER_SIZE)) == FlatMap(batches, BatchMeaning())
  {
    hide BatchMeaning, BlockEvents, Writable, SealedNode;
    if sectors != [] {
      var n := |sectors| - 1;
      EventsOfBatches(sectors[..n], batches[..n]);
      SealedNodeIsScanned(batches[n]);
    }
  }

  // ----- Variable-size leaves

  function Used(rs: seq<FileRecord>): nat
    requires forall r :: r in rs ==> Valid(r)
  {
    NODE_HEADER + EntryWidth(false) * |rs| + KeysLength(Raw(rs)) + ValuesLength(Raw(rs))
  }

  /** The records, with their table of contents, fit in one block.  */
  predicate FitsInBlock(rs: seq<FileRecord>) {
    (forall r :: r in rs ==> Valid(r)) && Used(rs) <= BUFFER_SIZE
  }

  function ObjectHeader(xid: uint64): (h: seq<byte>)
    ensures |h| == 32
  {
    Zeros(16) + (Enc64(xid) + (Enc32(TYPE_BTREE_NODE) + Zeros(4)))
  }

  lemma ObjectHeaderParts(xid: uint64)
    ensures U64(ObjectHeader(xid), 16) == xid && U32(ObjectHeader(xid), 24) == TYPE_BTREE_NODE
  {
    hide Enc64, Enc32, At, Zeros, U32, U64;
    var h := ObjectHeader(xid);
    AtWhole(h);
    AtSplit(h, 0, Zeros(16), Enc64(xid) + (Enc32(TYPE_BTREE_NODE) + Zeros(4)));
    AtSplit(h, 16, Enc64(xid), Enc32(TYPE_BTREE_NODE) + Zeros(4));
    AtSplit(h, 24, Enc32(TYPE_BTREE_NODE), Zeros(4));
    ReadU64(h, 16, xid);
    ReadU32(h, 24, TYPE_BTREE_NODE);
  }

  /** A variable-size leaf written by transaction xid, its free space filled with zeros.  */
  function LeafLayout(xid: uint64, free: nat): Layout {
    Layout(ObjectHeader(xid), 0, 0, Zeros(12), [], [], Zeros(free), [])
  }

  function LeafBatch(xid: uint64, rs: seq<FileRecord>): Batch {
    Batch(LeafLayout(xid, if FitsInBlock(rs) then BUFFER_SIZE - Used(rs) else 0), rs)
  }

  lemma LeafIsWritable(xid: uint64, rs: seq<FileRecord>)
    requires FitsInBlock(rs)
    ensures Writable(LeafBatch(xid, rs)) && BatchXid(LeafBatch(xid, rs)) == xid
    ensures BatchMeaning()(LeafBatch(xid, rs)) == Meaning(xid, rs)
  {
    ObjectHeaderParts(xid);
    LeafFills(xid, rs);
    hide ObjectHeader, U64, U32, Valid, WellFormed, Encoded, Raw, Used, Meaning;
    VariableSizeIsSeenWhole(LeafBatch(xid, rs).layout, rs);
  }

  lemma LeafFills(xid: uint64, rs: seq<FileRecord>)
    requires FitsInBlock(rs)
    ensures var l := LeafBatch(xid, rs).layout;
            Storable(l, rs) && |Encoded(l, Raw(rs))| == BUFFER_SIZE && !Fixed(l)
  {
    hide Zeros, Raw, Table, Keys, Values, Header, Valid, ObjectHeader;
    assert |Raw(rs)| == |rs| by { RawLength(rs); }
    TableLengthIs(false, Raw(rs));
  }

  lemma RawLength(rs: seq<FileRecord>)
    requires forall r :: r in rs ==> Valid(r)
    ensures |Raw(rs)| == |rs|
  {
  }

  function SealedLeaf(xid: uint64, rs: seq<FileRecord>): Block
    requires FitsInBlock(rs)
  {
    LeafIsWritable(xid, rs);
    SealedNode(LeafBatch(xid, rs))
  }

  /** A sealed leaf amounts to exactly what its records mean.  */
  lemma SealedLeafIsScanned(xid: uint64, rs: seq<FileRecord>)
    requires FitsInBlock(rs)
    ensures IsNode(BUFFER_SIZE, SealedLeaf(xid, rs)) && !IsSuperblock(BUFFER_SIZE, SealedLeaf(xid, rs))
    ensures BlockEvents(BUFFER_SIZE, SealedLeaf(xid, rs)) == Meaning(xid, rs)
  {
    hide Writable, FitsInBlock, SealedNode, LeafBatch, BatchMeaning, Meaning, IsNode, IsSuperblock, BlockEvents;
    LeafIsWritable(xid, rs);
    SealedNodeIsScanned(LeafBatch(xid, rs));
  }

  // ----- Names depend on the order of blocks

  /** Records of one id are a single group.  */
  lemma MeaningOfOneGroup(xid: uint64, rs: seq<FileRecord>, id: Inode)
    requires rs != [] && forall r :: r in rs ==> r.id == id
    ensures Meaning(xid, rs) == GroupMeaning(xid, rs)
  {
    hide GroupMeaning, Grouping.Group, FlatMap;
    var ids := Grouping.Ids(rs, RecordId());
    assert ids == {id} by { assert rs[0] in rs; }
    Grouping.AscendingStep(ids, id);
    assert ids - {id} == {};
    var order := Grouping.Ascending(ids);
    assert order == [id];
    OneGroup(rs, id);
    FlatMapOne(order, MeaningOfId(xid, rs));
  }

  lemma OneGroup(rs: seq<FileRecord>, id: Inode)
    requires forall r :: r in rs ==> r.id == id
    ensures Grouping.Group(rs, RecordId(), id) == rs
  {
    Grouping.FilterAll(rs, Grouping.Has(RecordId(), id));
  }

  lemma MeaningOfOne(xid: uint64, r: FileRecord)
    ensures Meaning(xid, [r]) == EventsOf(xid, r, false)
  {
    hide EventsOf, Meaning, GroupMeaning;
    MeaningOfOneGroup(xid, [r], r.id);
    AloneInGroup(xid, r);
  }

  lemma MeaningOfTwo(xid: uint64, r: FileRecord, q: FileRecord)
    requires r.id < q.id
    ensures Meaning(xid, [r, q]) == EventsOf(xid, r, false) + EventsOf(xid, q, false)
  {
    hide EventsOf, GroupMeaning, Grouping.Group, Grouping.Ids, Grouping.Ascending, FlatMap;
    assert Grouping.Ids([r, q], RecordId()) == {r.id, q.id} by { IdsOfTwo(r, q); }
    var m: nat, n: nat := r.id, q.id;
    Grouping.AscendingTwo(m, n);
    GroupsOfTwo(xid, r, q);
    FlatMapTwo(m, n, MeaningOfId(xid, [r, q]));
  }

  lemma IdsOfTwo(r: FileRecord, q: FileRecord)
    ensures Grouping.Ids([r, q], RecordId()) == {r.id, q.id}
  {
    assert r in [r, q] && q in [r, q];
  }

  lemma GroupsOfTwo(xid: uint64, r: FileRecord, q: FileRecord)
    requires r.id < q.id
    ensures GroupMeaning(xid, Grouping.Group([r, q], RecordId(), r.id)) == EventsOf(xid, r, false)
    ensures GroupMeaning(xid, Grouping.Group([r, q], RecordId(), q.id)) == EventsOf(xid, q, false)
  {
    hide EventsOf, Grouping.Group, GroupMeaning;
    assert [r] + [] == [r] && [] + [q] == [q];
    Grouping.GroupOfTwo(r, q, RecordId(), r.id);
    Grouping.GroupOfTwo(r, q, RecordId(), q.id);
    AloneInGroup(xid, r);
    AloneInGroup(xid, q);
  }

  lemma AloneInGroup(xid: uint64, r: FileRecord)
    ensures GroupMeaning(xid, [r]) == EventsOf(xid, r, false)
  {
    hide EventsOf;
    assert [r][..0] == [];
    assert GroupMeaning(xid, [r]) == [] + EventsOf(xid, r, false);
  }

  /** Two leaves on a disk: a directory record for inode 20 by transaction 5, its INODE record by 7.  */
  const NAMING_RECORD := DirRec(2, 0, [0x61], 20, 0, 8, [])

  function CreatingRecord(): FileRecord { InodeRec(20, 2, Zeros(84), [], 0) }

  function NamingLeaf(): Batch { LeafBatch(5, [NAMING_RECORD]) }

  function InodeLeaf(): Batch { LeafBatch(7, [CreatingRecord()]) }

  const NAMING := DirEvent(20, 5, None, [0x61], 8)
  const CREATION := InodeEvent(20, 7, 2, None)

  lemma LeavesAreWritten()
    ensures Writable(NamingLeaf()) && BatchMeaning()(NamingLeaf()) == [NAMING]
    ensures Writable(InodeLeaf()) && BatchMeaning()(InodeLeaf()) == [CREATION]
  {
    LeavesFit();
    hide FitsInBlock, LeafBatch, Writable, BatchMeaning, Meaning;
    LeafIsWritable(5, [NAMING_RECORD]);
    LeafIsWritable(7, [CreatingRecord()]);
    MeaningOfOne(5, NAMING_RECORD);
    MeaningOfOne(7, CreatingRecord());
  }

  lemma TwoLeaves(a: Sector, b: Sector, v: Batch, w: Batch, d: Event, e: Event)
    requires Holds([a, b], [v, w]) && BatchMeaning()(v) == [d] && BatchMeaning()(w) == [e]
    ensures OneSize(BUFFER_SIZE, [a, b]) && StreamFits(INITIAL, [a, b])
    ensures Recovered(INITIAL, [a, b]) == Apply(Apply(map[], d), e)
  {
    hide BatchMeaning, Holds, OneSize, StreamFits, Recovered, ReadsTheSame, FlatMap;
    DiskMeansItsRecords([a, b], [v, w]);
    FlatMapTwo(v, w, BatchMeaning());
    RunTwo(d, e);
  }

  lemma TwoOutcomes()
    ensures Get(Apply(Apply(map[], NAMING), CREATION), 20).row.name == [0x61]
    ensures Get(Apply(Apply(map[], CREATION), NAMING), 20).row.name == []
  {
  }

  /** There is a disk whose file is named, or not, depending on which of two valid blocks is read first.  */
  lemma NameDependsOnBlockOrder() returns (a: Sector, b: Sector)
    ensures OneSize(BUFFER_SIZE, [a, b]) && StreamFits(INITIAL, [a, b]) && StreamFits(INITIAL, [b, a])
    ensures RecoveredField(INITIAL, [a, b], 20, FileName) == Text([0x61])
    ensures RecoveredField(INITIAL, [b, a], 20, FileName) == Text([])
  {
    LeavesAreWritten();
    a, b := TwoSectors();
    hide BatchMeaning, OneSize, StreamFits, Recovered, NamingLeaf, InodeLeaf, Holds, Apply, NodeSector, Writable;
    TwoLeaves(a, b, NamingLeaf(), InodeLeaf(), NAMING, CREATION);
    TwoLeaves(b, a, InodeLeaf(), NamingLeaf(), CREATION, NAMING);
    TwoOutcomes();
  }

  lemma TwoSectors() returns (a: Sector, b: Sector)
    ensures Holds([a, b], [NamingLeaf(), InodeLeaf()]) && Holds([b, a], [InodeLeaf(), NamingLeaf()])
  {
    LeavesAreWritten();
    hide NamingLeaf, InodeLeaf, Writable, SealedNode, Holds;
    a, b := NodeSector(0, NamingLeaf()), NodeSector(4096, InodeLeaf());
    HoldsTwo(a, b, NamingLeaf(), InodeLeaf());
    HoldsTwo(b, a, InodeLeaf(), NamingLeaf());
  }

  lemma HoldsTwo(a: Sector, b: Sector, v: Batch, w: Batch)
    requires Writable(v) && Writable(w) && a == NodeSector(a.pos, v) && b == NodeSector(b.pos, w)
    ensures Holds([a, b], [v, w])
  {
    hide Writable, SealedNode;
  }

  lemma LeavesFit()
    ensures FitsInBlock([NAMING_RECORD]) && FitsInBlock([CreatingRecord()])
  {
    SizesOfOne(NAMING_RECORD);
    SizesOfOne(CreatingRecord());
  }

  lemma SizesOfOne(r: FileRecord)
    requires Valid(r)
    ensures Used([r]) == NODE_HEADER + 8 + |KeyBytes(r)| + |ValueBytes(r)|
  {
    hide KeyBytes, ValueBytes, Used;
    assert Used([]) == NODE_HEADER by { NothingUsed(); }
    SizesAdd([], r);
    assert [] + [r] == [r];
  }

  lemma NothingUsed()
    ensures Used([]) == NODE_HEADER
  {
    assert KeysLength(Raw([])) == 0 && ValuesLength(Raw([])) == 0;
  }

  /** What one more record takes up.  */
  lemma SizesAdd(rs: seq<FileRecord>, r: FileRecord)
    requires Valid(r) && forall q :: q in rs ==> Valid(q)
    ensures Used(rs + [r]) == Used(rs) + 8 + |KeyBytes(r)| + |ValueBytes(r)|
  {
    hide KeyBytes, ValueBytes;
    assert forall q :: q in rs + [r] ==> Valid(q);
    var raw := Raw(rs + [r]);
    assert raw[..|rs|] == Raw(rs);
  }
}

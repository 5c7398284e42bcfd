/** File sizes in fixed-size nodes: a scan takes the length of every value from the end of the block.  If that
    leaves no room for the field that holds a file's size, sizes are lost; if it leaves room where there are
    no fields, other bytes are taken for a size.  */
module LostSizes {
  import opened Bytes
  import opened Wrappers
  import opened Seqs
  import opened Merge
  import opened Node
  import opened XFields
  import opened NodeLayout
  import opened FileRecords
  import opened SealedNodes
  import Grouping

  predicate SaysSize(r: FileRecord) { r.InodeRec? && DstreamIn(r.fields).Some? }

  predicate HasSize(e: Event) { e.InodeEvent? && e.size.Some? }

  // ----- Records that differ in sizes only

  predicate Similar(r: FileRecord, q: FileRecord) {
    r == q || (r.InodeRec? && q.InodeRec? && r.id == q.id && r.parentId == q.parentId)
  }

  predicate SameSize(r: FileRecord, q: FileRecord) {
    r.InodeRec? && q.InodeRec? ==> DstreamIn(r.fields) == DstreamIn(q.fields)
  }

  predicate AllSimilar(rs: seq<FileRecord>, qs: seq<FileRecord>) {
    |rs| == |qs| && forall k :: 0 <= k < |rs| ==> Similar(rs[k], qs[k])
  }

  lemma SimilarEvents(xid: uint64, r: FileRecord, q: FileRecord, attached: bool)
    requires Similar(r, q)
    ensures |EventsOf(xid, r, attached)| == |EventsOf(xid, q, attached)|
    ensures EventsOf(xid, r, attached) == EventsOf(xid, q, attached) <==> SameSize(r, q)
  {
    hide DstreamIn;
    if EventsOf(xid, r, attached) == EventsOf(xid, q, attached) && r.InodeRec? && q.InodeRec? {
      assert EventsOf(xid, r, attached)[0] == EventsOf(xid, q, attached)[0];
    }
  }

  /** The records of this id have the same sizes in both lists.  */
  predicate SameSizes(rs: seq<FileRecord>, qs: seq<FileRecord>, id: nat)
    requires |rs| == |qs|
  {
    forall k :: 0 <= k < |rs| && rs[k].id == id ==> SameSize(rs[k], qs[k])
  }

  lemma SameSizesSnoc(rs: seq<FileRecord>, qs: seq<FileRecord>, r: FileRecord, q: FileRecord, id: nat)
    requires |rs| == |qs|
    ensures SameSizes(rs + [r], qs + [q], id) <==> SameSizes(rs, qs, id) && (r.id == id ==> SameSize(r, q))
  {
    hide SameSize;
    var ss, ts := rs + [r], qs + [q];
    assert forall k :: 0 <= k < |rs| ==> ss[k] == rs[k] && ts[k] == qs[k];
    assert ss[|rs|] == r && ts[|rs|] == q;
  }

  /** A group means the same exactly when the sizes in it are the same.  */
  lemma {:induction false} SimilarGroups(xid: uint64, rs: seq<FileRecord>, qs: seq<FileRecord>, id: nat)
    requires AllSimilar(rs, qs)
    ensures var g, h := Grouping.Group(rs, RecordId(), id), Grouping.Group(qs, RecordId(), id);
            && |GroupMeaning(xid, g)| == |GroupMeaning(xid, h)| && (IncludesInode(g) <==> IncludesInode(h))
            && (GroupMeaning(xid, g) == GroupMeaning(xid, h) <==> SameSizes(rs, qs, id))
  {
    if rs != [] {
      var n := |rs| - 1;
      var init, r, inits, q := rs[..n], rs[n], qs[..n], qs[n];
      assert rs == init + [r] && qs == inits + [q];
      SimilarGroups(xid, init, inits, id);
      assert Similar(r, q);
      hide Grouping.Group, GroupMeaning, IncludesInode, SameSize, SameSizes;
      Grouping.GroupSnoc(init, r, RecordId(), id);
      Grouping.GroupSnoc(inits, q, RecordId(), id);
      SameSizesSnoc(init, inits, r, q, id);
      OneMoreSimilar(
        xid, Grouping.Group(init, RecordId(), id), Grouping.Group(inits, RecordId(), id), r, q);
    }
  }

  lemma OneMoreSimilar(xid: uint64, g: seq<FileRecord>, h: seq<FileRecord>, r: FileRecord, q: FileRecord)
    requires |GroupMeaning(xid, g)| == |GroupMeaning(xid, h)| && (IncludesInode(g) <==> IncludesInode(h))
    requires Similar(r, q)
    ensures |GroupMeaning(xid, g + [r])| == |GroupMeaning(xid, h + [q])|
    ensures IncludesInode(g + [r]) <==> IncludesInode(h + [q])
    ensures GroupMeaning(xid, g + [r]) == GroupMeaning(xid, h + [q])
       <==> GroupMeaning(xid, g) == GroupMeaning(xid, h) && SameSize(r, q)
  {
    OneMoreInGroup(xid, g, r);
    OneMoreInGroup(xid, h, q);
    SimilarEvents(xid, r, q, IncludesInode(g));
    hide EventsOf, GroupMeaning, IncludesInode, SameSize;
    EqualEnds(GroupMeaning(xid, g), GroupMeaning(xid, h),
              EventsOf(xid, r, IncludesInode(g)), EventsOf(xid, q, IncludesInode(g)));
  }

  lemma OneMoreInGroup(xid: uint64, g: seq<FileRecord>, r: FileRecord)
    ensures GroupMeaning(xid, g + [r]) == GroupMeaning(xid, g) + EventsOf(xid, r, IncludesInode(g))
    ensures IncludesInode(g + [r]) <==> IncludesInode(g) || r.InodeRec?
  {
    hide EventsOf;
    assert (g + [r])[..|g|] == g;
  }

  lemma SimilarIds(rs: seq<FileRecord>, qs: seq<FileRecord>)
    requires AllSimilar(rs, qs)
    ensures Grouping.Ids(rs, RecordId()) == Grouping.Ids(qs, RecordId())
  {
    forall id ensures id in Grouping.Ids(rs, RecordId()) <==> id in Grouping.Ids(qs, RecordId()) {
      if r :| r in rs && r.id == id {
        var k :| 0 <= k < |rs| && rs[k] == r;
        assert Similar(rs[k], qs[k]) && qs[k] in qs;
      }
      if q :| q in qs && q.id == id {
        var k :| 0 <= k < |qs| && qs[k] == q;
        assert Similar(rs[k], qs[k]) && rs[k] in rs;
      }
    }
  }

  /** Records that differ in sizes only mean the same exactly when they do not differ.  */
  lemma SimilarMeaning(xid: uint64, rs: seq<FileRecord>, qs: seq<FileRecord>)
    requires AllSimilar(rs, qs)
    ensures Meaning(xid, rs) == Meaning(xid, qs) <==> forall k :: 0 <= k < |rs| ==> SameSize(rs[k], qs[k])
  {
    SimilarIds(rs, qs);
    assert |rs| == |qs|;
    var ids, f, g := Grouping.Ascending(Grouping.Ids(rs, RecordId())), MeaningOfId(xid, rs), MeaningOfId(xid, qs);
    forall k | 0 <= k < |rs| ensures rs[k].id in ids {
      assert rs[k] in rs;
    }
    hide GroupMeaning, Grouping.Group, Grouping.Ids, AllSimilar, SameSize;
    forall id: nat
      ensures |f(id)| == |g(id)| && (f(id) == g(id) <==> SameSizes(rs, qs, id))
    {
      SimilarGroups(xid, rs, qs, id);
    }
    FlatMapPieces(ids, f, g);
  }

  // ----- Sizes in what records mean

  lemma {:induction false} SizesInGroup(xid: uint64, g: seq<FileRecord>)
    requires forall r :: r in g ==> !SaysSize(r)
    ensures forall e :: e in GroupMeaning(xid, g) ==> !HasSize(e)
  {
    if g != [] {
      SizesInGroup(xid, g[..|g| - 1]);
      assert g[|g| - 1] in g;
    }
  }

  lemma NoSizesInMeaning(xid: uint64, rs: seq<FileRecord>)
    requires forall r :: r in rs ==> !SaysSize(r)
    ensures forall e :: e in Meaning(xid, rs) ==> !HasSize(e)
  {
    hide GroupMeaning, SaysSize, HasSize, Grouping.Group, FlatMap;
    var ids, f := Grouping.Ascending(Grouping.Ids(rs, RecordId())), MeaningOfId(xid, rs);
    forall e | e in Meaning(xid, rs) ensures !HasSize(e) {
      var k := FlatMapElement(ids, f, e);
      forall r | r in Grouping.Group(rs, RecordId(), ids[k]) ensures !SaysSize(r) {
        Grouping.GroupElement(rs, RecordId(), ids[k], r);
      }
      SizesInGroup(xid, Grouping.Group(rs, RecordId(), ids[k]));
    }
  }

  // ----- Exactly when sizes survive

  /** A laid-out node amounts to what its records mean exactly when the size found for every INODE record is
      the one it says.  */
  lemma SizesSurviveIff(l: Layout, rs: seq<FileRecord>, b: Block)
    requires Storable(l, rs) && b == Encoded(l, Raw(rs))
    ensures NodeEvents(BUFFER_SIZE, b) == Meaning(Xid(b), rs)
       <==> forall k :: 0 <= k < |rs| && rs[k].InodeRec? ==> SizeFound(l, rs, k) == DstreamIn(rs[k].fields)
  {
    LaidOutNodeIsRead(l, rs, b);
    SeenIsSimilar(l, rs);
    hide Storable, Seen, NodeEvents, Meaning, Encoded, SizeFound, Similar;
    SimilarMeaning(Xid(b), rs, Seen(l, rs));
  }

  lemma SeenIsSimilar(l: Layout, rs: seq<FileRecord>)
    requires Storable(l, rs)
    ensures AllSimilar(rs, Seen(l, rs))
    ensures forall k :: 0 <= k < |rs| ==>
              (SameSize(rs[k], Seen(l, rs)[k])
               <==> (rs[k].InodeRec? ==> SizeFound(l, rs, k) == DstreamIn(rs[k].fields)))
  {
    hide Storable, SizeFound, SizeField, DstreamIn;
    forall k | 0 <= k < |rs|
      ensures Similar(rs[k], Seen(l, rs)[k])
      ensures SameSize(rs[k], Seen(l, rs)[k])
         <==> (rs[k].InodeRec? ==> SizeFound(l, rs, k) == DstreamIn(rs[k].fields))
    {
      if rs[k].InodeRec? { SizeFieldSays(SizeFound(l, rs, k)); }
    }
  }

  /** Fields are cut in fixed-size nodes whose assumed size is at most 96 bytes.  */
  lemma CutUpTo96(l: Layout, rs: seq<FileRecord>)
    requires Storable(l, rs)
    ensures CutsFields(l, rs) <==> Fixed(l) && AssumedValueSize(l, Raw(rs)) <= 96
  {
    hide AssumedValueSize, Storable;
  }

  /** Where fields are cut every size is lost, and the node means the same exactly when it held none.  */
  lemma CutSizesAreLost(l: Layout, rs: seq<FileRecord>, b: Block)
    requires Storable(l, rs) && b == Encoded(l, Raw(rs)) && CutsFields(l, rs)
    ensures forall e :: e in NodeEvents(BUFFER_SIZE, b) ==> !HasSize(e)
    ensures NodeEvents(BUFFER_SIZE, b) == Meaning(Xid(b), rs) <==> forall r :: r in rs ==> !SaysSize(r)
  {
    SizesSurviveIff(l, rs, b);
    LaidOutNodeIsRead(l, rs, b);
    NothingSeen(l, rs);
    hide Storable, CutsFields, NodeEvents, Meaning, Encoded, DstreamIn, Xid, Seen;
    NoSizesInMeaning(Xid(b), Seen(l, rs));
    assert forall k :: 0 <= k < |rs| ==> rs[k] in rs;
  }

  lemma NothingSeen(l: Layout, rs: seq<FileRecord>)
    requires Storable(l, rs) && CutsFields(l, rs)
    ensures forall q :: q in Seen(l, rs) ==> !SaysSize(q)
  {
    var qs := Seen(l, rs);
    SizeFieldSays(None);
    hide Storable, CutsFields, SizeField, DstreamIn;
    forall q | q in qs ensures !SaysSize(q) {
      var k :| 0 <= k < |qs| && qs[k] == q;
      assert q == SeenRecord(l, rs, k);
    }
  }

  // ----- A disk that loses a size

  function FileRec(size: uint64): FileRecord {
    InodeRec(20, 2, Zeros(84), [XField(DSTREAM, 0, Enc64(size))], 8)
  }

  /** A fixed-size node that is no root, filled up to a block.  */
  function FixedBatch(xid: uint64, free: nat, rs: seq<FileRecord>): Batch {
    Batch(LeafLayout(xid, free).(flags := 4), rs)
  }

  lemma FixedIsWritable(xid: uint64, free: nat, rs: seq<FileRecord>)
    requires (forall r :: r in rs ==> Valid(r)) && Small(Raw(rs))
    requires NODE_HEADER + 4 * |rs| + KeysLength(Raw(rs)) + free + ValuesLength(Raw(rs)) == BUFFER_SIZE
    ensures Writable(FixedBatch(xid, free, rs)) && BatchXid(FixedBatch(xid, free, rs)) == xid
    ensures Fixed(FixedBatch(xid, free, rs).layout) && !Root(FixedBatch(xid, free, rs).layout)
  {
    ObjectHeaderParts(xid);
    RawLength(rs);
    FixedFills(xid, free, Raw(rs));
    hide Raw, Encoded, WellFormed, ObjectHeader, U32, U64, Valid;
  }

  lemma FixedFills(xid: uint64, free: nat, raw: seq<Record>)
    requires Small(raw)
    requires NODE_HEADER + 4 * |raw| + KeysLength(raw) + free + ValuesLength(raw) == BUFFER_SIZE
    ensures var l := LeafLayout(xid, free).(flags := 4); WellFormed(l, raw) && |Encoded(l, raw)| == BUFFER_SIZE
  {
    TableLengthIs(true, raw);
    var l := LeafLayout(xid, free).(flags := 4);
    assert Fixed(l) && !Root(l) && l.gap == l.slack == l.info == [] && |l.free| == free;
    assert |l.objectHeader| == 32 && |l.unused| == 12;
    hide LeafLayout, Fixed, Root, Table, KeysLength, ValuesLength, Encoded;
    EncodedLength(l, raw);
  }

  lemma FileRecBytes(size: uint64)
    ensures Valid(FileRec(size)) && |KeyBytes(FileRec(size))| == 8 && |ValueBytes(FileRec(size))| == 108
    ensures SizeInEnding(ValueBytes(FileRec(size))) == 0
  {
    hide Enc64, Zeros, U32, At;
    var r, v := FileRec(size), ValueBytes(FileRec(size));
    var blob := Serialised(r.fields, r.used);
    BlobLength(r.fields[0], 8);
    AtWhole(v);
    AtSplit(v, 0, Enc64(2), r.details + blob);
    AtSplit(v, 8, r.details, blob);
    ReadZeros(v, 8, r.details, 72);
  }

  /** A valid node that holds a file and its size, of which a scan recovers the file without the size.  */
  lemma FixedLeafLosesSize(xid: uint64, size: uint64) returns (w: Batch)
    ensures Writable(w) && BatchXid(w) == xid
    ensures Meaning(xid, w.records) == [InodeEvent(20, xid, 2, Some(size))]
    ensures BlockEvents(BUFFER_SIZE, SealedNode(w)) == [InodeEvent(20, xid, 2, None)]
  {
    w := FixedBatch(xid, 3920, [FileRec(size)]);
    FileRecBytes(size);
    OneLossyRecord(xid, size);
    FileRecMeaning(xid, size);
    SeenCut(w.layout, FileRec(size));
    assert w.records == [FileRec(size)];
    hide Writable, Storable, CutsFields, Meaning, BlockEvents, SealedNode, FixedBatch, FileRec, Sized, Seen, BatchXid;
    SealedNodeIsScanned(w);
  }

  lemma SeenCut(l: Layout, r: FileRecord)
    requires Storable(l, [r]) && CutsFields(l, [r])
    ensures Seen(l, [r]) == [Sized(r, None)]
  {
    hide Storable, CutsFields, DstreamIn, SizeField;
  }

  lemma FileRecMeaning(xid: uint64, size: uint64)
    ensures Meaning(xid, [FileRec(size)]) == [InodeEvent(20, xid, 2, Some(size))]
    ensures Meaning(xid, [Sized(FileRec(size), None)]) == [InodeEvent(20, xid, 2, None)]
  {
    SizeOfField(size);
    SizeFieldSays(None);
    hide Meaning, DstreamIn, Enc64, Zeros, SizeField;
    MeaningOfOne(xid, FileRec(size));
    MeaningOfOne(xid, Sized(FileRec(size), None));
  }

  lemma OneLossyRecord(xid: uint64, size: uint64)
    ensures var w := FixedBatch(xid, 3920, [FileRec(size)]);
            Writable(w) && BatchXid(w) == xid && CutsFields(w.layout, w.records)
  {
    FileRecBytes(size);
    var r := FileRec(size);
    var raw, w := Raw([r]), FixedBatch(xid, 3920, [r]);
    assert raw == [Record(KeyBytes(r), ValueBytes(r))];
    OneRecord(raw[0]);
    hide FileRec, KeyBytes, ValueBytes, KeysLength, ValuesLength, AssumedValueSize, SizeInEnding, LeafLayout, Encoded;
    FixedIsWritable(xid, 3920, [r]);
    LeafSizeIsReadFromValues(w.layout, raw);
  }

  // ----- A disk that makes one up

  /** An inode whose record, 28 bytes before its end, holds 200, and begins like extended fields.  */
  function Donor(size: uint64): FileRecord {
    InodeRec(20, 0x8_0000_0001, Enc64(size) + (Zeros(48) + (Enc32(200) + Zeros(24))), [], 0)
  }

  function Victim(): FileRecord { InodeRec(21, 2, Zeros(84), [], 0) }

  lemma DonorBytes(size: uint64)
    ensures |ValueBytes(Donor(size))| == INODE_VALUE && Valid(Donor(size))
    ensures SizeInEnding(ValueBytes(Donor(size))) == 200
    ensures Count(ValueBytes(Donor(size)), 0) == 1 && KindAt(ValueBytes(Donor(size)), 0, 0) == DSTREAM
    ensures U64(ValueBytes(Donor(size)), 8) == size
  {
    var v, parent := ValueBytes(Donor(size)), Enc64(0x8_0000_0001);
    assert parent == [1, 0, 0, 0, 8, 0, 0, 0];
    assert v == parent + Donor(size).details;
    assert U8(v, 0) == 1 && U8(v, 1) == 0 && U8(v, 4) == 8;
    hide Enc64, Enc32, Zeros, U32, U64, At, U8, ValueBytes;
    AtWhole(v);
    AtSplit(v, 0, parent, Enc64(size) + (Zeros(48) + (Enc32(200) + Zeros(24))));
    AtSplit(v, 8, Enc64(size), Zeros(48) + (Enc32(200) + Zeros(24)));
    AtSplit(v, 16, Zeros(48), Enc32(200) + Zeros(24));
    AtSplit(v, 64, Enc32(200), Zeros(24));
    ReadU64(v, 8, size);
    ReadU32(v, 64, 200);
  }

  /** Whatever the donor's value begins with is taken for the fields of a record laid out after it.  */
  lemma DonorIsTakenForFields(size: uint64)
    ensures var v := ValueBytes(Donor(size)); LastDstream(v, 0, Count(v, 0)) == Some(size)
  {
    DonorBytes(size);
    hide ValueBytes, U64, Count, KindAt;
    var v := ValueBytes(Donor(size));
    assert DataAddress(v, 0, 0) == 8;
  }

  lemma MadeUpIsLaidOut(xid: uint64, size: uint64) returns (w: Batch)
    ensures w.records == [Donor(size), Victim()]
    ensures Writable(w) && BatchXid(w) == xid && Fixed(w.layout) && !CutsFields(w.layout, w.records)
    ensures SizeFound(w.layout, w.records, 0) == None && SizeFound(w.layout, w.records, 1) == Some(size)
  {
    DonorBytes(size);
    var d, v := Donor(size), Victim();
    w := FixedBatch(xid, 3832, [d, v]);
    var raw := Raw([d, v]);
    assert raw == [Record(KeyBytes(d), ValueBytes(d)), Record(KeyBytes(v), ValueBytes(v))];
    TwoRecords(raw[0], raw[1]);
    hide Enc64, Zeros, ValueBytes, AssumedValueSize, SizeInEnding, LeafLayout, Encoded, Values, KeysLength,
      ValuesLength, SizeFound;
    FixedIsWritable(xid, 3832, [d, v]);
    LeafSizeIsReadFromValues(w.layout, raw);
    assert w.layout.info == [];
    SizesMadeUp(w.layout, size);
  }

  lemma SizesMadeUp(l: Layout, size: uint64)
    requires var rs := [Donor(size), Victim()]; Storable(l, rs) && Fixed(l) && !CutsFields(l, rs) && l.info == []
    ensures var rs := [Donor(size), Victim()]; SizeFound(l, rs, 0) == None && SizeFound(l, rs, 1) == Some(size)
  {
    DonorIsTakenForFields(size);
    ValuesBefore(size);
    assert LastDstream([], 0, Count([], 0)) == None;
    hide Raw, Enc64, Zeros, ValueBytes, Storable, CutsFields, Values, LastDstream, Count;
    var raw := Raw([Donor(size), Victim()]);
    assert Values(raw[..0]) + [] == [] && Values(raw[..1]) + [] == ValueBytes(Donor(size));
  }

  lemma ValuesBefore(size: uint64)
    ensures Valid(Donor(size)) && Valid(Victim())
    ensures var raw := Raw([Donor(size), Victim()]);
            |raw| == 2 && Values(raw[..0]) == [] && Values(raw[..1]) == ValueBytes(Donor(size))
  {
    DonorBytes(size);
    var d, v := Donor(size), Victim();
    hide Enc64, Enc32, Zeros, KeyBytes, ValueBytes, Values;
    var raw := Raw([d, v]);
    assert raw == [Record(KeyBytes(d), ValueBytes(d)), Record(KeyBytes(v), ValueBytes(v))];
    TwoRecords(raw[0], raw[1]);
  }

  /** A valid node that holds two inodes and no file size, of which a scan recovers one with whatever size the
      other's record begins with.  */
  lemma FixedLeafMakesUpSize(xid: uint64, size: uint64) returns (w: Batch)
    ensures Writable(w) && BatchXid(w) == xid
    ensures Meaning(xid, w.records) == [InodeEvent(20, xid, 0x8_0000_0001, None), InodeEvent(21, xid, 2, None)]
    ensures BlockEvents(BUFFER_SIZE, SealedNode(w))
         == [InodeEvent(20, xid, 0x8_0000_0001, None), InodeEvent(21, xid, 2, Some(size))]
  {
    w := MadeUpIsLaidOut(xid, size);
    DonorMeaning(xid, size);
    SeenMadeUp(w.layout, size);
    hide Writable, Storable, Meaning, BlockEvents, SealedNode, BatchXid, SizeFound, Donor, Victim, Seen, Sized,
      CutsFields;
    SealedNodeIsScanned(w);
  }

  lemma SeenMadeUp(l: Layout, size: uint64)
    requires var rs := [Donor(size), Victim()];
             Storable(l, rs) && SizeFound(l, rs, 0) == None && SizeFound(l, rs, 1) == Some(size)
    ensures Seen(l, [Donor(size), Victim()]) == [Donor(size), Sized(Victim(), Some(size))]
  {
    assert DstreamIn([]) == None;
    hide Storable, SizeFound, SizeField, DstreamIn, Enc64, Zeros, Enc32;
    var rs := [Donor(size), Victim()];
    assert SeenRecord(l, rs, 0) == Donor(size) && SeenRecord(l, rs, 1) == Sized(Victim(), Some(size));
  }

  lemma DonorMeaning(xid: uint64, size: uint64)
    ensures var d := InodeEvent(20, xid, 0x8_0000_0001, None);
            && Meaning(xid, [Donor(size), Victim()]) == [d, InodeEvent(21, xid, 2, None)]
            && Meaning(xid, [Donor(size), Sized(Victim(), Some(size))]) == [d, InodeEvent(21, xid, 2, Some(size))]
  {
    SizeFieldSays(Some(size));
    assert DstreamIn([]) == None;
    hide Meaning, DstreamIn, Enc64, Enc32, Zeros, SizeField;
    MeaningOfTwo(xid, Donor(size), Victim());
    MeaningOfTwo(xid, Donor(size), Sized(Victim(), Some(size)));
  }

  lemma TwoRecords(a: Record, b: Record)
    ensures KeysLength([a, b]) == |a.key| + |b.key| && ValuesLength([a, b]) == |a.value| + |b.value|
    ensures Values([a, b][..0]) == [] && Values([a, b][..1]) == a.value
  {
    assert [a, b][..1] == [a] && [a][..0] == [] && [a, b][..0] == [];
    OneRecord(a);
    assert Values([a]) == a.value + [];
  }
}

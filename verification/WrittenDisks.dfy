/** From what transactions wrote to what a reader gets: files recoverable from the records alone, and one
    disk on which everything can be seen at work.  */
module WrittenDisks {
  import opened Bytes
  import opened Wrappers
  import opened Seqs
  import opened Merge
  import opened Node
  import opened NodeLayout
  import opened XFields
  import opened FileRecords
  import opened SealedNodes
  import opened Stream
  import opened Arrival
  import opened Tables
  import opened Reassembly
  import opened Tree
  import opened Paths
  import opened Recovery
  import Register

  ghost function Written(batches: seq<Batch>): seq<Event> { FlatMap(batches, BatchMeaning()) }

  ghost function WritesOfBatch(x: Inode, f: Field): Batch -> Option<Register.Write<FieldValue>> {
    Register.Collapsed(BatchMeaning(), AttributeWrites(x, f))
  }

  ghost predicate SettledBatches(batches: seq<Batch>, x: Inode, f: Field) {
    Register.Settled(batches, WritesOfBatch(x, f), FieldOf(BLANK_ROW, f))
  }

  /** Whatever could bear the next part of the path, under an inode that the parts before it lead to, has its
      parent and its name settled.  */
  ghost predicate PathWritten(batches: seq<Batch>, d: Inode, parts: seq<Name>) {
    var rows, events := RowsOf(Run(map[], Written(batches))), Written(batches);
    forall k, y, x :: 0 <= k < |parts| && Spells(rows, d, parts[..k], y) && Claimed(events, x, y, parts[k]) ==>
      SettledBatches(batches, x, Parent) && SettledBatches(batches, x, FileName)
  }

  /** Judging by the records: the path is settled and leads to x, and x is a recoverable file.  */
  ghost predicate FileWritten(disk: seq<byte>, batches: seq<Batch>, parts: seq<Name>, x: Inode, length: uint64) {
    && PathWritten(batches, ROOT_DIR, parts)
    && Leads(RowsOf(Run(map[], Written(batches))), parts, x)
    && Recoverable(disk, Written(batches), x, length)
  }

  lemma SettledOnDisk(sectors: seq<Sector>, batches: seq<Batch>, x: Inode, f: Field)
    requires Holds(sectors, batches) && SettledBatches(batches, x, f)
    ensures SettledBlocks(BUFFER_SIZE, sectors, x, f)
  {
    hide BatchMeaning, BlockEvents, Writable, SealedNode, Register.Settled, Register.Collapse;
    forall k | 0 <= k < |batches|
      ensures BlockWrites(BUFFER_SIZE, x, f)(sectors[k]) == WritesOfBatch(x, f)(batches[k])
    {
      SealedNodeIsScanned(batches[k]);
    }
    Register.SettledAlike(batches, sectors, WritesOfBatch(x, f), BlockWrites(BUFFER_SIZE, x, f), FieldOf(BLANK_ROW, f));
  }

  /** What the records say can be recovered, the bytes of a disk that holds them say as well.  */
  lemma WrittenIsRecoverable(
    disk: seq<byte>, sectors: seq<Sector>, batches: seq<Batch>, i: Inode, length: uint64)
    requires Holds(sectors, batches)
    ensures ReadsTheSame(INITIAL, sectors) && DiskEvents(sectors) == Written(batches)
    ensures Recoverable(disk, DiskEvents(sectors), i, length) <==> Recoverable(disk, Written(batches), i, length)
  {
    hide Holds, Recoverable, OneSize, ReadsTheSame, StreamFits, Recovered;
    DiskMeansItsRecords(sectors, batches);
    EventsOfBatches(sectors, batches);
  }

  lemma WrittenPathIsRecoverable(
    disk: seq<byte>, sectors: seq<Sector>, batches: seq<Batch>, parts: seq<Name>, x: Inode, length: uint64)
    requires Holds(sectors, batches) && FileWritten(disk, batches, parts, x, length)
    ensures PathRecoverable(disk, sectors, parts, x, length)
  {
    hide Holds, Leads, Recoverable, Run, OneSize, ReadsTheSame, StreamFits, PathWritten, PathSettled;
    WrittenIsRecoverable(disk, sectors, batches, x, length);
    DiskMeansItsRecords(sectors, batches);
    PathOnDisk(sectors, batches, parts);
  }

  lemma PathOnDisk(sectors: seq<Sector>, batches: seq<Batch>, parts: seq<Name>)
    requires Holds(sectors, batches) && PathWritten(batches, ROOT_DIR, parts) && StreamFits(INITIAL, sectors)
    requires DiskEvents(sectors) == Written(batches)
    requires Recovered(INITIAL, sectors) == Run(map[], Written(batches))
    ensures PathSettled(INITIAL, sectors, ROOT_DIR, parts)
  {
    hide Holds, SettledBatches, SettledBlocks, Spells, Claimed, Run, StreamFits, Recovered;
    forall x | SettledBatches(batches, x, Parent) && SettledBatches(batches, x, FileName)
      ensures SettledBlocks(BUFFER_SIZE, sectors, x, Parent) && SettledBlocks(BUFFER_SIZE, sectors, x, FileName)
    {
      SettledOnDisk(sectors, batches, x, Parent);
      SettledOnDisk(sectors, batches, x, FileName);
    }
  }

  /** Everything from the records to the reader: transactions write sealed nodes of whatever layout, the nodes
      are scanned in any order, and a file that what is seen of the records settles is read back by path, in
      chunks, as the disk bytes that its newest extents map.  */
  method RecoverWrittenFile(
    disk: seq<byte>, sectors: seq<Sector>, ghost original: seq<Sector>, ghost batches: seq<Batch>,
    oldEntries: map<Inode, Row>, oldExtents: seq<ExtentRow>, parts: seq<Name>,
    ghost x: Inode, ghost length: uint64, chunk: nat, n: nat)
    returns (found: bool, content: seq<byte>, ghost chunks: seq<seq<byte>>)
    requires Permuted(sectors, original) && Holds(original, batches)
    requires FileWritten(disk, batches, parts, x, length)
    requires forall r :: r in oldExtents ==> r.inode in oldEntries
    requires |disk| < TWO_TO_THE_63 && 0 <= n * chunk < TWO_TO_THE_63 && chunk < TWO_TO_THE_63
    ensures found && |chunks| == n && content == Joined(chunks)
    ensures var extents := NewestExtents(Written(batches), x);
            && ChunksOf(disk, extents, length, chunk, chunks)
            && (Untied(extents) ==> IsRead(disk, extents, length, n * chunk, content))
  {
    hide ChunksOf, Joined, Untied, Holds, PathRecoverable, NewestExtents, IsRead, FileWritten;
    WrittenPathIsRecoverable(disk, original, batches, parts, x, length);
    WrittenIsRecoverable(disk, original, batches, x, length);
    found, content, chunks := RecoverFile(
      disk, sectors, original, oldEntries, oldExtents, parts, x, length, chunk, n);
  }

  // ----- A disk that meets all of this

  /** One transaction writes the root directory with a file called "a" in it ...  */
  function RootRecords(): seq<FileRecord> {
    [InodeRec(2, 1, Zeros(84), [], 0), DirRec(2, 0, [0x61], 20, 0, 8, [])]
  }

  /** ... and the file, whose two extents of 4096 bytes are there whatever its size.  */
  function ContentRecords(size: uint64): seq<FileRecord> {
    [InodeRec(20, 2, Zeros(84), [XField(DSTREAM, 0, Enc64(size))], 8),
     ExtentRec(20, 0, 4096, 0, 0), ExtentRec(20, 4096, 4096, 1, 0)]
  }

  function RootLeaf(): Batch { LeafBatch(5, RootRecords()) }

  function FileLeaf(size: uint64): Batch { LeafBatch(5, ContentRecords(size)) }

  function Sample(size: uint64): seq<Batch> { [RootLeaf(), FileLeaf(size)] }

  const PATH: seq<Name> := [[0x61]]

  const EXTENTS := [Extent(0, 0, 4096), Extent(4096, 1, 4096)]

  function RootEvents(): seq<Event> { [InodeEvent(2, 5, 1, None), DirEvent(20, 5, Some(2), [0x61], 8)] }

  function FileEvents(size: uint64): seq<Event> {
    [InodeEvent(20, 5, 2, Some(size)), ExtentEvent(20, 5, EXTENTS[0]), ExtentEvent(20, 5, EXTENTS[1])]
  }

  function SampleEvents(size: uint64): seq<Event> { RootEvents() + FileEvents(size) }

  lemma SampleMeaning(size: uint64)
    ensures Writable(RootLeaf()) && BatchMeaning()(RootLeaf()) == RootEvents()
    ensures Writable(FileLeaf(size)) && BatchMeaning()(FileLeaf(size)) == FileEvents(size)
    ensures Written(Sample(size)) == SampleEvents(size)
  {
    RootMeaning();
    FileMeaning(size);
    RootFits();
    FileFits(size);
    hide Meaning, BatchMeaning, Writable, FitsInBlock, RootRecords, ContentRecords, LeafBatch, FlatMap;
    LeafIsWritable(5, RootRecords());
    LeafIsWritable(5, ContentRecords(size));
    FlatMapTwo(RootLeaf(), FileLeaf(size), BatchMeaning());
  }

  lemma RootMeaning()
    ensures Meaning(5, RootRecords()) == RootEvents()
  {
    hide Meaning;
    var rs := RootRecords();
    MeaningOfOneGroup(5, rs, 2);
    assert rs[..1] == [rs[0]] && rs[..1][..0] == [];
    assert GroupMeaning(5, rs[..1][..0]) == [];
    assert GroupMeaning(5, rs[..1]) == [] + [RootEvents()[0]];
    assert rs[0] in rs[..1];
  }

  lemma FileMeaning(size: uint64)
    ensures Meaning(5, ContentRecords(size)) == FileEvents(size)
  {
    hide Meaning, Enc64, DstreamIn;
    SizeOfField(size);
    var rs, es := ContentRecords(size), FileEvents(size);
    MeaningOfOneGroup(5, rs, 20);
    assert rs[..2][..1] == [rs[0]] && rs[..2][..1][..0] == [];
    assert GroupMeaning(5, rs[..2][..1][..0]) == [];
    assert GroupMeaning(5, rs[..2][..1]) == [] + [es[0]];
    assert rs[0] in rs[..2][..1] && rs[0] in rs[..2];
    assert GroupMeaning(5, rs[..2]) == [es[0]] + [es[1]];
  }

  lemma RootFits()
    ensures FitsInBlock(RootRecords())
  {
    hide Zeros, Used;
    var rs := RootRecords();
    assert rs == [rs[0]] + [rs[1]];
    SizesOfOne(rs[0]);
    SizesAdd([rs[0]], rs[1]);
  }

  lemma FileFits(size: uint64)
    ensures FitsInBlock(ContentRecords(size))
  {
    hide Enc64, Zeros, Used;
    var rs := ContentRecords(size);
    assert rs == ([rs[0]] + [rs[1]]) + [rs[2]];
    BlobLength(rs[0].fields[0], 8);
    SizesOfOne(rs[0]);
    SizesAdd([rs[0]], rs[1]);
    SizesAdd([rs[0]] + [rs[1]], rs[2]);
  }

  // ----- Its file is recoverable

  lemma SampleRows(size: uint64)
    ensures var entries := Run(map[], SampleEvents(size));
            && entries.Keys == {2, 20} && entries[2].row.parentId == 1
            && entries[20].row.parentId == 2 && entries[20].row.name == PATH[0]
  {
    var s, t := RootEvents(), FileEvents(size);
    RunConcat(map[], s, t);
    RunTwo(s[0], s[1]);
    var before := Run(map[], s);
    assert t[..2][..1] == [t[0]];
    RunOne(before, t[0]);
    assert Run(before, t[..2]) == Apply(Run(before, t[..2][..1]), t[1]);
  }

  lemma SampleLeads(size: uint64)
    ensures Leads(RowsOf(Run(map[], SampleEvents(size))), PATH, 20)
  {
    SampleRows(size);
    hide Run, SampleEvents;
    var rows := RowsOf(Run(map[], SampleEvents(size)));
    assert PATH[..|PATH| - 1] == [];
    assert Named(rows, 20, ROOT_DIR, PATH[0]);
    assert Spells(rows, ROOT_DIR, [], ROOT_DIR) && UniqueAlong(rows, ROOT_DIR, []);
    forall x, y, z | Spells(rows, ROOT_DIR, [], z) && Named(rows, x, z, PATH[0]) && Named(rows, y, z, PATH[0])
      ensures x == y
    {
      assert x in {2, 20} && y in {2, 20};
    }
    assert UniqueStep(rows, ROOT_DIR, [], PATH[0]);
  }

  lemma SampleIsSettled(size: uint64, x: Inode, y: Inode)
    requires Claimed(SampleEvents(size), x, y, PATH[0])
    ensures SettledBatches(Sample(size), x, Parent) && SettledBatches(Sample(size), x, FileName)
  {
    OnlyTheFileIsClaimed(size, x, y);
    forall f | f == Parent || f == FileName
      ensures SettledBatches(Sample(size), 20, f)
    {
      SampleWrites(size, f);
      hide BatchMeaning, Register.Collapse, RootLeaf, FileLeaf;
      SettledPair(RootLeaf(), FileLeaf(size), WritesOfBatch(20, f), 5, FieldOf(BLANK_ROW, f));
    }
  }

  lemma OnlyTheFileIsClaimed(size: uint64, x: Inode, y: Inode)
    requires Claimed(SampleEvents(size), x, y, PATH[0])
    ensures x == 20
  {
  }

  lemma SampleWrites(size: uint64, f: Field)
    requires f == Parent || f == FileName
    ensures var v := if f == Parent then Number(2) else Text(PATH[0]);
            && WritesOfBatch(20, f)(RootLeaf()) == Some(Register.Write(5, Some(v)))
            && WritesOfBatch(20, f)(FileLeaf(size))
               == Some(Register.Write(5, if f == Parent then Some(v) else None))
  {
    SampleMeaning(size);
    EventWrites(size, f);
    hide BatchMeaning, Register.Collapse;
  }

  lemma EventWrites(size: uint64, f: Field)
    requires f == Parent || f == FileName
    ensures var v, w := if f == Parent then Number(2) else Text(PATH[0]), AttributeWrites(20, f);
            && Register.Collapse(RootEvents(), w) == Some(Register.Write(5, Some(v)))
            && Register.Collapse(FileEvents(size), w) == Some(Register.Write(5, if f == Parent then Some(v) else None))
  {
    var w, s, t := AttributeWrites(20, f), RootEvents(), FileEvents(size);
    hide Register.Collapse;
    Register.CollapseTwo(s[0], s[1], w);
    Register.CollapseFirst(t[0], t[1], t[2], w);
  }

  /** Two writes of one transaction, the first of which sets the value and the second no other.  */
  lemma SettledPair<B, T>(a: B, b: B, w: B -> Option<Register.Write<T>>, xid: nat, init: T)
    requires w(a).Some? && w(a).value.xid == xid && w(a).value.value.Some?
    requires w(b).Some? && w(b).value.xid == xid && (w(b).value.value.None? || w(b) == w(a))
    ensures Register.Settled([a, b], w, init)
  {
    assert a in [a, b];
    Register.NewestIsMaximum([a, b], w);
    hide Register.Newest;
    assert Register.Writes(a, w) && Register.SetsNewest([a, b], a, w);
  }

  lemma SampleExtents(size: uint64)
    ensures NewestExtents(SampleEvents(size), 20) == EXTENTS
  {
    var s, t := RootEvents(), FileEvents(size);
    var es, f := s + t, ExtentsOfEvent(20, 5);
    hide Register.Newest, FlatMap;
    assert NewestExtent(es, 20) == 5 by { NewestIsFive(es, ExtentWrites(20), es[3]); }
    FlatMapConcat(s, t, f);
    FlatMapTwo(s[0], s[1], f);
    FlatMapThree(t[0], t[1], t[2], f);
  }

  lemma SampleLength(size: uint64)
    ensures LengthSettled(SampleEvents(size), 20, size)
  {
    var es := SampleEvents(size);
    hide Register.Newest;
    assert NewestAttribute(es, 20) == 5 by { NewestIsFive(es, AttributeWrites(20, Parent), es[2]); }
    assert SaysLength(es, es[2], 20);
  }

  lemma NewestIsFive<T>(es: seq<Event>, w: Event -> Option<Register.Write<T>>, e: Event)
    requires forall x :: x in es && Register.Writes(x, w) ==> w(x).value.xid == 5
    requires e in es && Register.Writes(e, w)
    ensures Register.Newest(es, w) == 5
  {
    Register.NewestIsMaximum(es, w);
  }

  lemma TwoExtents(disk: seq<byte>, size: uint64)
    requires size <= 8192 <= |disk| - VOLUME_BASE
    ensures Readable(disk, EXTENTS, size) && Separate(EXTENTS, size) && Untied(EXTENTS)
    ensures StartInside(EXTENTS, size) <==> 4096 < size
  {
    assert Separate(EXTENTS, size) by {
      ContiguousFits(EXTENTS, size);
      hide InFileOrder, WritesFit;
      assert Permuted(EXTENTS, EXTENTS);
    }
    hide Separate, Safe, Untied;
    SeparateIsSafe(EXTENTS, size);
    SeparateIsUntied(EXTENTS, size);
    TwoOnDisk(disk, size);
  }

  lemma TwoOnDisk(disk: seq<byte>, size: uint64)
    requires size <= 8192 <= |disk| - VOLUME_BASE
    ensures OnDisk(disk, EXTENTS, size) && (StartInside(EXTENTS, size) <==> 4096 < size)
  {
    assert EXTENTS[0] in EXTENTS && EXTENTS[1] in EXTENTS;
  }

  /** The records of the sample tell how to recover its file, whatever its size up to the 8192 bytes mapped;
      up to 4096, its second extent starts at or after its end.  */
  lemma SampleFileIsWritten(disk: seq<byte>, size: uint64)
    requires size <= 8192 <= |disk| - VOLUME_BASE
    ensures FileWritten(disk, Sample(size), PATH, 20, size)
    ensures NewestExtents(Written(Sample(size)), 20) == EXTENTS
    ensures Separate(EXTENTS, size) && Untied(EXTENTS) && (StartInside(EXTENTS, size) <==> 4096 < size)
  {
    hide Separate, Untied, Written, Sample, NewestExtents, LengthSettled, Readable, Leads, Run, PathWritten,
      SampleEvents, StartInside;
    SampleMeaning(size);
    SamplePathIsSettled(size);
    SampleLeads(size);
    SampleExtents(size);
    SampleLength(size);
    TwoExtents(disk, size);
  }

  lemma SamplePathIsSettled(size: uint64)
    ensures PathWritten(Sample(size), ROOT_DIR, PATH)
  {
    SampleMeaning(size);
    hide Written, Sample, Claimed, Run, Spells, SettledBatches, SampleEvents, BatchMeaning, Writable;
    var b, events := Sample(size), SampleEvents(size);
    var rows := RowsOf(Run(map[], events));
    forall k, y, x | 0 <= k < |PATH| && Spells(rows, ROOT_DIR, PATH[..k], y) && Claimed(events, x, y, PATH[k])
      ensures SettledBatches(b, x, Parent) && SettledBatches(b, x, FileName)
    {
      SampleIsSettled(size, x, y);
    }
  }

  lemma SampleContent(disk: seq<byte>, size: uint64, content: seq<byte>)
    requires size <= 8192 <= |disk| - VOLUME_BASE && IsFile(disk, EXTENTS, size, content)
    ensures content == disk[VOLUME_BASE..VOLUME_BASE + size]
  {
    forall k: nat | k < size ensures content[k] == disk[VOLUME_BASE + k] {
      var e := EXTENTS[k / 4096];
      assert e in EXTENTS && Contains(e, k) && DiskPosition(e, k) == VOLUME_BASE + k;
      assert content[k - 0] == disk[VOLUME_BASE + k];
    }
  }

  /** The two blocks of the sample, in either order.  */
  method WriteSample(size: uint64, rootFirst: bool) returns (sectors: seq<Sector>, ghost original: seq<Sector>)
    ensures Holds(original, Sample(size)) && Permuted(sectors, original)
  {
    SampleMeaning(size);
    hide RootLeaf, FileLeaf, SealedNode, Writable, Holds;
    var a, b := NodeSector(0, RootLeaf()), NodeSector(4096, FileLeaf(size));
    HoldsTwo(a, b, RootLeaf(), FileLeaf(size));
    original := [a, b];
    sectors := if rootFirst then [a, b] else [b, a];
  }

  /** Write the sample, scan its blocks in either order, and read /a: the file's bytes come back when there
      are more than 4096.  Otherwise the code returns nothing at all, although every byte is mapped.  */
  method ReadSample(disk: seq<byte>, size: uint64, rootFirst: bool, chunk: nat, n: nat)
    returns (found: bool, content: seq<byte>)
    requires size <= 8192 <= |disk| - 0xC80_5000 && |disk| < TWO_TO_THE_63
    requires 0 <= n * chunk < TWO_TO_THE_63 && chunk < TWO_TO_THE_63
    ensures found
    ensures 4096 < size <= n * chunk ==> content == disk[0xC80_5000..0xC80_5000 + size]
    ensures size <= 4096 ==> content == []
  {
    SampleFileIsWritten(disk, size);
    hide ChunksOf, Joined, Sample, FileWritten, NewestExtents, Written, IsFile, Holds, StartInside,
      Permuted, Separate, Untied, IsPart;
    var sectors, original := WriteSample(size, rootFirst);
    ghost var chunks;
    found, content, chunks := RecoverWrittenFile(
      disk, sectors, original, Sample(size), map[], [], PATH, 20, size, chunk, n);
    PiecesAreTheAnswer(disk, EXTENTS, size, 0, n * chunk, content);
    if 4096 < size <= n * chunk {
      SampleContent(disk, size, content);
    }
  }
}

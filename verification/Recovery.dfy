/** End to end: scan a damaged disk in whatever order, reopen the database, read a file back.  */
module Recovery {
  import opened Bytes
  import opened Wrappers
  import opened Seqs
  import opened Merge
  import opened Node
  import opened Stream
  import opened Arrival
  import opened Reassembly
  import opened Tables
  import opened Tree
  import opened Paths
  import opened Store
  import opened Scanner
  import Register

  /** The events of all sectors, at the standard block size.  */
  ghost function DiskEvents(sectors: seq<Sector>): seq<Event> {
    FlatMap(sectors, EventsIn(BUFFER_SIZE))
  }

  /** The newest transaction about i has an INODE record that carries length L, and none with another.  */
  ghost predicate LengthSettled(events: seq<Event>, i: Inode, length: uint64) {
    && (exists e :: e in events && SaysLength(events, e, i) && e.size == Some(length))
    && forall e :: e in events && SaysLength(events, e, i) ==> e.size == Some(length)
  }

  predicate SaysLength(events: seq<Event>, e: Event, i: Inode) {
    e.InodeEvent? && e.inode == i && e.xid == NewestAttribute(events, i) && e.size.Some?
  }

  ghost function NewestExtents(events: seq<Event>, i: Inode): seq<Extent> {
    ExtentsAt(events, i, NewestExtent(events, i))
  }

  /** The file's length is settled, and its newest attached extents can be read.  */
  ghost predicate Recoverable(disk: seq<byte>, events: seq<Event>, i: Inode, length: uint64) {
    LengthSettled(events, i, length) && Readable(disk, NewestExtents(events, i), length)
  }

  lemma SettledLengthIsFinal(events: seq<Event>, i: Inode, length: uint64)
    requires LengthSettled(events, i, length)
    ensures i in Run(map[], events) && Run(map[], events)[i].row.length == length
  {
    var w := AttributeWrites(i, Length);
    var e :| e in events && SaysLength(events, e, i) && e.size == Some(length);
    NewestForAnyField(events, i, Length);
    forall y | y in events && Register.SetsNewest(events, y, w) ensures w(y).value.value == w(e).value.value {
      assert SaysLength(events, y, i);
    }
    assert Register.SetsNewest(events, e, w);
    Register.NewestSetterWins(InitialRegister(Length), events, w, e);
    AttributesAreRegisters(events, i, Length);
    EntriesAreTheInodesSeen(events, i);
  }

  lemma LengthSettledInAnyOrder(s: seq<Event>, t: seq<Event>, i: Inode, length: uint64)
    requires Permuted(t, s) && LengthSettled(s, i, length)
    ensures LengthSettled(t, i, length)
  {
    PermutedElements(t, s);
    Register.NewestPermuted(s, t, AttributeWrites(i, Parent));
    var e :| e in s && SaysLength(s, e, i) && e.size == Some(length);
    assert e in t && SaysLength(t, e, i);
    forall e | e in t && SaysLength(t, e, i) ensures e.size == Some(length) {
      assert e in s && SaysLength(s, e, i);
    }
  }

  lemma NewestExtentsInAnyOrder(s: seq<Event>, t: seq<Event>, i: Inode)
    requires Permuted(t, s)
    ensures Permuted(NewestExtents(t, i), NewestExtents(s, i))
  {
    Register.NewestPermuted(s, t, ExtentWrites(i));
    FlatMapPermuted(t, s, ExtentsOfEvent(i, NewestExtent(s, i)));
  }

  /** Whatever the order of arrival, the entry for i ends up with the settled length and the newest extents.  */
  lemma RecoveredEntry(disk: seq<byte>, events: seq<Event>, arrived: seq<Event>, i: Inode, length: uint64)
    requires Permuted(arrived, events) && Recoverable(disk, events, i, length)
    ensures i in Run(map[], arrived)
    ensures var v := Run(map[], arrived)[i];
            v.row.length == length && Permuted(v.extents, NewestExtents(events, i))
  {
    LengthSettledInAnyOrder(events, arrived, i, length);
    SettledLengthIsFinal(arrived, i, length);
    ExtentsKeepNewest(arrived, i);
    NewestExtentsInAnyOrder(events, arrived, i);
  }

  /** The scanning program.  It opens the database and clears it; the tables it leaves behind hold exactly
      the entries that the run of events amounts to, whatever they held before.  */
  method ScanDisk(sectors: seq<Sector>, oldEntries: map<Inode, Row>, oldExtents: seq<ExtentRow>)
    returns (entryTable: map<Inode, Row>, extentTable: seq<ExtentRow>)
    requires StreamFits(INITIAL, sectors)
    requires forall r :: r in oldExtents ==> r.inode in oldEntries
    ensures TablesHold(entryTable, extentTable, Recovered(INITIAL, sectors))
  {
    var fs := new FileSystem(oldEntries, oldExtents);
    fs.Clear();
    var scanner := new APFSScanner(fs);
    assert fs.Entries() == map[];
    hide StreamFits, StreamEvents, Run, TablesHold, FileSystem.Entries, FileSystem.ValidExcept;
    scanner.Scan(sectors);
    fs.TablesHoldEntries();
    entryTable, extentTable := fs.entryTable, fs.extentTable;
  }

  /** The file system program, started afresh over the tables: what it reads depends only on the row of i
      and, whatever order the database returns them in, its extent rows.  */
  method ReadBack(
    disk: seq<byte>, entryTable: map<Inode, Row>, extentTable: seq<ExtentRow>, i: Inode,
    buffer: array<byte>, offset: nat, size: nat) returns (count: nat)
    requires i in entryTable && forall r :: r in extentTable ==> r.inode in entryTable
    requires Readable(disk, RowsFor(extentTable, i), entryTable[i].length) && |disk| < TWO_TO_THE_63
    requires size <= buffer.Length && offset < TWO_TO_THE_63 && size < TWO_TO_THE_63
    modifies buffer
    ensures count <= size
    ensures IsPart(disk, RowsFor(extentTable, i), entryTable[i].length, offset, size, buffer[..count])
    ensures forall k :: count <= k < buffer.Length ==> buffer[k] == old(buffer[k])
  {
    hide IsPart, RowsFor, Readable, Permuted;
    var fs := new FileSystem(entryTable, extentTable);
    var entry := fs.FindByInode(i);
    count := ReadEntry(disk, fs, entry, i, buffer, offset, size);
  }

  /** Reading through an entry that mirrors the tables, which it still does afterwards.  */
  method ReadEntry(
    disk: seq<byte>, fs: FileSystem, entry: Entry, ghost i: Inode,
    buffer: array<byte>, offset: nat, size: nat) returns (count: nat)
    requires fs.Valid() && fs.InSync(entry, i)
    requires Readable(disk, RowsFor(fs.extentTable, i), fs.entryTable[i].length) && |disk| < TWO_TO_THE_63
    requires size <= buffer.Length && offset < TWO_TO_THE_63 && size < TWO_TO_THE_63
    modifies entry`extents, buffer
    ensures fs.Valid() && fs.InSync(entry, i)
    ensures count <= size
    ensures IsPart(disk, RowsFor(fs.extentTable, i), fs.entryTable[i].length, offset, size, buffer[..count])
    ensures forall k :: count <= k < buffer.Length ==> buffer[k] == old(buffer[k])
  {
    hide RowsFor, Safe, SortedByAddress, AllRead, OnDisk, HoldsPieces, Permuted;
    ghost var xs, length := RowsFor(fs.extentTable, i), entry.length;
    SamePermutation(entry.extents, xs, xs);
    AnswersIgnoreStoredOrder(disk, xs, entry.extents, length, offset, size, []);
    ghost var stored := entry.extents;
    count := fs.Read(disk, entry, buffer, offset, size);
    SamePermutation(entry.extents, stored, xs);
    assert Arranges(entry.extents, xs) && IsPartOf(disk, entry.extents, length, offset, size, buffer[..count]);
  }

  lemma SamePermutation(a: seq<Extent>, b: seq<Extent>, c: seq<Extent>)
    requires (Permuted(a, b) || Permuted(b, a)) && (Permuted(b, c) || Permuted(c, b) || b == c)
    ensures Permuted(a, c) && Permuted(c, a)
  {
  }

  /** Scan the sectors in the order they arrive, over whatever the database held, then open it afresh and
      read part of file i.  `sectors` may be any rearrangement of `original`: what comes back is what the
      newest extents in `original` map on the disk.  */
  method RecoverAndRead(
    disk: seq<byte>, sectors: seq<Sector>, ghost original: seq<Sector>,
    oldEntries: map<Inode, Row>, oldExtents: seq<ExtentRow>, i: Inode, ghost length: uint64,
    buffer: array<byte>, offset: nat, size: nat) returns (count: nat)
    requires Permuted(sectors, original) && ReadsAlike(INITIAL, original)
    requires forall r :: r in oldExtents ==> r.inode in oldEntries
    requires Recoverable(disk, DiskEvents(original), i, length) && |disk| < TWO_TO_THE_63
    requires size <= buffer.Length && offset < TWO_TO_THE_63 && size < TWO_TO_THE_63
    modifies buffer
    ensures count <= size
    ensures IsPart(disk, NewestExtents(DiskEvents(original), i), length, offset, size, buffer[..count])
    ensures forall k :: count <= k < buffer.Length ==> buffer[k] == old(buffer[k])
  {
    RecoveredFile(disk, sectors, original, i, length);
    ghost var xs := NewestExtents(DiskEvents(original), i);
    hide Recoverable, NewestExtents, Recovered, ReadsAlike, StreamFits, IsPart, Readable, RowsFor;
    var entryTable, extentTable := ScanDisk(sectors, oldEntries, oldExtents);
    ghost var rows := RowsFor(extentTable, i);
    AnswersIgnoreStoredOrder(disk, xs, rows, length, offset, size, []);
    count := ReadBack(disk, entryTable, extentTable, i, buffer, offset, size);
    AnswersIgnoreStoredOrder(disk, xs, rows, length, offset, size, buffer[..count]);
  }

  lemma RecoveredFile(disk: seq<byte>, sectors: seq<Sector>, original: seq<Sector>, i: Inode, length: uint64)
    requires Permuted(sectors, original) && ReadsAlike(INITIAL, original)
    requires Recoverable(disk, DiskEvents(original), i, length)
    ensures StreamFits(INITIAL, sectors) && i in Recovered(INITIAL, sectors)
    ensures var v, xs := Recovered(INITIAL, sectors)[i], NewestExtents(DiskEvents(original), i);
            v.row.length == length && Permuted(v.extents, xs) && Readable(disk, xs, length)
  {
    hide ReadsAlike;
    ArrivalOrderDoesNotMatter(INITIAL, original, sectors);
    RecoveredEntry(disk, DiskEvents(original), StreamEvents(INITIAL, sectors), i, length);
  }

  // ----- By path

  /** Whatever the path leads to is a readable file.  */
  ghost predicate CanServe(
    disk: seq<byte>, entryTable: map<Inode, Row>, extentTable: seq<ExtentRow>, parts: seq<Name>)
  {
    && ROOT_DIR in entryTable
    && forall x :: Spells(entryTable, ROOT_DIR, parts, x) ==>
         x in entryTable && Readable(disk, RowsFor(extentTable, x), entryTable[x].length)
  }

  /** The file system's read callback: resolve the path, then read.  What is read is a file that the path
      leads to, and the only one if names are unique along it.  The callback can be called again and again:
      the cache has grown and an entry's extents may have been sorted, but nothing is lost.  */
  method ReadPath(
    disk: seq<byte>, fs: FileSystem, parts: seq<Name>, buffer: array<byte>, offset: nat, size: nat)
    returns (found: bool, count: nat, ghost x: Inode)
    requires fs.Valid() && CanServe(disk, fs.entryTable, fs.extentTable, parts) && |disk| < TWO_TO_THE_63
    requires size <= buffer.Length && offset < TWO_TO_THE_63 && size < TWO_TO_THE_63
    modifies fs`diskEntries, fs.diskEntries.Values, buffer
    ensures fs.Valid() && fs.CacheGrew()
    ensures count <= size && (!found ==> count == 0 && DeadEnd(fs.entryTable, ROOT_DIR, parts))
    ensures found ==>
              && x in fs.entryTable && Spells(fs.entryTable, ROOT_DIR, parts, x)
              && IsPart(disk, RowsFor(fs.extentTable, x), fs.entryTable[x].length, offset, size, buffer[..count])
    ensures UniqueAlong(fs.entryTable, ROOT_DIR, parts) ==>
              forall y :: Spells(fs.entryTable, ROOT_DIR, parts, y) ==> found && x == y
    ensures forall k :: count <= k < buffer.Length ==> buffer[k] == old(buffer[k])
  {
    hide IsPart, RowsFor, Readable, Permuted, Spells, UniqueAlong;
    var entry := fs.FindByPath(parts);
    if entry == null {
      return false, 0, 0;
    }
    found, x := true, entry.inode;
    count := ReadEntry(disk, fs, entry, x, buffer, offset, size);
  }

  /** A right answer to a read by path: part of some file that it leads to, or nothing at a dead end.  */
  ghost predicate Answers(
    disk: seq<byte>, entryTable: map<Inode, Row>, extentTable: seq<ExtentRow>, parts: seq<Name>,
    offset: nat, size: nat, part: seq<byte>)
  {
    || (part == [] && DeadEnd(entryTable, ROOT_DIR, parts))
    || exists y :: Spells(entryTable, ROOT_DIR, parts, y) && y in entryTable
                   && IsPart(disk, RowsFor(extentTable, y), entryTable[y].length, offset, size, part)
  }

  /** Where chunk k starts.  */
  function Start(k: nat, chunk: nat): nat { k * chunk }

  /** Each chunk is a right answer to the read at its place.  */
  ghost predicate AllAnswer(
    disk: seq<byte>, entryTable: map<Inode, Row>, extentTable: seq<ExtentRow>, parts: seq<Name>,
    chunk: nat, chunks: seq<seq<byte>>)
  {
    chunks == [] ||
    var init, last := chunks[..|chunks| - 1], chunks[|chunks| - 1];
    && AllAnswer(disk, entryTable, extentTable, parts, chunk, init)
    && Answers(disk, entryTable, extentTable, parts, Start(|init|, chunk), chunk, last)
  }

  function Joined(chunks: seq<seq<byte>>): seq<byte> {
    if chunks == [] then [] else Joined(chunks[..|chunks| - 1]) + chunks[|chunks| - 1]
  }

  lemma OneMoreChunk(
    disk: seq<byte>, entryTable: map<Inode, Row>, extentTable: seq<ExtentRow>, parts: seq<Name>,
    chunk: nat, chunks: seq<seq<byte>>, part: seq<byte>)
    requires AllAnswer(disk, entryTable, extentTable, parts, chunk, chunks)
    requires Answers(disk, entryTable, extentTable, parts, Start(|chunks|, chunk), chunk, part)
    ensures AllAnswer(disk, entryTable, extentTable, parts, chunk, chunks + [part])
    ensures Joined(chunks + [part]) == Joined(chunks) + part
  {
    hide Answers, Start;
    assert (chunks + [part])[..|chunks|] == chunks;
  }

  /** An unambiguous path has one file to answer for it.  */
  lemma OnlyAnswer(
    disk: seq<byte>, entryTable: map<Inode, Row>, extentTable: seq<ExtentRow>, parts: seq<Name>, x: Inode,
    offset: nat, size: nat, part: seq<byte>)
    requires UniqueAlong(entryTable, ROOT_DIR, parts) && Spells(entryTable, ROOT_DIR, parts, x) && x in entryTable
    requires Answers(disk, entryTable, extentTable, parts, offset, size, part)
    ensures IsPart(disk, RowsFor(extentTable, x), entryTable[x].length, offset, size, part)
  {
    hide IsPart, Spells, UniqueAlong, DeadEnd, RowsFor;
    FoundIsTheOnlyOne(entryTable, ROOT_DIR, parts, x);
    if DeadEnd(entryTable, ROOT_DIR, parts) { DeadEndsTheSearch(entryTable, ROOT_DIR, parts); }
  }

  /** n reads of one chunk each, one after the other, through one file system, each of them answered rightly.
      Together they are one read from the start, provided that the path always leads to the same file and its
      extents are always sorted the same way.  */
  method ReadChunks(disk: seq<byte>, fs: FileSystem, parts: seq<Name>, ghost x: Inode, chunk: nat, n: nat)
    returns (content: seq<byte>, ghost chunks: seq<seq<byte>>)
    requires fs.Valid() && CanServe(disk, fs.entryTable, fs.extentTable, parts) && |disk| < TWO_TO_THE_63
    requires Spells(fs.entryTable, ROOT_DIR, parts, x)
    requires 0 <= n * chunk < TWO_TO_THE_63 && chunk < TWO_TO_THE_63
    modifies fs`diskEntries, fs.diskEntries.Values
    ensures fs.Valid() && fs.CacheGrew()
    ensures x in fs.entryTable
    ensures |chunks| == n && content == Joined(chunks)
    ensures AllAnswer(disk, fs.entryTable, fs.extentTable, parts, chunk, chunks)
    ensures UniqueAlong(fs.entryTable, ROOT_DIR, parts) && Untied(RowsFor(fs.extentTable, x)) ==>
              IsPart(disk, RowsFor(fs.extentTable, x), fs.entryTable[x].length, 0, n * chunk, content)
  {
    hide IsPart, RowsFor, Readable, Untied, Spells, UniqueAlong, DeadEnd, FileSystem.InSync, AllAnswer, Joined;
    ghost var extents, length := RowsFor(fs.extentTable, x), fs.entryTable[x].length;
    ghost var sure := UniqueAlong(fs.entryTable, ROOT_DIR, parts) && Untied(extents);
    content, chunks := [], [];
    NoChunks(disk, extents, length);
    NoneAnswer(disk, fs.entryTable, fs.extentTable, parts, chunk);
    for k := 0 to n
      invariant fs.Valid() && fs.CacheGrew()
      invariant |chunks| == k && content == Joined(chunks)
      invariant AllAnswer(disk, fs.entryTable, fs.extentTable, parts, chunk, chunks)
      invariant sure ==> IsPart(disk, extents, length, 0, k * chunk, content)
    {
      ChunkOffset(k, n, chunk);
      var buffer := new byte[chunk];
      var _, count, y := ReadPath(disk, fs, parts, buffer, k * chunk, chunk);
      var part := buffer[..count];
      assert Answers(disk, fs.entryTable, fs.extentTable, parts, k * chunk, chunk, part);
      OneMoreChunk(disk, fs.entryTable, fs.extentTable, parts, chunk, chunks, part);
      chunks := chunks + [part];
      if sure {
        assert y == x && IsPart(disk, extents, length, k * chunk, chunk, part);
        ReadsCompose(disk, extents, length, 0, k * chunk, chunk, content, part);
      }
      content := content + part;
    }
  }

  lemma NoneAnswer(
    disk: seq<byte>, entryTable: map<Inode, Row>, extentTable: seq<ExtentRow>, parts: seq<Name>, chunk: nat)
    ensures AllAnswer(disk, entryTable, extentTable, parts, chunk, []) && Joined([]) == []
  {
  }

  lemma NoChunks(disk: seq<byte>, extents: seq<Extent>, length: nat)
    ensures IsPart(disk, extents, length, 0, 0, [])
  {
    var t := CanBeSorted(extents);
    assert IsPartOf(disk, t, length, 0, 0, []);
  }

  lemma ChunkOffset(k: nat, n: nat, chunk: nat)
    requires k < n
    ensures (k + 1) * chunk == k * chunk + chunk && 0 <= k * chunk <= n * chunk
  {
    assert (k + 1) * chunk <= n * chunk;
  }

  /** A file opened by path and read in chunks.  Once they go up to its end, they are the file.  */
  method ReadFile(disk: seq<byte>, fs: FileSystem, parts: seq<Name>, chunk: nat, n: nat)
    returns (found: bool, content: seq<byte>, ghost chunks: seq<seq<byte>>)
    requires fs.Valid() && CanServe(disk, fs.entryTable, fs.extentTable, parts) && |disk| < TWO_TO_THE_63
    requires 0 <= n * chunk < TWO_TO_THE_63 && chunk < TWO_TO_THE_63
    modifies fs`diskEntries, fs.diskEntries.Values
    ensures fs.Valid() && fs.CacheGrew()
    ensures found ==> exists x :: Spells(fs.entryTable, ROOT_DIR, parts, x)
    ensures !found ==> content == [] && DeadEnd(fs.entryTable, ROOT_DIR, parts)
    ensures found ==> |chunks| == n && content == Joined(chunks)
    ensures AllAnswer(disk, fs.entryTable, fs.extentTable, parts, chunk, chunks)
    ensures UniqueAlong(fs.entryTable, ROOT_DIR, parts) ==>
              forall x :: Spells(fs.entryTable, ROOT_DIR, parts, x) ==>
                found && x in fs.entryTable
                && (Untied(RowsFor(fs.extentTable, x)) ==>
                      IsRead(disk, RowsFor(fs.extentTable, x), fs.entryTable[x].length, n * chunk, content))
  {
    hide IsPart, RowsFor, Readable, Untied, Spells, UniqueAlong, DeadEnd, IsRead, FileSystem.InSync, AllAnswer, Joined;
    var entry := fs.FindByPath(parts);
    if entry == null {
      NoneAnswer(disk, fs.entryTable, fs.extentTable, parts, chunk);
      return false, [], [];
    }
    ghost var x := entry.inode;
    content, chunks := ReadChunks(disk, fs, parts, x, chunk, n);
    if UniqueAlong(fs.entryTable, ROOT_DIR, parts) && Untied(RowsFor(fs.extentTable, x)) {
      ReadsToEnd(disk, RowsFor(fs.extentTable, x), fs.entryTable[x].length, n * chunk, content);
    }
    FoundIsTheOnlyOne(fs.entryTable, ROOT_DIR, parts, x);
    found := true;
  }

  /** What reading so many bytes from the start of the file yields.  Without overlap it is all of the file once
      they are enough, unless some extent starts at or after the end.  */
  ghost predicate IsRead(disk: seq<byte>, extents: seq<Extent>, length: nat, size: nat, content: seq<byte>) {
    && IsPart(disk, extents, length, 0, size, content)
    && (Separate(extents, length) && StartInside(extents, length) && length <= size ==>
          IsFile(disk, extents, length, content))
  }

  lemma ReadsToEnd(disk: seq<byte>, extents: seq<Extent>, length: nat, size: nat, content: seq<byte>)
    requires IsPart(disk, extents, length, 0, size, content)
    ensures IsRead(disk, extents, length, size, content)
  {
    hide IsPart, Separate, StartInside, HoldsFilePart;
    if Separate(extents, length) { PiecesAreTheAnswer(disk, extents, length, 0, size, content); }
  }

  /** A scan of these sectors leaves a root directory from which the path, settled and unambiguous, leads to
      x, a recoverable file; and superblocks leave the blocks as they are.  */
  ghost predicate PathRecoverable(
    disk: seq<byte>, original: seq<Sector>, parts: seq<Name>, x: Inode, length: uint64)
  {
    && ReadsTheSame(INITIAL, original) && StreamFits(INITIAL, original)
    && PathSettled(INITIAL, original, ROOT_DIR, parts)
    && Leads(RowsOf(Recovered(INITIAL, original)), parts, x)
    && Recoverable(disk, DiskEvents(original), x, length)
  }

  ghost predicate Leads(rows: Rows, parts: seq<Name>, x: Inode) {
    ROOT_DIR in rows && UniqueAlong(rows, ROOT_DIR, parts) && Spells(rows, ROOT_DIR, parts, x)
  }

  /** Both programs, from the disk to a whole file: scan the sectors in the order they arrive, over whatever
      the database held, reopen it, open a path and read it in chunks.  `sectors` may be any rearrangement of
      `original`: the path leads where it leads after a scan of `original`, and what comes back is the file
      that the newest extents in `original` map on the disk.  */
  method RecoverFile(
    disk: seq<byte>, sectors: seq<Sector>, ghost original: seq<Sector>,
    oldEntries: map<Inode, Row>, oldExtents: seq<ExtentRow>, parts: seq<Name>,
    ghost x: Inode, ghost length: uint64, chunk: nat, n: nat)
    returns (found: bool, content: seq<byte>, ghost chunks: seq<seq<byte>>)
    requires Permuted(sectors, original) && PathRecoverable(disk, original, parts, x, length)
    requires forall r :: r in oldExtents ==> r.inode in oldEntries
    requires |disk| < TWO_TO_THE_63 && 0 <= n * chunk < TWO_TO_THE_63 && chunk < TWO_TO_THE_63
    ensures found && |chunks| == n && content == Joined(chunks)
    ensures var extents := NewestExtents(DiskEvents(original), x);
            && ChunksOf(disk, extents, length, chunk, chunks)
            && (Untied(extents) ==> IsRead(disk, extents, length, n * chunk, content))
  {
    hide AllAnswer, ChunksOf, Joined, Untied, PathSettled, Recovered, ReadsTheSame, ReadsAlike, StreamFits, Readable,
      Leads, IsRead, NewestExtents, DiskEvents, RowsFor, CanServe, Spells;
    PathInAnyOrder(sectors, original, parts, x);
    SameIsAlike(INITIAL, original);
    RecoveredFile(disk, sectors, original, x, length);
    ghost var xs := NewestExtents(DiskEvents(original), x);
    var entryTable, extentTable := ScanDisk(sectors, oldEntries, oldExtents);
    ghost var ys := RowsFor(extentTable, x);
    assert entryTable == RowsOf(Recovered(INITIAL, sectors));
    SameRead(disk, xs, ys, length, n * chunk, []);
    ServesWhatItLeadsTo(disk, entryTable, extentTable, parts, x);
    var fs := new FileSystem(entryTable, extentTable);
    found, content, chunks := ReadFile(disk, fs, parts, chunk, n);
    assert Spells(fs.entryTable, ROOT_DIR, parts, x);
    ChunksOfOneFile(disk, entryTable, extentTable, parts, x, xs, chunk, chunks);
    SameRead(disk, xs, ys, length, n * chunk, content);
  }

  /** Each chunk is a right answer to the read of this file at its place.  */
  ghost predicate ChunksOf(
    disk: seq<byte>, extents: seq<Extent>, length: nat, chunk: nat, chunks: seq<seq<byte>>)
  {
    chunks == [] ||
    var init, last := chunks[..|chunks| - 1], chunks[|chunks| - 1];
    ChunksOf(disk, extents, length, chunk, init) && IsPart(disk, extents, length, Start(|init|, chunk), chunk, last)
  }

  lemma {:induction false} ChunksOfOneFile(
    disk: seq<byte>, entryTable: map<Inode, Row>, extentTable: seq<ExtentRow>, parts: seq<Name>, x: Inode,
    extents: seq<Extent>, chunk: nat, chunks: seq<seq<byte>>)
    requires UniqueAlong(entryTable, ROOT_DIR, parts) && Spells(entryTable, ROOT_DIR, parts, x) && x in entryTable
    requires AllAnswer(disk, entryTable, extentTable, parts, chunk, chunks)
    requires Permuted(RowsFor(extentTable, x), extents)
    ensures ChunksOf(disk, extents, entryTable[x].length, chunk, chunks)
  {
    hide IsPart, Spells, UniqueAlong, Answers, RowsFor, Permuted, Start;
    if chunks != [] {
      var init, last := chunks[..|chunks| - 1], chunks[|chunks| - 1];
      ChunksOfOneFile(disk, entryTable, extentTable, parts, x, extents, chunk, init);
      var rows, length, at := RowsFor(extentTable, x), entryTable[x].length, Start(|init|, chunk);
      OnlyAnswer(disk, entryTable, extentTable, parts, x, at, chunk, last);
      AnswersIgnoreStoredOrder(disk, extents, rows, length, at, chunk, last);
    }
  }

  lemma PathInAnyOrder(sectors: seq<Sector>, original: seq<Sector>, parts: seq<Name>, x: Inode)
    requires Permuted(sectors, original) && ReadsTheSame(INITIAL, original) && StreamFits(INITIAL, original)
    requires PathSettled(INITIAL, original, ROOT_DIR, parts)
    requires Leads(RowsOf(Recovered(INITIAL, original)), parts, x)
    ensures StreamFits(INITIAL, sectors) && Leads(RowsOf(Recovered(INITIAL, sectors)), parts, x)
  {
    hide PathSettled, Recovered, ReadsTheSame, StreamFits, Spells, UniqueAlong;
    PathsInAnyOrder(INITIAL, original, sectors, ROOT_DIR, parts);
    SameAndAlike(INITIAL, original, sectors);
  }

  lemma ServesWhatItLeadsTo(
    disk: seq<byte>, entryTable: map<Inode, Row>, extentTable: seq<ExtentRow>, parts: seq<Name>, x: Inode)
    requires Leads(entryTable, parts, x)
    requires x in entryTable && Readable(disk, RowsFor(extentTable, x), entryTable[x].length)
    ensures CanServe(disk, entryTable, extentTable, parts)
    ensures UniqueAlong(entryTable, ROOT_DIR, parts) && Spells(entryTable, ROOT_DIR, parts, x)
  {
    FoundIsTheOnlyOne(entryTable, ROOT_DIR, parts, x);
  }

  lemma SameRead(disk: seq<byte>, xs: seq<Extent>, ys: seq<Extent>, length: nat, size: nat, content: seq<byte>)
    requires Permuted(ys, xs)
    ensures Readable(disk, ys, length) <==> Readable(disk, xs, length)
    ensures Untied(ys) <==> Untied(xs)
    ensures IsRead(disk, ys, length, size, content) ==> IsRead(disk, xs, length, size, content)
  {
    PermutedElements(ys, xs);
    AnswersIgnoreStoredOrder(disk, xs, ys, length, 0, size, content);
    hide Readable, IsPart, Permuted, Separate;
    if IsPart(disk, xs, length, 0, size, content) { ReadsToEnd(disk, xs, length, size, content); }
  }
}

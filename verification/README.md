# Super Bad Block: a verified model of the recovery engine

Super Bad Block recovers APFS files by brute force: it reads every 4096-byte block of a disk, trusts a block
when its checksum matches, cuts B-tree nodes into records, merges the records into entries, and writes the
entries through to two database tables. A second program opens the tables and serves the files. Blocks
arrive in whatever order they lie on the disk, so a record may come before or after the newer one that
replaces it.

This project models that pipeline from raw bytes to file contents, and proves what it does over whole runs.

| file | what it holds |
|---|---|
| `Bytes.dfy` | little-endian reads at byte offsets, encoders, and stored pieces of a block |
| `Fletcher.dfy` | the block checksum: the loop, its closed form, what it detects |
| `XFields.dfy` | the walk over an inode's extended fields, and the encoding it inverts |
| `Grouping.dfy`, `Seqs.dfy` | grouping by id as a stable sort; flat maps, filters and permutations |
| `Node.dfy` | block acceptance, table of contents, and the events a node amounts to |
| `NodeLayout.dfy` | laying out a node, and the round trip through extraction |
| `FileRecords.dfy`, `SealedNodes.dfy` | file-system records as bytes; disks built from them |
| `LostSizes.dfy` | exactly when file sizes survive in a node; nodes that lose one, or make one up |
| `Register.dfy` | versioned registers: newest wins, stale writes, arrival order |
| `Merge.dfy` | events and entries: the merge over whole streams |
| `Stream.dfy` | runs over sectors: corruption, scanner fields |
| `Arrival.dfy` | exactly when the arrival order of blocks does not matter, and what is then the same |
| `Tables.dfy`, `Store.dfy` | the tables; the mutable entries and the file system above them |
| `Reassembly.dfy` | stitching a file from extents |
| `Tree.dfy`, `Paths.dfy` | parent links, exactly when the recursive walk halts, path resolution; paths in any order of the blocks |
| `Scanner.dfy` | the scanner's methods, each tied to the events it stands for |
| `KnownBlocks.dfy` | a superblock, a leaf and a root given byte by byte, and what a scan makes of them in numbers |
| `SizeChange.dfy` | a superblock that declares another size makes the order of the blocks matter |
| `Recovery.dfy` | both programs in sequence: scan, reopen the tables, read back by inode and by path |
| `WrittenDisks.dfy` | the same from the records written to the disk, and one disk carried all the way through |

The main results, in the order of the pipeline:

* The checksum loop is a closed formula modulo 2^32 - 1. A changed word, or two changed words at any
  distance, goes unnoticed exactly under a stated congruence; a block corrupted in one or two adjacent
  payload words, at least one of them to another residue modulo 2^32 - 1, leaves a run as if the block were
  not there.
* Laying out a node and scanning it gives back its records, in every layout, except for file sizes in certain
  fixed-size nodes, which are characterised exactly; a disk of sealed nodes is recovered, from bytes to
  entries, as the merge of what is seen of what was written to it.
* The order in which blocks arrive leaves their events alone exactly when every block reads alike at every
  block size that superblocks can bring about before it; so it is when no superblock changes the size.
* After every run an entry's extents are those of the newest transaction, and each attribute is a register
  whose final value is decided by the kept records. When blocks read alike in every order, versions, inodes
  and extents (as multisets) are the same in every order; and when they read the same, parent, kind, name and
  length are the same in every order exactly when their writes are settled.
* Cache and tables agree after every block, and the tables a scan leaves behind hold exactly the entries.
* The recursive tree walk, which keeps no visited set, halts exactly when its start is not on a parent cycle,
  and then visits everything below once, parents first and depth first.
* Reading gives the disk bytes the extents map, whatever order they are stored in, and reading chunk after
  chunk through one file system gives the whole file. Resolving a path inverts naming an inode.
* From records to reader: nodes sealed by transactions, scanned in any order, reopened, and read by path in
  chunks, give the file, provided that its length and whatever could stand on its path are settled.

Four places where the code falls short of what one would expect of it, each kept as it is, with an input and
the exact condition:

* A directory record that arrives after a newer INODE record is ignored, name included
  (`SealedNodes.NameDependsOnBlockOrder` builds a disk; `Arrival.BlockOrderIndependence` is the condition).
* A superblock that declares another block size decides, by when it arrives, which blocks are accepted and how
  they are cut (`SizeChange.SizeChangeMatters`; `Arrival.EventsAreOrderFreeIff`).
* In a fixed-size node that is no root, value lengths are read out of the values or the space before them,
  because the tree info is taken from the end of the block whether or not it is there. File sizes are lost
  when the length so found is too short, and made up out of other bytes when it is long and a record has no
  fields (`LostSizes.FixedLeafLosesSize`, `LostSizes.FixedLeafMakesUpSize`; `LostSizes.SizesSurviveIff` and,
  for the lengths themselves, `NodeLayout.LengthsComeBackIff`).
* An extent that is empty, or comes by address when those before it have used up the file's length, makes
  every read of the file return 0 (`WrittenDisks.ReadSample`; `Store.FileSystem.Read`). Without empty or
  overlapping extents, that is an extent that starts at or after the file's end
  (`Reassembly.PiecesAreTheAnswer`).

The formats are those of the Apple File System Reference: chapters "Objects" (object header and checksum),
"B-Trees" (node, table of contents, tree info), "Extended Fields" and "Data Streams" (file extents).

## Model

| member | source | states |
|---|---|---|
| Fletcher.Fletcher64 | src/libsbb/utils.cpp:9-29 | the one-pass loop with end-around carry returns the closed form: high half the weighted sum, low half minus both sums, each represented in [1, 2^32-1]; no 64-bit assignment overflows |
| Fletcher.LoopComputesSums | src/libsbb/utils.cpp:11-24 | the accumulators stay at most 2^32-1, are congruent to the plain and the weighted sum of the words, and are 0 only if all words are |
| Fletcher.SingleWordDetection | src/libsbb/utils.cpp:18-28 | changing one word leaves the checksum unchanged iff old and new word are congruent modulo 2^32-1 |
| Fletcher.TwoWordDetection | src/libsbb/utils.cpp:18-28 | changing two words at distance d goes unnoticed iff the differences cancel and d times one of them is 0 modulo 2^32-1 |
| Fletcher.AdjacentWordsDetection | src/libsbb/utils.cpp:18-28 | changing two adjacent words goes unnoticed iff both keep their residues |
| Fletcher.CheckWordsClose | src/libsbb/utils.cpp:26-28 | both halves lie in [1, 2^32-1], the high half is the weighted sum, and appending low then high half drives both sums to 2^32-1 and the checksum to 2^64-1 |
| Fletcher.CheckWordsCloseData | src/libsbb/utils.cpp:9-29 | the same for word-aligned bytes with both check words appended |
| XFields.FindDstream | src/libsbb/apfsscanner.cpp:312-344 | the field loop finds the size recorded by the last data stream field, or nothing |
| XFields.DataIsAligned | src/libsbb/apfsscanner.cpp:342-342 | from one field's data to the next it is the field's size rounded up to a multiple of 8 |
| XFields.KnownFieldsAreRead | src/libsbb/apfsscanner.cpp:312-344 | on the bytes of a name of 3 bytes followed by a data stream, the walk finds the size 1000 |
| XFields.AddressIsSumOfSizes | src/libsbb/apfsscanner.cpp:322-342 | over an encoded field list, the address for field i is the start of the data plus the sum of the earlier padded sizes |
| XFields.AddressHoldsData | src/libsbb/apfsscanner.cpp:322-342 | the data of field i is stored at that address |
| XFields.WalkInvertsEncoding | src/libsbb/apfsscanner.cpp:312-344 | the walk over any encoded field list yields the size in its last data stream, and nothing if it has none |
| XFields.WalkFromEnd | src/libsbb/apfsscanner.cpp:312-344 | the walk looks only forward: what it finds depends on the bytes from the blob to the end of the block |
| NodeLayout.LayoutRoundTrip | src/libsbb/apfsscanner.cpp:129-174 | extraction returns every laid-out record's key and value position, in order, for both table forms and for roots and other nodes; value lengths come back from variable-size nodes, and are the one size assumed for the node in fixed-size ones |
| NodeLayout.LengthsComeBackIff | src/libsbb/apfsscanner.cpp:107-153 | all value lengths come back iff the node is variable-size or every value has the assumed size: the low 16 bits of the size recorded in a root's info; elsewhere of the word 28 bytes before the end of the first record's value or, when that is shorter, of the free space and values together |
| NodeLayout.FixedRootLengths | src/libsbb/apfsscanner.cpp:141-153 | in a fixed-size root whose info records the value size, all value lengths come back |
| LostSizes.FixedLeafLosesSize | src/libsbb/apfsscanner.cpp:141-230 | there is a valid node, fixed-size and no root, that holds a file with its size, and of which the scan recovers the file without the size |
| LostSizes.SizesSurviveIff | src/libsbb/apfsscanner.cpp:141-344 | for any layout and any records: a node amounts to what its records mean iff the file size found for every INODE record is the one it says, where the size found is none if fields are cut, the record's own if it has fields or the node is variable-size, and otherwise what the walk makes of the bytes after the value |
| LostSizes.CutUpTo96 | src/libsbb/apfsscanner.cpp:312-316 | fields are cut in fixed-size nodes whose assumed value size is at most 96 bytes |
| LostSizes.CutSizesAreLost | src/libsbb/apfsscanner.cpp:141-344 | where the assumed length leaves no room for fields every size is lost, and the node means the same iff it held none |
| LostSizes.FixedLeafMakesUpSize | src/libsbb/apfsscanner.cpp:141-344 | there is a valid node, fixed-size and no root, that holds two inodes and no file size, and of which the scan recovers one inode with a size read out of the other's record |
| Grouping.GroupingIsStableSort | src/libsbb/apfsscanner.cpp:165-202 | group after group in ascending id order is a permutation of the table, ascending by id, with the order kept within each id |
| Node.ExtentsNeedAnInode | src/libsbb/apfsscanner.cpp:199-232 | exactly the extent records preceded by an INODE record of their group become extent events |
| Node.BlockEventsShareXid | src/libsbb/apfsscanner.cpp:199-270 | every event of a block carries the block's transaction id |
| Node.CorruptedBlockIsRejected | src/libsbb/apfsscanner.cpp:45-50 | changing one or two adjacent payload words of an accepted block, one of them to another residue, makes it unacceptable |
| FileRecords.RecordIsRead | src/libsbb/apfsscanner.cpp:220-268 | a stored INODE, FILE_EXTENT or DIR_REC record is scanned as the event its fields say, given whether its group has a file entry, with the file size that the walk over extended fields finds |
| FileRecords.NodeIsRead | src/libsbb/apfsscanner.cpp:165-275 | a node amounts to what the records mean that its entries are scanned as, group after group |
| FileRecords.LaidOutNodeIsRead | src/libsbb/apfsscanner.cpp:104-275 | a node laid out with any records in any layout amounts to what is seen of them: the records, each INODE record with the size found for it |
| FileRecords.SealedIsAccepted | src/libsbb/apfsscanner.cpp:47-50 | writing a block's checksum into its header makes it accepted iff its type is not 0, and changes neither payload, type nor transaction |
| SealedNodes.SealedLeafIsScanned | src/libsbb/apfsscanner.cpp:45-275 | a sealed leaf is an accepted node whose events are what its records mean |
| KnownBlocks.KnownLeafIsScanned | src/libsbb/apfsscanner.cpp:104-275 | a leaf given byte by byte, once sealed, amounts to four events in numbers: ids ascending, key words split at 60 bits, extent lengths cut to 56 and kinds to 4 |
| KnownBlocks.KnownRootIsScanned | src/libsbb/apfsscanner.cpp:104-232 | a fixed-size root given byte by byte, once sealed, amounts to one inode event, whose size is found by offsets and the tree info alone |
| SealedNodes.SealedNodeIsScanned | src/libsbb/apfsscanner.cpp:45-275 | any node, of whatever layout, once sealed, is accepted, is no superblock, and amounts to what is seen of its records |
| SealedNodes.DiskMeansItsRecords | src/libsbb/apfsscanner.cpp:45-275 | a scan of a disk of sealed nodes of any layout recovers the merge of what is seen of everything written to them |
| SealedNodes.NameDependsOnBlockOrder | src/libsbb/apfsscanner.cpp:438-448 | there is a disk of two valid blocks whose file is named or nameless depending on which is read first |
| Register.VersionIsNewest | src/libsbb/apfsscanner.cpp:346-369 | a register's version is the greatest transaction written, whatever the order |
| Register.ValueIsLastKept | src/libsbb/apfsscanner.cpp:346-374 | a register holds what the last kept write to set it says, kept meaning at least as new as everything before |
| Register.StaleItemIsInvisible | src/libsbb/apfsscanner.cpp:346-374 | deleting a stale write changes nothing |
| Register.OrderIndependentIffSettled | src/libsbb/apfsscanner.cpp:346-374 | the final value is the same in every order iff the newest setters agree and, should there be none, older setters write only the initial value |
| Merge.EntriesAreTheInodesSeen | src/libsbb/apfsscanner.cpp:295-310 | an entry exists for exactly the inodes some record is about |
| Merge.AttributesAreRegisters | src/libsbb/apfsscanner.cpp:346-374 | parent, kind, name and length are registers sharing one version, driven by INODE and directory records |
| Merge.AttributesAreLastKept | src/libsbb/apfsscanner.cpp:346-374 | the version is the greatest transaction of an INODE or directory record, and each attribute is a fold over the kept ones only |
| Merge.ExtentsKeepNewest | src/libsbb/apfsscanner.cpp:395-411 | the extent version is the greatest transaction over attached extents, and the extents are those recorded at it, in arrival order |
| Merge.StaleRecordIsInvisible | src/libsbb/apfsscanner.cpp:346-411 | deleting a record older than one of its kind already seen for the inode changes no entry |
| Merge.RearrangedRecords | src/libsbb/apfsscanner.cpp:277-450 | in any order of the records, the same inodes, versions and (as multisets) extents |
| Merge.FieldOrderIndependence | src/libsbb/apfsscanner.cpp:346-448 | an attribute is the same in every order of the records iff its writes are settled |
| Merge.NamesDependOnOrder | src/libsbb/apfsscanner.cpp:438-448 | a directory record at transaction 5 and an INODE record at 7 leave the name or no name, by order |
| Merge.KnownRun | src/libsbb/apfsscanner.cpp:346-448 | a run in numbers: of records of one transaction the later wins, what a record lacks is left alone, older ones are ignored, extents are those of the newest |
| Stream.RejectedSectorIsInvisible | src/libsbb/apfsscanner.cpp:45-102 | a block that is not accepted might as well not be in the stream |
| Stream.CorruptBlockIsInvisible | src/libsbb/apfsscanner.cpp:48-50 | a run with a corrupted block equals the run without it, in entries and scanner fields |
| Stream.SuperblockSetsStatus | src/libsbb/apfsscanner.cpp:48-77 | an accepted block whose type has low 16 bits 1 and whose magic is right sets the size to what it declares, and the offset if none is set; any other block changes neither |
| KnownBlocks.KnownSuperblockIsScanned | src/libsbb/apfsscanner.cpp:45-77 | a superblock of type 0x80000001, given with its checksum byte by byte, is accepted and takes the scanner from size 4096 and no offset to its own size and position |
| Stream.OffsetIsFirstSuperblock | src/libsbb/apfsscanner.cpp:57-77 | the volume offset is the position of the first superblock not at position 0, each block being judged at the size then in use |
| Stream.SizeIsLastSuperblock | src/libsbb/apfsscanner.cpp:57-77 | the block size is what the last superblock declares |
| SizeChange.SizeChangeMatters | src/libsbb/apfsscanner.cpp:48-77 | there is a disk of two valid blocks, one a superblock declaring 8 bytes, from which a file or nothing is recovered depending on which is read first |
| Arrival.EventsAreOrderFreeIff | src/libsbb/apfsscanner.cpp:45-275 | in every order all blocks can be read and their events are the same multiset, iff every block has a permutation of the same events at every size that superblocks of the stream can bring about before it |
| Arrival.BlocksAreOrderFreeIff | src/libsbb/apfsscanner.cpp:45-275 | in every order the events are those of the blocks one by one, iff every block has the same events at every size that superblocks of the stream can bring about before it |
| Arrival.OneSizeReadsTheSame | src/libsbb/apfsscanner.cpp:57-77 | so it is when no superblock declares another size |
| Arrival.ArrivalOrderDoesNotMatter | src/libsbb/apfsscanner.cpp:45-275 | when blocks read alike in every order: the same inodes, versions and (as multisets) extents, for any order of the blocks |
| Arrival.BlockOrderIndependence | src/libsbb/apfsscanner.cpp:346-448 | when blocks read the same in every order, parent, kind, name or length is the same in every order iff the block writes are settled |
| Store.FileSystem.Clear | src/libsbb/filesystem.cpp:158-162 | both tables are emptied; cache and database agree afterwards iff nothing was cached |
| Store.FileSystem.AddEntry | src/libsbb/filesystem.cpp:164-182 | a new entry is cached and gets its row; all other entries stay in agreement |
| Store.FileSystem.UpdateEntry | src/libsbb/filesystem.cpp:184-226 | from agreement except about one entry to full agreement of cache and tables; rows of other inodes untouched |
| Store.FileSystem.WriteExtents | src/libsbb/filesystem.cpp:208-225 | the extent rows of one inode are replaced, those of others kept, and agreement is restored |
| Store.FileSystem.FindByInode | src/libsbb/filesystem.cpp:228-248 | returns the cached object, equal to what a table lookup gives; null iff there is no row |
| Store.FileSystem.GetEntryFromQuery | src/libsbb/filesystem.cpp:290-320 | a fresh copy of a row and its extents, cached only if nothing was cached for the inode |
| Store.FileSystem.FindByParentInode | src/libsbb/filesystem.cpp:250-268 | fresh copies of exactly the rows under a parent, each once; those not yet cached are cached |
| Store.FileSystem.FindByName | src/libsbb/filesystem.cpp:270-288 | a fresh copy of a row with that parent and name, null iff there is none; it is cached unless its inode was |
| Store.FileSystem.FindByPath | src/libsbb/filesystem.cpp:322-341 | whatever is found is spelled by the path; nothing is found only where some inode that a prefix leads to has nothing of the next name below it; with names unique along the path, whatever it spells is found |
| Tree.PathsAreUnambiguous | src/libsbb/filesystem.cpp:270-341 | names are unique along a path iff each of its prefixes leads to at most one inode |
| Tree.NamesSpellThePath | src/libsbb/filesystem.cpp:322-341 | the names along an inode's parent chain spell a path to it |
| Store.FileSystem.FindNamed | src/libsbb/filesystem.cpp:322-341 | path resolution inverts naming: with distinct names among siblings, the names up an inode's parent chain are resolved to that inode |
| Paths.FieldIsGiven | src/libsbb/apfsscanner.cpp:346-448 | every recovered parent, kind, name or length is the initial one or one that some record about the inode gives |
| Paths.PathsInAnyOrder | src/libsbb/apfsscanner.cpp:346-448 | when whatever some records could place next on the path, under an inode that the path so far leads to, has its parent and name settled, the path leads to the same inodes in every order of the blocks |
| Store.FileSystem.DumpTree | src/libsbb/filesystem.cpp:123-156 | off every parent cycle the walk halts and visits every inode child links lead to, exactly once, parents first and depth first, so that all below an inode comes right after it, not descending below inode 0 |
| Tree.WalkHaltsIffOffCycle | src/libsbb/filesystem.cpp:123-156 | the walk halts iff its start is not on a parent cycle of two or more inodes avoiding 0; cycles elsewhere do no harm |
| Store.FileSystem.SortExtents | src/libsbb/filesystem.cpp:75-84 | sorting extents in place permutes them and keeps cache and tables in agreement |
| Store.FileSystem.Assemble | src/libsbb/filesystem.cpp:85-101 | every write stays in the file buffer, and each byte ends up as the disk byte of the last piece that holds it; stops early iff there is nothing to read of some extent |
| Store.FileSystem.Read | src/libsbb/filesystem.cpp:80-119 | for extents that may overlap, leave gaps or be empty: the count is min(size, length-offset), 0 past the end, and 0 altogether iff an extent is empty or those before it by address use up the length; every returned byte that a piece holds is the disk byte of the last such piece; the rest of the buffer is untouched |
| Reassembly.SortingFindsFileOrder | src/libsbb/filesystem.cpp:75-84 | any sort by address recovers the one arrangement of non-overlapping extents in file order |
| Reassembly.OneArrangement | src/libsbb/filesystem.cpp:75-84 | unless different extents start at the same address, there is one way to sort them |
| Reassembly.PiecesAreTheAnswer | src/libsbb/filesystem.cpp:80-119 | without overlap, a right answer has as many bytes as asked for up to the file's end, none if some extent starts at or after it, and each mapped byte is its disk byte |
| Reassembly.SeparateIsSafe | src/libsbb/filesystem.cpp:84-101 | extents without overlap that fit the file are read inside the buffer, however the sort breaks ties |
| Reassembly.AnswersIgnoreStoredOrder | src/libsbb/filesystem.cpp:84-118 | whether an answer to a read is right does not depend on the order of the extents |
| Reassembly.ContiguousFits | src/libsbb/filesystem.cpp:85-101 | extents that follow one another from 0 without gap are always read inside the file buffer, whatever the length |
| Reassembly.CoveredPartIsDetermined | src/libsbb/filesystem.cpp:103-118 | where extents without overlap cover the file, there is only one right answer to a read |
| Reassembly.KnownUsedUp | src/libsbb/filesystem.cpp:85-101 | of a file of 4096 bytes the same extents read nothing, the first having used up its length |
| Reassembly.KnownReadLimit | src/libsbb/filesystem.cpp:87-93 | a single read may be 2^31 - 1 bytes long, and no longer |
| Reassembly.KnownOverlap | src/libsbb/filesystem.cpp:75-118 | two overlapping extents of a file of 6144 bytes, in numbers: the second gives 2048 bytes and prevails where they overlap |
| Reassembly.ReadsCompose | src/libsbb/filesystem.cpp:103-118 | unless the sort has ties to break, right answers to reads of a bytes at o and b bytes at o+a are together a right answer to a read of a+b bytes at o |
| Scanner.APFSScanner.ExtractToc | src/libsbb/apfsscanner.cpp:129-163 | the extraction loops return the table of contents of either form |
| Scanner.APFSScanner.GroupPairs | src/libsbb/apfsscanner.cpp:165-197 | the map's keys are the object ids, and each list holds the records of its id in table order |
| Scanner.APFSScanner.ScanInode | src/libsbb/apfsscanner.cpp:277-377 | merges one INODE record, keeps cache and tables in agreement, and returns the cached object |
| Scanner.APFSScanner.ScanFileExtent | src/libsbb/apfsscanner.cpp:379-412 | merges one extent record into the group's entry, if there is one, and keeps agreement |
| Scanner.APFSScanner.ScanDirRec | src/libsbb/apfsscanner.cpp:414-450 | merges one directory record into its child, also when that is the group's own entry, and keeps agreement |
| Scanner.APFSScanner.ScanGroup | src/libsbb/apfsscanner.cpp:199-274 | a group's records amount to their events, and the closing write changes nothing |
| Scanner.APFSScanner.ScanBTreeBlock | src/libsbb/apfsscanner.cpp:104-275 | a node amounts to its events, and agreement holds after it |
| Scanner.APFSScanner.ScanBlock | src/libsbb/apfsscanner.cpp:45-102 | an accepted node amounts to its events, an accepted superblock sets size and offset, anything else changes nothing; required of the size in use is only that the block buffer can serve it |
| Scanner.APFSScanner.Scan | src/libsbb/diskscanner.cpp:41-75 | a run amounts to the events of the whole stream, with agreement of cache and tables |
| Recovery.ScanDisk | src/libsbb/diskscanner.cpp:41-75 | the tables left by a scan hold exactly the recovered entries: one row each, their extents, and nothing else |
| Recovery.SettledLengthIsFinal | src/libsbb/apfsscanner.cpp:346-374 | when the newest transaction about an inode settles its length, that is the final length |
| Recovery.RecoveredEntry | src/libsbb/apfsscanner.cpp:346-411 | in whatever order records arrive, a recoverable file ends up with that length and its newest extents |
| Recovery.ReadBack | src/libsbb/filesystem.cpp:80-119 | over reopened tables, a read returns what some sort by address of the extent rows leads to, up to the row's length; extents may overlap, leave gaps or be empty |
| Recovery.ReadEntry | src/libsbb/filesystem.cpp:80-119 | reading through an entry that mirrors the tables returns what they describe, and leaves it mirroring them |
| Recovery.ReadPath | src/sbbfuse/main.cpp:79-90 | one call of the read callback: the bytes of an inode that the path spells, the only one if names are unique along it, and not found only at a dead end; cache and tables still agree, so it can be called again |
| Recovery.ReadChunks | src/sbbfuse/main.cpp:79-90 | n successive reads of one chunk each, with the cache growing and extents being sorted in between: each returns a right answer to the read at its place, and together they return what one read from the start returns, unless the path is ambiguous or the sort has ties |
| Recovery.ReadFile | src/sbbfuse/main.cpp:62-90 | a file opened by path and read in chunks through one file system: what is found is spelled by the path; if unambiguous, whatever the path spells is found, and unless the sort has ties the content is one read from the start, and the file once the chunks reach its end |
| Recovery.RecoverAndRead | src/libsbb/filesystem.cpp:80-119 | when blocks read alike in every order: scanning them in any order over an old database, reopening the tables and reading a file by inode returns what some sort of the newest attached extents leads to |
| Recovery.RecoverFile | src/sbbfuse/main.cpp:62-90 | both programs in sequence: scan in any order over an old database, reopen, open a path and read in chunks; the path leads where it leads in the reference order, and the content is the file its newest extents map |
| WrittenDisks.WrittenIsRecoverable | src/libsbb/apfsscanner.cpp:45-275 | a file is recoverable from the bytes of a disk of sealed nodes iff it is from what is seen of the records written to them |
| WrittenDisks.WrittenPathIsRecoverable | src/libsbb/apfsscanner.cpp:45-275 | a path that the records settle, to a file they make recoverable, is recoverable from the bytes of any disk that holds them |
| WrittenDisks.RecoverWrittenFile | src/sbbfuse/main.cpp:62-90 | from records to reader: what transactions sealed into nodes of any layout, scanned in any order, is read back by path as the disk bytes that the newest extents seen map |
| WrittenDisks.SampleFileIsWritten | src/libsbb/apfsscanner.cpp:199-275 | its records meet every condition of recovery, for every size up to the 8192 bytes mapped |
| WrittenDisks.ReadSample | src/libsbb/filesystem.cpp:80-119 | a concrete disk, written, scanned in either order and read: its file comes back when it has more than 4096 bytes, and never otherwise, since its second extent then starts at or after its end |

## Left out

- The database library: the two tables are fields of the file system, an `entry` map keyed by inode and a list of `extent` rows; statements succeed, and the order in which rows are selected is unspecified. Inode is taken as the primary key.
- Reads outside the 4096-byte block buffer: undefined in C, they yield 0 here, so a name also ends where the block ends.
- Scanner.APFSScanner.ScanBlock: requires the size in use to be between 8 and 4096 bytes, the sizes the block buffer can serve; after a superblock that declares another, the code would read past its buffer.
- Arrival.BlockOrderIndependence: requires that blocks read the same in every order, which `Arrival.BlocksAreOrderFreeIff` characterises; otherwise what a block writes depends on the superblocks before it, and being settled is not a property of the blocks.
- Store.FileSystem.Read: requires that every piece read stays in a buffer of the file's length and is shorter than 2^31 bytes, the limit of its signed length, and that the disk reaches as far; the code would otherwise write past its buffer, or return bytes it never read. Bytes that no piece holds are unspecified, since the code never sets them.
- Recovery.ReadChunks: says only that each chunk is a right answer by itself when names are not unique along the path or different extents start at the same address; successive calls may then resolve the path, or break ties, differently.
- Store.FileSystem.FindByPath: requires a row for the root directory; the code dereferences a null entry otherwise.
- Clearing a file system that has entries cached: `Store.FileSystem.Clear` says exactly when agreement survives, and runs start with nothing cached, as the program does.
- The volume base used by reads is the constant in the code, 0xC805000; the scanner's own volume offset is modelled, but reads do not use it.
- The map from object id to inode: filled by the scanner, consulted by nothing.
- Splitting a path string: paths are given as lists of names.
- Printing, hex dumps, `dumpFile`, and the indentation level of the tree walk, which is reduced to the inodes it visits.
- Signals, transactions, mutexes, concurrent file-system requests, and the attribute and directory-listing callbacks.
- Encryption, sparse files, and the parts of the format that the scanner does not look at.

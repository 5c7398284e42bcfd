/** The brute-force scanner: a state machine over blocks in arbitrary order.  */
module Scanner {
  import opened Bytes
  import opened Wrappers
  import opened Seqs
  import opened Merge
  import opened Node
  import opened Stream
  import opened Store
  import Fletcher
  import Grouping
  import XFields

  class APFSScanner {
    const fs: FileSystem
    var currentBlockSize: uint32
    var fsOffset: uint64

    constructor (fs: FileSystem)
      ensures this.fs == fs && Status() == INITIAL && currentBlockSize == 4096 && fsOffset == 0
    {
      this.fs := fs;
      currentBlockSize, fsOffset := BUFFER_SIZE, 0;
    }

    function Status(): Stream.Status
      reads this
    {
      Stream.Status(currentBlockSize, fsOffset)
    }

    /** Between records, cache and database agree and every row is cached.  */
    ghost predicate Valid()
      reads fs, fs.diskEntries.Values
    {
      fs.Valid() && fs.Complete()
    }

    /** The entry for an inode, or a blank one if there is none yet.  */
    method FindOrCreate(i: Inode) returns (e: Entry)
      requires Valid()
      modifies fs`diskEntries
      ensures Valid() && fs.diskEntries == old(fs.diskEntries)
      ensures e.inode == i && e.Value() == Get(fs.Entries(), i)
      ensures fs.Updatable(e) && !e.extentsUpdated
      ensures if i in fs.diskEntries then e == fs.diskEntries[i] else fresh(e)
    {
      var found := fs.FindByInode(i);
      if found == null {
        e := new Entry();
        e.inode := i;
      } else {
        e := found;
      }
    }

    /** The attribute part of an INODE record: parent, version and, with a data stream, the length.  */
    method MergeInode(b: Block, p: Pair, e: Entry)
      modifies e
      ensures e.Value() == Merged(old(e.Value()), InodeRecord(b, p))
      ensures e.extents == old(e.extents)
      ensures e.inode == old(e.inode) && e.isNew == old(e.isNew) && e.extentsUpdated == old(e.extentsUpdated)
    {
      var size: Option<uint64> := None;
      if p.valueLength as int - INODE_VALUE > XFields.BLOB_HEADER {
        size := XFields.FindDstream(b, p.value + INODE_VALUE);
      }
      if e.versionId <= Xid(b) {
        e.parentId := U64(b, p.value);
        e.versionId := Xid(b);
        if size.Some? {
          e.length := size.value;
        }
      }
    }

    method ScanInode(b: Block, p: Pair) returns (fileEntry: Entry)
      requires Valid()
      modifies fs, fs.diskEntries.Values
      ensures Valid() && fresh(fs.diskEntries.Values - old(fs.diskEntries.Values))
      ensures fs.Entries() == Apply(old(fs.Entries()), InodeRecord(b, p))
      ensures KeyId(b, p) in fs.diskEntries && fs.diskEntries[KeyId(b, p)] == fileEntry
    {
      hide FileSystem.Entries, FileSystem.InSync, Permuted, KeyId, Xid, SizeInXFields, U64, Merged;
      fileEntry := FindOrCreate(KeyId(b, p));
      MergeInode(b, p, fileEntry);
      fs.OthersAgree(fileEntry);
      fs.OneEntryDiffers(fileEntry, fileEntry.Value());
      fs.Commit(fileEntry);
    }

    /** The extent part of a FILE_EXTENT record: a newer transaction starts the extent list afresh.  */
    method MergeExtent(b: Block, p: Pair, e: Entry) returns (accepted: bool)
      modifies e
      ensures e.Value() == Merged(old(e.Value()), ExtentRecord(b, e.inode, p))
      ensures e.inode == old(e.inode) && e.isNew == old(e.isNew)
      ensures if accepted then e.extentsUpdated else unchanged(e)
    {
      accepted := e.extentVersionId <= Xid(b);
      if accepted {
        if e.extentVersionId < Xid(b) {
          e.extents := [];
          e.extentsUpdated := true;
          e.extentVersionId := Xid(b);
        }
        var extent := Extent(U64(b, p.key + 8), U64(b, p.value + 8), U64(b, p.value) % LENGTH_RANGE);
        e.extents := e.extents + [extent];
        e.extentsUpdated := true;
      }
    }

    method ScanFileExtent(b: Block, p: Pair, fileEntry: Entry?)
      requires Valid()
      requires fileEntry != null ==> fileEntry.inode in fs.diskEntries && fs.diskEntries[fileEntry.inode] == fileEntry
      modifies fs, fs.diskEntries.Values
      ensures Valid() && fs.diskEntries == old(fs.diskEntries)
      ensures fs.Entries() == if fileEntry == null then old(fs.Entries())
                              else Apply(old(fs.Entries()), ExtentRecord(b, old(fileEntry.inode), p))
    {
      hide FileSystem.Entries, FileSystem.InSync, Permuted, KeyId, Xid, U64, Merged;
      if fileEntry != null {
        fs.CachedEntry(fileEntry);
        var accepted := MergeExtent(b, p, fileEntry);
        fs.OthersAgree(fileEntry);
        fs.OneEntryDiffers(fileEntry, fileEntry.Value());
        if accepted {
          fs.Commit(fileEntry);
        }
      }
    }

    /** A directory record names its child, and gives it a parent when the group has a file entry.  */
    method MergeDirRec(b: Block, p: Pair, parent: Option<Inode>, e: Entry)
      modifies e
      ensures e.Value() == Merged(old(e.Value()), DirRecord(b, parent, p))
      ensures e.extents == old(e.extents)
      ensures e.inode == old(e.inode) && e.isNew == old(e.isNew) && e.extentsUpdated == old(e.extentsUpdated)
    {
      if e.versionId <= Xid(b) {
        if parent.Some? {
          e.parentId := parent.value;
        }
        e.name := CString(b, p.key + 12);
        e.versionId := Xid(b);
        e.kind := U16(b, p.value + 16) % KIND_RANGE;
      }
    }

    method ScanDirRec(b: Block, p: Pair, fileEntry: Entry?)
      requires Valid()
      modifies fs, fs.diskEntries.Values
      ensures Valid() && fresh(fs.diskEntries.Values - old(fs.diskEntries.Values))
      ensures forall i :: i in old(fs.diskEntries) ==>
                i in fs.diskEntries && fs.diskEntries[i] == old(fs.diskEntries)[i]
      ensures fs.Entries() == Apply(old(fs.Entries()),
                                    DirRecord(b, if fileEntry == null then None else Some(old(fileEntry.inode)), p))
    {
      hide FileSystem.Entries, FileSystem.InSync, Permuted, KeyId, Xid, U64, U16, CString, Merged;
      var parent := if fileEntry == null then None else Some(fileEntry.inode);
      var childEntry := FindOrCreate(U64(b, p.value));
      MergeDirRec(b, p, parent, childEntry);
      fs.OthersAgree(childEntry);
      fs.OneEntryDiffers(childEntry, childEntry.Value());
      fs.Commit(childEntry);
    }

    /** One record, given the group's file entry so far.  */
    method ScanRecord(b: Block, id: Inode, p: Pair, before: Entry?) returns (fileEntry: Entry?)
      requires Valid() && KeyId(b, p) == id
      requires before != null ==> id in fs.diskEntries && fs.diskEntries[id] == before && before.inode == id
      modifies fs, fs.diskEntries.Values
      ensures Valid() && fresh(fs.diskEntries.Values - old(fs.diskEntries.Values))
      ensures fs.Entries() == Run(old(fs.Entries()), RecordEvents(b, id, p, before != null))
      ensures fileEntry != null <==> before != null || KeyType(b, p) == RECORD_INODE
      ensures fileEntry != null ==> id in fs.diskEntries && fs.diskEntries[id] == fileEntry && fileEntry.inode == id
    {
      hide FileSystem.Entries, FileSystem.ValidExcept, KeyId, KeyType, InodeRecord, ExtentRecord, DirRecord, Run, Apply;
      fileEntry := before;
      if KeyType(b, p) == RECORD_INODE {
        RunOne(fs.Entries(), InodeRecord(b, p));
        fileEntry := ScanInode(b, p);
      } else if KeyType(b, p) == RECORD_FILE_EXTENT {
        if before != null { RunOne(fs.Entries(), ExtentRecord(b, id, p)); }
        RunNone(fs.Entries());
        ScanFileExtent(b, p, before);
      } else if KeyType(b, p) == RECORD_DIR {
        RunOne(fs.Entries(), DirRecord(b, if before != null then Some(id) else None, p));
        ScanDirRec(b, p, before);
      } else {
        RunNone(fs.Entries());
      }
      fs.KeysAreInodes();
    }

    /** The final write of a group's file entry finds nothing left to write.  */
    method WriteAgain(e: Entry)
      requires Valid() && e.inode in fs.diskEntries && fs.diskEntries[e.inode] == e
      modifies fs, fs.diskEntries.Values
      ensures Valid() && fs.diskEntries == old(fs.diskEntries) && fs.Entries() == old(fs.Entries())
    {
      hide FileSystem.Entries, FileSystem.ValidExcept, FileSystem.Updatable;
      fs.CachedEntry(e);
      fs.Commit(e);
    }

    /** The records of one object id, in table order.  */
    method ScanGroup(b: Block, id: Inode, group: seq<Pair>)
      requires Valid() && forall p :: p in group ==> KeyId(b, p) == id
      modifies fs, fs.diskEntries.Values
      ensures Valid() && fresh(fs.diskEntries.Values - old(fs.diskEntries.Values))
      ensures fs.Entries() == Run(old(fs.Entries()), GroupEvents(b, id, group))
    {
      hide FileSystem.Entries, FileSystem.ValidExcept, KeyId, KeyType, RecordEvents, GroupEvents, HasInode, Run;
      var fileEntry: Entry? := null;
      GroupEventsStart(b, id, fs.Entries());
      for k := 0 to |group|
        invariant Valid() && fresh(fs.diskEntries.Values - old(fs.diskEntries.Values))
        invariant fs.Entries() == Run(old(fs.Entries()), GroupEvents(b, id, group[..k]))
        invariant fileEntry != null <==> HasInode(b, group[..k])
        invariant fileEntry != null ==> id in fs.diskEntries && fs.diskEntries[id] == fileEntry && fileEntry.inode == id
      {
        assert group[k] in group;
        ghost var before := fs.Entries();
        ghost var attached := fileEntry != null;
        fileEntry := ScanRecord(b, id, group[k], fileEntry);
        GroupEventsStep(b, id, group, k);
        RunConcat(old(fs.Entries()), GroupEvents(b, id, group[..k]), RecordEvents(b, id, group[k], attached));
      }
      assert group[..|group|] == group;
      if fileEntry != null {
        WriteAgain(fileEntry);
      }
    }

    // ----- Blocks

    /** Cut the table of contents out of a node.  */
    method ExtractToc(b: Block) returns (tableOfContents: seq<Loc>)
      requires Fits(Status())
      ensures tableOfContents == Toc(currentBlockSize, b)
    {
      hide U16, U32;
      var count := KeyCount(b);
      tableOfContents := [];
      if HasFixedSizes(b) {
        var keyLen := U32(b, InfoBase(currentBlockSize) + 8) % TWO_TO_THE_16;
        var valLen := U32(b, InfoBase(currentBlockSize) + 12) % TWO_TO_THE_16;
        for i := 0 to count
          invariant |tableOfContents| == i
          invariant forall j :: 0 <= j < i ==> tableOfContents[j] == TocEntry(currentBlockSize, b, j)
        {
          var at := TableBase(b) + 4 * i;
          tableOfContents := tableOfContents + [Loc(U16(b, at), keyLen, U16(b, at + 2), valLen)];
        }
      } else {
        for i := 0 to count
          invariant |tableOfContents| == i
          invariant forall j :: 0 <= j < i ==> tableOfContents[j] == TocEntry(currentBlockSize, b, j)
        {
          var at := TableBase(b) + 8 * i;
          tableOfContents := tableOfContents + [Loc(U16(b, at), U16(b, at + 2), U16(b, at + 4), U16(b, at + 6))];
        }
      }
    }

    /** Group the records by object id, in an ordered map from id to records in table order.  */
    method GroupPairs(b: Block, tableOfContents: seq<Loc>) returns (entries: map<nat, seq<Pair>>)
      requires Fits(Status()) && tableOfContents == Toc(currentBlockSize, b)
      ensures entries.Keys == Grouping.Ids(Pairs(currentBlockSize, b), ById(b))
      ensures forall id :: id in entries ==> entries[id] == Grouping.Group(Pairs(currentBlockSize, b), ById(b), id)
    {
      hide Toc, PairOf, KeyId;
      entries := map[];
      ghost var pairs := Pairs(currentBlockSize, b);
      assert pairs[..0] == [];
      for k := 0 to |tableOfContents|
        invariant GroupedSoFar(pairs[..k], b, entries)
      {
        var pair := PairOf(currentBlockSize, b, tableOfContents[k]);
        var id := KeyId(b, pair);
        GroupOneMore(pairs, k, b, entries);
        if id !in entries {
          entries := entries[id := [pair]];
        } else {
          entries := entries[id := entries[id] + [pair]];
        }
      }
      assert pairs[..|pairs|] == pairs;
    }

    /** The order in which an ordered map hands out its keys.  */
    method KeysInOrder(keys: set<nat>) returns (ids: seq<nat>)
      ensures ids == Grouping.Ascending(keys)
    {
      hide Grouping.Ascending;
      var left := keys;
      ids := [];
      while left != {}
        invariant ids + Grouping.Ascending(left) == Grouping.Ascending(keys)
        decreases left
      {
        Grouping.LeastExists(left);
        var id: nat :| id in left && forall i :: i in left ==> id <= i;
        OneMoreDone(ids, left, id, Grouping.Ascending(keys));
        ids := ids + [id];
        left := left - {id};
      }
      AllDone(ids, Grouping.Ascending(keys));
    }

    /** Scan a B-tree block: group after group, ascending by object id.  */
    method ScanBTreeBlock(b: Block)
      requires Valid() && Fits(Status())
      modifies fs, fs.diskEntries.Values
      ensures Valid() && fresh(fs.diskEntries.Values - old(fs.diskEntries.Values))
      ensures fs.Entries() == Run(old(fs.Entries()), NodeEvents(currentBlockSize, b))
    {
      hide Toc, Pairs, KeyId, GroupEvents, FileSystem.ValidExcept, FileSystem.Entries, Run, Permuted,
        Grouping.Group, Grouping.Ids, Grouping.Ascending, FlatMap, EventsOfId;
      var toc := ExtractToc(b);
      var entries := GroupPairs(b, toc);
      var ids := KeysInOrder(entries.Keys);
      ghost var events := EventsOfId(currentBlockSize, b);
      assert ids[..0] == [];
      NothingDone(fs.Entries(), ids[..0], events);
      for k := 0 to |ids|
        invariant Valid() && fresh(fs.diskEntries.Values - old(fs.diskEntries.Values))
        invariant fs.Entries() == Run(old(fs.Entries()), FlatMap(ids[..k], events))
      {
        var id := ids[k];
        assert id in ids;
        GroupHasOneId(currentBlockSize, b, id);
        EventsOfGroup(currentBlockSize, b, id);
        ScanGroup(b, id, entries[id]);
        RunConcat(old(fs.Entries()), FlatMap(ids[..k], events), events(id));
        FlatMapSnoc(ids[..k], id, events);
        assert ids[..k + 1] == ids[..k] + [id];
      }
      assert ids[..|ids|] == ids;
    }

    method ScanBlock(pos: uint64, b: Block)
      requires Valid() && Fits(Status())
      modifies this, fs, fs.diskEntries.Values
      ensures Valid() && fresh(fs.diskEntries.Values - old(fs.diskEntries.Values))
      ensures fs.Entries() == Run(old(fs.Entries()), BlockEvents(old(currentBlockSize), b))
      ensures Status() == Advance(old(Status()), Sector(pos, b))
    {
      hide FileSystem.ValidExcept, FileSystem.Entries, Run, NodeEvents, Fletcher.Checksum, Fletcher.Words,
        U16, U32, U64;
      RunNone(fs.Entries());
      var cksum := Fletcher.Fletcher64(b[CKSUM_SIZE..], currentBlockSize - CKSUM_SIZE);
      if TypeWord(b) != 0 && cksum == StoredChecksum(b) {
        var objectType := TypeWord(b) % TWO_TO_THE_16;
        if objectType == TYPE_NX_SUPERBLOCK {
          if U32(b, 32) == NX_MAGIC {
            currentBlockSize := U32(b, 36);
            if fsOffset == 0 {
              fsOffset := pos;
            }
          }
        } else if objectType == TYPE_BTREE_NODE || objectType == TYPE_BTREE {
          ScanBTreeBlock(b);
        }
      }
    }

    /** A whole run: the scanner sees one sector after the other.  */
    method Scan(sectors: seq<Sector>)
      requires Valid() && StreamFits(Status(), sectors)
      modifies this, fs, fs.diskEntries.Values
      ensures Valid() && fresh(fs.diskEntries.Values - old(fs.diskEntries.Values))
      ensures fs.Entries() == Run(old(fs.Entries()), StreamEvents(old(Status()), sectors))
      ensures Status() == StatusAfter(old(Status()), sectors)
    {
      hide FileSystem.ValidExcept, FileSystem.Entries, Run, BlockEvents, Advance;
      ghost var done: seq<Event> := [];
      RunNone(fs.Entries());
      for k := 0 to |sectors|
        invariant Valid() && fresh(fs.diskEntries.Values - old(fs.diskEntries.Values))
        invariant StreamFits(Status(), sectors[k..])
        invariant done + StreamEvents(Status(), sectors[k..]) == StreamEvents(old(Status()), sectors)
        invariant fs.Entries() == Run(old(fs.Entries()), done)
        invariant StatusAfter(Status(), sectors[k..]) == StatusAfter(old(Status()), sectors)
      {
        var s := sectors[k];
        assert sectors[k..][0] == s && sectors[k..][1..] == sectors[k + 1..];
        ghost var events := BlockEvents(currentBlockSize, s.block);
        RunConcat(old(fs.Entries()), done, events);
        ScanBlock(s.pos, s.block);
        done := done + events;
      }
      assert sectors[|sectors|..] == [];
      assert done + [] == done;
    }
  }
}

/** The store: mutable entries, cached by inode and written through to two tables.  */
module Store {
  import opened Bytes
  import opened Seqs
  import opened Merge
  import opened Tables
  import opened Tree
  import opened Reassembly

  class Entry {
    var inode: Inode
    var parentId: Inode
    var versionId: uint64
    var kind: byte
    var name: Name
    var length: uint64
    var extents: seq<Extent>
    var extentVersionId: uint64
    var isNew: bool
    var extentsUpdated: bool

    constructor ()
      ensures inode == 0 && Value() == BLANK && isNew && !extentsUpdated
    {
      inode, parentId, versionId, kind, name, length := 0, 0, 0, 0, [], 0;
      extents, extentVersionId := [], 0;
      isNew, extentsUpdated := true, false;
    }

    function Row(): Row
      reads this
    {
      Merge.Row(parentId, versionId, kind, name, length, extentVersionId)
    }

    function Value(): EntryValue
      reads this
    {
      EntryValue(Row(), extents)
    }
  }

  /** The tables hold exactly these entries: one row each with equal fields, the same extents as a
      multiset, and nothing else.  */
  ghost predicate TablesHold(entryTable: map<Inode, Row>, extentTable: seq<ExtentRow>, entries: Merge.Entries) {
    && entryTable.Keys == entries.Keys
    && (forall i :: i in entries ==> entryTable[i] == entries[i].row)
    && (forall i :: i in entries ==> Permuted(RowsFor(extentTable, i), entries[i].extents))
    && forall r :: r in extentTable ==> r.inode in entryTable
  }

  class FileSystem {
    var diskEntries: map<Inode, Entry>
    var entryTable: map<Inode, Row>
    var extentTable: seq<ExtentRow>

    /** A file system over an existing database; nothing is cached yet.  */
    constructor (entryTable: map<Inode, Row>, extentTable: seq<ExtentRow>)
      requires forall r :: r in extentTable ==> r.inode in entryTable
      ensures Valid()
      ensures diskEntries == map[] && this.entryTable == entryTable && this.extentTable == extentTable
    {
      diskEntries := map[];
      this.entryTable, this.extentTable := entryTable, extentTable;
    }

    /** The entry has exactly the row, and as a multiset exactly the extent rows, of its inode.  */
    ghost predicate Mirrors(e: Entry, i: Inode)
      reads this`entryTable, this`extentTable, e
    {
      && i in entryTable && entryTable[i] == e.Row()
      && Permuted(RowsFor(extentTable, i), e.extents)
    }

    ghost predicate InSync(e: Entry, i: Inode)
      reads this`entryTable, this`extentTable, e
    {
      e.inode == i && !e.isNew && !e.extentsUpdated && Mirrors(e, i)
    }

    /** Cache and database agree, except possibly about x.  */
    ghost predicate ValidExcept(x: Entry?)
      reads this, diskEntries.Values
    {
      && (forall i :: i in diskEntries ==> diskEntries[i].inode == i)
      && (forall i :: i in diskEntries && diskEntries[i] != x ==> InSync(diskEntries[i], i))
      && forall r :: r in extentTable ==> r.inode in entryTable
    }

    ghost predicate Valid()
      reads this, diskEntries.Values
    {
      ValidExcept(null)
    }

    /** Every row is cached, as it is throughout a scan.  */
    ghost predicate Complete()
      reads this
    {
      diskEntries.Keys == entryTable.Keys
    }

    /** What was cached stays cached, and what is cached anew is a fresh object.  */
    twostate predicate CacheGrew()
      reads this
    {
      && (forall i :: i in old(diskEntries) ==> i in diskEntries && diskEntries[i] == old(diskEntries)[i])
      && fresh(diskEntries.Values - old(diskEntries.Values))
    }

    /** ... and it is these that are.  */
    twostate predicate CacheGrewBy(ids: seq<Inode>)
      reads this
    {
      CacheGrew() && forall i :: i in diskEntries <==> i in old(diskEntries) || i in ids
    }

    /** The entries by value.  */
    ghost function Entries(): Merge.Entries
      reads this, diskEntries.Values
    {
      map i | i in diskEntries :: diskEntries[i].Value()
    }

    /** e is the entry for its inode, new or cached; its extent rows may be out of date only if flagged.  */
    ghost predicate Updatable(e: Entry)
      reads this, e
    {
      if e.isNew then
        e.inode !in diskEntries && e.inode !in entryTable && (!e.extentsUpdated ==> e.extents == [])
      else
        && e.inode in diskEntries && diskEntries[e.inode] == e && e.inode in entryTable
        && (!e.extentsUpdated ==> Permuted(RowsFor(extentTable, e.inode), e.extents))
    }

    /** Empties both tables but not the cache, so cache and database agree afterwards exactly when nothing
        was cached.  */
    method Clear()
      modifies this`entryTable, this`extentTable
      ensures entryTable == map[] && extentTable == []
      ensures Valid() <==> diskEntries == map[]
      ensures diskEntries == map[] ==> Complete()
    {
      entryTable := map[];
      extentTable := [];
      assert diskEntries != map[] ==> exists i :: i in diskEntries;
    }

    method AddEntry(e: Entry)
      requires ValidExcept(e) && Updatable(e) && e.isNew
      modifies this`diskEntries, this`entryTable, e`isNew
      ensures ValidExcept(e) && !e.isNew
      ensures diskEntries == old(diskEntries)[e.inode := e]
      ensures entryTable == old(entryTable)[e.inode := e.Row()]
      ensures !e.extentsUpdated ==> Permuted(RowsFor(extentTable, e.inode), e.extents)
    {
      NoRowsForStrangers(extentTable, e.inode);
      diskEntries := diskEntries[e.inode := e];
      entryTable := entryTable[e.inode := e.Row()];
      e.isNew := false;
      OthersStayInSync(e);
    }

    method UpdateRow(e: Entry)
      requires ValidExcept(e) && Updatable(e) && !e.isNew
      modifies this`entryTable
      ensures ValidExcept(e)
      ensures entryTable == old(entryTable)[e.inode := e.Row()]
    {
      hide Permuted;
      entryTable := entryTable[e.inode := e.Row()];
      OthersStayInSync(e);
    }

    /** Writing the row of e, and caching it, does not disturb other entries.  */
    twostate lemma OthersStayInSync(e: Entry)
      requires old(ValidExcept(e))
      requires diskEntries == old(diskEntries)[e.inode := e]
      requires entryTable == old(entryTable)[e.inode := e.Row()] && extentTable == old(extentTable)
      requires e.inode == old(e.inode)
      requires forall i :: i in old(diskEntries) && old(diskEntries[i]) != e ==> unchanged(old(diskEntries[i]))
      ensures ValidExcept(e)
    {
      forall i | i in diskEntries && diskEntries[i] != e ensures InSync(diskEntries[i], i) {
        assert old(InSync(diskEntries[i], i));
      }
    }

    /** Replace the extent rows of e.  */
    method WriteExtents(e: Entry)
      requires ValidExcept(e) && !e.isNew && e.inode in diskEntries && diskEntries[e.inode] == e
      requires e.inode in entryTable && entryTable[e.inode] == e.Row()
      modifies this`extentTable, e`extentsUpdated
      ensures Valid()
      ensures forall j :: j != e.inode ==> RowsFor(extentTable, j) == old(RowsFor(extentTable, j))
    {
      hide Permuted, RowsFor, Without;
      ghost var before := extentTable;
      extentTable := Without(extentTable, e.inode);
      DeletingAddsNoRows(before, e.inode);
      forall j ensures RowsFor(extentTable, j) == if j == e.inode then [] else RowsFor(before, j) {
        DeletedRowsAreGone(before, e.inode, j);
      }
      for k := 0 to |e.extents|
        invariant RowsFor(extentTable, e.inode) == e.extents[..k]
        invariant forall j :: j != e.inode ==> RowsFor(extentTable, j) == RowsFor(before, j)
        invariant forall r :: r in extentTable ==> r.inode in entryTable
        modifies this`extentTable
      {
        var row := ExtentRow(e.inode, e.extents[k]);
        forall j { RowsForSnoc(extentTable, row, j); }
        extentTable := extentTable + [row];
      }
      assert e.extents[..|e.extents|] == e.extents;
      e.extentsUpdated := false;
      OtherExtentsStayInSync(e);
    }

    /** Writing the extent rows of e does not disturb other entries.  */
    twostate lemma OtherExtentsStayInSync(e: Entry)
      requires old(ValidExcept(e)) && InSync(e, e.inode)
      requires diskEntries == old(diskEntries) && entryTable == old(entryTable)
      requires e.inode in diskEntries && diskEntries[e.inode] == e
      requires forall r :: r in extentTable ==> r.inode in entryTable
      requires forall j :: j != e.inode ==> RowsFor(extentTable, j) == old(RowsFor(extentTable, j))
      requires forall i :: i in diskEntries && diskEntries[i] != e ==> unchanged(diskEntries[i])
      ensures Valid()
    {
      forall i | i in diskEntries && diskEntries[i] != e ensures InSync(diskEntries[i], i) {
        assert old(InSync(diskEntries[i], i));
      }
    }

    /** Write a new or modified entry through to both tables.  */
    method UpdateEntry(e: Entry)
      requires ValidExcept(e) && Updatable(e)
      modifies this, e`isNew, e`extentsUpdated
      ensures Valid()
      ensures diskEntries == old(diskEntries)[e.inode := e]
      ensures entryTable == old(entryTable)[e.inode := e.Row()]
      ensures forall j :: j != e.inode ==> RowsFor(extentTable, j) == old(RowsFor(extentTable, j))
    {
      hide Permuted;
      if e.isNew {
        AddEntry(e);
      } else {
        UpdateRow(e);
      }
      if e.extentsUpdated {
        WriteExtents(e);
      } else {
        assert InSync(e, e.inode);
      }
    }

    /** The extents of i, in whatever order the database returns them.  */
    method SelectExtents(i: Inode) returns (xs: seq<Extent>)
      ensures Permuted(RowsFor(extentTable, i), xs)
    {
      xs := RowsFor(extentTable, i);
    }

    /** A fresh copy of row i and its extent rows.  */
    method LoadEntry(i: Inode) returns (e: Entry)
      requires i in entryTable
      ensures fresh(e) && InSync(e, i)
    {
      hide Permuted;
      var rows := SelectExtents(i);
      e := new Entry();
      var row := entryTable[i];
      e.inode, e.parentId, e.versionId, e.kind := i, row.parentId, row.versionId, row.kind;
      e.name, e.length, e.extentVersionId := row.name, row.length, row.extentVersionId;
      e.isNew, e.extentsUpdated := false, false;
      for k := 0 to |rows|
        invariant e.extents == rows[..k]
        invariant e.inode == i && !e.isNew && !e.extentsUpdated && e.Row() == row
        modifies e
      {
        e.extents := e.extents + [rows[k]];
      }
      assert rows[..|rows|] == rows;
    }

    /** A fresh copy of row i, cached unless there is a cached entry already.  */
    method GetEntryFromQuery(i: Inode) returns (e: Entry)
      requires Valid() && i in entryTable
      modifies this`diskEntries
      ensures Valid()
      ensures fresh(e) && InSync(e, i)
      ensures diskEntries == if i in old(diskEntries) then old(diskEntries) else old(diskEntries)[i := e]
    {
      hide Permuted;
      e := LoadEntry(i);
      if i !in diskEntries {
        diskEntries := diskEntries[i := e];
      }
      forall j | j in diskEntries ensures InSync(diskEntries[j], j) {
        assert diskEntries[j] != e ==> old(InSync(diskEntries[j], j));
      }
    }

    /** The cached entry for i, loading it from the database if need be; null exactly when there is no
        row, so the answer is what a plain table lookup gives.  */
    method FindByInode(i: Inode) returns (e: Entry?)
      requires Valid()
      modifies this`diskEntries
      ensures Valid()
      ensures e == null <==> i !in entryTable
      ensures e != null ==> i in diskEntries && diskEntries[i] == e && InSync(e, i)
      ensures i in old(diskEntries) || i !in entryTable ==> diskEntries == old(diskEntries)
      ensures i !in old(diskEntries) && i in entryTable ==> fresh(e) && diskEntries == old(diskEntries)[i := e]
    {
      if i in diskEntries {
        return diskEntries[i];
      }
      if i in entryTable {
        e := GetEntryFromQuery(i);
        return e;
      }
      return null;
    }

    /** e is the object for its inode, cached or about to be.  */
    ghost predicate Owns(e: Entry)
      reads this`diskEntries, e`inode
    {
      if e.inode in diskEntries then diskEntries[e.inode] == e else e !in diskEntries.Values
    }

    lemma KeysAreInodes()
      requires Valid()
      ensures forall i :: i in diskEntries ==> diskEntries[i].inode == i
    {
    }

    /** While every row is cached, the tables hold exactly the entries.  */
    lemma TablesHoldEntries()
      requires Valid() && Complete()
      ensures TablesHold(entryTable, extentTable, Entries())
    {
      forall i | i in diskEntries
        ensures entryTable[i] == Entries()[i].row && Permuted(RowsFor(extentTable, i), Entries()[i].extents)
      {
        assert InSync(diskEntries[i], i);
      }
    }

    lemma CachedEntry(e: Entry)
      requires Valid() && e.inode in diskEntries && diskEntries[e.inode] == e
      ensures e.inode in entryTable && !e.isNew && !e.extentsUpdated
      ensures ValidExcept(e) && Updatable(e)
      ensures e.inode in Entries() && Entries()[e.inode] == e.Value()
    {
      assert InSync(e, e.inode);
    }

    /** After changes to e alone, cache and database agree about all other entries.  */
    twostate lemma OthersAgree(new e: Entry)
      requires old(Valid()) && Owns(e)
      requires diskEntries == old(diskEntries) && entryTable == old(entryTable) && extentTable == old(extentTable)
      requires forall i :: i in diskEntries && diskEntries[i] != e ==> unchanged(diskEntries[i])
      ensures ValidExcept(e)
    {
      hide Permuted, RowsFor;
      forall i | i in diskEntries && diskEntries[i] != e ensures InSync(diskEntries[i], i) {
        assert old(InSync(diskEntries[i], i));
      }
      forall i | i in diskEntries ensures diskEntries[i].inode == i {
        assert old(InSync(diskEntries[i], i));
        assert diskEntries[i] == e ==> e in diskEntries.Values;
      }
    }

    /** After changes to e alone, with e cached or about to be, only the entry for its inode can differ.  */
    twostate lemma OneEntryDiffers(new e: Entry, v: EntryValue)
      requires forall i :: i in old(diskEntries) ==> old(diskEntries[i].inode) == i
      requires diskEntries == old(diskEntries) || diskEntries == old(diskEntries)[e.inode := e]
      requires forall i :: i in old(diskEntries) && i != e.inode ==> unchanged(old(diskEntries)[i])
      ensures Entries()[e.inode := v] == old(Entries())[e.inode := v]
    {
    }

    /** With e cached, the entries are what they were but for e's own value.  */
    twostate lemma OneEntryStored(new e: Entry)
      requires forall i :: i in old(diskEntries) ==> old(diskEntries[i].inode) == i
      requires diskEntries == old(diskEntries)[e.inode := e]
      requires forall i :: i in old(diskEntries) && i != e.inode ==> unchanged(old(diskEntries)[i])
      ensures Entries() == old(Entries())[e.inode := e.Value()]
    {
    }

    /** Writing e back stores its value under its inode.  */
    method Commit(e: Entry)
      requires ValidExcept(e) && Updatable(e) && Complete()
      modifies this, e`isNew, e`extentsUpdated
      ensures Valid() && Complete()
      ensures diskEntries == old(diskEntries)[e.inode := e]
      ensures Entries() == old(Entries())[e.inode := e.Value()] && e.Value() == old(e.Value())
    {
      hide Permuted, RowsFor, Entries, InSync;
      UpdateEntry(e);
      OneEntryStored(e);
    }

    // ----- File contents

    /** Any ordering by address; ties may come out either way.  */
    method SortByAddress(extents: seq<Extent>) returns (sorted: seq<Extent>)
      ensures Permuted(sorted, extents) && SortedByAddress(sorted)
    {
      sorted := [];
      for k := 0 to |extents|
        invariant Permuted(sorted, extents[..k]) && SortedByAddress(sorted)
      {
        InsertedIsSorted(sorted, extents[k]);
        InsertedHasAll(sorted, extents[k]);
        sorted := Inserted(sorted, extents[k]);
        assert extents[..k + 1] == extents[..k] + [extents[k]];
      }
      assert extents[..|extents|] == extents;
    }

    /** The in-place sort of Read: cache and database still agree, extents being compared as multisets.  */
    method SortExtents(entry: Entry)
      requires Valid()
      modifies entry`extents
      ensures Valid()
      ensures Permuted(entry.extents, old(entry.extents)) && SortedByAddress(entry.extents)
    {
      var sorted := SortByAddress(entry.extents);
      entry.extents := sorted;
      forall i | i in diskEntries ensures InSync(diskEntries[i], i) {
        assert old(InSync(diskEntries[i], i));
      }
    }

    /** Read `size` bytes at `offset` into the caller's buffer, stitching the file together from its
        extents, sorted by address in place.  The extents may overlap, leave gaps or be empty, as long as
        their pieces fit the file buffer and lie on the disk.  As soon as there is nothing to read of one,
        being empty or coming when the file's length is used up, the answer is 0.  */
    method Read(disk: seq<byte>, entry: Entry, buffer: array<byte>, offset: nat, size: nat) returns (count: nat)
      requires Valid()
      requires Safe(entry.extents, entry.length) && OnDisk(disk, entry.extents, entry.length)
      requires |disk| < TWO_TO_THE_63
      requires size <= buffer.Length && offset < TWO_TO_THE_63 && size < TWO_TO_THE_63
      modifies entry`extents, buffer
      ensures Valid()
      ensures Permuted(entry.extents, old(entry.extents)) && SortedByAddress(entry.extents)
      ensures count == if AllRead(entry.extents, entry.length) then ReadCount(entry.length, offset, size) else 0
      ensures HoldsPieces(disk, entry.extents, entry.length, offset, buffer[..count])
      ensures forall k :: count <= k < buffer.Length ==> buffer[k] == old(buffer[k])
    {
      hide Filled, SortedByAddress, WritesFit, OnDisk, AllRead, HoldsPieces, Permuted;
      var fileBuffer := new byte[entry.length];
      SortExtents(entry);
      StoredOrderIrrelevant(disk, entry.extents, old(entry.extents), entry.length);
      var complete := Assemble(disk, entry.extents, fileBuffer);
      HoldsNothing(disk, entry.extents, entry.length, offset);
      if !complete {
        return 0;
      }
      ghost var file := fileBuffer[..];
      count := size;
      if offset < entry.length {
        if offset + size > entry.length {
          count := entry.length - offset;
        }
        forall k | 0 <= k < count {
          buffer[k] := fileBuffer[offset + k];
        }
        FilledFrom(disk, entry.extents, file, offset, count, buffer[..]);
      } else {
        count := 0;
      }
    }

    /** The loop of Read: one disk read per extent, in order; false as soon as one comes back empty.  */
    method Assemble(disk: seq<byte>, extents: seq<Extent>, fileBuffer: array<byte>) returns (complete: bool)
      requires WritesFit(extents, fileBuffer.Length)
      requires OnDisk(disk, extents, fileBuffer.Length) && |disk| < TWO_TO_THE_63
      modifies fileBuffer
      ensures complete == AllRead(extents, fileBuffer.Length)
      ensures complete ==> Filled(disk, extents, |extents|, fileBuffer[..])
    {
      hide Progress, OnDisk, AllRead, Filled, WritesFit, Pread;
      var remaining := fileBuffer.Length;
      ProgressStart(disk, extents, fileBuffer[..]);
      for j := 0 to |extents|
        invariant remaining >= 0 && Progress(disk, extents, j, remaining, fileBuffer[..])
      {
        var extent := extents[j];
        var readLen := Min(extent.length, remaining);
        var got := Pread(disk, readLen, DiskOffset(extent));
        ghost var before := fileBuffer[..];
        ProgressStep(disk, extents, j, remaining, before, got);
        if |got| == 0 {
          return false;
        }
        forall k | 0 <= k < |got| {
          fileBuffer[extent.logicalAddress + k] := got[k];
        }
        assert fileBuffer[..] == Overlay(before, extent.logicalAddress, got);
        remaining := remaining - |got|;
      }
      ProgressEnd(disk, extents, remaining, fileBuffer[..]);
      return true;
    }

    // ----- Directories

    /** The inodes whose row names this parent, in whatever order the database returns them.  */
    method SelectChildren(parent: Inode) returns (ids: seq<Inode>)
      ensures NoDup(ids)
      ensures forall i :: i in ids <==> i in entryTable && entryTable[i].parentId == parent
    {
      ids := [];
      var left := set i | i in entryTable && entryTable[i].parentId == parent;
      while left != {}
        invariant NoDup(ids) && forall i :: i in ids ==> i !in left
        invariant forall i :: i in ids || i in left <==> i in entryTable && entryTable[i].parentId == parent
        decreases left
      {
        var i :| i in left;
        ids := ids + [i];
        left := left - {i};
      }
    }

    /** Fresh copies of the rows under a parent, each row once.  */
    method FindByParentInode(parent: Inode) returns (entries: seq<Entry>, ghost ids: seq<Inode>)
      requires Valid()
      modifies this`diskEntries
      ensures Valid()
      ensures |entries| == |ids| && forall k :: 0 <= k < |ids| ==> fresh(entries[k]) && InSync(entries[k], ids[k])
      ensures NoDup(ids)
      ensures forall i :: i in ids <==> i in entryTable && entryTable[i].parentId == parent
      ensures CacheGrewBy(ids)
    {
      hide Permuted, InSync, ValidExcept;
      entries := [];
      var rows := SelectChildren(parent);
      ids := rows;
      for k := 0 to |rows|
        invariant Valid() && CacheGrew()
        invariant forall i :: i in diskEntries <==> i in old(diskEntries) || i in rows[..k]
        invariant |entries| == k && forall j :: 0 <= j < k ==> fresh(entries[j]) && InSync(entries[j], rows[j])
      {
        assert rows[k] in rows && rows[..k + 1] == rows[..k] + [rows[k]];
        var e := GetEntryFromQuery(rows[k]);
        entries := entries + [e];
      }
      assert rows[..|rows|] == rows;
    }

    /** A fresh copy of some row with that parent and name; null exactly when there is none.  */
    method FindByName(parent: Inode, name: Name) returns (e: Entry?)
      requires Valid()
      modifies this`diskEntries
      ensures Valid()
      ensures CacheGrew() && diskEntries.Keys == old(diskEntries.Keys) + (if e == null then {} else {e.inode})
      ensures e == null <==> forall i :: !Named(entryTable, i, parent, name)
      ensures e != null ==> fresh(e) && InSync(e, e.inode) && Named(entryTable, e.inode, parent, name)
    {
      if i :| i in entryTable && Named(entryTable, i, parent, name) {
        e := GetEntryFromQuery(i);
      } else {
        e := null;
      }
    }

    /** Resolves a path part by part from the root directory, taking any row that bears the next name.  What is
        found is always spelled by the path, and nothing is found only where the search meets a dead end;
        with names unique along the path, whatever it spells is found.  */
    method FindByPath(parts: seq<Name>) returns (e: Entry?)
      requires Valid() && ROOT_DIR in entryTable
      modifies this`diskEntries
      ensures Valid()
      ensures CacheGrew()
      ensures e != null ==> InSync(e, e.inode) && Spells(entryTable, ROOT_DIR, parts, e.inode)
      ensures e != null ==> e in old(diskEntries.Values) || fresh(e)
      ensures e == null ==> DeadEnd(entryTable, ROOT_DIR, parts)
      ensures UniqueAlong(entryTable, ROOT_DIR, parts) ==>
                forall x :: Spells(entryTable, ROOT_DIR, parts, x) ==> e != null && e.inode == x
    {
      hide Permuted, InSync, Spells, Named, UniqueAlong;
      assert Spells(entryTable, ROOT_DIR, parts[..0], ROOT_DIR) by { NoParts(entryTable, ROOT_DIR, parts); }
      e := FindByInode(ROOT_DIR);
      for k := 0 to |parts|
        invariant Valid() && CacheGrew()
        invariant e != null && InSync(e, e.inode) && Spells(entryTable, ROOT_DIR, parts[..k], e.inode)
        invariant e in old(diskEntries.Values) || fresh(e)
      {
        var above := e.inode;
        e := FindByName(above, parts[k]);
        if e == null {
          assert Nobody(entryTable, above, parts[k]);
          assert DeadEnd(entryTable, ROOT_DIR, parts);
          if UniqueAlong(entryTable, ROOT_DIR, parts) { DeadEndsTheSearch(entryTable, ROOT_DIR, parts); }
          return null;
        }
        SpellsOneMore(entryTable, ROOT_DIR, parts, k, above, e.inode);
      }
      assert parts[..|parts|] == parts;
      FoundIsTheOnlyOne(entryTable, ROOT_DIR, parts, e.inode);
    }

    /** Path resolution inverts naming: with distinct names among siblings, the names along the parent links
        of an inode below the root directory lead back to it.  */
    method FindNamed(x: Inode, n: nat) returns (e: Entry?)
      requires Valid() && DistinctSiblings(entryTable)
      requires ROOT_DIR in entryTable && Ancestor(entryTable, ROOT_DIR, x, n)
      modifies this`diskEntries
      ensures Valid() && CacheGrew()
      ensures e != null && InSync(e, x)
    {
      hide InSync, Spells, UniqueAlong, DistinctSiblings;
      var parts := NamesUp(entryTable, ROOT_DIR, x, n);
      NamesSpellThePath(entryTable, ROOT_DIR, x, n);
      DistinctSiblingsAreUnique(entryTable, ROOT_DIR, parts);
      e := FindByPath(parts);
    }

    /** The recursive walk, reduced to the inodes it visits.  There is no visited set: it halts because d is
        not on a parent cycle, and then it visits every inode that child links lead to, depth first, parents
        before children and each exactly once.  */
    method DumpTree(d: Inode) returns (visited: seq<Inode>)
      requires Valid() && !OnCycle(entryTable, d)
      modifies this`diskEntries
      ensures Valid()
      ensures d == 0 || d !in entryTable ==> visited == []
      ensures d != 0 && d in entryTable ==> IsWalk(entryTable, d, visited)
      decreases Subtree(entryTable, d)
    {
      hide Permuted, CacheGrew, CacheGrewBy;
      if d == NO_INODE {
        return [];
      }
      var dir := FindByInode(d);
      if dir == null {
        return [];
      }
      visited := [d];
      var children, ids := FindByParentInode(d);
      WalkStart(entryTable, d);
      for k := 0 to |children|
        invariant Valid()
        invariant forall j :: 0 <= j < |ids| ==> children[j].inode == ids[j]
        invariant Walked(entryTable, d, ids[..k], visited)
      {
        assert ids[..k + 1] == ids[..k] + [ids[k]] && ids[k] in ids;
        var c := children[k].inode;
        if c == d {
          WalkSkips(entryTable, d, ids, k, visited);
          continue;
        }
        SubtreeShrinks(entryTable, d, c);
        if OnCycle(entryTable, c) { ChildOffCycle(entryTable, d, c); }
        var sub := DumpTree(c);
        WalkAppends(entryTable, d, ids, k, visited, sub);
        visited := visited + sub;
      }
      assert ids[..|ids|] == ids;
      WalkEnds(entryTable, d, ids, visited);
    }
  }
}

/** The merge: what a stream of recovered records does to the set of entries.

    The scanner turns every accepted B-tree block into events, in processing order; an entry is what the
    events for its inode leave behind.  */
module Merge {
  import opened Bytes
  import opened Wrappers
  import opened Seqs
  import Register

  type Inode = uint64
  type Name = seq<byte>

  datatype Extent = Extent(logicalAddress: uint64, physicalBlock: uint64, length: uint64)

  /** A row of the entry table, without its key.  */
  datatype Row = Row(
    parentId: Inode, versionId: uint64, kind: byte, name: Name, length: uint64, extentVersionId: uint64)

  datatype EntryValue = EntryValue(row: Row, extents: seq<Extent>)

  const BLANK_ROW := Row(0, 0, 0, [], 0, 0)
  const BLANK := EntryValue(BLANK_ROW, [])

  datatype Event =
    | InodeEvent(inode: Inode, xid: uint64, parentId: Inode, size: Option<uint64>)
    | DirEvent(inode: Inode, xid: uint64, parent: Option<Inode>, name: Name, kind: byte)
    | ExtentEvent(inode: Inode, xid: uint64, extent: Extent)

  type Entries = map<Inode, EntryValue>

  function Get(s: Entries, i: Inode): EntryValue {
    if i in s then s[i] else BLANK
  }

  function Merged(v: EntryValue, e: Event): EntryValue {
    match e
    case InodeEvent(_, xid, parentId, size) =>
      if v.row.versionId <= xid
      then v.(row := v.row.(parentId := parentId, versionId := xid, length := size.GetOr(v.row.length)))
      else v
    case DirEvent(_, xid, parent, name, kind) =>
      if v.row.versionId <= xid
      then v.(row := v.row.(parentId := parent.GetOr(v.row.parentId), versionId := xid, name := name, kind := kind))
      else v
    case ExtentEvent(_, xid, extent) =>
      if v.row.extentVersionId < xid then EntryValue(v.row.(extentVersionId := xid), [extent])
      else if v.row.extentVersionId == xid then v.(extents := v.extents + [extent])
      else v
  }

  function Apply(s: Entries, e: Event): Entries {
    s[e.inode := Merged(Get(s, e.inode), e)]
  }

  function Run(s: Entries, events: seq<Event>): Entries {
    if events == [] then s else Apply(Run(s, events[..|events| - 1]), events[|events| - 1])
  }

  lemma {:induction false} RunConcat(s: Entries, a: seq<Event>, b: seq<Event>)
    ensures Run(s, a + b) == Run(Run(s, a), b)
  {
    if b == [] {
      assert a + b == a;
    } else {
      assert (a + b)[..|a + b| - 1] == a + b[..|b| - 1];
      RunConcat(s, a, b[..|b| - 1]);
    }
  }

  lemma RunOne(s: Entries, e: Event)
    ensures Run(s, [e]) == Apply(s, e)
  {
    assert [e][..0] == [];
    assert Run(s, []) == s;
  }

  lemma RunNone(s: Entries)
    ensures Run(s, []) == s
  {
  }

  /** An entry exists for exactly the inodes some event is about.  */
  lemma {:induction false} EntriesAreTheInodesSeen(events: seq<Event>, i: Inode)
    ensures i in Run(map[], events) <==> exists e :: e in events && e.inode == i
  {
    if events != [] {
      var init, last := events[..|events| - 1], events[|events| - 1];
      assert events == init + [last];
      EntriesAreTheInodesSeen(init, i);
      assert last in events;
    }
  }

  // ----- Attributes

  datatype Field = Parent | Kind | FileName | Length

  datatype FieldValue = Number(n: uint64) | Text(t: Name)

  function FieldOf(row: Row, f: Field): FieldValue {
    match f
    case Parent => Number(row.parentId)
    case Kind => Number(row.kind)
    case FileName => Text(row.name)
    case Length => Number(row.length)
  }

  /** What an event sets a field to: an INODE record always sets the parent and sets the length when it
      carries a data stream; a directory record always sets name and kind, and the parent when it is attached.  */
  function SetBy(e: Event, f: Field): Option<FieldValue> {
    match (e, f)
    case (InodeEvent(_, _, parentId, _), Parent) => Some(Number(parentId))
    case (InodeEvent(_, _, _, Some(size)), Length) => Some(Number(size))
    case (DirEvent(_, _, Some(parent), _, _), Parent) => Some(Number(parent))
    case (DirEvent(_, _, _, name, _), FileName) => Some(Text(name))
    case (DirEvent(_, _, _, _, kind), Kind) => Some(Number(kind))
    case _ => None
  }

  /** An event about i as a write to one attribute of i.  */
  function AttributeWrite(e: Event, i: Inode, f: Field): Option<Register.Write<FieldValue>> {
    if e.inode != i || e.ExtentEvent? then None else Some(Register.Write(e.xid, SetBy(e, f)))
  }

  function AttributeWrites(i: Inode, f: Field): Event -> Option<Register.Write<FieldValue>> {
    e => AttributeWrite(e, i, f)
  }

  function InitialRegister(f: Field): Register.Reg<FieldValue> {
    Register.Reg(0, FieldOf(BLANK_ROW, f))
  }

  /** Each attribute of each entry is a versioned register driven by the records about it, all four
      sharing one version.  */
  lemma {:induction false} AttributesAreRegisters(events: seq<Event>, i: Inode, f: Field)
    ensures var row := Get(Run(map[], events), i).row;
            Register.Run(InitialRegister(f), events, AttributeWrites(i, f))
            == Register.Reg(row.versionId, FieldOf(row, f))
  {
    if events != [] {
      AttributesAreRegisters(events[..|events| - 1], i, f);
    }
  }

  /** The newest INODE or directory record about i.  */
  function NewestAttribute(events: seq<Event>, i: Inode): nat {
    Register.Newest(events, AttributeWrites(i, Parent))
  }

  lemma {:induction false} NewestForAnyField(events: seq<Event>, i: Inode, f: Field)
    ensures Register.Newest(events, AttributeWrites(i, f)) == NewestAttribute(events, i)
  {
    if events != [] {
      NewestForAnyField(events[..|events| - 1], i, f);
    }
  }

  /** The version is the newest transaction, and each attribute is what the last kept record to set it
      says, where a record is kept when it is at least as new as every earlier record about the inode.  */
  lemma AttributesAreLastKept(events: seq<Event>, i: Inode, f: Field)
    ensures var row := Get(Run(map[], events), i).row;
            var w := AttributeWrites(i, f);
            row.versionId == NewestAttribute(events, i)
            && FieldOf(row, f) == Register.LastSet(Register.Kept(events, w), w, FieldOf(BLANK_ROW, f))
  {
    AttributesAreRegisters(events, i, f);
    NewestForAnyField(events, i, f);
    Register.VersionIsNewest(InitialRegister(f), events, AttributeWrites(i, f));
    Register.ValueIsLastKept(InitialRegister(f), events, AttributeWrites(i, f));
  }

  // ----- Extents

  function ExtentWrites(i: Inode): Event -> Option<Register.Write<()>> {
    (e: Event) => if e.ExtentEvent? && e.inode == i then Some(Register.Write(e.xid, None)) else None
  }

  function NewestExtent(events: seq<Event>, i: Inode): nat {
    Register.Newest(events, ExtentWrites(i))
  }

  function ExtentsOfEvent(i: Inode, xid: nat): Event -> seq<Extent> {
    (e: Event) => if e.ExtentEvent? && e.inode == i && e.xid == xid then [e.extent] else []
  }

  /** The extents recorded for i by transaction xid, in arrival order.  */
  function ExtentsAt(events: seq<Event>, i: Inode, xid: nat): seq<Extent> {
    FlatMap(events, ExtentsOfEvent(i, xid))
  }

  lemma {:induction false} NoExtentsAboveNewest(events: seq<Event>, i: Inode, xid: nat)
    requires NewestExtent(events, i) < xid
    ensures ExtentsAt(events, i, xid) == []
  {
    if events != [] {
      NoExtentsAboveNewest(events[..|events| - 1], i, xid);
    }
  }

  /** Extents refine "keep the newest": the version is the greatest transaction over all attached extent
      records, and the extents are those recorded by it, in arrival order.  */
  lemma {:induction false} ExtentsKeepNewest(events: seq<Event>, i: Inode)
    ensures var v := Get(Run(map[], events), i);
            v.row.extentVersionId == NewestExtent(events, i)
            && v.extents == ExtentsAt(events, i, NewestExtent(events, i))
  {
    if events != [] {
      var init, last := events[..|events| - 1], events[|events| - 1];
      ExtentsKeepNewest(init, i);
      if last.ExtentEvent? && last.inode == i && NewestExtent(init, i) < last.xid {
        NoExtentsAboveNewest(init, i, last.xid);
      }
    }
  }

  // ----- Stale records

  /** A newer record of the same kind about the same inode has already arrived.  */
  predicate Stale(before: seq<Event>, e: Event) {
    e.xid < (if e.ExtentEvent? then NewestExtent(before, e.inode) else NewestAttribute(before, e.inode))
  }

  /** Deleting a stale record from the stream changes nothing at all.  */
  lemma StaleRecordIsInvisible(before: seq<Event>, e: Event, after: seq<Event>)
    requires Stale(before, e)
    ensures Run(map[], before + [e] + after) == Run(map[], before + after)
  {
    var s := Run(map[], before);
    AttributesAreLastKept(before, e.inode, Parent);
    ExtentsKeepNewest(before, e.inode);
    assert e.inode in s;
    assert Apply(s, e) == s;
    assert (before + [e])[..|before|] == before;
    RunConcat(map[], before + [e], after);
    RunConcat(map[], before, after);
  }

  // ----- Arrival order of single records

  /** Rearranging the records leaves the set of entries, both versions, and each entry's extents (as a
      multiset) unchanged.  */
  lemma RearrangedRecords(s: seq<Event>, t: seq<Event>, i: Inode)
    requires Permuted(s, t)
    ensures i in Run(map[], s) <==> i in Run(map[], t)
    ensures var v, u := Get(Run(map[], s), i), Get(Run(map[], t), i);
            && v.row.versionId == u.row.versionId
            && v.row.extentVersionId == u.row.extentVersionId
            && Permuted(v.extents, u.extents)
  {
    PermutedElements(s, t);
    EntriesAreTheInodesSeen(s, i);
    EntriesAreTheInodesSeen(t, i);
    AttributesAreLastKept(s, i, Parent);
    AttributesAreLastKept(t, i, Parent);
    Register.NewestPermuted(s, t, AttributeWrites(i, Parent));
    ExtentsKeepNewest(s, i);
    ExtentsKeepNewest(t, i);
    Register.NewestPermuted(s, t, ExtentWrites(i));
    FlatMapPermuted(s, t, ExtentsOfEvent(i, NewestExtent(s, i)));
  }

  ghost predicate SettledField(events: seq<Event>, i: Inode, f: Field) {
    Register.Settled(events, AttributeWrites(i, f), FieldOf(BLANK_ROW, f))
  }

  /** An attribute is the same in every order of the records exactly when its writes are settled.  */
  lemma FieldOrderIndependence(events: seq<Event>, i: Inode, f: Field)
    ensures (forall p :: Permuted(p, events) ==>
               FieldOf(Get(Run(map[], p), i).row, f) == FieldOf(Get(Run(map[], events), i).row, f))
       <==> SettledField(events, i, f)
  {
    var w := AttributeWrites(i, f);
    Register.OrderIndependentIffSettled(InitialRegister(f), events, w);
    forall p ensures Register.Run(InitialRegister(f), p, w).value == FieldOf(Get(Run(map[], p), i).row, f) {
      AttributesAreRegisters(p, i, f);
    }
  }

  lemma RunTwo(d: Event, e: Event)
    ensures Run(map[], [d, e]) == Apply(Apply(map[], d), e)
  {
    assert [d, e][..1] == [d];
    RunOne(map[], d);
  }

  /** A run in numbers.  Of records of one transaction the later wins; a record without a size or a parent
      leaves that alone; older records are ignored; extents are those of the newest transaction.  */
  lemma KnownRun()
    ensures Run(map[], KNOWN_NAMES) == map[20 := EntryValue(Row(4, 7, 8, [97], 1000, 0), [])]
    ensures Run(Run(map[], KNOWN_NAMES), KNOWN_EXTENTS)
         == map[20 := EntryValue(Row(4, 7, 4, [98], 1000, 9), [Extent(4096, 2, 4096), Extent(8192, 3, 4096)])]
  {
    var s, t := KNOWN_NAMES, KNOWN_EXTENTS;
    RunFour(map[], s[0], s[1], s[2], s[3]);
    var v := EntryValue(Row(4, 7, 8, [97], 1000, 0), []);
    assert Run(map[], s) == map[20 := v];
    RunFour(map[20 := v], t[0], t[1], t[2], t[3]);
    assert t[..4] == [t[0], t[1], t[2], t[3]];
    assert Run(map[20 := v], t) == Apply(Run(map[20 := v], t[..4]), t[4]);
    hide Run, Apply;
    OneEntry(v, t[0]);
    OneEntry(Merged(v, t[0]), t[1]);
    var w := EntryValue(Row(4, 7, 4, [98], 1000, 9), [Extent(4096, 2, 4096)]);
    assert Merged(Merged(v, t[0]), t[1]) == w;
    OneEntry(w, t[2]);
    assert Merged(w, t[2]) == w;
    OneEntry(w, t[3]);
    var u := EntryValue(w.row, [Extent(4096, 2, 4096), Extent(8192, 3, 4096)]);
    assert Merged(w, t[3]) == u && Merged(u, t[4]) == u;
    OneEntry(u, t[4]);
  }

  lemma OneEntry(v: EntryValue, e: Event)
    requires e.inode == 20
    ensures Apply(map[20 := v], e) == map[20 := Merged(v, e)]
  {
    hide Merged;
  }

  const KNOWN_NAMES: seq<Event> := [
    DirEvent(20, 5, Some(2), [97], 8), InodeEvent(20, 5, 3, Some(1000)), InodeEvent(20, 7, 4, None),
    InodeEvent(20, 6, 9, Some(9))]

  const KNOWN_EXTENTS: seq<Event> := [
    DirEvent(20, 7, None, [98], 4), ExtentEvent(20, 9, Extent(4096, 2, 4096)),
    ExtentEvent(20, 3, Extent(0, 1, 4096)), ExtentEvent(20, 9, Extent(8192, 3, 4096)),
    ExtentEvent(20, 8, Extent(0, 1, 4096))]

  lemma RunFour(s: Entries, a: Event, b: Event, c: Event, d: Event)
    ensures Run(s, [a, b, c, d]) == Apply(Apply(Apply(Apply(s, a), b), c), d)
  {
    assert [a, b, c, d][..3] == [a, b, c] && [a, b, c][..2] == [a, b] && [a, b][..1] == [a];
    hide Apply;
    RunOne(s, a);
    assert Run(s, [a, b]) == Apply(Run(s, [a]), b);
    assert Run(s, [a, b, c]) == Apply(Run(s, [a, b]), c);
  }

  /** Names do depend on the order: a directory record at transaction 5 survives an INODE record at 7
      that arrives later, and is lost when that one arrives first.  */
  lemma NamesDependOnOrder()
    ensures var d, n := DirEvent(20, 5, Some(2), [0x61], 8), InodeEvent(20, 7, 2, None);
            && Get(Run(map[], [d, n]), 20).row.name == [0x61]
            && Get(Run(map[], [n, d]), 20).row.name == []
            && !SettledField([d, n], 20, FileName)
  {
    var d, n := DirEvent(20, 5, Some(2), [0x61], 8), InodeEvent(20, 7, 2, None);
    var s, t := [d, n], [n, d];
    hide SettledField;
    RunTwo(d, n);
    RunTwo(n, d);
    FieldOrderIndependence(s, 20, FileName);
    assert Permuted(t, s);
    assert FieldOf(Get(Run(map[], t), 20).row, FileName) != FieldOf(Get(Run(map[], s), 20).row, FileName);
  }
}

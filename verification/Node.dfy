/** What a raw block says: acceptance by checksum, the table of contents of a B-tree node, and the events
    its records amount to.  Field offsets are those of the packed C structs.  */
module Node {
  import opened Bytes
  import opened Wrappers
  import opened Seqs
  import opened Merge
  import Fletcher
  import Grouping
  import XFields

  const BUFFER_SIZE: nat := 4096
  const CKSUM_SIZE: nat := 8
  const NODE_HEADER: nat := 56
  const INFO_SIZE: nat := 40
  const INODE_VALUE: nat := 92

  const TYPE_NX_SUPERBLOCK: nat := 1
  const TYPE_BTREE: nat := 2
  const TYPE_BTREE_NODE: nat := 3
  const NX_MAGIC: nat := 0x4253584E

  const RECORD_INODE: nat := 3
  const RECORD_FILE_EXTENT: nat := 8
  const RECORD_DIR: nat := 9

  const ID_RANGE: nat := 0x1000_0000_0000_0000     // ids are the low 60 bits of a key's first word
  const LENGTH_RANGE: nat := 0x100_0000_0000_0000  // extent lengths are the low 56 bits
  const KIND_RANGE: nat := 0x10                    // a directory entry's kind is the low 4 bits of its flags

  type Block = b: seq<byte> | |b| == BUFFER_SIZE witness seq(BUFFER_SIZE, _ => 0)

  /** A block size the 4096-byte buffer can serve.  */
  type BlockSize = s: int | CKSUM_SIZE <= s <= BUFFER_SIZE witness BUFFER_SIZE

  // ----- Object header

  function StoredChecksum(b: Block): uint64 { U64(b, 0) }

  function Xid(b: Block): uint64 { U64(b, 16) }

  function TypeWord(b: Block): uint32 { U32(b, 24) }

  function ObjectType(b: Block): nat { TypeWord(b) % TWO_TO_THE_16 }

  function Payload(size: BlockSize, b: Block): seq<uint32> {
    Fletcher.Words(b[CKSUM_SIZE..], (size - CKSUM_SIZE) / 4)
  }

  predicate Accepted(size: BlockSize, b: Block) {
    TypeWord(b) != 0 && Fletcher.Checksum(Payload(size, b)) == StoredChecksum(b)
  }

  // ----- B-tree node

  function Flags(b: Block): uint16 { U16(b, 32) }

  predicate IsRoot(b: Block) { Flags(b) % 2 == 1 }

  predicate HasFixedSizes(b: Block) { Flags(b) / 4 % 2 == 1 }

  function KeyCount(b: Block): uint32 { U32(b, 36) }

  function TableOffset(b: Block): uint16 { U16(b, 40) }

  function TableLength(b: Block): uint16 { U16(b, 42) }

  function TableBase(b: Block): nat { NODE_HEADER + TableOffset(b) }

  function KeyBase(b: Block): nat { NODE_HEADER + TableOffset(b) + TableLength(b) }

  function InfoBase(size: BlockSize): int { size - INFO_SIZE }

  function ValueBase(size: BlockSize, b: Block): int {
    if IsRoot(b) then size - INFO_SIZE else size
  }

  datatype Loc = Loc(keyOff: uint16, keyLen: uint16, valOff: uint16, valLen: uint16)

  /** Entry i of the table of contents.  Fixed-size nodes store offsets only and take both lengths, cut to
      16 bits, from the tree info that ends a root.  */
  function TocEntry(size: BlockSize, b: Block, i: nat): Loc {
    if HasFixedSizes(b) then
      var at := TableBase(b) + 4 * i;
      Loc(U16(b, at), U32(b, InfoBase(size) + 8) % TWO_TO_THE_16,
          U16(b, at + 2), U32(b, InfoBase(size) + 12) % TWO_TO_THE_16)
    else
      var at := TableBase(b) + 8 * i;
      Loc(U16(b, at), U16(b, at + 2), U16(b, at + 4), U16(b, at + 6))
  }

  function Toc(size: BlockSize, b: Block): seq<Loc> {
    seq(KeyCount(b), i requires 0 <= i => TocEntry(size, b, i))
  }

  /** A key and a value, as positions in the block.  */
  datatype Pair = Pair(key: int, valueLength: uint16, value: int)

  function PairOf(size: BlockSize, b: Block, loc: Loc): Pair {
    Pair(KeyBase(b) + loc.keyOff, loc.valLen, ValueBase(size, b) - loc.valOff)
  }

  function Pairs(size: BlockSize, b: Block): seq<Pair> {
    var toc := Toc(size, b);
    seq(|toc|, i requires 0 <= i < |toc| => PairOf(size, b, toc[i]))
  }

  // ----- Records

  function KeyId(b: Block, p: Pair): Inode { U64(b, p.key) % ID_RANGE }

  function KeyType(b: Block, p: Pair): nat { U64(b, p.key) / ID_RANGE }

  function ById(b: Block): Pair -> nat { p => KeyId(b, p) }

  function SizeInXFields(b: Block, p: Pair): Option<uint64> {
    if p.valueLength as int - INODE_VALUE > XFields.BLOB_HEADER
    then XFields.LastDstream(b, p.value + INODE_VALUE, XFields.Count(b, p.value + INODE_VALUE))
    else None
  }

  function InodeRecord(b: Block, p: Pair): Event {
    InodeEvent(KeyId(b, p), Xid(b), U64(b, p.value), SizeInXFields(b, p))
  }

  function ExtentRecord(b: Block, inode: Inode, p: Pair): Event {
    ExtentEvent(inode, Xid(b), Extent(U64(b, p.key + 8), U64(b, p.value + 8), U64(b, p.value) % LENGTH_RANGE))
  }

  function DirRecord(b: Block, parent: Option<Inode>, p: Pair): Event {
    DirEvent(U64(b, p.value), Xid(b), parent, CString(b, p.key + 12), U16(b, p.value + 16) % KIND_RANGE)
  }

  /** A group has a file entry once one of its INODE records has been seen.  */
  predicate HasInode(b: Block, group: seq<Pair>) {
    exists p :: p in group && KeyType(b, p) == RECORD_INODE
  }

  /** The events of one record of group `id`; `attached` says whether the group already has a file entry.  */
  function RecordEvents(b: Block, id: Inode, p: Pair, attached: bool): seq<Event> {
    if KeyType(b, p) == RECORD_INODE then [InodeRecord(b, p)]
    else if KeyType(b, p) == RECORD_FILE_EXTENT then (if attached then [ExtentRecord(b, id, p)] else [])
    else if KeyType(b, p) == RECORD_DIR then [DirRecord(b, if attached then Some(id) else None, p)]
    else []
  }

  function GroupEvents(b: Block, id: Inode, group: seq<Pair>): seq<Event> {
    if group == [] then []
    else
      var init := group[..|group| - 1];
      GroupEvents(b, id, init) + RecordEvents(b, id, group[|group| - 1], HasInode(b, init))
  }

  ghost function EventsOfId(size: BlockSize, b: Block): nat -> seq<Event> {
    (id: nat) => if id < TWO_TO_THE_64 then GroupEvents(b, id, Grouping.Group(Pairs(size, b), ById(b), id)) else []
  }

  /** All events of a B-tree block, group after group, ascending by object id.  */
  ghost function NodeEvents(size: BlockSize, b: Block): seq<Event> {
    FlatMap(Grouping.Ascending(Grouping.Ids(Pairs(size, b), ById(b))), EventsOfId(size, b))
  }

  predicate IsNode(size: BlockSize, b: Block) {
    Accepted(size, b) && (ObjectType(b) == TYPE_BTREE || ObjectType(b) == TYPE_BTREE_NODE)
  }

  ghost function BlockEvents(size: BlockSize, b: Block): seq<Event> {
    if IsNode(size, b) then NodeEvents(size, b) else []
  }

  // ----- Superblocks set the block size

  predicate IsSuperblock(size: BlockSize, b: Block) {
    Accepted(size, b) && ObjectType(b) == TYPE_NX_SUPERBLOCK && U32(b, 32) == NX_MAGIC
  }

  function DeclaredSize(b: Block): uint32 { U32(b, 36) }

  // ----- Facts about events

  lemma GroupEventsStart(b: Block, id: Inode, s: Entries)
    ensures !HasInode(b, []) && Run(s, GroupEvents(b, id, [])) == s
  {
  }

  lemma GroupEventsStep(b: Block, id: Inode, group: seq<Pair>, k: nat)
    requires k < |group|
    ensures GroupEvents(b, id, group[..k + 1])
         == GroupEvents(b, id, group[..k]) + RecordEvents(b, id, group[k], HasInode(b, group[..k]))
    ensures HasInode(b, group[..k + 1]) <==> HasInode(b, group[..k]) || KeyType(b, group[k]) == RECORD_INODE
  {
    hide KeyType, RecordEvents;
    assert group[..k + 1][..k] == group[..k];
    assert group[..k + 1] == group[..k] + [group[k]];
  }

  lemma {:induction false} GroupEventsShareXid(b: Block, id: Inode, group: seq<Pair>)
    ensures forall e :: e in GroupEvents(b, id, group) ==> e.xid == Xid(b)
  {
    if group != [] {
      GroupEventsShareXid(b, id, group[..|group| - 1]);
    }
  }

  /** All events of a block carry the block's own transaction id.  */
  lemma BlockEventsShareXid(size: BlockSize, b: Block)
    ensures forall e :: e in BlockEvents(size, b) ==> e.xid == Xid(b)
  {
    forall e | e in BlockEvents(size, b) ensures e.xid == Xid(b) {
      var ids := Grouping.Ascending(Grouping.Ids(Pairs(size, b), ById(b)));
      var k := FlatMapElement(ids, EventsOfId(size, b), e);
      GroupEventsShareXid(b, ids[k], Grouping.Group(Pairs(size, b), ById(b), ids[k]));
    }
  }

  /** Record k of a group is an extent record that comes after an INODE record of the group.  */
  predicate AttachedExtent(b: Block, group: seq<Pair>, k: nat)
    requires k < |group|
  {
    KeyType(b, group[k]) == RECORD_FILE_EXTENT && HasInode(b, group[..k])
  }

  /** Exactly the attached extent records of a group become extent events.  */
  lemma ExtentsNeedAnInode(b: Block, id: Inode, group: seq<Pair>, e: Event)
    requires e.ExtentEvent?
    ensures e in GroupEvents(b, id, group)
       <==> exists k :: 0 <= k < |group| && AttachedExtent(b, group, k) && e == ExtentRecord(b, id, group[k])
  {
    if e in GroupEvents(b, id, group) {
      var k := ExtentEventIsAttached(b, id, group, e);
    }
    forall k | 0 <= k < |group| && AttachedExtent(b, group, k) && e == ExtentRecord(b, id, group[k])
      ensures e in GroupEvents(b, id, group)
    {
      AttachedExtentIsEvent(b, id, group, k);
    }
  }

  lemma {:induction false} ExtentEventIsAttached(b: Block, id: Inode, group: seq<Pair>, e: Event) returns (k: nat)
    requires e.ExtentEvent? && e in GroupEvents(b, id, group)
    ensures k < |group| && AttachedExtent(b, group, k) && e == ExtentRecord(b, id, group[k])
  {
    var n := |group| - 1;
    var init := group[..n];
    if e in GroupEvents(b, id, init) {
      k := ExtentEventIsAttached(b, id, init, e);
      assert init[..k] == group[..k];
    } else {
      k := n;
    }
  }

  lemma {:induction false} AttachedExtentIsEvent(b: Block, id: Inode, group: seq<Pair>, k: nat)
    requires k < |group| && AttachedExtent(b, group, k)
    ensures ExtentRecord(b, id, group[k]) in GroupEvents(b, id, group)
  {
    hide KeyType, RecordEvents, ExtentRecord, HasInode;
    var n := |group| - 1;
    var init, last := group[..n], RecordEvents(b, id, group[n], HasInode(b, group[..n]));
    assert GroupEvents(b, id, group) == GroupEvents(b, id, init) + last;
    if k < n {
      assert init[..k] == group[..k] && init[k] == group[k];
      AttachedExtentIsEvent(b, id, init, k);
    } else {
      AttachedRecordIsEvent(b, id, group[n], HasInode(b, init));
    }
  }

  lemma AttachedRecordIsEvent(b: Block, id: Inode, p: Pair, attached: bool)
    requires KeyType(b, p) == RECORD_FILE_EXTENT && attached
    ensures ExtentRecord(b, id, p) in RecordEvents(b, id, p, attached)
  {
    hide KeyType, ExtentRecord;
  }

  // ----- Grouping

  /** The map holds the groups of the pairs seen so far.  */
  ghost predicate GroupedSoFar(pairs: seq<Pair>, b: Block, entries: map<nat, seq<Pair>>) {
    && entries.Keys == Grouping.Ids(pairs, ById(b))
    && forall id :: id in entries ==> entries[id] == Grouping.Group(pairs, ById(b), id)
  }

  lemma GroupOneMore(pairs: seq<Pair>, k: nat, b: Block, entries: map<nat, seq<Pair>>)
    requires k < |pairs| && GroupedSoFar(pairs[..k], b, entries)
    ensures var id := KeyId(b, pairs[k]);
            GroupedSoFar(pairs[..k + 1], b,
                         entries[id := (if id in entries then entries[id] else []) + [pairs[k]]])
  {
    hide KeyId;
    var p, id := pairs[k], KeyId(b, pairs[k]);
    assert pairs[..k + 1] == pairs[..k] + [p];
    assert pairs[..k + 1][..k] == pairs[..k];
    if id !in entries {
      Grouping.FilterNone(pairs[..k], Grouping.Has(ById(b), id));
    }
    Grouping.IdsSnoc(pairs[..k], p, ById(b));
  }

  lemma NothingDone(s: Entries, done: seq<nat>, f: nat -> seq<Event>)
    requires done == []
    ensures Run(s, FlatMap(done, f)) == s
  {
  }

  lemma OneMoreDone(done: seq<nat>, left: set<nat>, id: nat, ids: seq<nat>)
    requires done + Grouping.Ascending(left) == ids
    requires id in left && forall i :: i in left ==> id <= i
    ensures (done + [id]) + Grouping.Ascending(left - {id}) == ids
  {
    Grouping.AscendingStep(left, id);
    assert done + ([id] + Grouping.Ascending(left - {id})) == (done + [id]) + Grouping.Ascending(left - {id});
  }

  lemma AllDone(done: seq<nat>, ids: seq<nat>)
    requires done + Grouping.Ascending({}) == ids
    ensures done == ids
  {
  }

  lemma EventsOfGroup(size: BlockSize, b: Block, id: Inode)
    ensures EventsOfId(size, b)(id) == GroupEvents(b, id, Grouping.Group(Pairs(size, b), ById(b), id))
  {
  }

  lemma GroupHasOneId(size: BlockSize, b: Block, id: nat)
    requires id in Grouping.Ids(Pairs(size, b), ById(b))
    ensures id < TWO_TO_THE_64
    ensures forall p :: p in Grouping.Group(Pairs(size, b), ById(b), id) ==> KeyId(b, p) == id
  {
    hide KeyId, Pairs;
    forall p | p in Grouping.Group(Pairs(size, b), ById(b), id) ensures KeyId(b, p) == id {
      Grouping.GroupElement(Pairs(size, b), ById(b), id, p);
    }
  }

  // ----- Corruption

  /** Outside two adjacent payload words, the blocks agree over the block size.  */
  predicate DifferInWordsAt(size: BlockSize, b: Block, c: Block, i: nat) {
    forall k :: 0 <= k < size && !(CKSUM_SIZE + 4 * i <= k < CKSUM_SIZE + 4 * i + 8) ==> b[k] == c[k]
  }

  lemma PayloadWord(size: BlockSize, b: Block, j: nat)
    requires j < |Payload(size, b)|
    ensures CKSUM_SIZE + 4 * j + 4 <= size
    ensures Payload(size, b)[j] == U32(b, CKSUM_SIZE + 4 * j)
  {
    assert U16(b[CKSUM_SIZE..], 4 * j) == U16(b, CKSUM_SIZE + 4 * j);
    assert U16(b[CKSUM_SIZE..], 4 * j + 2) == U16(b, CKSUM_SIZE + 4 * j + 2);
  }

  /** Changing one or two adjacent payload words of an accepted block, at least one of them to a value of
      another residue modulo 2^32 - 1, makes the block unacceptable.  */
  lemma CorruptedBlockIsRejected(size: BlockSize, b: Block, c: Block, i: nat)
    requires Accepted(size, b) && DifferInWordsAt(size, b, c, i)
    requires exists j :: i <= j <= i + 1 && j < |Payload(size, b)|
                         && !Fletcher.Congruent(Payload(size, c)[j], Payload(size, b)[j])
    ensures !Accepted(size, c)
  {
    var ws, vs := Payload(size, b), Payload(size, c);
    forall j | 0 <= j < |ws| && j != i && j != i + 1 ensures ws[j] == vs[j] {
      PayloadWord(size, b, j);
      PayloadWord(size, c, j);
    }
    assert i < |ws|;
    if i + 1 < |ws| {
      assert vs == ws[i := vs[i]][i + 1 := vs[i + 1]];
      Fletcher.AdjacentWordsDetection(ws, i, vs[i], vs[i + 1]);
    } else {
      assert vs == ws[i := vs[i]];
      Fletcher.SingleWordDetection(ws, i, vs[i]);
    }
    assert size >= 8;
    assert StoredChecksum(b) == StoredChecksum(c);
  }
}

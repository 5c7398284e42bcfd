/** File-system records as bytes: what a node that holds them amounts to when it is scanned.  */
module FileRecords {
  import opened Bytes
  import opened Wrappers
  import opened Seqs
  import opened Merge
  import opened Node
  import opened XFields
  import opened NodeLayout
  import Fletcher
  import Grouping

  datatype FileRecord =
    | InodeRec(id: Inode, parentId: Inode, details: seq<byte>, fields: seq<XField>, used: uint16)
    | ExtentRec(id: Inode, logicalAddress: uint64, lengthAndFlags: uint64, physicalBlock: uint64, cryptoId: uint64)
    | DirRec(id: Inode, lengthAndHash: uint32, name: Name,
             fileId: Inode, dateAdded: uint64, flags: uint16, rest: seq<byte>)
    | OtherRec(id: Inode, kind: nat, keyRest: seq<byte>, value: seq<byte>)

  predicate Valid(r: FileRecord) {
    r.id < ID_RANGE &&
    match r
    case InodeRec(_, _, details, fields, _) =>
      && |details| == INODE_VALUE - 8 && Encodable(fields)
      && forall f :: f in fields && f.kind == DSTREAM ==> |f.data| >= 8
    case ExtentRec(_, _, _, _, _) => true
    case DirRec(_, _, name, _, _, _, _) => 0 !in name
    case OtherRec(_, kind, _, _) =>
      kind < 16 && kind != RECORD_INODE && kind != RECORD_FILE_EXTENT && kind != RECORD_DIR
  }

  function TypeOf(r: FileRecord): nat {
    match r
    case InodeRec(_, _, _, _, _) => RECORD_INODE
    case ExtentRec(_, _, _, _, _) => RECORD_FILE_EXTENT
    case DirRec(_, _, _, _, _, _, _) => RECORD_DIR
    case OtherRec(_, kind, _, _) => kind
  }

  function KeyRest(r: FileRecord): seq<byte> {
    match r
    case InodeRec(_, _, _, _, _) => []
    case ExtentRec(_, logicalAddress, _, _, _) => Enc64(logicalAddress)
    case DirRec(_, lengthAndHash, name, _, _, _, _) => Enc32(lengthAndHash) + (name + [0])
    case OtherRec(_, _, keyRest, _) => keyRest
  }

  function KeyBytes(r: FileRecord): seq<byte>
    requires Valid(r)
  {
    Enc64(TypeOf(r) * ID_RANGE + r.id) + KeyRest(r)
  }

  function ValueBytes(r: FileRecord): seq<byte>
    requires Valid(r)
  {
    match r
    case InodeRec(_, parentId, details, fields, used) =>
      Enc64(parentId) + (details + (if fields == [] then [] else Serialised(fields, used)))
    case ExtentRec(_, _, lengthAndFlags, physicalBlock, cryptoId) =>
      Enc64(lengthAndFlags) + (Enc64(physicalBlock) + Enc64(cryptoId))
    case DirRec(_, _, _, fileId, dateAdded, flags, rest) =>
      Enc64(fileId) + (Enc64(dateAdded) + (Enc16(flags) + rest))
    case OtherRec(_, _, _, value) => value
  }

  // ----- What the records mean

  predicate IncludesInode(rs: seq<FileRecord>) { exists r :: r in rs && r.InodeRec? }

  function EventsOf(xid: uint64, r: FileRecord, attached: bool): seq<Event> {
    match r
    case InodeRec(id, parentId, _, fields, _) => [InodeEvent(id, xid, parentId, DstreamIn(fields))]
    case ExtentRec(id, logicalAddress, lengthAndFlags, physicalBlock, _) =>
      var extent := Extent(logicalAddress, physicalBlock, lengthAndFlags % LENGTH_RANGE);
      if attached then [ExtentEvent(id, xid, extent)] else []
    case DirRec(id, _, name, fileId, _, flags, _) =>
      [DirEvent(fileId, xid, if attached then Some(id) else None, name, flags % KIND_RANGE)]
    case OtherRec(_, _, _, _) => []
  }

  function GroupMeaning(xid: uint64, group: seq<FileRecord>): seq<Event> {
    if group == [] then []
    else
      var init := group[..|group| - 1];
      GroupMeaning(xid, init) + EventsOf(xid, group[|group| - 1], IncludesInode(init))
  }

  function RecordId(): FileRecord -> nat { (r: FileRecord) => r.id }

  ghost function MeaningOfId(xid: uint64, rs: seq<FileRecord>): nat -> seq<Event> {
    (id: nat) => GroupMeaning(xid, Grouping.Group(rs, RecordId(), id))
  }

  /** Records of one transaction, taken id after id.  */
  ghost function Meaning(xid: uint64, rs: seq<FileRecord>): seq<Event> {
    FlatMap(Grouping.Ascending(Grouping.Ids(rs, RecordId())), MeaningOfId(xid, rs))
  }

  // ----- Single records

  predicate Stores(b: Block, p: Pair, r: FileRecord)
    requires Valid(r)
  {
    At(b, p.key, KeyBytes(r)) && At(b, p.value, ValueBytes(r))
  }

  /** The one use of a value's length: it tells whether an INODE record has extended fields.  */
  predicate HasFields(valueLength: uint16) { valueLength as int - INODE_VALUE > BLOB_HEADER }

  /** The record with this file size in place of its own.  */
  function Sized(r: FileRecord, size: Option<uint64>): FileRecord {
    if r.InodeRec? && size != DstreamIn(r.fields) then r.(fields := SizeField(size)) else r
  }

  function SizeField(size: Option<uint64>): seq<XField> {
    if size.None? then [] else [XField(DSTREAM, 0, Enc64(size.value))]
  }

  /** Pair p is scanned as if it stored q.  */
  ghost predicate ReadsAs(b: Block, p: Pair, q: FileRecord) {
    && KeyId(b, p) == q.id && (KeyType(b, p) == RECORD_INODE <==> q.InodeRec?)
    && forall attached :: RecordEvents(b, q.id, p, attached) == EventsOf(Xid(b), q, attached)
  }

  lemma KeyWord(t: nat, id: nat)
    requires t < 16 && id < ID_RANGE
    ensures t * ID_RANGE + id < TWO_TO_THE_64
    ensures (t * ID_RANGE + id) % ID_RANGE == id && (t * ID_RANGE + id) / ID_RANGE == t
  {
  }

  lemma KeyIsRead(b: Block, p: Pair, r: FileRecord)
    requires Valid(r) && Stores(b, p, r)
    ensures KeyId(b, p) == r.id && KeyType(b, p) == TypeOf(r)
    ensures At(b, p.key + 8, KeyRest(r))
  {
    hide At, U64, Enc64, KeyRest, ValueBytes;
    KeyWord(TypeOf(r), r.id);
    AtSplit(b, p.key, Enc64(TypeOf(r) * ID_RANGE + r.id), KeyRest(r));
    ReadU64(b, p.key, TypeOf(r) * ID_RANGE + r.id);
  }

  lemma {:induction false} CStringIsRead(b: seq<byte>, off: int, name: seq<byte>)
    requires At(b, off, name + [0]) && 0 !in name
    ensures CString(b, off) == name
    decreases |name|
  {
    AtIndex(b, off, name + [0]);
    assert U8(b, off + 0) == (name + [0])[0];
    if name != [] {
      assert name[0] in name;
      assert name + [0] == [name[0]] + (name[1..] + [0]);
      AtSplit(b, off, [name[0]], name[1..] + [0]);
      assert forall x :: x in name[1..] ==> x in name;
      CStringIsRead(b, off + 1, name[1..]);
    }
  }

  lemma InodeIsRead(b: Block, p: Pair, r: FileRecord)
    requires Valid(r) && Stores(b, p, r) && r.InodeRec?
    ensures InodeRecord(b, p) == InodeEvent(r.id, Xid(b), r.parentId, SizeInXFields(b, p))
  {
    hide At, U64, Xid, Enc64, Serialised, KeyBytes, KeyId, Encodable, SizeInXFields;
    KeyIsRead(b, p, r);
    var blob := if r.fields == [] then [] else Serialised(r.fields, r.used);
    AtSplit(b, p.value, Enc64(r.parentId), r.details + blob);
    ReadU64(b, p.value, r.parentId);
  }

  /** With a length that tells rightly whether there are extended fields, the size found is the one stored.  */
  lemma SizeIsRead(b: Block, p: Pair, r: FileRecord)
    requires Valid(r) && Stores(b, p, r) && r.InodeRec? && (HasFields(p.valueLength) <==> r.fields != [])
    ensures SizeInXFields(b, p) == DstreamIn(r.fields)
  {
    hide At, KeyBytes, Data, Enc64, LastDstream;
    if r.fields != [] {
      AtSplit(b, p.value, Enc64(r.parentId), r.details + Serialised(r.fields, r.used));
      AtSplit(b, p.value + 8, r.details, Serialised(r.fields, r.used));
      WalkInvertsEncoding(b, p.value + INODE_VALUE, r.fields, r.used);
    }
  }

  lemma ExtentIsRead(b: Block, p: Pair, r: FileRecord)
    requires Valid(r) && Stores(b, p, r) && r.ExtentRec?
    ensures ExtentRecord(b, r.id, p)
         == ExtentEvent(r.id, Xid(b), Extent(r.logicalAddress, r.physicalBlock, r.lengthAndFlags % LENGTH_RANGE))
  {
    hide At, U64, Xid, Enc64, KeyBytes;
    KeyIsRead(b, p, r);
    ReadU64(b, p.key + 8, r.logicalAddress);
    AtSplit(b, p.value, Enc64(r.lengthAndFlags), Enc64(r.physicalBlock) + Enc64(r.cryptoId));
    AtSplit(b, p.value + 8, Enc64(r.physicalBlock), Enc64(r.cryptoId));
    ReadU64(b, p.value, r.lengthAndFlags);
    ReadU64(b, p.value + 8, r.physicalBlock);
  }

  lemma DirIsRead(b: Block, p: Pair, r: FileRecord, parent: Option<Inode>)
    requires Valid(r) && Stores(b, p, r) && r.DirRec?
    ensures DirRecord(b, parent, p) == DirEvent(r.fileId, Xid(b), parent, r.name, r.flags % KIND_RANGE)
  {
    hide At, U64, U16, Xid, Enc64, Enc32, Enc16, KeyBytes, CString;
    KeyIsRead(b, p, r);
    AtSplit(b, p.key + 8, Enc32(r.lengthAndHash), r.name + [0]);
    CStringIsRead(b, p.key + 12, r.name);
    AtSplit(b, p.value, Enc64(r.fileId), Enc64(r.dateAdded) + (Enc16(r.flags) + r.rest));
    AtSplit(b, p.value + 8, Enc64(r.dateAdded), Enc16(r.flags) + r.rest);
    AtSplit(b, p.value + 16, Enc16(r.flags), r.rest);
    ReadU64(b, p.value, r.fileId);
    ReadU16(b, p.value + 16, r.flags);
  }

  /** A stored record is scanned as what it says, except for the file size, which is what the scan finds.  */
  lemma RecordIsRead(b: Block, p: Pair, r: FileRecord)
    requires Valid(r) && Stores(b, p, r)
    ensures ReadsAs(b, p, Sized(r, SizeInXFields(b, p)))
  {
    KeyIsRead(b, p, r);
    SizeFieldSays(SizeInXFields(b, p));
    hide Valid, Stores, Xid, KeyId, KeyType, InodeRecord, ExtentRecord, DirRecord, SizeInXFields, SizeField, DstreamIn;
    var q := Sized(r, SizeInXFields(b, p));
    forall attached ensures RecordEvents(b, q.id, p, attached) == EventsOf(Xid(b), q, attached) {
      match r
      case InodeRec(_, _, _, _, _) => InodeIsRead(b, p, r);
      case ExtentRec(_, _, _, _, _) => ExtentIsRead(b, p, r);
      case DirRec(_, _, _, _, _, _, _) => DirIsRead(b, p, r, if attached then Some(r.id) else None);
      case OtherRec(_, _, _, _) =>
    }
  }

  lemma SizeFieldSays(size: Option<uint64>)
    ensures DstreamIn(SizeField(size)) == size
  {
    hide Enc64;
    if size.Some? { SizeOfField(size.value); }
  }

  // ----- Whole nodes

  ghost predicate ReadsAllAs(b: Block, pairs: seq<Pair>, qs: seq<FileRecord>) {
    |pairs| == |qs| && forall k :: 0 <= k < |qs| ==> ReadsAs(b, pairs[k], qs[k])
  }

  /** Grouping the pairs and grouping the records they are scanned as go in step.  */
  lemma {:induction false} GroupIsRead(b: Block, pairs: seq<Pair>, rs: seq<FileRecord>, id: Inode, n: nat)
    requires ReadsAllAs(b, pairs, rs) && n <= |rs|
    ensures var stored, meant := Grouping.Group(pairs[..n], ById(b), id), Grouping.Group(rs[..n], RecordId(), id);
            && GroupEvents(b, id, stored) == GroupMeaning(Xid(b), meant)
            && (HasInode(b, stored) <==> IncludesInode(meant))
  {
    hide Xid, KeyId, KeyType, RecordEvents, EventsOf, Grouping.Group;
    if n == 0 {
      NoGroup(b, pairs, rs, id);
    } else {
      GroupIsRead(b, pairs, rs, id, n - 1);
      var p, r := pairs[n - 1], rs[n - 1];
      assert pairs[..n] == pairs[..n - 1] + [p] && rs[..n] == rs[..n - 1] + [r];
      Grouping.GroupSnoc(pairs[..n - 1], p, ById(b), id);
      Grouping.GroupSnoc(rs[..n - 1], r, RecordId(), id);
      assert ReadsAs(b, p, r);
      if r.id == id {
        var stored, meant := Grouping.Group(pairs[..n - 1], ById(b), id), Grouping.Group(rs[..n - 1], RecordId(), id);
        GroupsGrow(b, id, stored, meant, p, r);
      }
    }
  }

  lemma NoGroup(b: Block, pairs: seq<Pair>, rs: seq<FileRecord>, id: Inode)
    ensures Grouping.Group(pairs[..0], ById(b), id) == [] && Grouping.Group(rs[..0], RecordId(), id) == []
  {
  }

  lemma GroupsGrow(b: Block, id: Inode, stored: seq<Pair>, meant: seq<FileRecord>, p: Pair, r: FileRecord)
    ensures GroupEvents(b, id, stored + [p]) == GroupEvents(b, id, stored) + RecordEvents(b, id, p, HasInode(b, stored))
    ensures GroupMeaning(Xid(b), meant + [r]) == GroupMeaning(Xid(b), meant) + EventsOf(Xid(b), r, IncludesInode(meant))
    ensures HasInode(b, stored + [p]) <==> HasInode(b, stored) || KeyType(b, p) == RECORD_INODE
    ensures IncludesInode(meant + [r]) <==> IncludesInode(meant) || r.InodeRec?
  {
    hide KeyType, RecordEvents, EventsOf, Xid;
    assert (stored + [p])[..|stored|] == stored && (meant + [r])[..|meant|] == meant;
  }

  lemma {:induction false} IdsAreRead(b: Block, pairs: seq<Pair>, rs: seq<FileRecord>, n: nat)
    requires ReadsAllAs(b, pairs, rs) && n <= |rs|
    ensures Grouping.Ids(pairs[..n], ById(b)) == Grouping.Ids(rs[..n], RecordId())
  {
    hide KeyId, Grouping.Ids;
    if n > 0 {
      IdsAreRead(b, pairs, rs, n - 1);
      assert ReadsAs(b, pairs[n - 1], rs[n - 1]);
      assert pairs[..n] == pairs[..n - 1] + [pairs[n - 1]] && rs[..n] == rs[..n - 1] + [rs[n - 1]];
      Grouping.IdsSnoc(pairs[..n - 1], pairs[n - 1], ById(b));
      Grouping.IdsSnoc(rs[..n - 1], rs[n - 1], RecordId());
    } else {
      NoIds(b, pairs, rs);
    }
  }

  lemma NoIds(b: Block, pairs: seq<Pair>, rs: seq<FileRecord>)
    ensures Grouping.Ids(pairs[..0], ById(b)) == {} && Grouping.Ids(rs[..0], RecordId()) == {}
  {
  }

  /** Scanning a node amounts to what the records mean that its pairs are scanned as.  */
  lemma NodeIsRead(b: Block, rs: seq<FileRecord>)
    requires ReadsAllAs(b, Pairs(BUFFER_SIZE, b), rs)
    ensures NodeEvents(BUFFER_SIZE, b) == Meaning(Xid(b), rs)
  {
    hide ReadsAllAs, Xid, KeyId, GroupEvents, GroupMeaning, Grouping.Group, Pairs;
    var pairs := Pairs(BUFFER_SIZE, b);
    SameLength(b, pairs, rs);
    assert pairs[..|rs|] == pairs && rs[..|rs|] == rs;
    IdsAreRead(b, pairs, rs, |rs|);
    var ids := Grouping.Ascending(Grouping.Ids(pairs, ById(b)));
    forall id | id in ids ensures EventsOfId(BUFFER_SIZE, b)(id) == MeaningOfId(Xid(b), rs)(id) {
      GroupHasOneId(BUFFER_SIZE, b, id);
      GroupIsRead(b, pairs, rs, id, |rs|);
    }
    FlatMapSame(ids, EventsOfId(BUFFER_SIZE, b), MeaningOfId(Xid(b), rs));
  }

  lemma SameLength(b: Block, pairs: seq<Pair>, rs: seq<FileRecord>)
    requires ReadsAllAs(b, pairs, rs)
    ensures |pairs| == |rs|
  {
  }

  // ----- Laid out and sealed

  function Raw(rs: seq<FileRecord>): seq<Record>
    requires forall r :: r in rs ==> Valid(r)
  {
    seq(|rs|, k requires 0 <= k < |rs| => Record(KeyBytes(rs[k]), ValueBytes(rs[k])))
  }

  predicate Storable(l: Layout, rs: seq<FileRecord>) {
    (forall r :: r in rs ==> Valid(r)) && WellFormed(l, Raw(rs))
  }

  /** A fixed-size node that has its values taken for too short to hold extended fields.  */
  predicate CutsFields(l: Layout, rs: seq<FileRecord>)
    requires Storable(l, rs)
  {
    Fixed(l) && !HasFields(AssumedValueSize(l, Raw(rs)))
  }

  /** The file size that a scan finds for INODE record k.  Where fields are looked for and there are none, it
      takes what follows the value for fields: the values before it, and a root's info.  */
  function SizeFound(l: Layout, rs: seq<FileRecord>, k: nat): Option<uint64>
    requires Storable(l, rs) && k < |rs| && rs[k].InodeRec?
  {
    if CutsFields(l, rs) then None
    else if !Fixed(l) || rs[k].fields != [] then DstreamIn(rs[k].fields)
    else
      var tail := Values(Raw(rs)[..k]) + l.info;
      LastDstream(tail, 0, Count(tail, 0))
  }

  function SeenRecord(l: Layout, rs: seq<FileRecord>, k: nat): FileRecord
    requires Storable(l, rs) && k < |rs|
  {
    if rs[k].InodeRec? then Sized(rs[k], SizeFound(l, rs, k)) else rs[k]
  }

  /** What a scan sees of the records.  */
  function Seen(l: Layout, rs: seq<FileRecord>): (qs: seq<FileRecord>)
    requires Storable(l, rs)
    ensures |qs| == |rs|
  {
    seq(|rs|, k requires 0 <= k < |rs| => SeenRecord(l, rs, k))
  }

  lemma FieldsTakeRoom(r: FileRecord)
    requires Valid(r) && r.InodeRec? && |ValueBytes(r)| < TWO_TO_THE_16
    ensures HasFields(|ValueBytes(r)|) <==> r.fields != []
    ensures r.fields == [] ==> |ValueBytes(r)| == INODE_VALUE
  {
    hide Data;
  }

  lemma SizeIsFound(l: Layout, rs: seq<FileRecord>, b: Block, k: nat)
    requires Storable(l, rs) && b == Encoded(l, Raw(rs)) && k < |rs| == |Pairs(BUFFER_SIZE, b)| && rs[k].InodeRec?
    ensures SizeInXFields(b, Pairs(BUFFER_SIZE, b)[k]) == SizeFound(l, rs, k)
  {
    hide Valid, WellFormed, Encoded, At, KeyBytes, ValueBytes, AssumedValueSize, LastDstream, DstreamIn, Values;
    LayoutRoundTrip(l, Raw(rs), b);
    var p, r := Pairs(BUFFER_SIZE, b)[k], rs[k];
    assert r in rs && Raw(rs)[k] == Record(KeyBytes(r), ValueBytes(r));
    if !CutsFields(l, rs) {
      if !Fixed(l) || r.fields != [] {
        if !Fixed(l) { FieldsTakeRoom(r); }
        SizeIsRead(b, p, r);
      } else {
        StraySize(l, rs, b, k);
      }
    }
  }

  lemma StraySize(l: Layout, rs: seq<FileRecord>, b: Block, k: nat)
    requires Storable(l, rs) && b == Encoded(l, Raw(rs)) && k < |rs| == |Pairs(BUFFER_SIZE, b)|
    requires rs[k].InodeRec? && rs[k].fields == []
    ensures var blob, tail := Pairs(BUFFER_SIZE, b)[k].value + INODE_VALUE, Values(Raw(rs)[..k]) + l.info;
            LastDstream(b, blob, Count(b, blob)) == LastDstream(tail, 0, Count(tail, 0))
  {
    hide WellFormed, Encoded, Pairs, LastDstream, Values, Count, KeyBytes, Enc64;
    assert rs[k] in rs && |Raw(rs)[k].value| == INODE_VALUE;
    hide Valid, Raw;
    BytesAfterValue(l, Raw(rs), b, k);
  }

  lemma BytesAfterValue(l: Layout, raw: seq<Record>, b: Block, k: nat)
    requires WellFormed(l, raw) && b == Encoded(l, raw) && k < |raw| == |Pairs(BUFFER_SIZE, b)|
    ensures var end, tail := Pairs(BUFFER_SIZE, b)[k].value + |raw[k].value|, Values(raw[..k]) + l.info;
            LastDstream(b, end, Count(b, end)) == LastDstream(tail, 0, Count(tail, 0))
  {
    PairOfEntry(b, k);
    hide WellFormed, Encoded, Pairs, PairOf, At, LastDstream, Values, EndsIn, Count, TocEntry;
    var end, tail := Pairs(BUFFER_SIZE, b)[k].value + |raw[k].value|, Values(raw[..k]) + l.info;
    AfterValue(l, raw, b, k);
    StoredAtEnd(b, end, tail);
    WalkFromEnd(b, end, tail, Count(b, end));
  }

  lemma PairOfEntry(b: Block, k: nat)
    requires k < |Pairs(BUFFER_SIZE, b)|
    ensures Pairs(BUFFER_SIZE, b)[k] == PairOf(BUFFER_SIZE, b, TocEntry(BUFFER_SIZE, b, k))
  {
    hide PairOf, TocEntry;
  }

  lemma LaidOutRecordIsRead(l: Layout, rs: seq<FileRecord>, b: Block, k: nat)
    requires Storable(l, rs) && b == Encoded(l, Raw(rs)) && k < |rs| == |Pairs(BUFFER_SIZE, b)|
    ensures ReadsAs(b, Pairs(BUFFER_SIZE, b)[k], Seen(l, rs)[k])
  {
    hide Valid, WellFormed, Encoded, Pairs, At, KeyBytes, ValueBytes, SizeFound, SizeInXFields, ReadsAs;
    LayoutRoundTrip(l, Raw(rs), b);
    assert rs[k] in rs && Raw(rs)[k] == Record(KeyBytes(rs[k]), ValueBytes(rs[k]));
    RecordIsRead(b, Pairs(BUFFER_SIZE, b)[k], rs[k]);
    if rs[k].InodeRec? { SizeIsFound(l, rs, b, k); }
  }

  /** A node laid out with records amounts to what is seen of them, whatever the layout.  */
  lemma LaidOutNodeIsRead(l: Layout, rs: seq<FileRecord>, b: Block)
    requires Storable(l, rs) && b == Encoded(l, Raw(rs))
    ensures NodeEvents(BUFFER_SIZE, b) == Meaning(Xid(b), Seen(l, rs))
  {
    hide Valid, WellFormed, Encoded, Pairs, At, ReadsAs, NodeEvents, Meaning, Xid, Seen;
    LayoutRoundTrip(l, Raw(rs), b);
    forall k | 0 <= k < |rs| ensures ReadsAs(b, Pairs(BUFFER_SIZE, b)[k], Seen(l, rs)[k]) {
      LaidOutRecordIsRead(l, rs, b, k);
    }
    NodeIsRead(b, Seen(l, rs));
  }

  lemma VariableSizeIsSeenWhole(l: Layout, rs: seq<FileRecord>)
    requires Storable(l, rs) && !Fixed(l)
    ensures Seen(l, rs) == rs
  {
  }

  /** The block with its checksum written into its first 8 bytes.  */
  function Sealed(b: Block): Block {
    Enc64(Fletcher.Checksum(Payload(BUFFER_SIZE, b))) + b[CKSUM_SIZE..]
  }

  /** Any block can be sealed: only the stored checksum changes, and unless the type is 0 the scanner
      accepts the result.  */
  lemma SealedIsAccepted(b: Block)
    ensures Accepted(BUFFER_SIZE, Sealed(b)) <==> TypeWord(b) != 0
    ensures Payload(BUFFER_SIZE, Sealed(b)) == Payload(BUFFER_SIZE, b)
    ensures TypeWord(Sealed(b)) == TypeWord(b) && Xid(Sealed(b)) == Xid(b)
  {
    var sum := Fletcher.Checksum(Payload(BUFFER_SIZE, b));
    var c := Sealed(b);
    assert c[CKSUM_SIZE..] == b[CKSUM_SIZE..];
    assert forall k :: CKSUM_SIZE <= k < BUFFER_SIZE ==> U8(c, k) == c[CKSUM_SIZE..][k - CKSUM_SIZE] == U8(b, k);
    hide Fletcher.Checksum, Fletcher.Words;
    SameWord(b, c, 24);
    SameWord(b, c, 16);
    SameWord(b, c, 20);
    AtEnd(Enc64(sum), b[CKSUM_SIZE..]);
    ReadU64(c, 0, sum);
  }

  lemma SameWord(b: Block, c: Block, off: nat)
    requires forall k :: CKSUM_SIZE <= k < BUFFER_SIZE ==> U8(c, k) == U8(b, k)
    requires CKSUM_SIZE <= off && off + 4 <= BUFFER_SIZE
    ensures U32(c, off) == U32(b, off)
  {
  }
}

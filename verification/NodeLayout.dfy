/** Laying out a B-tree node, and the round trip through the scanner's extraction.

    A node is a header, the table of contents, the keys growing forwards and the values growing backwards
    from the end of the block, or from the tree info that ends a root.  */
module NodeLayout {
  import opened Bytes
  import opened Node

  datatype Record = Record(key: seq<byte>, value: seq<byte>)

  /** Everything about a node except its records.  */
  datatype Layout = Layout(
    objectHeader: seq<byte>,
    flags: uint16,
    level: uint16,
    unused: seq<byte>,   // free-space and free-list locations
    gap: seq<byte>,      // before the table
    slack: seq<byte>,    // unused end of the table space
    free: seq<byte>,     // between keys and values
    info: seq<byte>)     // tree info, in a root

  predicate Root(l: Layout) { l.flags % 2 == 1 }

  predicate Fixed(l: Layout) { l.flags / 4 % 2 == 1 }

  function KeysLength(rs: seq<Record>): nat {
    if rs == [] then 0 else KeysLength(rs[..|rs| - 1]) + |rs[|rs| - 1].key|
  }

  function ValuesLength(rs: seq<Record>): nat {
    if rs == [] then 0 else ValuesLength(rs[..|rs| - 1]) + |rs[|rs| - 1].value|
  }

  function Keys(rs: seq<Record>): (k: seq<byte>)
    ensures |k| == KeysLength(rs)
  {
    if rs == [] then [] else Keys(rs[..|rs| - 1]) + rs[|rs| - 1].key
  }

  function Values(rs: seq<Record>): (v: seq<byte>)
    ensures |v| == ValuesLength(rs)
  {
    if rs == [] then [] else rs[|rs| - 1].value + Values(rs[..|rs| - 1])
  }

  /** Offsets and lengths fit in 16 bits.  */
  predicate Small(rs: seq<Record>) {
    KeysLength(rs) < TWO_TO_THE_16 && ValuesLength(rs) < TWO_TO_THE_16
  }

  function EntryWidth(fixed: bool): nat { if fixed then 4 else 8 }

  function LocBytes(fixed: bool, loc: Loc): (e: seq<byte>)
    ensures |e| == EntryWidth(fixed)
  {
    if fixed then Enc16(loc.keyOff) + Enc16(loc.valOff)
    else Enc16(loc.keyOff) + (Enc16(loc.keyLen) + (Enc16(loc.valOff) + Enc16(loc.valLen)))
  }

  /** Where the last record of rs goes.  */
  function LastLoc(rs: seq<Record>): Loc
    requires rs != [] && Small(rs)
  {
    var last := rs[|rs| - 1];
    Loc(KeysLength(rs[..|rs| - 1]), |last.key|, ValuesLength(rs), |last.value|)
  }

  function Table(fixed: bool, rs: seq<Record>): seq<byte>
    requires Small(rs)
  {
    if rs == [] then [] else Table(fixed, rs[..|rs| - 1]) + LocBytes(fixed, LastLoc(rs))
  }

  predicate WellFormed(l: Layout, rs: seq<Record>) {
    && |l.objectHeader| == 32 && |l.unused| == 12 && Small(rs) && |rs| < TWO_TO_THE_16
    && |l.gap| < TWO_TO_THE_16 && |Table(Fixed(l), rs)| + |l.slack| < TWO_TO_THE_16
    && (if Root(l) then |l.info| == INFO_SIZE else l.info == [])
  }

  function Header(l: Layout, rs: seq<Record>): (h: seq<byte>)
    requires WellFormed(l, rs)
    ensures |h| == NODE_HEADER
  {
    l.objectHeader + (Enc16(l.flags) + (Enc16(l.level) + (Enc32(|rs|) + (Enc16(|l.gap|) +
      (Enc16(|Table(Fixed(l), rs)| + |l.slack|) + l.unused)))))
  }

  function Encoded(l: Layout, rs: seq<Record>): seq<byte>
    requires WellFormed(l, rs)
  {
    Header(l, rs) + (l.gap + (Table(Fixed(l), rs) + (l.slack + (Keys(rs) + (l.free + (Values(rs) + l.info))))))
  }

  /** Everything after the object header, on which it does not depend.  */
  function AfterObject(l: Layout, rs: seq<Record>): seq<byte>
    requires WellFormed(l, rs)
  {
    Encoded(l.(objectHeader := seq(32, _ => 0)), rs)[32..]
  }

  lemma ObjectFirst(l: Layout, rs: seq<Record>)
    requires WellFormed(l, rs)
    ensures Encoded(l, rs) == l.objectHeader + AfterObject(l, rs)
  {
    hide Table, Keys, Values, Enc16, Enc32, Small;
    var m := l.(objectHeader := seq(32, _ => 0));
    var counts := Enc16(l.flags) + (Enc16(l.level) + (Enc32(|rs|) + (Enc16(|l.gap|) +
      (Enc16(|Table(Fixed(l), rs)| + |l.slack|) + l.unused))));
    var body := l.gap + (Table(Fixed(l), rs) + (l.slack + (Keys(rs) + (l.free + (Values(rs) + l.info)))));
    assert Header(l, rs) == l.objectHeader + counts && Header(m, rs) == m.objectHeader + counts;
    Reassociate(l.objectHeader, m.objectHeader, counts, body);
  }

  lemma Reassociate(x: seq<byte>, y: seq<byte>, z: seq<byte>, w: seq<byte>)
    requires |x| == |y|
    ensures (x + z) + w == x + ((y + z) + w)[|y|..]
  {
    assert ((y + z) + w)[|y|..] == z + w;
  }

  // ----- Inside the areas

  lemma {:induction false} TableLengthIs(fixed: bool, rs: seq<Record>)
    requires Small(rs)
    ensures |Table(fixed, rs)| == EntryWidth(fixed) * |rs|
  {
    if rs != [] {
      TableLengthIs(fixed, rs[..|rs| - 1]);
      if fixed {
        assert |Table(fixed, rs)| == 4 * (|rs| - 1) + 4;
      } else {
        assert |Table(fixed, rs)| == 8 * (|rs| - 1) + 8;
      }
    }
  }

  lemma AtEnd(x: seq<byte>, y: seq<byte>)
    ensures At(x + y, |x|, y) && At(x + y, 0, x)
  {
    assert (x + y)[|x|..] == y && (x + y)[..|x|] == x;
  }

  lemma {:induction false} PrefixIsSmall(rs: seq<Record>, i: nat)
    requires i <= |rs|
    ensures KeysLength(rs[..i]) <= KeysLength(rs) && ValuesLength(rs[..i]) <= ValuesLength(rs)
    ensures Small(rs) ==> Small(rs[..i])
    decreases |rs|
  {
    if i == |rs| {
      assert rs[..i] == rs;
    } else {
      var init := rs[..|rs| - 1];
      PrefixIsSmall(init, i);
      assert init[..i] == rs[..i];
    }
  }

  lemma {:induction false} KeyInArea(rs: seq<Record>, i: nat)
    requires i < |rs|
    ensures At(Keys(rs), KeysLength(rs[..i]), rs[i].key)
  {
    hide At;
    var n := |rs| - 1;
    AtEnd(Keys(rs[..n]), rs[n].key);
    if i < n {
      KeyInArea(rs[..n], i);
      assert rs[..n][..i] == rs[..i];
      AtWithin(Keys(rs), 0, Keys(rs[..n]), KeysLength(rs[..i]), rs[i].key);
    }
  }

  lemma {:induction false} ValueInArea(rs: seq<Record>, i: nat)
    requires i < |rs|
    ensures At(Values(rs), ValuesLength(rs) - ValuesLength(rs[..i + 1]), rs[i].value)
  {
    var n := |rs| - 1;
    var init := rs[..n];
    LastValueFirst(rs);
    ShorterPrefix(rs, i);
    hide At, Values, ValuesLength;
    if i < n {
      ValueInArea(init, i);
      var off := ValuesLength(init) - ValuesLength(init[..i + 1]);
      AtWithin(Values(rs), |rs[n].value|, Values(init), off, init[i].value);
    }
  }

  lemma ShorterPrefix(rs: seq<Record>, i: nat)
    requires i < |rs|
    ensures if i < |rs| - 1 then rs[..|rs| - 1][..i + 1] == rs[..i + 1] && rs[..|rs| - 1][i] == rs[i]
            else rs[..i + 1] == rs
  {
  }

  lemma LastValueFirst(rs: seq<Record>)
    requires rs != []
    ensures var init, last := rs[..|rs| - 1], rs[|rs| - 1].value;
            && ValuesLength(rs) == |last| + ValuesLength(init)
            && At(Values(rs), 0, last) && At(Values(rs), |last|, Values(init))
  {
    AtEnd(rs[|rs| - 1].value, Values(rs[..|rs| - 1]));
    hide At;
  }

  lemma {:induction false} LocInTable(fixed: bool, rs: seq<Record>, i: nat)
    requires i < |rs| && Small(rs)
    ensures Small(rs[..i + 1])
    ensures At(Table(fixed, rs), EntryWidth(fixed) * i, LocBytes(fixed, LastLoc(rs[..i + 1])))
  {
    hide At, Small, LastLoc, LocBytes;
    var n := |rs| - 1;
    PrefixIsSmall(rs, i + 1);
    PrefixIsSmall(rs, n);
    TableLengthIs(fixed, rs[..n]);
    AtEnd(Table(fixed, rs[..n]), LocBytes(fixed, LastLoc(rs)));
    if i < n {
      LocInTable(fixed, rs[..n], i);
      assert rs[..n][..i + 1] == rs[..i + 1];
      var entry := LocBytes(fixed, LastLoc(rs[..i + 1]));
      AtWithin(Table(fixed, rs), 0, Table(fixed, rs[..n]), EntryWidth(fixed) * i, entry);
    } else {
      assert rs[..i + 1] == rs;
    }
  }

  lemma EncodedLength(l: Layout, rs: seq<Record>)
    requires WellFormed(l, rs)
    ensures |Encoded(l, rs)| == NODE_HEADER + |l.gap| + |Table(Fixed(l), rs)| + |l.slack| + KeysLength(rs) + |l.free|
                                + ValuesLength(rs) + |l.info|
  {
    hide Header, Table, Keys, Values, KeysLength, ValuesLength, Small;
  }

  // ----- The block

  lemma Areas(b: seq<byte>, h: seq<byte>, g: seq<byte>, t: seq<byte>, s: seq<byte>,
              k: seq<byte>, f: seq<byte>, v: seq<byte>, i: seq<byte>)
    requires b == h + (g + (t + (s + (k + (f + (v + i))))))
    ensures At(b, 0, h) && At(b, |h| + |g|, t) && At(b, |h| + |g| + |t| + |s|, k)
    ensures At(b, |b| - |i| - |v|, v) && At(b, |b| - |i|, i)
  {
    hide At;
    assert At(b, 0, h + (g + (t + (s + (k + (f + (v + i))))))) by { AtWhole(b); }
    AtSplit(b, 0, h, g + (t + (s + (k + (f + (v + i))))));
    AtSplit(b, |h|, g, t + (s + (k + (f + (v + i)))));
    AtSplit(b, |h| + |g|, t, s + (k + (f + (v + i))));
    AtSplit(b, |h| + |g| + |t|, s, k + (f + (v + i)));
    AtSplit(b, |h| + |g| + |t| + |s|, k, f + (v + i));
    AtSplit(b, |h| + |g| + |t| + |s| + |k|, f, v + i);
    AtSplit(b, |h| + |g| + |t| + |s| + |k| + |f|, v, i);
  }

  lemma HeaderParts(b: seq<byte>, o: seq<byte>, flags: seq<byte>, level: seq<byte>, count: seq<byte>,
                    off: seq<byte>, len: seq<byte>, rest: seq<byte>)
    requires |o| == 32 && |flags| == 2 && |level| == 2 && |count| == 4 && |off| == 2 && |len| == 2
    requires At(b, 0, o + (flags + (level + (count + (off + (len + rest))))))
    ensures At(b, 32, flags) && At(b, 36, count) && At(b, 40, off) && At(b, 42, len)
  {
    hide At;
    AtSplit(b, 0, o, flags + (level + (count + (off + (len + rest)))));
    AtSplit(b, 32, flags, level + (count + (off + (len + rest))));
    AtSplit(b, 34, level, count + (off + (len + rest)));
    AtSplit(b, 36, count, off + (len + rest));
    AtSplit(b, 40, off, len + rest);
    AtSplit(b, 42, len, rest);
  }

  lemma HeaderIsRead(l: Layout, rs: seq<Record>, b: Block)
    requires WellFormed(l, rs) && At(b, 0, Header(l, rs))
    ensures Flags(b) == l.flags && KeyCount(b) == |rs|
    ensures TableOffset(b) == |l.gap| && TableLength(b) == |Table(Fixed(l), rs)| + |l.slack|
  {
    hide At, Enc16, Enc32, Table, U16, U32;
    var len := |Table(Fixed(l), rs)| + |l.slack|;
    HeaderParts(b, l.objectHeader, Enc16(l.flags), Enc16(l.level), Enc32(|rs|), Enc16(|l.gap|), Enc16(len), l.unused);
    ReadU16(b, 32, l.flags);
    ReadU32(b, 36, |rs|);
    ReadU16(b, 40, |l.gap|);
    ReadU16(b, 42, len);
  }

  lemma AreasOf(l: Layout, rs: seq<Record>, b: Block)
    requires WellFormed(l, rs) && b == Encoded(l, rs)
    ensures At(b, 0, Header(l, rs))
    ensures At(b, TableBase(b), Table(Fixed(l), rs))
    ensures At(b, KeyBase(b), Keys(rs))
    ensures At(b, ValueBase(BUFFER_SIZE, b) - ValuesLength(rs), Values(rs))
    ensures At(b, BUFFER_SIZE - |l.info|, l.info)
    ensures Flags(b) == l.flags && KeyCount(b) == |rs|
  {
    hide At, Header, Encoded, Table, Keys, Values, Flags, KeyCount, TableBase, KeyBase, ValueBase, Small;
    AreasAreLaid(l, rs, b);
    HeaderIsRead(l, rs, b);
    BasesAreRead(l, rs, b);
    assert At(b, TableBase(b), Table(Fixed(l), rs));
    assert At(b, KeyBase(b), Keys(rs));
  }

  lemma AreasAreLaid(l: Layout, rs: seq<Record>, b: Block)
    requires WellFormed(l, rs) && b == Encoded(l, rs)
    ensures At(b, 0, Header(l, rs))
    ensures At(b, |Header(l, rs)| + |l.gap|, Table(Fixed(l), rs))
    ensures At(b, |Header(l, rs)| + |l.gap| + |Table(Fixed(l), rs)| + |l.slack|, Keys(rs))
    ensures At(b, BUFFER_SIZE - |l.info| - ValuesLength(rs), Values(rs))
    ensures At(b, BUFFER_SIZE - |l.info|, l.info)
  {
    hide At, Header, Table, Keys, Values, Small;
    Areas(b, Header(l, rs), l.gap, Table(Fixed(l), rs), l.slack, Keys(rs), l.free, Values(rs), l.info);
  }

  lemma BasesAreRead(l: Layout, rs: seq<Record>, b: Block)
    requires WellFormed(l, rs) && At(b, 0, Header(l, rs))
    ensures TableBase(b) == |Header(l, rs)| + |l.gap|
    ensures KeyBase(b) == |Header(l, rs)| + |l.gap| + |Table(Fixed(l), rs)| + |l.slack|
    ensures ValueBase(BUFFER_SIZE, b) == BUFFER_SIZE - |l.info|
  {
    hide At, Header, Table, Flags, TableOffset, TableLength, Small;
    HeaderIsRead(l, rs, b);
  }

  /** Reading a table entry back.  */
  lemma LocIsRead(b: seq<byte>, at: int, fixed: bool, loc: Loc)
    requires At(b, at, LocBytes(fixed, loc))
    ensures U16(b, at) == loc.keyOff
    ensures if fixed then U16(b, at + 2) == loc.valOff
            else U16(b, at + 2) == loc.keyLen && U16(b, at + 4) == loc.valOff && U16(b, at + 6) == loc.valLen
  {
    hide At, Enc16, U16;
    var ko, kl, vo, vl := Enc16(loc.keyOff), Enc16(loc.keyLen), Enc16(loc.valOff), Enc16(loc.valLen);
    if fixed {
      AtSplit(b, at, ko, vo);
      ReadU16(b, at + 2, loc.valOff);
    } else {
      AtSplit(b, at, ko, kl + (vo + vl));
      AtSplit(b, at + 2, kl, vo + vl);
      AtSplit(b, at + 4, vo, vl);
      ReadU16(b, at + 2, loc.keyLen);
      ReadU16(b, at + 4, loc.valOff);
      ReadU16(b, at + 6, loc.valLen);
    }
    ReadU16(b, at, loc.keyOff);
  }

  lemma EntryIsRead(l: Layout, rs: seq<Record>, b: Block, i: nat)
    requires WellFormed(l, rs) && b == Encoded(l, rs) && i < |rs|
    ensures var loc := TocEntry(BUFFER_SIZE, b, i);
            && loc.keyOff == KeysLength(rs[..i]) && loc.valOff == ValuesLength(rs[..i + 1])
            && (!Fixed(l) ==> loc.keyLen == |rs[i].key| && loc.valLen == |rs[i].value|)
  {
    hide At, Encoded, Table, LocBytes, U16, U32, KeysLength, ValuesLength, Flags, TableBase, TableOffset;
    var fixed := Fixed(l);
    AreasOf(l, rs, b);
    LocInTable(fixed, rs, i);
    var loc := LastLoc(rs[..i + 1]);
    assert rs[..i + 1][..i] == rs[..i];
    var at := TableBase(b) + EntryWidth(fixed) * i;
    AtWithin(b, TableBase(b), Table(fixed, rs), EntryWidth(fixed) * i, LocBytes(fixed, loc));
    LocIsRead(b, at, fixed, loc);
  }

  /** Extraction finds record i's key and value where the layout put them.  */
  lemma RecordIsFound(l: Layout, rs: seq<Record>, b: Block, i: nat)
    requires WellFormed(l, rs) && b == Encoded(l, rs) && i < |rs|
    ensures var p := PairOf(BUFFER_SIZE, b, TocEntry(BUFFER_SIZE, b, i));
            At(b, p.key, rs[i].key) && At(b, p.value, rs[i].value)
  {
    hide At, Encoded, Keys, Values, KeysLength, ValuesLength, TocEntry, KeyBase, ValueBase;
    AreasOf(l, rs, b);
    EntryIsRead(l, rs, b, i);
    KeyInArea(rs, i);
    AtWithin(b, KeyBase(b), Keys(rs), KeysLength(rs[..i]), rs[i].key);
    ValueInArea(rs, i);
    var base := ValueBase(BUFFER_SIZE, b) - ValuesLength(rs);
    AtWithin(b, base, Values(rs), ValuesLength(rs) - ValuesLength(rs[..i + 1]), rs[i].value);
  }

  /** The values of the first i records come last.  */
  lemma {:induction false} FirstValuesLast(rs: seq<Record>, i: nat)
    requires i <= |rs|
    ensures ValuesLength(rs[..i]) <= ValuesLength(rs)
    ensures At(Values(rs), ValuesLength(rs) - ValuesLength(rs[..i]), Values(rs[..i]))
  {
    if i == |rs| {
      assert rs[..i] == rs;
      AtWhole(Values(rs));
    } else {
      var init := rs[..|rs| - 1];
      assert init[..i] == rs[..i];
      FirstValuesLast(init, i);
      LastValueFirst(rs);
      hide At, Values, ValuesLength;
      var off := ValuesLength(init) - ValuesLength(rs[..i]);
      AtWithin(Values(rs), |rs[|rs| - 1].value|, Values(init), off, Values(rs[..i]));
    }
  }

  /** What follows value i, up to the end of the block: the values before it, and the info of a root.  */
  lemma AfterValue(l: Layout, rs: seq<Record>, b: Block, i: nat)
    requires WellFormed(l, rs) && b == Encoded(l, rs) && i < |rs|
    ensures var end := PairOf(BUFFER_SIZE, b, TocEntry(BUFFER_SIZE, b, i)).value + |rs[i].value|;
            && end + |Values(rs[..i]) + l.info| == BUFFER_SIZE
            && At(b, end, Values(rs[..i]) + l.info)
  {
    hide At, Encoded, Values, ValuesLength, KeysLength, TocEntry, ValueBase, KeyBase, WellFormed, Keys, Header, Table;
    AreasOf(l, rs, b);
    BasesAreRead(l, rs, b);
    EntryIsRead(l, rs, b, i);
    OneValueMore(rs, i);
    FirstValuesLast(rs, i);
    var base := BUFFER_SIZE - |l.info|;
    AtWithin(b, base - ValuesLength(rs), Values(rs), ValuesLength(rs) - ValuesLength(rs[..i]), Values(rs[..i]));
    AtJoined(b, base - ValuesLength(rs[..i]), Values(rs[..i]), l.info);
  }

  lemma OneValueMore(rs: seq<Record>, i: nat)
    requires i < |rs|
    ensures ValuesLength(rs[..i + 1]) == ValuesLength(rs[..i]) + |rs[i].value|
  {
    assert rs[..i + 1][..i] == rs[..i];
  }

  lemma AtJoined(b: seq<byte>, off: int, x: seq<byte>, y: seq<byte>)
    requires At(b, off, x) && At(b, off + |x|, y)
    ensures At(b, off, x + y)
  {
    assert b[off..off + |x + y|] == b[off..off + |x|] + b[off + |x|..off + |x| + |y|];
  }

  // ----- Value lengths

  /** How far before the end of a node the scanner looks for the value size of a fixed-size node.  */
  const SIZE_FROM_END: nat := 28

  /** What the node ends with: the tree info in a root; elsewhere its table, keys, free space and values.  */
  function Ending(l: Layout, rs: seq<Record>): seq<byte>
    requires WellFormed(l, rs)
  {
    if Root(l) then l.info
    else l.gap + (Table(Fixed(l), rs) + (l.slack + (Keys(rs) + (l.free + Values(rs)))))
  }

  function SizeInEnding(ending: seq<byte>): nat {
    U32(ending, |ending| - SIZE_FROM_END) % TWO_TO_THE_16
  }

  /** The one length that a scan of a fixed-size node takes for all its values.  */
  function AssumedValueSize(l: Layout, rs: seq<Record>): nat
    requires WellFormed(l, rs)
  {
    SizeInEnding(Ending(l, rs))
  }

  lemma SizeFromSuffix(x: seq<byte>, y: seq<byte>)
    requires |y| >= SIZE_FROM_END
    ensures U32(x + y, |x + y| - SIZE_FROM_END) == U32(y, |y| - SIZE_FROM_END)
  {
    var k := |y| - SIZE_FROM_END;
    assert U8(x + y, |x| + k) == U8(y, k) && U8(x + y, |x| + k + 1) == U8(y, k + 1);
    assert U8(x + y, |x| + k + 2) == U8(y, k + 2) && U8(x + y, |x| + k + 3) == U8(y, k + 3);
  }

  /** The bytes of a whole block before its ending.  */
  lemma EndsInEnding(l: Layout, rs: seq<Record>) returns (x: seq<byte>)
    requires WellFormed(l, rs)
    ensures Encoded(l, rs) == x + Ending(l, rs)
  {
    hide Header, Table, Keys, Values, Small;
    var h, g, t, s, k, f, v := Header(l, rs), l.gap, Table(Fixed(l), rs), l.slack, Keys(rs), l.free, Values(rs);
    if Root(l) {
      x := h + (g + (t + (s + (k + (f + v)))));
      assert h + (g + (t + (s + (k + (f + (v + l.info)))))) == x + l.info;
    } else {
      x := h;
      assert v + l.info == v;
    }
  }

  lemma AssumedSizeIsRead(l: Layout, rs: seq<Record>, b: Block)
    requires WellFormed(l, rs) && b == Encoded(l, rs)
    ensures U32(b, BUFFER_SIZE - SIZE_FROM_END) % TWO_TO_THE_16 == AssumedValueSize(l, rs)
  {
    hide Encoded, Ending, U32;
    var x := EndsInEnding(l, rs);
    EndingIsLong(l, rs);
    SizeFromSuffix(x, Ending(l, rs));
  }

  lemma EndingIsLong(l: Layout, rs: seq<Record>)
    requires WellFormed(l, rs) && |Encoded(l, rs)| == BUFFER_SIZE
    ensures |Ending(l, rs)| >= SIZE_FROM_END
  {
    hide Header, Table, Keys, Values, Small;
  }

  /** The first record's value comes last.  */
  lemma {:induction false} FirstValueIsLast(rs: seq<Record>) returns (x: seq<byte>)
    requires rs != []
    ensures Values(rs) == x + rs[0].value
  {
    var n := |rs| - 1;
    if n == 0 {
      x := [];
      assert rs[..0] == [];
      assert rs[0].value + [] == [] + rs[0].value;
    } else {
      x := FirstValueIsLast(rs[..n]);
      assert rs[n].value + (x + rs[0].value) == (rs[n].value + x) + rs[0].value;
      x := rs[n].value + x;
    }
  }

  /** Outside a root the assumed size is read out of the free space and the values, and with a first value
      of at least 28 bytes out of that value alone.  */
  lemma LeafSizeIsReadFromValues(l: Layout, rs: seq<Record>)
    requires WellFormed(l, rs) && !Root(l)
    ensures |l.free + Values(rs)| >= SIZE_FROM_END ==> AssumedValueSize(l, rs) == SizeInEnding(l.free + Values(rs))
    ensures rs != [] && |rs[0].value| >= SIZE_FROM_END ==> AssumedValueSize(l, rs) == SizeInEnding(rs[0].value)
  {
    hide Table, Keys, Values, U32, Small;
    var g, t, s, k, f, v := l.gap, Table(Fixed(l), rs), l.slack, Keys(rs), l.free, Values(rs);
    assert Ending(l, rs) == (g + (t + (s + k))) + (f + v);
    if |f + v| >= SIZE_FROM_END {
      SizeFromSuffix(g + (t + (s + k)), f + v);
    }
    if rs != [] && |rs[0].value| >= SIZE_FROM_END {
      var x := FirstValueIsLast(rs);
      assert (g + (t + (s + k))) + (f + (x + rs[0].value)) == ((g + (t + (s + k))) + (f + x)) + rs[0].value;
      SizeFromSuffix((g + (t + (s + k))) + (f + x), rs[0].value);
    }
  }

  lemma LengthIsFound(l: Layout, rs: seq<Record>, b: Block, i: nat)
    requires WellFormed(l, rs) && b == Encoded(l, rs) && i < |rs|
    ensures PairOf(BUFFER_SIZE, b, TocEntry(BUFFER_SIZE, b, i)).valueLength
         == if Fixed(l) then AssumedValueSize(l, rs) else |rs[i].value|
  {
    hide At, Encoded, AssumedValueSize, U16, U32, KeysLength, ValuesLength, Flags, TableBase;
    EntryIsRead(l, rs, b, i);
    AreasOf(l, rs, b);
    AssumedSizeIsRead(l, rs, b);
  }

  /** Laying out a node and extracting its records yields the same keys and values, in the same order, for
      both forms of the table and for roots and other nodes.  Value lengths come back from variable-size
      nodes; from fixed-size ones all records get the size assumed for the node.  */
  lemma LayoutRoundTrip(l: Layout, rs: seq<Record>, b: Block)
    requires WellFormed(l, rs) && b == Encoded(l, rs)
    ensures |Pairs(BUFFER_SIZE, b)| == |rs|
    ensures forall i :: 0 <= i < |rs| ==>
              && At(b, Pairs(BUFFER_SIZE, b)[i].key, rs[i].key)
              && At(b, Pairs(BUFFER_SIZE, b)[i].value, rs[i].value)
    ensures forall i :: 0 <= i < |rs| ==>
              Pairs(BUFFER_SIZE, b)[i].valueLength == if Fixed(l) then AssumedValueSize(l, rs) else |rs[i].value|
  {
    hide At, Encoded, PairOf, TocEntry, AssumedValueSize;
    AreasOf(l, rs, b);
    var pairs := Pairs(BUFFER_SIZE, b);
    forall i | 0 <= i < |rs|
      ensures At(b, pairs[i].key, rs[i].key) && At(b, pairs[i].value, rs[i].value)
      ensures pairs[i].valueLength == if Fixed(l) then AssumedValueSize(l, rs) else |rs[i].value|
    {
      assert pairs[i] == PairOf(BUFFER_SIZE, b, TocEntry(BUFFER_SIZE, b, i));
      RecordIsFound(l, rs, b, i);
      LengthIsFound(l, rs, b, i);
    }
  }

  ghost predicate LengthsComeBack(rs: seq<Record>, b: Block)
    requires |Pairs(BUFFER_SIZE, b)| == |rs|
  {
    forall i :: 0 <= i < |rs| ==> Pairs(BUFFER_SIZE, b)[i].valueLength == |rs[i].value|
  }

  /** All value lengths come back exactly when the node is variable-size or all values have one size: the
      low 16 bits of the size that the tree info records in a root; elsewhere of what the first record's
      value, or the free space before the values, happens to hold 28 bytes before the end.  */
  lemma LengthsComeBackIff(l: Layout, rs: seq<Record>, b: Block)
    requires WellFormed(l, rs) && b == Encoded(l, rs)
    ensures |Pairs(BUFFER_SIZE, b)| == |rs|
    ensures LengthsComeBack(rs, b)
       <==> !Fixed(l) || forall i :: 0 <= i < |rs| ==> |rs[i].value| == AssumedValueSize(l, rs)
    ensures Root(l) ==> AssumedValueSize(l, rs) == U32(l.info, 12) % TWO_TO_THE_16
    ensures !Root(l) && rs != [] && |rs[0].value| >= SIZE_FROM_END ==>
              AssumedValueSize(l, rs) == U32(rs[0].value, |rs[0].value| - SIZE_FROM_END) % TWO_TO_THE_16
    ensures !Root(l) && |l.free + Values(rs)| >= SIZE_FROM_END ==>
              AssumedValueSize(l, rs)
              == U32(l.free + Values(rs), |l.free + Values(rs)| - SIZE_FROM_END) % TWO_TO_THE_16
  {
    hide Encoded, Pairs, At, Values, U32;
    LayoutRoundTrip(l, rs, b);
    if !Root(l) { LeafSizeIsReadFromValues(l, rs); }
  }

  /** In a fixed-size root whose info records the size of the values, every value length comes back.  */
  lemma FixedRootLengths(l: Layout, rs: seq<Record>, b: Block, size: uint32)
    requires WellFormed(l, rs) && b == Encoded(l, rs) && Fixed(l) && Root(l)
    requires At(l.info, 12, Enc32(size)) && forall r :: r in rs ==> |r.value| == size
    ensures forall i :: 0 <= i < |rs| ==> Pairs(BUFFER_SIZE, b)[i].valueLength == |rs[i].value|
  {
    hide At, Encoded, Pairs, U32, Enc32, Small, Table;
    LengthsComeBackIff(l, rs, b);
    ReadU32(l.info, 12, size);
    forall i | 0 <= i < |rs| ensures |rs[i].value| == AssumedValueSize(l, rs) {
      assert rs[i] in rs;
      ValueLengthIsSmall(rs, i);
    }
  }

  lemma ValueLengthIsSmall(rs: seq<Record>, i: nat)
    requires i < |rs| && Small(rs)
    ensures |rs[i].value| < TWO_TO_THE_16
  {
    PrefixIsSmall(rs, i + 1);
    assert rs[..i + 1][..i] == rs[..i];
  }

  function Zeros(n: nat): (z: seq<byte>)
    ensures |z| == n && forall k :: 0 <= k < n ==> z[k] == 0
  {
    seq<byte>(n, _ => 0)
  }

  lemma OneRecord(r: Record)
    ensures KeysLength([r]) == |r.key| && ValuesLength([r]) == |r.value|
  {
    assert [r][..0] == [];
    assert KeysLength([r][..0]) == 0 && ValuesLength([r][..0]) == 0;
  }
}

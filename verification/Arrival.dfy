/** The order in which blocks arrive: exactly when it does not matter, and what is then the same.

    A superblock sets the size at which later blocks are judged and cut.  So the order can only matter
    through the superblocks seen before, and it does unless every block reads alike at every size that they
    can bring about.  */
module Arrival {
  import opened Seqs
  import opened Wrappers
  import opened Merge
  import opened Node
  import opened Stream
  import Register

  /** The events of each sector, all read at one size.  */
  ghost function EventsIn(size: BlockSize): Sector -> seq<Event> {
    (s: Sector) => BlockEvents(size, s.block)
  }

  /** Every one of these sectors is taken for a superblock at the size then in use.  */
  predicate Chain(st: Status, c: seq<Sector>)
    decreases c
  {
    c == [] || (Fits(st) && IsSuperblock(st.size, c[0].block) && Chain(Advance(st, c[0]), c[1..]))
  }

  /** One can go on reading after c.  */
  ghost predicate FitsAfter(st: Status, c: seq<Sector>) {
    StreamFits(st, c) && Fits(StatusAfter(st, c))
  }

  /** The same events: in the same order if that matters, otherwise in any.  */
  ghost predicate Match(ordered: bool, a: seq<Event>, b: seq<Event>) {
    if ordered then a == b else Permuted(a, b)
  }

  /** Read after c, block x has the events it has when read at once.  */
  ghost predicate MatchesAfter(ordered: bool, st: Status, c: seq<Sector>, x: Sector)
    requires Fits(st)
  {
    && FitsAfter(st, c)
    && Match(ordered, BlockEvents(StatusAfter(st, c).size, x.block), BlockEvents(st.size, x.block))
  }

  ghost predicate Among(a: seq<Sector>, s: seq<Sector>) { multiset(a) <= multiset(s) }

  /** Whatever superblocks of the stream come first, every other block of it has the events it has when read
      at once.  */
  ghost predicate Reads(ordered: bool, st: Status, sectors: seq<Sector>)
    requires Fits(st)
  {
    forall c, x :: Chain(st, c) && Among(c + [x], sectors) ==> MatchesAfter(ordered, st, c, x)
  }

  /** Every block has the same events, in some order.  */
  ghost predicate ReadsAlike(st: Status, sectors: seq<Sector>)
    requires Fits(st)
  {
    Reads(false, st, sectors)
  }

  /** Every block has the same events in the same order.  */
  ghost predicate ReadsTheSame(st: Status, sectors: seq<Sector>)
    requires Fits(st)
  {
    Reads(true, st, sectors)
  }

  lemma SameIsAlike(st: Status, sectors: seq<Sector>)
    requires Fits(st) && ReadsTheSame(st, sectors)
    ensures ReadsAlike(st, sectors)
  {
    hide Chain, Among, FitsAfter, BlockEvents, StatusAfter;
  }

  lemma SameWhenRearranged(st: Status, sectors: seq<Sector>, p: seq<Sector>)
    requires Fits(st) && Permuted(p, sectors) && ReadsTheSame(st, sectors)
    ensures ReadsTheSame(st, p)
  {
    assert forall a :: Among(a, p) <==> Among(a, sectors);
    hide Among, Chain, MatchesAfter;
  }

  // ----- Chains

  /** A block of the superblock type is no node at any size, so a chain has no events.  */
  lemma {:induction false} ChainRuns(st: Status, c: seq<Sector>)
    requires Chain(st, c)
    ensures StreamFits(st, c) && StreamEvents(st, c) == []
    ensures forall size: BlockSize :: FlatMap(c, EventsIn(size)) == []
    decreases c
  {
    hide Accepted, DeclaredSize;
    if c != [] {
      ChainRuns(Advance(st, c[0]), c[1..]);
      forall size: BlockSize ensures FlatMap(c, EventsIn(size)) == [] {
        FlatMapFirst(c, EventsIn(size));
      }
    }
  }

  lemma {:induction false} ChainGrows(st: Status, c: seq<Sector>, x: Sector)
    requires Chain(st, c) && FitsAfter(st, c) && IsSuperblock(StatusAfter(st, c).size, x.block)
    ensures Chain(st, c + [x]) && StreamFits(st, c + [x])
    ensures StatusAfter(st, c + [x]) == Advance(StatusAfter(st, c), x)
    decreases c
  {
    hide IsSuperblock, DeclaredSize;
    if c == [] {
      assert (c + [x])[1..] == [];
    } else {
      assert (c + [x])[1..] == c[1..] + [x];
      ChainGrows(Advance(st, c[0]), c[1..], x);
    }
  }

  lemma ConsStream(st: Status, x: Sector, rest: seq<Sector>)
    requires Fits(st)
    ensures StreamFits(st, [x] + rest) <==> StreamFits(Advance(st, x), rest)
    ensures StreamFits(st, [x] + rest) ==>
              StreamEvents(st, [x] + rest) == BlockEvents(st.size, x.block) + StreamEvents(Advance(st, x), rest)
  {
    assert ([x] + rest)[1..] == rest;
  }

  lemma ChainFirst(st: Status, c: seq<Sector>, rest: seq<Sector>)
    requires Chain(st, c)
    ensures StreamFits(st, c)
    ensures StreamFits(st, c + rest) <==> StreamFits(StatusAfter(st, c), rest)
    ensures StreamFits(st, c + rest) ==> StreamEvents(st, c + rest) == StreamEvents(StatusAfter(st, c), rest)
  {
    ChainRuns(st, c);
    StreamConcat(st, c, rest);
  }

  // ----- It is enough

  /** Halfway: the superblocks seen so far decide the size, and what is still to come fits and matches.  */
  lemma {:induction false} MatchingRuns(
    ordered: bool, st: Status, sectors: seq<Sector>, c: seq<Sector>, rest: seq<Sector>)
    requires Fits(st) && Reads(ordered, st, sectors) && Chain(st, c) && Among(c + rest, sectors)
    requires StreamFits(st, c)
    ensures StreamFits(StatusAfter(st, c), rest)
    ensures Match(ordered, StreamEvents(StatusAfter(st, c), rest), FlatMap(rest, EventsIn(st.size)))
    decreases rest
  {
    hide Reads, Chain, Among, IsSuperblock, DeclaredSize, BlockEvents;
    if rest != [] {
      hide StreamFits, StreamEvents, StatusAfter, Match;
      var now, x, later := StatusAfter(st, c), rest[0], rest[1..];
      assert rest == [x] + later;
      FewerLeft(sectors, c, x, later);
      NextMatches(ordered, st, sectors, c, x);
      ConsStream(now, x, later);
      FlatMapFirst(rest, EventsIn(st.size));
      if IsSuperblock(now.size, x.block) {
        ChainGrows(st, c, x);
        assert c + rest == (c + [x]) + later;
        MatchingRuns(ordered, st, sectors, c + [x], later);
      } else {
        assert Advance(now, x) == now;
        MatchingRuns(ordered, st, sectors, c, later);
      }
      MatchConcat(ordered, BlockEvents(now.size, x.block), BlockEvents(st.size, x.block),
                  StreamEvents(Advance(now, x), later), FlatMap(later, EventsIn(st.size)));
    }
  }

  lemma NextMatches(ordered: bool, st: Status, sectors: seq<Sector>, c: seq<Sector>, x: Sector)
    requires Fits(st) && Reads(ordered, st, sectors) && Chain(st, c) && Among(c + [x], sectors)
    ensures MatchesAfter(ordered, st, c, x)
  {
    hide Chain, Among, MatchesAfter;
  }

  lemma MatchConcat(ordered: bool, a: seq<Event>, b: seq<Event>, s: seq<Event>, t: seq<Event>)
    requires Match(ordered, a, b) && Match(ordered, s, t)
    ensures Match(ordered, a + s, b + t)
  {
  }

  lemma FewerLeft(sectors: seq<Sector>, c: seq<Sector>, x: Sector, later: seq<Sector>)
    requires Among(c + ([x] + later), sectors)
    ensures Among(c + [x], sectors) && Among(c + later, sectors)
  {
    assert multiset(c + ([x] + later)) == multiset(c) + multiset{x} + multiset(later);
    assert multiset(c + [x]) == multiset(c) + multiset{x} && multiset(c + later) == multiset(c) + multiset(later);
  }

  /** In whatever order, the events match those that all blocks have when read at once.  */
  lemma MatchInOrder(ordered: bool, st: Status, sectors: seq<Sector>, p: seq<Sector>)
    requires Fits(st) && Reads(ordered, st, sectors) && Permuted(p, sectors)
    ensures StreamFits(st, p) && Match(ordered, StreamEvents(st, p), FlatMap(p, EventsIn(st.size)))
  {
    assert [] + p == p;
    MatchingRuns(ordered, st, sectors, [], p);
  }

  lemma AlikeInOrder(st: Status, sectors: seq<Sector>, p: seq<Sector>)
    requires Fits(st) && ReadsAlike(st, sectors) && Permuted(p, sectors)
    ensures StreamFits(st, p) && Permuted(StreamEvents(st, p), FlatMap(sectors, EventsIn(st.size)))
  {
    hide Reads;
    MatchInOrder(false, st, sectors, p);
    FlatMapPermuted(p, sectors, EventsIn(st.size));
  }

  lemma SameInOrder(st: Status, sectors: seq<Sector>, p: seq<Sector>)
    requires Fits(st) && ReadsTheSame(st, sectors) && Permuted(p, sectors)
    ensures StreamFits(st, p) && StreamEvents(st, p) == FlatMap(p, EventsIn(st.size))
  {
    hide Reads;
    MatchInOrder(true, st, sectors, p);
  }

  // ----- And needed

  /** In every order the blocks can be read, and the events are, as a multiset, the same.  */
  ghost predicate SameEventsInAnyOrder(st: Status, sectors: seq<Sector>) {
    forall p :: Permuted(p, sectors) ==>
      && StreamFits(st, p) && StreamFits(st, sectors)
      && Permuted(StreamEvents(st, p), StreamEvents(st, sectors))
  }

  /** In every order the events are those of the blocks, one block after the other, as read at once.  */
  ghost predicate BlockByBlockInAnyOrder(st: Status, sectors: seq<Sector>)
    requires Fits(st)
  {
    forall p :: Permuted(p, sectors) ==>
      StreamFits(st, p) && StreamEvents(st, p) == FlatMap(p, EventsIn(st.size))
  }

  lemma {:induction false} Others(a: seq<Sector>, s: seq<Sector>) returns (rest: seq<Sector>)
    requires multiset(a) <= multiset(s)
    ensures Permuted(a + rest, s)
    decreases a
  {
    if a == [] {
      rest := s;
      assert a + rest == s;
    } else {
      var x, n := a[|a| - 1], |a| - 1;
      assert a == a[..n] + [x];
      assert x in multiset(a) && x in s;
      var k :| 0 <= k < |s| && s[k] == x;
      MultisetRemove(s, k);
      WithoutLast(a, x, multiset(Remove(s, k)));
      rest := Others(a[..n], Remove(s, k));
      assert multiset(a + rest) == multiset(a[..n] + rest) + multiset{x};
    }
  }

  lemma WithoutLast(a: seq<Sector>, x: Sector, m: multiset<Sector>)
    requires a != [] && a[|a| - 1] == x && multiset(a) <= m + multiset{x}
    ensures multiset(a[..|a| - 1]) <= m
  {
    assert a == a[..|a| - 1] + [x];
    var n := multiset(a[..|a| - 1]);
    assert multiset(a) == n + multiset{x};
    forall y ensures n[y] <= m[y] {
      assert (n + multiset{x})[y] <= (m + multiset{x})[y];
    }
  }

  /** One block after a chain, and the same block before it.  */
  lemma BeforeAndAfter(st: Status, c: seq<Sector>, x: Sector, rest: seq<Sector>)
    requires Fits(st) && Chain(st, c) && ObjectType(x.block) != TYPE_NX_SUPERBLOCK
    requires StreamFits(st, c + ([x] + rest)) && StreamFits(st, [x] + (c + rest))
    ensures FitsAfter(st, c) && StreamFits(StatusAfter(st, c), rest)
    ensures var now := StatusAfter(st, c);
            && StreamEvents(st, c + ([x] + rest)) == BlockEvents(now.size, x.block) + StreamEvents(now, rest)
            && StreamEvents(st, [x] + (c + rest)) == BlockEvents(st.size, x.block) + StreamEvents(now, rest)
  {
    hide Accepted, BlockEvents, Chain;
    ChainFirst(st, c, [x] + rest);
    assert ([x] + rest)[0] == x;
    ConsStream(StatusAfter(st, c), x, rest);
    ConsStream(st, x, c + rest);
    ChainFirst(st, c, rest);
  }

  lemma SuperblockHasNoEvents(size: BlockSize, b: Block)
    requires ObjectType(b) == TYPE_NX_SUPERBLOCK
    ensures BlockEvents(size, b) == []
  {
  }

  /** Two orders of all the sectors, of which some start with c and x.  */
  lemma BothOrders(c: seq<Sector>, x: Sector, sectors: seq<Sector>) returns (rest: seq<Sector>)
    requires Among(c + [x], sectors)
    ensures Permuted(c + ([x] + rest), sectors) && Permuted([x] + (c + rest), sectors)
  {
    rest := Others(c + [x], sectors);
    assert (c + [x]) + rest == c + ([x] + rest);
    assert multiset([x] + (c + rest)) == multiset{x} + multiset(c) + multiset(rest) == multiset(c + ([x] + rest));
  }

  /** If a block may come before or after a chain and the whole run has the same events, so has the block.  */
  lemma MatchesWhenSwapped(ordered: bool, st: Status, c: seq<Sector>, x: Sector, rest: seq<Sector>)
    requires Fits(st) && Chain(st, c) && StreamFits(st, c + ([x] + rest)) && StreamFits(st, [x] + (c + rest))
    requires Match(ordered, StreamEvents(st, c + ([x] + rest)), StreamEvents(st, [x] + (c + rest)))
    ensures MatchesAfter(ordered, st, c, x)
  {
    hide Chain, BlockEvents, StreamEvents, StreamFits, StatusAfter, ObjectType;
    ChainFirst(st, c, [x] + rest);
    FirstFits(StatusAfter(st, c), x, rest);
    var now := StatusAfter(st, c);
    if ObjectType(x.block) == TYPE_NX_SUPERBLOCK {
      SuperblockHasNoEvents(now.size, x.block);
      SuperblockHasNoEvents(st.size, x.block);
    } else {
      BeforeAndAfter(st, c, x, rest);
      CancelRight(ordered, BlockEvents(now.size, x.block), BlockEvents(st.size, x.block), StreamEvents(now, rest));
    }
  }

  lemma FirstFits(st: Status, x: Sector, rest: seq<Sector>)
    requires StreamFits(st, [x] + rest)
    ensures Fits(st)
  {
  }

  lemma CancelRight(ordered: bool, a: seq<Event>, b: seq<Event>, c: seq<Event>)
    requires Match(ordered, a + c, b + c)
    ensures Match(ordered, a, b)
  {
    if ordered {
      assert |a| == |b| && (a + c)[..|a|] == a && (b + c)[..|b|] == b;
    } else {
      assert multiset(a + c) == multiset(a) + multiset(c) && multiset(b + c) == multiset(b) + multiset(c);
      assert multiset(a) == multiset(a + c) - multiset(c) && multiset(b) == multiset(b + c) - multiset(c);
    }
  }

  lemma SameInBoth(st: Status, sectors: seq<Sector>, p: seq<Sector>, q: seq<Sector>)
    requires SameEventsInAnyOrder(st, sectors) && Permuted(p, sectors) && Permuted(q, sectors)
    ensures StreamFits(st, p) && StreamFits(st, q) && Match(false, StreamEvents(st, p), StreamEvents(st, q))
  {
    hide StreamFits, StreamEvents;
  }

  lemma OrderFreeReadsAlike(st: Status, sectors: seq<Sector>, c: seq<Sector>, x: Sector)
    requires Fits(st) && SameEventsInAnyOrder(st, sectors)
    requires Chain(st, c) && Among(c + [x], sectors)
    ensures MatchesAfter(false, st, c, x)
  {
    hide StreamFits, StreamEvents, Chain, MatchesAfter, Among, SameEventsInAnyOrder, Permuted;
    var rest := BothOrders(c, x, sectors);
    SameInBoth(st, sectors, c + ([x] + rest), [x] + (c + rest));
    MatchesWhenSwapped(false, st, c, x, rest);
  }

  /** The order of the blocks leaves their events alone, as a multiset, exactly when every block reads alike
      at every size that superblocks of the stream can bring about before it.  */
  lemma EventsAreOrderFreeIff(st: Status, sectors: seq<Sector>)
    requires Fits(st)
    ensures SameEventsInAnyOrder(st, sectors) <==> ReadsAlike(st, sectors)
  {
    hide StreamFits, StreamEvents, FlatMap, MatchesAfter;
    if ReadsAlike(st, sectors) {
      hide Reads;
      AlikeInOrder(st, sectors, sectors);
      forall p | Permuted(p, sectors)
        ensures StreamFits(st, p) && Permuted(StreamEvents(st, p), FlatMap(sectors, EventsIn(st.size)))
      {
        AlikeInOrder(st, sectors, p);
      }
    } else if SameEventsInAnyOrder(st, sectors) {
      forall c, x | Chain(st, c) && Among(c + [x], sectors) ensures MatchesAfter(false, st, c, x) {
        hide Permuted, SameEventsInAnyOrder, Chain;
        OrderFreeReadsAlike(st, sectors, c, x);
      }
    }
  }

  lemma OrderFreeReadsTheSame(st: Status, sectors: seq<Sector>, c: seq<Sector>, x: Sector)
    requires Fits(st) && BlockByBlockInAnyOrder(st, sectors)
    requires Chain(st, c) && Among(c + [x], sectors)
    ensures MatchesAfter(true, st, c, x)
  {
    hide StreamFits, StreamEvents, Chain, MatchesAfter, Among, Permuted, FlatMap;
    var rest := BothOrders(c, x, sectors);
    ChainRuns(st, c);
    EventsAround(c, x, rest, EventsIn(st.size));
    var p, q := c + ([x] + rest), [x] + (c + rest);
    assert Permuted(p, sectors) && Permuted(q, sectors);
    hide BlockByBlockInAnyOrder;
    MatchesWhenSwapped(true, st, c, x, rest);
  }

  lemma EventsAround(c: seq<Sector>, x: Sector, rest: seq<Sector>, g: Sector -> seq<Event>)
    requires FlatMap(c, g) == []
    ensures FlatMap(c + ([x] + rest), g) == FlatMap([x] + (c + rest), g)
  {
    hide FlatMap;
    FlatMapConcat(c, [x] + rest, g);
    FlatMapConcat(c, rest, g);
    FlatMapFirst([x] + rest, g);
    FlatMapFirst([x] + (c + rest), g);
  }

  /** The order of the blocks leaves the events of each block alone, exactly when every block reads the same
      at every such size.  */
  lemma BlocksAreOrderFreeIff(st: Status, sectors: seq<Sector>)
    requires Fits(st)
    ensures BlockByBlockInAnyOrder(st, sectors) <==> ReadsTheSame(st, sectors)
  {
    hide StreamFits, StreamEvents, FlatMap, MatchesAfter;
    if ReadsTheSame(st, sectors) {
      hide Reads;
      forall p | Permuted(p, sectors)
        ensures StreamFits(st, p) && StreamEvents(st, p) == FlatMap(p, EventsIn(st.size))
      {
        SameInOrder(st, sectors, p);
      }
    } else if BlockByBlockInAnyOrder(st, sectors) {
      forall c, x | Chain(st, c) && Among(c + [x], sectors) ensures MatchesAfter(true, st, c, x) {
        hide Permuted, BlockByBlockInAnyOrder, Chain;
        OrderFreeReadsTheSame(st, sectors, c, x);
      }
    }
  }

  // ----- One block size

  /** No superblock in the stream changes the block size.  */
  predicate OneSize(size: BlockSize, sectors: seq<Sector>) {
    forall s :: s in sectors && IsSuperblock(size, s.block) ==> DeclaredSize(s.block) == size
  }

  /** Then every block reads the same in every order.  */
  lemma OneSizeReadsTheSame(st: Status, sectors: seq<Sector>)
    requires Fits(st) && OneSize(st.size, sectors)
    ensures ReadsTheSame(st, sectors) && ReadsAlike(st, sectors)
  {
    forall c, x | Chain(st, c) && Among(c + [x], sectors) ensures MatchesAfter(true, st, c, x) {
      hide Chain, OneSize, StreamFits, StatusAfter, BlockEvents;
      PartOf(c, x, sectors);
      ChainKeepsSize(st, c, sectors);
    }
    hide Chain, MatchesAfter, ReadsAlike;
    assert ReadsTheSame(st, sectors);
    SameIsAlike(st, sectors);
  }

  lemma PartOf(c: seq<Sector>, x: Sector, sectors: seq<Sector>)
    requires Among(c + [x], sectors)
    ensures forall s :: s in c ==> s in sectors
  {
    forall s | s in c ensures s in sectors {
      assert s in c + [x] && s in multiset(c + [x]) && s in multiset(sectors);
    }
  }

  lemma {:induction false} ChainKeepsSize(st: Status, c: seq<Sector>, sectors: seq<Sector>)
    requires Fits(st) && OneSize(st.size, sectors) && Chain(st, c) && forall s :: s in c ==> s in sectors
    ensures StreamFits(st, c) && StatusAfter(st, c).size == st.size
    decreases c
  {
    hide Accepted, DeclaredSize;
    if c != [] {
      assert c[0] in c && forall s :: s in c[1..] ==> s in c;
      ChainKeepsSize(Advance(st, c[0]), c[1..], sectors);
    }
  }

  // ----- What is the same in every order

  /** Scanning the same sectors in another order recovers the same inodes with the same versions and, as
      multisets, the same extents.  */
  lemma ArrivalOrderDoesNotMatter(st: Status, s: seq<Sector>, t: seq<Sector>)
    requires Fits(st) && ReadsAlike(st, s) && Permuted(t, s)
    ensures StreamFits(st, s) && StreamFits(st, t)
    ensures Permuted(StreamEvents(st, t), FlatMap(s, EventsIn(st.size)))
    ensures Recovered(st, t).Keys == Recovered(st, s).Keys
    ensures forall i :: i in Recovered(st, s) ==>
              var v, u := Recovered(st, s)[i], Recovered(st, t)[i];
              && v.row.versionId == u.row.versionId
              && v.row.extentVersionId == u.row.extentVersionId
              && Permuted(v.extents, u.extents)
  {
    hide ReadsAlike, StreamFits, StreamEvents;
    AlikeInOrder(st, s, s);
    AlikeInOrder(st, s, t);
    var es, et := StreamEvents(st, s), StreamEvents(st, t);
    forall i: Inode
      ensures i in Run(map[], es) <==> i in Run(map[], et)
      ensures var v, u := Get(Run(map[], es), i), Get(Run(map[], et), i);
              && v.row.versionId == u.row.versionId
              && v.row.extentVersionId == u.row.extentVersionId
              && Permuted(v.extents, u.extents)
    {
      RearrangedRecords(es, et, i);
    }
  }

  /** A whole block as one write to an attribute: all its records carry the block's transaction id.  */
  ghost function BlockWrites(size: BlockSize, i: Inode, f: Field): Sector -> Option<Register.Write<FieldValue>> {
    Register.Collapsed(EventsIn(size), AttributeWrites(i, f))
  }

  ghost predicate SettledBlocks(size: BlockSize, sectors: seq<Sector>, i: Inode, f: Field) {
    Register.Settled(sectors, BlockWrites(size, i, f), FieldOf(BLANK_ROW, f))
  }

  ghost function RecoveredField(st: Status, sectors: seq<Sector>, i: Inode, f: Field): FieldValue
    requires StreamFits(st, sectors)
  {
    FieldOf(Get(Recovered(st, sectors), i).row, f)
  }

  lemma FieldIsBlockRegister(st: Status, sectors: seq<Sector>, i: Inode, f: Field)
    requires Fits(st) && ReadsTheSame(st, sectors)
    ensures StreamFits(st, sectors)
    ensures Register.Run(InitialRegister(f), sectors, BlockWrites(st.size, i, f)).value
         == RecoveredField(st, sectors, i, f)
  {
    hide ReadsTheSame, BlockEvents, Xid;
    SameInOrder(st, sectors, sectors);
    AttributesAreRegisters(StreamEvents(st, sectors), i, f);
    forall s | s in sectors ensures Register.Uniform(EventsIn(st.size)(s), AttributeWrites(i, f), Xid(s.block)) {
      BlockEventsShareXid(st.size, s.block);
    }
    Register.BatchesAreWrites(
      InitialRegister(f), sectors, EventsIn(st.size), (s: Sector) => Xid(s.block), AttributeWrites(i, f));
  }

  /** Exactly when parent, kind, name or length of a recovered entry is the same in every arrival order of
      the blocks: when the blocks that set it at the newest transaction agree and, should there be none,
      no older block sets it to anything but its initial value.  */
  lemma BlockOrderIndependence(st: Status, sectors: seq<Sector>, i: Inode, f: Field)
    requires Fits(st) && ReadsTheSame(st, sectors)
    ensures StreamFits(st, sectors)
    ensures (forall p :: Permuted(p, sectors) ==>
               StreamFits(st, p) && RecoveredField(st, p, i, f) == RecoveredField(st, sectors, i, f))
       <==> SettledBlocks(st.size, sectors, i, f)
  {
    hide ReadsTheSame, StreamFits, BlockWrites, Recovered;
    var w := BlockWrites(st.size, i, f);
    Register.OrderIndependentIffSettled(InitialRegister(f), sectors, w);
    FieldIsBlockRegister(st, sectors, i, f);
    forall p | Permuted(p, sectors)
      ensures StreamFits(st, p) && Register.Run(InitialRegister(f), p, w).value == RecoveredField(st, p, i, f)
    {
      SameWhenRearranged(st, sectors, p);
      FieldIsBlockRegister(st, p, i, f);
    }
  }
}

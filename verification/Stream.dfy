/** Whole runs: a stream of sectors, read in whatever order, as events and as scanner state.  */
module Stream {
  import opened Bytes
  import opened Merge
  import opened Node
  import Fletcher

  /** A block and the disk position it was read from.  */
  datatype Sector = Sector(pos: uint64, block: Block)

  /** The scanner's own fields.  */
  datatype Status = Status(size: uint32, fsOffset: uint64)

  const INITIAL := Status(BUFFER_SIZE, 0)

  /** The block size in use is one that the 4096-byte buffer can serve.  */
  predicate Fits(st: Status) { CKSUM_SIZE <= st.size <= BUFFER_SIZE }

  function Advance(st: Status, s: Sector): Status
    requires Fits(st)
  {
    if IsSuperblock(st.size, s.block)
    then Status(DeclaredSize(s.block), if st.fsOffset == 0 then s.pos else st.fsOffset)
    else st
  }

  /** Whatever superblocks declare on the way, the size in use fits whenever a block is scanned.  */
  predicate StreamFits(st: Status, sectors: seq<Sector>)
    decreases sectors
  {
    sectors == [] || (Fits(st) && StreamFits(Advance(st, sectors[0]), sectors[1..]))
  }

  function StatusAfter(st: Status, sectors: seq<Sector>): Status
    requires StreamFits(st, sectors)
    decreases sectors
  {
    if sectors == [] then st else StatusAfter(Advance(st, sectors[0]), sectors[1..])
  }

  ghost function StreamEvents(st: Status, sectors: seq<Sector>): seq<Event>
    requires StreamFits(st, sectors)
    decreases sectors
  {
    if sectors == [] then []
    else BlockEvents(st.size, sectors[0].block) + StreamEvents(Advance(st, sectors[0]), sectors[1..])
  }

  /** The entries a run leaves behind.  */
  ghost function Recovered(st: Status, sectors: seq<Sector>): Entries
    requires StreamFits(st, sectors)
  {
    Run(map[], StreamEvents(st, sectors))
  }

  /** What the scanner's fields become, told from the bytes: an accepted block counts as a superblock by the
      low 16 bits of its type and by its magic number alone; any other block changes nothing.  */
  lemma SuperblockSetsStatus(st: Status, s: Sector)
    requires 8 <= st.size <= 4096
    ensures var b := s.block;
            var told := Accepted(st.size, b) && U16(b, 24) == 1 && U32(b, 32) == 0x4253_584E;
            Advance(st, s) == if told then Status(U32(b, 36), if st.fsOffset == 0 then s.pos else st.fsOffset) else st
  {
    hide Accepted, U16;
  }

  // ----- Corrupt blocks

  lemma {:induction false} StreamConcat(st: Status, a: seq<Sector>, b: seq<Sector>)
    requires StreamFits(st, a)
    ensures StreamFits(st, a + b) <==> StreamFits(StatusAfter(st, a), b)
    ensures StreamFits(st, a + b) ==>
              && StatusAfter(st, a + b) == StatusAfter(StatusAfter(st, a), b)
              && StreamEvents(st, a + b) == StreamEvents(st, a) + StreamEvents(StatusAfter(st, a), b)
    decreases a
  {
    hide Advance, BlockEvents;
    if a == [] {
      assert a + b == b;
    } else {
      assert (a + b)[0] == a[0] && (a + b)[1..] == a[1..] + b;
      StreamConcat(Advance(st, a[0]), a[1..], b);
    }
  }

  /** A sector that is not accepted might as well not be there.  */
  lemma RejectedSectorIsInvisible(st: Status, before: seq<Sector>, s: Sector, after: seq<Sector>)
    requires StreamFits(st, before) && StreamFits(st, before + after)
    requires Fits(StatusAfter(st, before)) && !Accepted(StatusAfter(st, before).size, s.block)
    ensures StreamFits(st, before + [s] + after)
    ensures StreamEvents(st, before + [s] + after) == StreamEvents(st, before + after)
    ensures StatusAfter(st, before + [s] + after) == StatusAfter(st, before + after)
  {
    hide Accepted, DeclaredSize, NodeEvents, ObjectType;
    var mid := StatusAfter(st, before);
    SkipsRejected(mid, s, after);
    StreamConcat(st, before, after);
    StreamConcat(st, before, [s] + after);
    assert before + [s] + after == before + ([s] + after);
  }

  lemma SkipsRejected(st: Status, s: Sector, after: seq<Sector>)
    requires Fits(st) && !Accepted(st.size, s.block)
    ensures StreamFits(st, [s] + after) <==> StreamFits(st, after)
    ensures StreamFits(st, after) ==>
              && StreamEvents(st, [s] + after) == StreamEvents(st, after)
              && StatusAfter(st, [s] + after) == StatusAfter(st, after)
  {
    hide Accepted, DeclaredSize, NodeEvents, ObjectType;
    assert ([s] + after)[0] == s && ([s] + after)[1..] == after;
    if StreamFits(st, after) {
      assert StreamEvents(st, [s] + after) == [] + StreamEvents(st, after);
    }
  }

  /** Altering one or two adjacent payload words of an accepted block, at least one of them to another
      residue modulo 2^32 - 1, makes the run equal to the run without that block: in the entries
      recovered and in the scanner's fields.  */
  lemma CorruptBlockIsInvisible(
    st: Status, before: seq<Sector>, s: Sector, corrupt: Block, i: nat, after: seq<Sector>)
    requires StreamFits(st, before) && StreamFits(st, before + after) && Fits(StatusAfter(st, before))
    requires var size := StatusAfter(st, before).size;
             && Accepted(size, s.block) && DifferInWordsAt(size, s.block, corrupt, i)
             && exists j :: i <= j <= i + 1 && j < |Payload(size, s.block)|
                  && !Fletcher.Congruent(Payload(size, corrupt)[j], Payload(size, s.block)[j])
    ensures var run := before + [Sector(s.pos, corrupt)] + after;
            && StreamFits(st, run)
            && Recovered(st, run) == Recovered(st, before + after)
            && StatusAfter(st, run) == StatusAfter(st, before + after)
  {
    CorruptedBlockIsRejected(StatusAfter(st, before).size, s.block, corrupt, i);
    RejectedSectorIsInvisible(st, before, Sector(s.pos, corrupt), after);
  }

  // ----- Superblocks

  /** Sector k is taken for a superblock when its turn comes.  */
  predicate SuperblockAt(st: Status, sectors: seq<Sector>, k: nat)
    requires StreamFits(st, sectors) && k < |sectors|
    decreases k
  {
    if k == 0 then IsSuperblock(st.size, sectors[0].block)
    else SuperblockAt(Advance(st, sectors[0]), sectors[1..], k - 1)
  }

  predicate NoSuperblock(st: Status, sectors: seq<Sector>)
    requires StreamFits(st, sectors)
  {
    forall k :: 0 <= k < |sectors| ==> !SuperblockAt(st, sectors, k)
  }

  /** The last of them is sector k.  */
  predicate LastSuperblock(st: Status, sectors: seq<Sector>, k: nat)
    requires StreamFits(st, sectors) && k < |sectors|
  {
    SuperblockAt(st, sectors, k) && forall j :: k < j < |sectors| ==> !SuperblockAt(st, sectors, j)
  }

  /** The first of them not at position 0, which does not count as set, is sector k.  */
  predicate FirstSuperblock(st: Status, sectors: seq<Sector>, k: nat)
    requires StreamFits(st, sectors) && k < |sectors|
  {
    && SuperblockAt(st, sectors, k) && sectors[k].pos != 0
    && forall j :: 0 <= j < k && SuperblockAt(st, sectors, j) ==> sectors[j].pos == 0
  }

  lemma OneSectorLater(st: Status, sectors: seq<Sector>)
    requires sectors != [] && StreamFits(st, sectors)
    ensures var next, rest := Advance(st, sectors[0]), sectors[1..];
            && StreamFits(next, rest)
            && (forall k :: 0 < k < |sectors| ==> SuperblockAt(st, sectors, k) == SuperblockAt(next, rest, k - 1))
            && forall k :: 0 <= k < |rest| ==> SuperblockAt(next, rest, k) == SuperblockAt(st, sectors, k + 1)
  {
  }

  /** The block size is what the last superblock declares.  */
  lemma {:induction false} SizeIsLastSuperblock(st: Status, sectors: seq<Sector>)
    requires StreamFits(st, sectors)
    ensures NoSuperblock(st, sectors) ==> StatusAfter(st, sectors).size == st.size
    ensures forall k :: 0 <= k < |sectors| && LastSuperblock(st, sectors, k) ==>
              StatusAfter(st, sectors).size == DeclaredSize(sectors[k].block)
    decreases sectors
  {
    hide IsSuperblock, DeclaredSize;
    if sectors != [] {
      var next, rest := Advance(st, sectors[0]), sectors[1..];
      OneSectorLater(st, sectors);
      SizeIsLastSuperblock(next, rest);
      assert SuperblockAt(st, sectors, 0) == IsSuperblock(st.size, sectors[0].block);
      hide SuperblockAt;
      if k: nat :| 0 < k < |sectors| && LastSuperblock(st, sectors, k) {
        assert LastSuperblock(next, rest, k - 1);
      } else if SuperblockAt(st, sectors, 0) && LastSuperblock(st, sectors, 0) {
        assert NoSuperblock(next, rest);
      }
    }
  }

  /** The volume offset is the position of the first superblock not at position 0.  */
  lemma {:induction false} OffsetIsFirstSuperblock(st: Status, sectors: seq<Sector>)
    requires StreamFits(st, sectors)
    ensures st.fsOffset != 0 || (forall k :: 0 <= k < |sectors| ==> !FirstSuperblock(st, sectors, k)) ==>
              StatusAfter(st, sectors).fsOffset == st.fsOffset
    ensures st.fsOffset == 0 ==>
              forall k :: 0 <= k < |sectors| && FirstSuperblock(st, sectors, k) ==>
                StatusAfter(st, sectors).fsOffset == sectors[k].pos
    decreases sectors
  {
    hide IsSuperblock, DeclaredSize;
    if sectors != [] {
      var next, rest := Advance(st, sectors[0]), sectors[1..];
      OneSectorLater(st, sectors);
      OffsetIsFirstSuperblock(next, rest);
      assert SuperblockAt(st, sectors, 0) == IsSuperblock(st.size, sectors[0].block);
      hide SuperblockAt;
      forall k | 0 <= k < |rest| && next.fsOffset == 0
        ensures FirstSuperblock(next, rest, k) == FirstSuperblock(st, sectors, k + 1)
      {
        assert next.fsOffset == 0 && SuperblockAt(st, sectors, 0) ==> sectors[0].pos == 0;
      }
      assert next.fsOffset != 0 && st.fsOffset == 0 ==> FirstSuperblock(st, sectors, 0);
    }
  }
}

/** Paths over recovered tables: when they lead to the same place in whatever order the blocks arrive.  */
module Paths {
  import opened Wrappers
  import opened Seqs
  import opened Merge
  import opened Stream
  import opened Arrival
  import opened Tree

  function RowsOf(entries: Entries): (rows: Rows)
    ensures rows.Keys == entries.Keys && forall i :: i in entries ==> rows[i] == entries[i].row
  {
    map i | i in entries :: entries[i].row
  }

  /** A value that some record about x gives a field, or that the field has from the start.  */
  ghost predicate Given(events: seq<Event>, x: Inode, f: Field, v: FieldValue) {
    v == FieldOf(BLANK_ROW, f) || exists e :: e in events && e.inode == x && SetBy(e, f) == Some(v)
  }

  /** Some records speak for x bearing the name under y, be it not the newest and not the same record.  */
  ghost predicate Claimed(events: seq<Event>, x: Inode, y: Inode, name: Name) {
    Given(events, x, Parent, Number(y)) && Given(events, x, FileName, Text(name))
  }

  /** Whatever could bear the next part of the path, under an inode that the parts before it lead to, has its
      parent and its name settled.  */
  ghost predicate PathSettled(st: Status, sectors: seq<Sector>, d: Inode, parts: seq<Name>)
    requires Fits(st) && StreamFits(st, sectors)
  {
    var rows, events := RowsOf(Recovered(st, sectors)), FlatMap(sectors, EventsIn(st.size));
    forall k, y, x :: 0 <= k < |parts| && Spells(rows, d, parts[..k], y) && Claimed(events, x, y, parts[k]) ==>
      SettledBlocks(st.size, sectors, x, Parent) && SettledBlocks(st.size, sectors, x, FileName)
  }

  /** No attribute is made up.  */
  lemma {:induction false} FieldIsGiven(events: seq<Event>, i: Inode, f: Field)
    ensures Given(events, i, f, FieldOf(Get(Run(map[], events), i).row, f))
  {
    if events != [] {
      var init, last := events[..|events| - 1], events[|events| - 1];
      assert events == init + [last];
      FieldIsGiven(init, i, f);
      assert last in events;
    }
  }

  lemma NamedIsClaimed(events: seq<Event>, x: Inode, y: Inode, name: Name)
    requires Named(RowsOf(Run(map[], events)), x, y, name)
    ensures Claimed(events, x, y, name)
  {
    hide Given, Run;
    FieldIsGiven(events, x, Parent);
    FieldIsGiven(events, x, FileName);
  }

  lemma SettledRow(st: Status, s: seq<Sector>, t: seq<Sector>, x: Inode)
    requires Fits(st) && ReadsTheSame(st, s) && Permuted(t, s)
    requires SettledBlocks(st.size, s, x, Parent) && SettledBlocks(st.size, s, x, FileName)
    ensures StreamFits(st, s) && StreamFits(st, t)
    ensures var v, u := Get(Recovered(st, s), x).row, Get(Recovered(st, t), x).row;
            v.parentId == u.parentId && v.name == u.name
  {
    hide SettledBlocks, ReadsTheSame, Permuted;
    BlockOrderIndependence(st, s, x, Parent);
    BlockOrderIndependence(st, s, x, FileName);
    assert RecoveredField(st, t, x, Parent) == RecoveredField(st, s, x, Parent);
    assert RecoveredField(st, t, x, FileName) == RecoveredField(st, s, x, FileName);
  }

  /** In another order, the same inodes bear the next part of a settled path.  */
  lemma BearersInAnyOrder(st: Status, s: seq<Sector>, t: seq<Sector>, d: Inode, parts: seq<Name>, k: nat)
    requires Fits(st) && ReadsTheSame(st, s) && Permuted(t, s) && StreamFits(st, s) && StreamFits(st, t)
    requires PathSettled(st, s, d, parts) && 0 < k <= |parts|
    ensures SameBearers(RowsOf(Recovered(st, s)), RowsOf(Recovered(st, t)), d, parts[..k])
  {
    var rows, rows', init, name := RowsOf(Recovered(st, s)), RowsOf(Recovered(st, t)), parts[..k - 1], parts[k - 1];
    assert parts[..k][..k - 1] == init && parts[..k][k - 1] == name;
    SameAndAlike(st, s, t);
    forall x, y | Spells(rows, d, init, y) ensures Named(rows, x, y, name) <==> Named(rows', x, y, name) {
      if Claimed(StreamEvents(st, s), x, y, name) {
        assert SettledBlocks(st.size, s, x, Parent) && SettledBlocks(st.size, s, x, FileName);
      }
      hide PathSettled, Permuted, ReadsTheSame, StreamFits, SettledBlocks, Spells, Claimed, Named;
      SameName(st, s, t, x, y, name);
    }
  }

  lemma SameName(st: Status, s: seq<Sector>, t: seq<Sector>, x: Inode, y: Inode, name: Name)
    requires Fits(st) && ReadsTheSame(st, s) && Permuted(t, s) && StreamFits(st, s) && StreamFits(st, t)
    requires Claimed(StreamEvents(st, s), x, y, name) ==>
               SettledBlocks(st.size, s, x, Parent) && SettledBlocks(st.size, s, x, FileName)
    ensures Named(RowsOf(Recovered(st, s)), x, y, name) <==> Named(RowsOf(Recovered(st, t)), x, y, name)
  {
    SameAndAlike(st, s, t);
    SameClaims(StreamEvents(st, s), StreamEvents(st, t));
    hide Permuted, ReadsTheSame, StreamFits, SettledBlocks, Claimed;
    if Claimed(StreamEvents(st, s), x, y, name) {
      SettledRow(st, s, t, x);
    } else {
      if Named(RowsOf(Recovered(st, s)), x, y, name) { NamedIsClaimed(StreamEvents(st, s), x, y, name); }
      if Named(RowsOf(Recovered(st, t)), x, y, name) { NamedIsClaimed(StreamEvents(st, t), x, y, name); }
    }
  }

  lemma SameAndAlike(st: Status, s: seq<Sector>, t: seq<Sector>)
    requires Fits(st) && ReadsTheSame(st, s) && Permuted(t, s)
    ensures StreamFits(st, s) && StreamFits(st, t) && Recovered(st, t).Keys == Recovered(st, s).Keys
    ensures StreamEvents(st, s) == FlatMap(s, EventsIn(st.size))
    ensures Permuted(StreamEvents(st, t), StreamEvents(st, s))
  {
    SameIsAlike(st, s);
    SameInOrder(st, s, s);
    hide ReadsTheSame, ReadsAlike, StreamEvents, StreamFits;
    ArrivalOrderDoesNotMatter(st, s, t);
  }

  lemma SameClaims(s: seq<Event>, t: seq<Event>)
    requires Permuted(t, s)
    ensures forall x, y, name :: Claimed(s, x, y, name) <==> Claimed(t, x, y, name)
  {
    PermutedElements(t, s);
  }

  /** A settled path leads to the same inodes whatever the order of the blocks, and it is unambiguous in
      every order or in none.  */
  lemma PathsInAnyOrder(st: Status, s: seq<Sector>, t: seq<Sector>, d: Inode, parts: seq<Name>)
    requires Fits(st) && ReadsTheSame(st, s) && Permuted(t, s) && StreamFits(st, s)
    requires PathSettled(st, s, d, parts)
    ensures StreamFits(st, t)
    ensures var before, after := RowsOf(Recovered(st, s)), RowsOf(Recovered(st, t));
            && (forall x :: Spells(before, d, parts, x) <==> Spells(after, d, parts, x))
            && (UniqueAlong(before, d, parts) <==> UniqueAlong(after, d, parts))
  {
    hide PathSettled, Permuted, ReadsTheSame, StreamFits, SameBearers;
    SameAndAlike(st, s, t);
    forall k | 0 < k <= |parts|
      ensures SameBearers(RowsOf(Recovered(st, s)), RowsOf(Recovered(st, t)), d, parts[..k])
    {
      BearersInAnyOrder(st, s, t, d, parts, k);
    }
    SameBearersSamePaths(RowsOf(Recovered(st, s)), RowsOf(Recovered(st, t)), d, parts);
  }
}

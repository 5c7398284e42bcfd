/** The directory tree that the rows span, its recursive walk, and path resolution.  */
module Tree {
  import opened Seqs
  import opened Merge

  type Rows = map<Inode, Row>

  const NO_INODE: Inode := 0
  const ROOT_DIR: Inode := 2

  /** The walk goes from d to c: c's row names d as parent, c is not d itself, and d is not inode 0.  */
  predicate ChildOf(rows: Rows, c: Inode, d: Inode) {
    c in rows && rows[c].parentId == d && c != d && d != NO_INODE
  }

  /** Every inode has one row and so at most one parent: d is the n-th ancestor of x.  */
  predicate Ancestor(rows: Rows, d: Inode, x: Inode, n: nat)
    decreases n
  {
    if n == 0 then d == x
    else x in rows && ChildOf(rows, x, rows[x].parentId) && Ancestor(rows, d, rows[x].parentId, n - 1)
  }

  /** Child links lead from d to x.  */
  ghost predicate Reaches(rows: Rows, d: Inode, x: Inode) {
    exists n :: Ancestor(rows, d, x, n)
  }

  /** d lies on a parent cycle, necessarily of two or more inodes, that avoids inode 0.  */
  ghost predicate OnCycle(rows: Rows, d: Inode) {
    exists n: nat :: n > 0 && Ancestor(rows, d, d, n)
  }

  // ----- Ancestors

  lemma {:induction false} AncestorsCompose(rows: Rows, e: Inode, d: Inode, x: Inode, m: nat, n: nat)
    requires Ancestor(rows, d, x, m) && Ancestor(rows, e, d, n)
    ensures Ancestor(rows, e, x, m + n)
    decreases m
  {
    if m > 0 {
      AncestorsCompose(rows, e, d, rows[x].parentId, m - 1, n);
    }
  }

  /** Two ancestors of the same inode lie on one line.  */
  lemma {:induction false} AncestorsAreLinear(rows: Rows, e: Inode, d: Inode, x: Inode, m: nat, n: nat)
    requires Ancestor(rows, d, x, m) && Ancestor(rows, e, x, n) && m <= n
    ensures Ancestor(rows, e, d, n - m)
    decreases m
  {
    if m > 0 {
      AncestorsAreLinear(rows, e, d, rows[x].parentId, m - 1, n - 1);
    }
  }

  lemma ChildIsAncestor(rows: Rows, c: Inode, d: Inode)
    requires ChildOf(rows, c, d)
    ensures Ancestor(rows, d, c, 1)
  {
    assert Ancestor(rows, d, d, 0);
  }

  lemma ReachesStep(rows: Rows, d: Inode, c: Inode, x: Inode)
    requires ChildOf(rows, c, d) && Reaches(rows, c, x)
    ensures Reaches(rows, d, x)
  {
    var n :| Ancestor(rows, c, x, n);
    ChildIsAncestor(rows, c, d);
    AncestorsCompose(rows, d, c, x, n, 1);
  }

  /** Whatever is reached from d, other than d, is reached from one of its children.  */
  lemma {:induction false} ReachesSplit(rows: Rows, d: Inode, x: Inode, n: nat) returns (c: Inode)
    requires Ancestor(rows, d, x, n) && n > 0
    ensures ChildOf(rows, c, d) && Ancestor(rows, c, x, n - 1)
    decreases n
  {
    if n == 1 {
      c := x;
    } else {
      c := ReachesSplit(rows, d, rows[x].parentId, n - 1);
    }
  }

  lemma ChildReachingParentIsCycle(rows: Rows, d: Inode, c: Inode)
    requires ChildOf(rows, c, d) && Reaches(rows, c, d)
    ensures OnCycle(rows, d)
  {
    var n :| Ancestor(rows, c, d, n);
    ChildIsAncestor(rows, c, d);
    AncestorsCompose(rows, d, c, d, n, 1);
  }

  /** A child of an inode off every cycle is off every cycle.  */
  lemma ChildOffCycle(rows: Rows, d: Inode, c: Inode)
    requires ChildOf(rows, c, d) && OnCycle(rows, c)
    ensures OnCycle(rows, d)
  {
    var n :| n > 0 && Ancestor(rows, c, c, n);
    ChildIsAncestor(rows, c, d);
    AncestorsAreLinear(rows, c, d, c, 1, n);
    ChildReachingParentIsCycle(rows, d, c);
  }

  /** An inode on a cycle has a child on the cycle.  */
  lemma CycleHasChild(rows: Rows, d: Inode) returns (c: Inode)
    requires OnCycle(rows, d)
    ensures ChildOf(rows, c, d) && d in rows && OnCycle(rows, c)
  {
    var n :| n > 0 && Ancestor(rows, d, d, n);
    c := ReachesSplit(rows, d, d, n);
    ChildIsAncestor(rows, c, d);
    AncestorsCompose(rows, c, d, c, 1, n - 1);
  }

  // ----- Subtrees

  /** The inodes with a row that the walk from d arrives at.  */
  ghost function Subtree(rows: Rows, d: Inode): set<Inode> {
    set x | x in rows && Reaches(rows, d, x)
  }

  lemma SubtreeShrinks(rows: Rows, d: Inode, c: Inode)
    requires d in rows && ChildOf(rows, c, d) && !OnCycle(rows, d)
    ensures Subtree(rows, c) < Subtree(rows, d)
  {
    forall x | x in Subtree(rows, c) ensures x in Subtree(rows, d) {
      ReachesStep(rows, d, c, x);
    }
    assert Ancestor(rows, d, d, 0);
    assert d in Subtree(rows, d);
    if d in Subtree(rows, c) {
      ChildReachingParentIsCycle(rows, d, c);
    }
  }

  /** Children of an inode off every cycle have disjoint subtrees.  */
  lemma SiblingsAreDisjoint(rows: Rows, d: Inode, c: Inode, c': Inode, x: Inode)
    requires !OnCycle(rows, d) && ChildOf(rows, c, d) && ChildOf(rows, c', d) && c != c'
    ensures !(Reaches(rows, c, x) && Reaches(rows, c', x))
  {
    if Reaches(rows, c, x) && Reaches(rows, c', x) {
      var m: nat :| Ancestor(rows, c, x, m);
      var n: nat :| Ancestor(rows, c', x, n);
      if m < n {
        OneLine(rows, d, c, c', x, m, n);
      } else if n < m {
        OneLine(rows, d, c', c, x, n, m);
      } else {
        AncestorsAreLinear(rows, c', c, x, m, n);
      }
    }
  }

  lemma OneLine(rows: Rows, d: Inode, c: Inode, c': Inode, x: Inode, m: nat, n: nat)
    requires ChildOf(rows, c, d) && ChildOf(rows, c', d)
    requires Ancestor(rows, c, x, m) && Ancestor(rows, c', x, n) && m < n
    ensures OnCycle(rows, d)
  {
    AncestorsAreLinear(rows, c', c, x, m, n);
    ChildReachingParentIsCycle(rows, d, c');
  }

  // ----- Exactly when the walk halts

  /** The walk from d needs at most n nested calls.  */
  ghost predicate HaltsWithin(rows: Rows, d: Inode, n: nat)
    decreases n
  {
    n > 0 && (d !in rows || forall c :: ChildOf(rows, c, d) ==> HaltsWithin(rows, c, n - 1))
  }

  ghost predicate Halts(rows: Rows, d: Inode) {
    exists n :: HaltsWithin(rows, d, n)
  }

  lemma {:induction false} CycleNeverHalts(rows: Rows, d: Inode, n: nat)
    requires OnCycle(rows, d)
    ensures !HaltsWithin(rows, d, n)
    decreases n
  {
    var c := CycleHasChild(rows, d);
    if n > 0 {
      CycleNeverHalts(rows, c, n - 1);
    }
  }

  lemma {:induction false} OffCycleHalts(rows: Rows, d: Inode)
    requires !OnCycle(rows, d)
    ensures HaltsWithin(rows, d, |Subtree(rows, d)| + 1)
    decreases Subtree(rows, d)
  {
    if d in rows {
      forall c | ChildOf(rows, c, d) ensures HaltsWithin(rows, c, |Subtree(rows, d)|) {
        SubtreeShrinks(rows, d, c);
        if OnCycle(rows, c) { ChildOffCycle(rows, d, c); }
        OffCycleHalts(rows, c);
        SmallerSet(Subtree(rows, c), Subtree(rows, d));
        MoreCalls(rows, c, |Subtree(rows, c)| + 1, |Subtree(rows, d)|);
      }
    }
  }

  lemma SmallerSet(a: set<Inode>, b: set<Inode>)
    requires a < b
    ensures |a| < |b|
  {
    assert b == a + (b - a) && b - a != {};
  }

  lemma {:induction false} MoreCalls(rows: Rows, d: Inode, m: nat, n: nat)
    requires HaltsWithin(rows, d, m) && m <= n
    ensures HaltsWithin(rows, d, n)
    decreases m
  {
    if d in rows {
      forall c | ChildOf(rows, c, d) ensures HaltsWithin(rows, c, n - 1) {
        MoreCalls(rows, c, m - 1, n - 1);
      }
    }
  }

  /** Without a visited set, the walk from d halts exactly when d is not on a parent cycle itself; cycles
      elsewhere do no harm.  */
  lemma WalkHaltsIffOffCycle(rows: Rows, d: Inode)
    ensures Halts(rows, d) <==> !OnCycle(rows, d)
  {
    if OnCycle(rows, d) {
      forall n: nat ensures !HaltsWithin(rows, d, n) { CycleNeverHalts(rows, d, n); }
    } else {
      OffCycleHalts(rows, d);
    }
  }

  // ----- Paths

  /** x's row says it is the entry of that name under d.  */
  predicate Named(rows: Rows, x: Inode, d: Inode, name: Name) {
    x in rows && rows[x].parentId == d && rows[x].name == name
  }

  /** The parts lead from inode d to x, each part naming the next inode under the one before.  */
  ghost predicate Spells(rows: Rows, d: Inode, parts: seq<Name>, x: Inode) {
    if parts == [] then d == x
    else
      var init, last := parts[..|parts| - 1], parts[|parts| - 1];
      exists y :: Spells(rows, d, init, y) && Named(rows, x, y, last)
  }

  /** Under what a prefix of the parts leads to, the next part names at most one inode.  */
  ghost predicate UniqueAlong(rows: Rows, d: Inode, parts: seq<Name>) {
    parts == [] ||
    (UniqueAlong(rows, d, parts[..|parts| - 1]) && UniqueStep(rows, d, parts[..|parts| - 1], parts[|parts| - 1]))
  }

  ghost predicate UniqueStep(rows: Rows, d: Inode, init: seq<Name>, last: Name) {
    forall x, y, z :: Spells(rows, d, init, z) && Named(rows, x, z, last) && Named(rows, y, z, last) ==> x == y
  }

  ghost predicate AtMostOne(rows: Rows, d: Inode, parts: seq<Name>) {
    forall x, y :: Spells(rows, d, parts, x) && Spells(rows, d, parts, y) ==> x == y
  }

  /** Names are unique along a path exactly when each of its prefixes leads to at most one inode.  */
  lemma {:induction false} PathsAreUnambiguous(rows: Rows, d: Inode, parts: seq<Name>)
    ensures UniqueAlong(rows, d, parts) <==> forall k :: 0 <= k <= |parts| ==> AtMostOne(rows, d, parts[..k])
  {
    hide UniqueStep, AtMostOne;
    assert parts[..|parts|] == parts;
    if parts == [] {
      OnlyTheStart(rows, d);
    } else {
      var n := |parts| - 1;
      PathsAreUnambiguous(rows, d, parts[..n]);
      assert forall k :: 0 <= k <= n ==> parts[..n][..k] == parts[..k];
      if AtMostOne(rows, d, parts[..n]) { OneMorePart(rows, d, parts); }
    }
  }

  lemma OnlyTheStart(rows: Rows, d: Inode)
    ensures AtMostOne(rows, d, [])
  {
  }

  lemma OneMorePart(rows: Rows, d: Inode, parts: seq<Name>)
    requires parts != [] && AtMostOne(rows, d, parts[..|parts| - 1])
    ensures AtMostOne(rows, d, parts) <==> UniqueStep(rows, d, parts[..|parts| - 1], parts[|parts| - 1])
  {
    var init, last := parts[..|parts| - 1], parts[|parts| - 1];
    if UniqueStep(rows, d, init, last) {
      forall x, y | Spells(rows, d, parts, x) && Spells(rows, d, parts, y) ensures x == y {
        var a :| Spells(rows, d, init, a) && Named(rows, x, a, last);
        var b :| Spells(rows, d, init, b) && Named(rows, y, b, last);
      }
    } else {
      var x, y, z :| Spells(rows, d, init, z) && Named(rows, x, z, last) && Named(rows, y, z, last) && x != y;
      assert Spells(rows, d, parts, x) && Spells(rows, d, parts, y);
    }
  }

  predicate DistinctSiblings(rows: Rows) {
    forall x, y :: x in rows && y in rows && x != y ==>
      rows[x].parentId != rows[y].parentId || rows[x].name != rows[y].name
  }

  lemma {:induction false} DistinctSiblingsAreUnique(rows: Rows, d: Inode, parts: seq<Name>)
    requires DistinctSiblings(rows)
    ensures UniqueAlong(rows, d, parts)
  {
    if parts != [] {
      DistinctSiblingsAreUnique(rows, d, parts[..|parts| - 1]);
    }
  }

  /** Under whatever the parts but the last lead to, the tables agree on who bears the last.  */
  ghost predicate SameBearers(rows: Rows, rows': Rows, d: Inode, parts: seq<Name>)
    requires parts != []
  {
    var init, last := parts[..|parts| - 1], parts[|parts| - 1];
    forall x, y :: Spells(rows, d, init, y) ==> (Named(rows, x, y, last) <==> Named(rows', x, y, last))
  }

  /** If so for every prefix of a path, it leads to the same inodes in both.  */
  lemma {:induction false} SameBearersSamePaths(rows: Rows, rows': Rows, d: Inode, parts: seq<Name>)
    requires forall k :: 0 < k <= |parts| ==> SameBearers(rows, rows', d, parts[..k])
    ensures forall x :: Spells(rows, d, parts, x) <==> Spells(rows', d, parts, x)
    ensures UniqueAlong(rows, d, parts) <==> UniqueAlong(rows', d, parts)
  {
    if parts != [] {
      var init := parts[..|parts| - 1];
      forall k | 0 < k <= |init| ensures SameBearers(rows, rows', d, init[..k]) {
        assert init[..k] == parts[..k];
      }
      SameBearersSamePaths(rows, rows', d, init);
      assert parts[..|parts|] == parts;
    }
  }

  /** The names along the n parent links from x up to d, topmost first.  */
  function NamesUp(rows: Rows, d: Inode, x: Inode, n: nat): seq<Name>
    requires Ancestor(rows, d, x, n)
    decreases n
  {
    if n == 0 then [] else NamesUp(rows, d, rows[x].parentId, n - 1) + [rows[x].name]
  }

  /** Naming an inode along its parent chain spells a path to it.  */
  lemma {:induction false} NamesSpellThePath(rows: Rows, d: Inode, x: Inode, n: nat)
    requires Ancestor(rows, d, x, n)
    ensures Spells(rows, d, NamesUp(rows, d, x, n), x)
    decreases n
  {
    if n > 0 {
      var y := rows[x].parentId;
      NamesSpellThePath(rows, d, y, n - 1);
      var names := NamesUp(rows, d, x, n);
      assert names[..|names| - 1] == NamesUp(rows, d, y, n - 1);
      assert Named(rows, x, y, names[|names| - 1]);
    }
  }

  lemma NoParts(rows: Rows, d: Inode, parts: seq<Name>)
    ensures Spells(rows, d, parts[..0], d)
  {
  }

  lemma SpellsOneMore(rows: Rows, d: Inode, parts: seq<Name>, k: nat, y: Inode, x: Inode)
    requires k < |parts| && Spells(rows, d, parts[..k], y) && Named(rows, x, y, parts[k])
    ensures Spells(rows, d, parts[..k + 1], x)
  {
    assert parts[..k + 1][..k] == parts[..k];
  }

  /** A prefix of a path leads somewhere, one part above what the next part leads to.  */
  lemma {:induction false} SpelledPrefix(rows: Rows, d: Inode, parts: seq<Name>, x: Inode, k: nat) returns (y: Inode)
    requires Spells(rows, d, parts, x) && 0 < k <= |parts|
    ensures Spells(rows, d, parts[..k], y)
    ensures var above, part := parts[..k - 1], parts[k - 1];
            exists z :: Spells(rows, d, above, z) && Named(rows, y, z, part)
  {
    var init, last := parts[..|parts| - 1], parts[|parts| - 1];
    if k == |parts| {
      y := x;
      assert parts[..k] == parts && parts[..k - 1] == init;
    } else {
      var z :| Spells(rows, d, init, z) && Named(rows, x, z, last);
      y := SpelledPrefix(rows, d, init, z, k);
      assert init[..k] == parts[..k] && init[..k - 1] == parts[..k - 1];
    }
  }

  /** Some inode that a prefix of the parts leads to has nothing of the next name below it.  */
  ghost predicate DeadEnd(rows: Rows, d: Inode, parts: seq<Name>) {
    exists k, y :: 0 <= k < |parts| && Spells(rows, d, parts[..k], y) && Nobody(rows, y, parts[k])
  }

  predicate Nobody(rows: Rows, y: Inode, name: Name) {
    forall i :: i in rows ==> !Named(rows, i, y, name)
  }

  /** With names unique along the path, a dead end means that it leads nowhere.  */
  lemma DeadEndsTheSearch(rows: Rows, d: Inode, parts: seq<Name>)
    requires DeadEnd(rows, d, parts) && UniqueAlong(rows, d, parts)
    ensures forall x :: !Spells(rows, d, parts, x)
  {
    var k, above :| 0 <= k < |parts| && Spells(rows, d, parts[..k], above) && Nobody(rows, above, parts[k]);
    hide Spells;
    PathsAreUnambiguous(rows, d, parts);
    forall x | Spells(rows, d, parts, x) ensures false {
      var y := SpelledPrefix(rows, d, parts, x, k + 1);
    }
  }

  lemma FoundIsTheOnlyOne(rows: Rows, d: Inode, parts: seq<Name>, x: Inode)
    requires Spells(rows, d, parts, x)
    ensures UniqueAlong(rows, d, parts) ==> forall y :: Spells(rows, d, parts, y) ==> x == y
  {
    hide Spells;
    PathsAreUnambiguous(rows, d, parts);
    assert parts[..|parts|] == parts;
  }

  // ----- The visited sequence

  /** Every visited inode but the first comes after its parent.  */
  ghost predicate ParentsFirst(rows: Rows, visited: seq<Inode>) {
    forall k :: 0 < k < |visited| ==> visited[k] in rows && rows[visited[k]].parentId in visited[..k]
  }

  /** Depth first: between an inode and one below it there are only inodes below it.  */
  ghost predicate DepthFirst(rows: Rows, visited: seq<Inode>) {
    forall i, j, k :: 0 <= i < j < k < |visited| && visited[k] in Subtree(rows, visited[i]) ==>
      visited[j] in Subtree(rows, visited[i])
  }

  /** The walk's outcome: d first, depth first, parents before children, and every inode with a row that child
      links lead to, other than inode 0, exactly once.  */
  ghost predicate IsWalk(rows: Rows, d: Inode, visited: seq<Inode>) {
    && |visited| > 0 && visited[0] == d
    && NoDup(visited) && ParentsFirst(rows, visited) && DepthFirst(rows, visited)
    && forall x :: x in visited <==> x != NO_INODE && x in Subtree(rows, d)
  }

  /** The same halfway, after the subtrees of some of d's children.  */
  ghost predicate Walked(rows: Rows, d: Inode, ids: seq<Inode>, visited: seq<Inode>) {
    && |visited| > 0 && visited[0] == d
    && NoDup(visited) && ParentsFirst(rows, visited) && DepthFirst(rows, visited)
    && forall x :: x in visited <==> x != NO_INODE && (x == d || InSubtrees(rows, d, ids, x))
  }

  /** Child links lead to x from one of the ids other than d.  */
  ghost predicate InSubtrees(rows: Rows, d: Inode, ids: seq<Inode>, x: Inode) {
    exists c :: c in ids && c != d && x in Subtree(rows, c)
  }

  /** The children of d, listed with d's own row should it be its own parent.  */
  ghost predicate Children(rows: Rows, d: Inode, ids: seq<Inode>) {
    forall i :: i in ids <==> i in rows && rows[i].parentId == d
  }

  lemma SubtreeIsUnion(rows: Rows, d: Inode, ids: seq<Inode>)
    requires d in rows && d != NO_INODE && Children(rows, d, ids)
    ensures forall x :: x in Subtree(rows, d) <==> x == d || InSubtrees(rows, d, ids, x)
  {
    assert Ancestor(rows, d, d, 0);
    forall x ensures x in Subtree(rows, d) <==> x == d || InSubtrees(rows, d, ids, x) {
      if x in Subtree(rows, d) && x != d {
        var n: nat :| Ancestor(rows, d, x, n);
        var c := ReachesSplit(rows, d, x, n);
        assert Reaches(rows, c, x);
      }
      if InSubtrees(rows, d, ids, x) {
        var c :| c in ids && c != d && x in Subtree(rows, c);
        ReachesStep(rows, d, c, x);
      }
    }
  }

  lemma WalkStart(rows: Rows, d: Inode)
    requires d != NO_INODE
    ensures Walked(rows, d, [], [d])
  {
  }

  lemma WalkEnds(rows: Rows, d: Inode, ids: seq<Inode>, visited: seq<Inode>)
    requires d in rows && d != NO_INODE && Children(rows, d, ids) && Walked(rows, d, ids, visited)
    ensures IsWalk(rows, d, visited)
  {
    SubtreeIsUnion(rows, d, ids);
  }

  lemma WalkSkips(rows: Rows, d: Inode, ids: seq<Inode>, k: nat, visited: seq<Inode>)
    requires k < |ids| && ids[k] == d && Walked(rows, d, ids[..k], visited)
    ensures Walked(rows, d, ids[..k + 1], visited)
  {
    forall x ensures InSubtrees(rows, d, ids[..k + 1], x) <==> InSubtrees(rows, d, ids[..k], x) {
      MoreSubtrees(rows, d, ids, k, x);
    }
  }

  lemma MoreSubtrees(rows: Rows, d: Inode, ids: seq<Inode>, k: nat, x: Inode)
    requires k < |ids|
    ensures InSubtrees(rows, d, ids[..k + 1], x)
       <==> InSubtrees(rows, d, ids[..k], x) || (ids[k] != d && x in Subtree(rows, ids[k]))
  {
    assert ids[..k + 1] == ids[..k] + [ids[k]];
  }

  /** Appending the walk of one more child.  */
  lemma WalkAppends(rows: Rows, d: Inode, ids: seq<Inode>, k: nat, visited: seq<Inode>, sub: seq<Inode>)
    requires d in rows && d != NO_INODE && !OnCycle(rows, d) && Children(rows, d, ids) && NoDup(ids)
    requires k < |ids| && ids[k] != d && Walked(rows, d, ids[..k], visited)
    requires if ids[k] == NO_INODE then sub == [] else IsWalk(rows, ids[k], sub)
    ensures Walked(rows, d, ids[..k + 1], visited + sub)
  {
    var c := ids[k];
    SubtreesAreApart(rows, d, ids, k, visited, sub);
    StaysDepthFirst(rows, d, ids, k, visited, sub);
    forall x ensures x in visited + sub <==> x != NO_INODE && (x == d || InSubtrees(rows, d, ids[..k + 1], x)) {
      MoreSubtrees(rows, d, ids, k, x);
      if c == NO_INODE && x in Subtree(rows, c) && x != NO_INODE {
        var n: nat :| Ancestor(rows, c, x, n);
        var b := ReachesSplit(rows, c, x, n);
      }
    }
  }

  /** It keeps the order depth first: nothing below the new child is below an earlier one.  */
  lemma StaysDepthFirst(rows: Rows, d: Inode, ids: seq<Inode>, k: nat, visited: seq<Inode>, sub: seq<Inode>)
    requires d in rows && d != NO_INODE && !OnCycle(rows, d) && Children(rows, d, ids) && NoDup(ids)
    requires k < |ids| && ids[k] != d && |visited| > 0 && visited[0] == d && NoDup(visited)
    requires DepthFirst(rows, visited) && DepthFirst(rows, sub)
    requires forall x :: x in visited ==> x == d || InSubtrees(rows, d, ids[..k], x)
    requires forall x :: x in sub ==> x in Subtree(rows, ids[k])
    ensures DepthFirst(rows, visited + sub)
  {
    var all, n := visited + sub, |visited|;
    forall h, i, j | 0 <= h < i < j < |all| && all[j] in Subtree(rows, all[h])
      ensures all[i] in Subtree(rows, all[h])
    {
      if h == 0 {
        BelowStart(rows, d, ids, k, all[i], all[i] in visited);
      } else if h < n <= j {
        assert visited[h] in visited && sub[j - n] in sub;
        NotBelowEarlier(rows, d, ids, k, visited[h], sub[j - n]);
      } else if h >= n {
        assert all[h] == sub[h - n] && all[i] == sub[i - n] && all[j] == sub[j - n];
      }
    }
  }

  lemma BelowStart(rows: Rows, d: Inode, ids: seq<Inode>, k: nat, x: Inode, earlier: bool)
    requires d in rows && Children(rows, d, ids) && d != NO_INODE && k < |ids| && ids[k] != d
    requires if earlier then x == d || InSubtrees(rows, d, ids[..k], x) else x in Subtree(rows, ids[k])
    ensures x in Subtree(rows, d)
  {
    assert Ancestor(rows, d, d, 0);
    if x != d || !earlier {
      var c := ids[k];
      if earlier { c :| c in ids[..k] && c != d && x in Subtree(rows, c); }
      assert c in ids;
      ReachesStep(rows, d, c, x);
    }
  }

  lemma NotBelowEarlier(rows: Rows, d: Inode, ids: seq<Inode>, k: nat, x: Inode, y: Inode)
    requires !OnCycle(rows, d) && Children(rows, d, ids) && d != NO_INODE && NoDup(ids)
    requires k < |ids| && ids[k] != d && InSubtrees(rows, d, ids[..k], x) && y in Subtree(rows, ids[k])
    ensures y !in Subtree(rows, x)
  {
    var b :| b in ids[..k] && b != d && x in Subtree(rows, b);
    assert b in ids && b != ids[k];
    if y in Subtree(rows, x) {
      var m: nat :| Ancestor(rows, b, x, m);
      var n: nat :| Ancestor(rows, x, y, n);
      AncestorsCompose(rows, b, x, y, n, m);
      SiblingsAreDisjoint(rows, d, b, ids[k], y);
    }
  }

  /** It keeps the visited inodes distinct and parents first.  */
  lemma SubtreesAreApart(rows: Rows, d: Inode, ids: seq<Inode>, k: nat, visited: seq<Inode>, sub: seq<Inode>)
    requires d in rows && d != NO_INODE && !OnCycle(rows, d) && Children(rows, d, ids) && NoDup(ids)
    requires k < |ids| && ids[k] != d
    requires NoDup(visited) && ParentsFirst(rows, visited) && |visited| > 0 && visited[0] == d
    requires forall x :: x in visited ==> x == d || InSubtrees(rows, d, ids[..k], x)
    requires NoDup(sub) && ParentsFirst(rows, sub) && (sub != [] ==> sub[0] == ids[k])
    requires forall x :: x in sub ==> x in Subtree(rows, ids[k])
    ensures NoDup(visited + sub) && ParentsFirst(rows, visited + sub)
  {
    var c := ids[k];
    assert c in ids && ChildOf(rows, c, d);
    forall x | x in visited && x in sub ensures false {
      if x == d {
        ChildReachingParentIsCycle(rows, d, c);
      } else {
        var b :| b in ids[..k] && b != d && x in Subtree(rows, b);
        assert b in ids && b != c;
        SiblingsAreDisjoint(rows, d, b, c, x);
      }
    }
    var all := visited + sub;
    forall i, j | 0 <= i < j < |all| ensures all[i] != all[j] {
      if i < |visited| <= j {
        assert all[i] in visited && all[j] in sub;
      }
    }
    ParentsStayFirst(rows, d, visited, sub);
  }

  lemma ParentsStayFirst(rows: Rows, d: Inode, visited: seq<Inode>, sub: seq<Inode>)
    requires ParentsFirst(rows, visited) && ParentsFirst(rows, sub) && |visited| > 0 && visited[0] == d
    requires sub != [] ==> ChildOf(rows, sub[0], d)
    ensures ParentsFirst(rows, visited + sub)
  {
    var all, n := visited + sub, |visited|;
    forall j | 0 < j < |all| ensures all[j] in rows && rows[all[j]].parentId in all[..j] {
      if j < n {
        assert all[j] == visited[j] && all[..j] == visited[..j];
      } else if j == n {
        assert all[j] == sub[0] && all[..j] == visited;
        assert visited[0] in visited;
      } else {
        assert all[j] == sub[j - n] && all[..j] == visited + sub[..j - n];
      }
    }
  }
}

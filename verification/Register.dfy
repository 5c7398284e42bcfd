/** A versioned register: the last writer among those at least as new as everything accepted before.

    Every attribute of a recovered file is such a register: a record carries a transaction id, may set
    the attribute or leave it, and is ignored when an already accepted record is newer.  */
module Register {
  import opened Wrappers
  import opened Seqs

  datatype Write<T> = Write(xid: nat, value: Option<T>)

  datatype Reg<T> = Reg(version: nat, value: T)

  function Step<T>(r: Reg<T>, w: Option<Write<T>>): Reg<T> {
    if w.Some? && r.version <= w.value.xid
    then Reg(w.value.xid, w.value.value.GetOr(r.value))
    else r
  }

  /** Feed the items, in order; `w` says what an item writes, if anything.  */
  function Run<B, T>(r: Reg<T>, items: seq<B>, w: B -> Option<Write<T>>): Reg<T> {
    if items == [] then r else Step(Run(r, items[..|items| - 1], w), w(items[|items| - 1]))
  }

  /** The greatest transaction id written, 0 if there is none.  */
  function Newest<B, T>(items: seq<B>, w: B -> Option<Write<T>>): nat {
    if items == [] then 0
    else
      var v, last := Newest(items[..|items| - 1], w), w(items[|items| - 1]);
      if last.Some? && v < last.value.xid then last.value.xid else v
  }

  predicate Writes<B, T>(x: B, w: B -> Option<Write<T>>) { w(x).Some? }

  predicate Sets<B, T>(x: B, w: B -> Option<Write<T>>) { w(x).Some? && w(x).value.value.Some? }

  lemma {:induction false} NewestIsMaximum<B, T>(items: seq<B>, w: B -> Option<Write<T>>)
    ensures forall x :: x in items && Writes(x, w) ==> w(x).value.xid <= Newest(items, w)
    ensures Newest(items, w) == 0 || exists x :: x in items && Writes(x, w) && w(x).value.xid == Newest(items, w)
  {
    if items != [] {
      var init, last := items[..|items| - 1], items[|items| - 1];
      assert items == init + [last];
      NewestIsMaximum(init, w);
      if Newest(items, w) != 0 {
        if Newest(items, w) != Newest(init, w) {
          assert last in items && Writes(last, w) && w(last).value.xid == Newest(items, w);
        }
      }
    }
  }

  lemma NewestPermuted<B, T>(s: seq<B>, t: seq<B>, w: B -> Option<Write<T>>)
    requires Permuted(s, t)
    ensures Newest(s, w) == Newest(t, w)
  {
    PermutedElements(s, t);
    NewestIsMaximum(s, w);
    NewestIsMaximum(t, w);
  }

  /** The version is the newest transaction id seen, whatever the order.  */
  lemma {:induction false} VersionIsNewest<B, T>(r: Reg<T>, items: seq<B>, w: B -> Option<Write<T>>)
    requires r.version == 0
    ensures Run(r, items, w).version == Newest(items, w)
  {
    if items != [] {
      VersionIsNewest(r, items[..|items| - 1], w);
    }
  }

  lemma {:induction false} RunConcat<B, T>(r: Reg<T>, s: seq<B>, t: seq<B>, w: B -> Option<Write<T>>)
    ensures Run(r, s + t, w) == Run(Run(r, s, w), t, w)
  {
    if t == [] {
      assert s + t == s;
    } else {
      assert (s + t)[..|s + t| - 1] == s + t[..|t| - 1];
      RunConcat(r, s, t[..|t| - 1], w);
    }
  }

  // ----- Stale writes

  /** The items that are at least as new as everything before them.  */
  function Kept<B, T>(items: seq<B>, w: B -> Option<Write<T>>): seq<B> {
    if items == [] then []
    else
      var init, last := items[..|items| - 1], items[|items| - 1];
      Kept(init, w) + (if w(last).Some? && Newest(init, w) <= w(last).value.xid then [last] else [])
  }

  /** What the register holds is decided by the kept writes alone, each of them taken at face value.  */
  function LastSet<B, T>(items: seq<B>, w: B -> Option<Write<T>>, init: T): T {
    if items == [] then init
    else
      var last := w(items[|items| - 1]);
      if last.Some? && last.value.value.Some? then last.value.value.value
      else LastSet(items[..|items| - 1], w, init)
  }

  lemma {:induction false} ValueIsLastKept<B, T>(r: Reg<T>, items: seq<B>, w: B -> Option<Write<T>>)
    requires r.version == 0
    ensures Run(r, items, w).value == LastSet(Kept(items, w), w, r.value)
  {
    if items != [] {
      var init, last := items[..|items| - 1], items[|items| - 1];
      ValueIsLastKept(r, init, w);
      VersionIsNewest(r, init, w);
      assert (Kept(init, w) + [last])[..|Kept(init, w)|] == Kept(init, w);
      assert Kept(init, w) + [] == Kept(init, w);
    }
  }

  /** Deleting a stale item changes nothing.  */
  lemma StaleItemIsInvisible<B, T>(r: Reg<T>, s: seq<B>, x: B, t: seq<B>, w: B -> Option<Write<T>>)
    requires r.version == 0
    requires w(x).Some? ==> w(x).value.xid < Newest(s, w)
    ensures Run(r, s + [x] + t, w) == Run(r, s + t, w)
  {
    VersionIsNewest(r, s, w);
    assert (s + [x])[..|s|] == s;
    RunConcat(r, s + [x], t, w);
    RunConcat(r, s, t, w);
  }

  // ----- Arrival order

  predicate SetsNewest<B, T>(items: seq<B>, x: B, w: B -> Option<Write<T>>) {
    Sets(x, w) && w(x).value.xid == Newest(items, w)
  }

  /** The items that set the value at the newest transaction agree; and when there are none, every older
      setter writes the initial value anyway.  */
  ghost predicate Settled<B, T>(items: seq<B>, w: B -> Option<Write<T>>, init: T) {
    && (forall x, y :: x in items && y in items && SetsNewest(items, x, w) && SetsNewest(items, y, w) ==>
          w(x).value.value == w(y).value.value)
    && ((exists x :: x in items && SetsNewest(items, x, w))
        || forall x :: x in items && Sets(x, w) ==> w(x).value.value.value == init)
  }

  /** A value set at the newest transaction, without dissent there, is the final one.  */
  lemma {:induction false} NewestSetterWins<B, T>(r: Reg<T>, items: seq<B>, w: B -> Option<Write<T>>, x: B)
    requires r.version == 0
    requires x in items && SetsNewest(items, x, w)
    requires forall y :: y in items && SetsNewest(items, y, w) ==> w(y).value.value == w(x).value.value
    ensures Run(r, items, w).value == w(x).value.value.value
  {
    var init, last := items[..|items| - 1], items[|items| - 1];
    assert items == init + [last];
    NewestIsMaximum(items, w);
    VersionIsNewest(r, init, w);
    if SetsNewest(items, last, w) {
      assert last in items;
    } else {
      assert x in init;
      NewestIsMaximum(init, w);
      NewestSetterWins(r, init, w, x);
    }
  }

  lemma {:induction false} OnlyInitialValues<B, T>(r: Reg<T>, items: seq<B>, w: B -> Option<Write<T>>)
    requires forall x :: x in items && Sets(x, w) ==> w(x).value.value.value == r.value
    ensures Run(r, items, w).value == r.value
  {
    if items != [] {
      var init, last := items[..|items| - 1], items[|items| - 1];
      assert items == init + [last];
      OnlyInitialValues(r, init, w);
      assert last in items;
    }
  }

  /** Once the register is at the newest version, items that do not set the value there leave it alone.  */
  lemma {:induction false} NothingNewer<B, T>(r: Reg<T>, items: seq<B>, w: B -> Option<Write<T>>)
    requires forall x :: x in items && Writes(x, w) ==>
               w(x).value.xid < r.version || (w(x).value.xid == r.version && w(x).value.value.None?)
    ensures Run(r, items, w) == r
  {
    if items != [] {
      var init, last := items[..|items| - 1], items[|items| - 1];
      assert items == init + [last];
      NothingNewer(r, init, w);
      assert last in items;
    }
  }

  lemma SettledIsEnough<B, T>(r: Reg<T>, s: seq<B>, t: seq<B>, w: B -> Option<Write<T>>)
    requires r.version == 0
    requires Settled(s, w, r.value) && Permuted(s, t)
    ensures Run(r, s, w).value == Run(r, t, w).value
  {
    PermutedElements(s, t);
    NewestPermuted(s, t, w);
    if x :| x in s && SetsNewest(s, x, w) {
      NewestSetterWins(r, s, w, x);
      NewestSetterWins(r, t, w, x);
    } else {
      OnlyInitialValues(r, s, w);
      OnlyInitialValues(r, t, w);
    }
  }

  /** Moving an item that sets the value at the newest transaction to the end makes its value final.  */
  lemma MoveToEnd<B, T>(r: Reg<T>, items: seq<B>, w: B -> Option<Write<T>>, k: nat) returns (p: seq<B>)
    requires r.version == 0
    requires k < |items| && SetsNewest(items, items[k], w)
    ensures Permuted(p, items) && Run(r, p, w).value == w(items[k]).value.value.value
  {
    p := Remove(items, k) + [items[k]];
    MultisetRemove(items, k);
    NewestPermuted(p, items, w);
    VersionIsNewest(r, p, w);
    VersionIsNewest(r, Remove(items, k), w);
    assert p[..|p| - 1] == Remove(items, k);
    NewestIsMaximum(items, w);
    NewestIsMaximum(p, w);
  }

  predicate NoneSetsNewest<B, T>(items: seq<B>, w: B -> Option<Write<T>>) {
    forall k :: 0 <= k < |items| ==> !SetsNewest(items, items[k], w)
  }

  lemma OneStep<B, T>(r: Reg<T>, x: B, w: B -> Option<Write<T>>)
    ensures Run(r, [x], w) == Step(r, w(x))
  {
    assert [x][..0] == [];
  }

  /** With no setter at the newest transaction, putting an item of that transaction first makes the initial
      value survive ...  */
  lemma NewestFirst<B, T>(r: Reg<T>, items: seq<B>, w: B -> Option<Write<T>>, t: nat) returns (p: seq<B>)
    requires r.version == 0 && NoneSetsNewest(items, w)
    requires t < |items| && Writes(items[t], w) && w(items[t]).value.xid == Newest(items, w)
    ensures Permuted(p, items) && Run(r, p, w).value == r.value
  {
    NewestIsMaximum(items, w);
    var rest := Remove(items, t);
    MultisetRemove(items, t);
    p := [items[t]] + rest;
    OneStep(r, items[t], w);
    assert !SetsNewest(items, items[t], w);
    RunConcat(r, [items[t]], rest, w);
    assert forall x :: x in rest ==> x in items;
    NothingNewer(Step(r, w(items[t])), rest, w);
  }

  /** ... and putting an older setter before it makes that setter's value survive.  */
  lemma SetterFirst<B, T>(r: Reg<T>, items: seq<B>, w: B -> Option<Write<T>>, t: nat, c: nat) returns (q: seq<B>)
    requires r.version == 0 && NoneSetsNewest(items, w)
    requires t < |items| && Writes(items[t], w) && w(items[t]).value.xid == Newest(items, w)
    requires c < |items| && Sets(items[c], w)
    ensures Permuted(q, items) && Run(r, q, w).value == w(items[c]).value.value.value
  {
    NewestIsMaximum(items, w);
    assert !SetsNewest(items, items[t], w) && c != t;
    var rest := Remove(items, t);
    MultisetRemove(items, t);
    var d := if c < t then c else c - 1;
    assert rest[d] == items[c];
    var others := Remove(rest, d);
    MultisetRemove(rest, d);
    q := [items[c]] + ([items[t]] + others);
    OneStep(r, items[c], w);
    RunConcat(r, [items[c]], [items[t]] + others, w);
    var set1 := Step(r, w(items[c]));
    OneStep(set1, items[t], w);
    RunConcat(set1, [items[t]], others, w);
    assert forall x :: x in others ==> x in rest;
    assert forall x :: x in rest ==> x in items;
    NothingNewer(Step(set1, w(items[t])), others, w);
  }

  lemma UnsettledDepends<B, T>(r: Reg<T>, items: seq<B>, w: B -> Option<Write<T>>) returns (p: seq<B>)
    requires r.version == 0
    requires !Settled(items, w, r.value)
    ensures Permuted(p, items) && Run(r, p, w).value != Run(r, items, w).value
  {
    var q;
    if x, y :| x in items && y in items && SetsNewest(items, x, w) && SetsNewest(items, y, w)
               && w(x).value.value != w(y).value.value {
      var j :| 0 <= j < |items| && items[j] == x;
      var k :| 0 <= k < |items| && items[k] == y;
      p := MoveToEnd(r, items, w, j);
      q := MoveToEnd(r, items, w, k);
    } else {
      var x :| x in items && Sets(x, w) && w(x).value.value.value != r.value;
      var c :| 0 <= c < |items| && items[c] == x;
      NewestIsMaximum(items, w);
      assert Writes(x, w) && !SetsNewest(items, x, w);
      var top :| top in items && Writes(top, w) && w(top).value.xid == Newest(items, w);
      var t :| 0 <= t < |items| && items[t] == top;
      p := NewestFirst(r, items, w, t);
      q := SetterFirst(r, items, w, t, c);
    }
    if Run(r, p, w).value == Run(r, items, w).value {
      p := q;
    }
  }

  /** The final value is the same in every arrival order exactly when the writes are settled.  */
  lemma OrderIndependentIffSettled<B(!new), T>(r: Reg<T>, items: seq<B>, w: B -> Option<Write<T>>)
    requires r.version == 0
    ensures (forall p :: Permuted(p, items) ==> Run(r, p, w).value == Run(r, items, w).value)
       <==> Settled(items, w, r.value)
  {
    if Settled(items, w, r.value) {
      forall p | Permuted(p, items) ensures Run(r, p, w).value == Run(r, items, w).value {
        SettledIsEnough(r, items, p, w);
      }
    } else {
      var p := UnsettledDepends(r, items, w);
    }
  }

  /** Lists that write the same, item by item, have the same newest transaction ...  */
  lemma {:induction false} NewestAlike<B, C, T>(
    s: seq<B>, t: seq<C>, w: B -> Option<Write<T>>, v: C -> Option<Write<T>>)
    requires |s| == |t| && forall k :: 0 <= k < |s| ==> w(s[k]) == v(t[k])
    ensures Newest(s, w) == Newest(t, v)
  {
    if s != [] { NewestAlike(s[..|s| - 1], t[..|t| - 1], w, v); }
  }

  /** ... and are settled alike.  */
  lemma SettledAlike<B, C, T>(
    s: seq<B>, t: seq<C>, w: B -> Option<Write<T>>, v: C -> Option<Write<T>>, init: T)
    requires |s| == |t| && forall k :: 0 <= k < |s| ==> w(s[k]) == v(t[k])
    requires Settled(s, w, init)
    ensures Settled(t, v, init)
  {
    NewestAlike(s, t, w, v);
    hide Newest;
    forall k | 0 <= k < |t| ensures s[k] in s && w(s[k]) == v(t[k]) {}
    forall x, y | x in t && y in t && SetsNewest(t, x, v) && SetsNewest(t, y, v)
      ensures v(x).value.value == v(y).value.value
    {
      var j :| 0 <= j < |t| && t[j] == x;
      var k :| 0 <= k < |t| && t[k] == y;
      assert SetsNewest(s, s[j], w) && SetsNewest(s, s[k], w);
    }
    if x :| x in s && SetsNewest(s, x, w) {
      var k :| 0 <= k < |s| && s[k] == x;
      assert t[k] in t && SetsNewest(t, t[k], v);
    } else {
      forall y | y in t && Sets(y, v) ensures v(y).value.value.value == init {
        var k :| 0 <= k < |t| && t[k] == y;
        assert Sets(s[k], w);
      }
    }
  }

  // ----- Batches: items that share a transaction id act as one write

  /** The single write a batch amounts to.  */
  function Collapse<B, T>(items: seq<B>, w: B -> Option<Write<T>>): Option<Write<T>> {
    if items == [] then None
    else
      var before, last := Collapse(items[..|items| - 1], w), w(items[|items| - 1]);
      if last.None? then before
      else if last.value.value.None? && before.Some? then Some(Write(last.value.xid, before.value.value))
      else last
  }

  lemma CollapseTwo<B, T>(x: B, y: B, w: B -> Option<Write<T>>)
    requires w(x).None?
    ensures Collapse([x, y], w) == w(y)
  {
    assert [x, y][..1] == [x] && [x][..0] == [];
    assert Collapse([x][..0], w) == None;
  }

  lemma CollapseFirst<B, T>(x: B, y: B, z: B, w: B -> Option<Write<T>>)
    requires w(y).None? && w(z).None?
    ensures Collapse([x, y, z], w) == w(x)
  {
    assert [x, y, z][..2] == [x, y] && [x, y][..1] == [x] && [x][..0] == [];
    assert Collapse([x][..0], w) == None;
    assert Collapse([x], w) == w(x) && Collapse([x, y], w) == w(x);
  }

  ghost predicate Uniform<B, T>(items: seq<B>, w: B -> Option<Write<T>>, xid: nat) {
    forall x :: x in items && Writes(x, w) ==> w(x).value.xid == xid
  }

  lemma {:induction false} BatchIsOneWrite<B, T>(r: Reg<T>, items: seq<B>, w: B -> Option<Write<T>>, xid: nat)
    requires Uniform(items, w, xid)
    ensures Run(r, items, w) == Step(r, Collapse(items, w))
    ensures Collapse(items, w).Some? ==> Collapse(items, w).value.xid == xid
  {
    if items != [] {
      var init, last := items[..|items| - 1], items[|items| - 1];
      assert items == init + [last];
      BatchIsOneWrite(r, init, w, xid);
      assert last in items;
    }
  }

  function Collapsed<A, B, T>(g: A -> seq<B>, w: B -> Option<Write<T>>): A -> Option<Write<T>> {
    a => Collapse(g(a), w)
  }

  lemma {:induction false} BatchesAreWrites<A, B, T>(
    r: Reg<T>, batches: seq<A>, g: A -> seq<B>, xid: A -> nat, w: B -> Option<Write<T>>)
    requires forall a :: a in batches ==> Uniform(g(a), w, xid(a))
    ensures Run(r, FlatMap(batches, g), w) == Run(r, batches, Collapsed(g, w))
  {
    if batches != [] {
      var init, last := batches[..|batches| - 1], batches[|batches| - 1];
      assert batches == init + [last];
      BatchesAreWrites(r, init, g, xid, w);
      RunConcat(r, FlatMap(init, g), g(last), w);
      BatchIsOneWrite(Run(r, FlatMap(init, g), w), g(last), w, xid(last));
    }
  }
}

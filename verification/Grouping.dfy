/** Grouping by object id: an ordered map from id to the list of its elements, visited in ascending order,
    is a stable sort.  */
module Grouping {
  import opened Seqs

  lemma {:induction false} LeastExists(ids: set<nat>)
    requires ids != {}
    ensures exists m :: m in ids && forall i :: i in ids ==> m <= i
  {
    var x :| x in ids;
    if ids != {x} {
      var rest := ids - {x};
      assert rest != {} by {
        assert ids == rest + {x};
      }
      LeastExists(rest);
      var m :| m in rest && forall i :: i in rest ==> m <= i;
      var least := if x <= m then x else m;
      assert least in ids && forall i :: i in ids ==> least <= i by {
        forall i | i in ids ensures least <= i { assert i == x || i in rest; }
      }
    }
  }

  ghost function Least(ids: set<nat>): (m: nat)
    requires ids != {}
    ensures m in ids && forall i :: i in ids ==> m <= i
  {
    LeastExists(ids);
    var m :| m in ids && forall i :: i in ids ==> m <= i;
    m
  }

  /** The order in which an ordered map visits its keys.  */
  ghost function Ascending(ids: set<nat>): (s: seq<nat>)
    ensures forall i :: i in s <==> i in ids
    ensures forall j, k :: 0 <= j < k < |s| ==> s[j] < s[k]
  {
    if ids == {} then [] else
    var rest := Ascending(ids - {Least(ids)});
    assert forall k :: 0 <= k < |rest| ==> rest[k] in rest;
    [Least(ids)] + rest
  }

  /** Visiting the least key first leaves the other keys in order.  */
  lemma AscendingStep(ids: set<nat>, m: nat)
    requires m in ids && forall i :: i in ids ==> m <= i
    ensures Ascending(ids) == [m] + Ascending(ids - {m})
  {
    assert m == Least(ids);
  }

  lemma AscendingTwo(m: nat, n: nat)
    requires m < n
    ensures Ascending({m, n}) == [m, n]
  {
    AscendingStep({m, n}, m);
    assert {m, n} - {m} == {n} && {n} - {n} == {};
    AscendingStep({n}, n);
  }

  ghost function Ids<A>(s: seq<A>, id: A -> nat): set<nat> { set x | x in s :: id(x) }

  lemma IdsSnoc<A>(s: seq<A>, x: A, id: A -> nat)
    ensures Ids(s + [x], id) == Ids(s, id) + {id(x)}
  {
    assert x in s + [x];
    forall i ensures i in Ids(s + [x], id) <==> i in Ids(s, id) + {id(x)} {
      if i in Ids(s, id) {
        var y :| y in s && id(y) == i;
        assert y in s + [x];
      }
    }
  }

  function Has<A>(id: A -> nat, i: nat): A -> bool { x => id(x) == i }

  function Among<A>(id: A -> nat, ids: seq<nat>): A -> bool { x => id(x) in ids }

  function Group<A>(s: seq<A>, id: A -> nat, i: nat): seq<A> {
    Filter(s, Has(id, i))
  }

  lemma GroupSnoc<A>(s: seq<A>, x: A, id: A -> nat, i: nat)
    ensures Group(s + [x], id, i) == if id(x) == i then Group(s, id, i) + [x] else Group(s, id, i)
  {
    assert (s + [x])[..|s|] == s;
    assert Group(s, id, i) + [] == Group(s, id, i);
  }

  lemma GroupOfTwo<A>(a: A, b: A, id: A -> nat, i: nat)
    ensures Group([a, b], id, i) == (if id(a) == i then [a] else []) + (if id(b) == i then [b] else [])
  {
    assert [a, b][..1] == [a] && [a][..0] == [];
    var none: seq<A> := [];
    assert Filter(none, Has(id, i)) == [];
    assert Filter([a], Has(id, i)) == none + (if id(a) == i then [a] else []);
  }

  /** A list that falls into two runs of one id each.  */
  lemma TwoRuns<A>(g: seq<A>, h: seq<A>, id: A -> nat, m: nat, n: nat)
    requires g != [] && h != [] && m != n
    requires (forall x :: x in g ==> id(x) == m) && forall x :: x in h ==> id(x) == n
    ensures Group(g + h, id, m) == g && Group(g + h, id, n) == h && Ids(g + h, id) == {m, n}
  {
    IdsOfRuns(g, h, id, m, n);
    hide Filter, Ids;
    FilterConcat(g, h, Has(id, m));
    FilterConcat(g, h, Has(id, n));
    FilterAll(g, Has(id, m));
    FilterAll(h, Has(id, n));
    FilterNone(g, Has(id, n));
    FilterNone(h, Has(id, m));
    assert g + [] == g && [] + h == h;
  }

  lemma IdsOfRuns<A>(g: seq<A>, h: seq<A>, id: A -> nat, m: nat, n: nat)
    requires g != [] && h != []
    requires (forall x :: x in g ==> id(x) == m) && forall x :: x in h ==> id(x) == n
    ensures Ids(g + h, id) == {m, n}
  {
    assert g[0] in g + h && h[0] in g + h;
  }

  function GroupOf<A>(s: seq<A>, id: A -> nat): nat -> seq<A> {
    (i: nat) => Group(s, id, i)
  }

  /** The elements in processing order.  */
  ghost function Ordered<A>(s: seq<A>, id: A -> nat): seq<A> {
    FlatMap(Ascending(Ids(s, id)), GroupOf(s, id))
  }

  predicate Sorted<A>(s: seq<A>, id: A -> nat) {
    forall j, k :: 0 <= j < k < |s| ==> id(s[j]) <= id(s[k])
  }

  lemma {:induction false} FilterElements<A>(s: seq<A>, p: A -> bool)
    ensures forall x :: x in Filter(s, p) <==> x in s && p(x)
  {
    if s != [] {
      FilterElements(s[..|s| - 1], p);
      assert s == s[..|s| - 1] + [s[|s| - 1]];
    }
  }

  lemma GroupElement<A>(s: seq<A>, id: A -> nat, i: nat, x: A)
    ensures x in Group(s, id, i) <==> x in s && id(x) == i
  {
    FilterElements(s, Has(id, i));
  }

  lemma {:induction false} FilterConcat<A>(s: seq<A>, t: seq<A>, p: A -> bool)
    ensures Filter(s + t, p) == Filter(s, p) + Filter(t, p)
  {
    if t == [] {
      assert s + t == s;
    } else {
      assert (s + t)[..|s + t| - 1] == s + t[..|t| - 1];
      FilterConcat(s, t[..|t| - 1], p);
    }
  }

  lemma {:induction false} FilterFilter<A>(s: seq<A>, p: A -> bool, q: A -> bool)
    requires forall x :: x in s && q(x) ==> p(x)
    ensures Filter(Filter(s, p), q) == Filter(s, q)
  {
    if s != [] {
      var init, last := s[..|s| - 1], s[|s| - 1];
      assert s == init + [last];
      FilterFilter(init, p, q);
      FilterConcat(Filter(init, p), if p(last) then [last] else [], q);
      assert last in s;
      assert [last][..0] == [];
      assert Filter([last], q) == if q(last) then [last] else [];
    }
  }

  lemma {:induction false} FilterNone<A>(s: seq<A>, p: A -> bool)
    requires forall x :: x in s ==> !p(x)
    ensures Filter(s, p) == []
  {
    if s != [] {
      assert s == s[..|s| - 1] + [s[|s| - 1]];
      FilterNone(s[..|s| - 1], p);
    }
  }

  lemma {:induction false} FilterAll<A>(s: seq<A>, p: A -> bool)
    requires forall x :: x in s ==> p(x)
    ensures Filter(s, p) == s
  {
    if s != [] {
      assert s == s[..|s| - 1] + [s[|s| - 1]];
      FilterAll(s[..|s| - 1], p);
    }
  }

  lemma {:induction false} FilterSplit<A>(s: seq<A>, p: A -> bool, q: A -> bool, both: A -> bool)
    requires forall x :: x in s ==> !(p(x) && q(x)) && (both(x) <==> p(x) || q(x))
    ensures multiset(Filter(s, both)) == multiset(Filter(s, p)) + multiset(Filter(s, q))
  {
    if s != [] {
      assert s == s[..|s| - 1] + [s[|s| - 1]];
      FilterSplit(s[..|s| - 1], p, q, both);
    }
  }

  /** Concatenating the groups for some ids, without repetition, rearranges the elements with those ids.  */
  lemma {:induction false} GroupsCollect<A>(s: seq<A>, id: A -> nat, ids: seq<nat>)
    requires NoDup(ids)
    ensures Permuted(FlatMap(ids, GroupOf(s, id)), Filter(s, Among(id, ids)))
  {
    if ids == [] {
      FilterNone(s, Among(id, ids));
    } else {
      var init, last := ids[..|ids| - 1], ids[|ids| - 1];
      assert ids == init + [last];
      GroupsCollect(s, id, init);
      FilterSplit(s, Among(id, init), Has(id, last), Among(id, ids));
    }
  }

  lemma {:induction false} FilterOfGroups<A>(s: seq<A>, id: A -> nat, ids: seq<nat>, i: nat)
    requires NoDup(ids)
    ensures Group(FlatMap(ids, GroupOf(s, id)), id, i) == if i in ids then Group(s, id, i) else []
  {
    if ids != [] {
      var init, last := ids[..|ids| - 1], ids[|ids| - 1];
      assert ids == init + [last];
      FilterOfGroups(s, id, init, i);
      FilterConcat(FlatMap(init, GroupOf(s, id)), Group(s, id, last), Has(id, i));
      if i == last {
        FilterFilter(s, Has(id, i), Has(id, i));
      } else {
        forall x | x in Group(s, id, last) ensures !Has(id, i)(x) { GroupElement(s, id, last, x); }
        FilterNone(Group(s, id, last), Has(id, i));
      }
    }
  }

  lemma {:induction false} GroupsAscend<A>(s: seq<A>, id: A -> nat, ids: seq<nat>)
    requires forall j, k :: 0 <= j < k < |ids| ==> ids[j] < ids[k]
    ensures forall x :: x in FlatMap(ids, GroupOf(s, id)) ==> id(x) in ids
    ensures Sorted(FlatMap(ids, GroupOf(s, id)), id)
  {
    if ids != [] {
      var init, last := ids[..|ids| - 1], ids[|ids| - 1];
      assert ids == init + [last];
      GroupsAscend(s, id, init);
      var a, b := FlatMap(init, GroupOf(s, id)), Group(s, id, last);
      var out := FlatMap(ids, GroupOf(s, id));
      assert out == a + b;
      forall x | x in out ensures id(x) in ids && (x in a || id(x) == last) {
        assert x in a || x in b;
        GroupElement(s, id, last, x);
      }
      forall j, k | 0 <= j < k < |out| ensures id(out[j]) <= id(out[k]) {
        if k < |a| {
          assert out[j] == a[j] && out[k] == a[k];
        } else {
          assert out[k] == b[k - |a|];
          GroupElement(s, id, last, out[k]);
          assert out[j] in out && id(out[j]) in ids;
          assert forall y :: y in ids ==> y <= last;
        }
      }
    }
  }

  /** Processing group after group is a stable sort by id: a permutation, ascending, with the original
      order kept within each id.  */
  lemma GroupingIsStableSort<A>(s: seq<A>, id: A -> nat)
    ensures Permuted(Ordered(s, id), s)
    ensures Sorted(Ordered(s, id), id)
    ensures forall i :: Group(Ordered(s, id), id, i) == Group(s, id, i)
  {
    var ids := Ascending(Ids(s, id));
    AllGrouped(s, id, ids);
    GroupsAscend(s, id, ids);
    forall i: nat ensures Group(Ordered(s, id), id, i) == Group(s, id, i) {
      OrderedKeepsGroup(s, id, ids, i);
    }
  }

  lemma AllGrouped<A>(s: seq<A>, id: A -> nat, ids: seq<nat>)
    requires NoDup(ids) && forall x :: x in s ==> id(x) in ids
    ensures Permuted(FlatMap(ids, GroupOf(s, id)), s)
  {
    GroupsCollect(s, id, ids);
    FilterAll(s, Among(id, ids));
  }

  lemma OrderedKeepsGroup<A>(s: seq<A>, id: A -> nat, ids: seq<nat>, i: nat)
    requires NoDup(ids) && forall x :: x in s ==> id(x) in ids
    ensures Group(FlatMap(ids, GroupOf(s, id)), id, i) == Group(s, id, i)
  {
    FilterOfGroups(s, id, ids, i);
    if i !in ids {
      FilterNone(s, Has(id, i));
    }
  }
}

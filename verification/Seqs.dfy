/** Flat maps over sequences, and what survives a rearrangement of the input.  */
module Seqs {
  function FlatMap<A, B>(s: seq<A>, f: A -> seq<B>): seq<B> {
    if s == [] then [] else FlatMap(s[..|s| - 1], f) + f(s[|s| - 1])
  }

  function Filter<A>(s: seq<A>, p: A -> bool): seq<A> {
    if s == [] then []
    else Filter(s[..|s| - 1], p) + (if p(s[|s| - 1]) then [s[|s| - 1]] else [])
  }

  predicate NoDup<A(==)>(s: seq<A>) {
    forall i, j :: 0 <= i < j < |s| ==> s[i] != s[j]
  }

  ghost predicate Permuted<A>(s: seq<A>, t: seq<A>) { multiset(s) == multiset(t) }

  lemma PermutedElements<A>(s: seq<A>, t: seq<A>)
    requires Permuted(s, t)
    ensures |s| == |t| && forall x :: x in s <==> x in t
  {
    assert |multiset(s)| == |multiset(t)|;
    forall x ensures x in s <==> x in t {
      assert x in s <==> x in multiset(s);
      assert x in t <==> x in multiset(t);
    }
  }

  function Remove<A>(s: seq<A>, k: nat): seq<A>
    requires k < |s|
  {
    s[..k] + s[k + 1..]
  }

  lemma MultisetRemove<A>(s: seq<A>, k: nat)
    requires k < |s|
    ensures multiset(s) == multiset(Remove(s, k)) + multiset{s[k]}
  {
    assert s == s[..k] + [s[k]] + s[k + 1..];
  }

  lemma {:induction false} FlatMapConcat<A, B>(s: seq<A>, t: seq<A>, f: A -> seq<B>)
    ensures FlatMap(s + t, f) == FlatMap(s, f) + FlatMap(t, f)
  {
    if t == [] {
      assert s + t == s;
    } else {
      assert (s + t)[..|s + t| - 1] == s + t[..|t| - 1];
      FlatMapConcat(s, t[..|t| - 1], f);
    }
  }

  lemma FlatMapSnoc<A, B>(s: seq<A>, x: A, f: A -> seq<B>)
    ensures FlatMap(s + [x], f) == FlatMap(s, f) + f(x)
  {
    assert (s + [x])[..|s|] == s;
  }

  lemma FlatMapFirst<A, B>(s: seq<A>, f: A -> seq<B>)
    requires s != []
    ensures FlatMap(s, f) == f(s[0]) + FlatMap(s[1..], f)
  {
    assert s == [s[0]] + s[1..];
    FlatMapConcat([s[0]], s[1..], f);
    assert [s[0]][..0] == [];
    assert FlatMap([s[0]], f) == [] + f(s[0]);
  }

  lemma FlatMapOne<A, B>(s: seq<A>, f: A -> seq<B>)
    requires |s| == 1
    ensures FlatMap(s, f) == f(s[0])
  {
    assert s[..0] == [];
    assert FlatMap(s[..0], f) == [];
  }

  lemma FlatMapTwo<A, B>(x: A, y: A, f: A -> seq<B>)
    ensures FlatMap([x, y], f) == f(x) + f(y)
  {
    assert [x, y][..1] == [x] && [x][..0] == [];
    assert FlatMap([x][..0], f) == [];
    assert FlatMap([x], f) == [] + f(x);
  }

  lemma FlatMapThree<A, B>(x: A, y: A, z: A, f: A -> seq<B>)
    ensures FlatMap([x, y, z], f) == f(x) + f(y) + f(z)
  {
    FlatMapTwo(x, y, f);
    FlatMapSnoc([x, y], z, f);
    assert [x, y] + [z] == [x, y, z];
  }

  /** Functions that yield pieces of equal lengths yield the same whole exactly when they yield the same
      pieces.  */
  lemma {:induction false} FlatMapPieces<A, B>(s: seq<A>, f: A -> seq<B>, g: A -> seq<B>)
    requires forall x :: x in s ==> |f(x)| == |g(x)|
    ensures |FlatMap(s, f)| == |FlatMap(s, g)|
    ensures FlatMap(s, f) == FlatMap(s, g) <==> forall x :: x in s ==> f(x) == g(x)
  {
    if s != [] {
      var init, last := s[..|s| - 1], s[|s| - 1];
      assert s == init + [last];
      FlatMapPieces(init, f, g);
      EqualEnds(FlatMap(init, f), FlatMap(init, g), f(last), g(last));
      assert last in s;
    }
  }

  lemma EqualEnds<B>(a: seq<B>, b: seq<B>, x: seq<B>, y: seq<B>)
    requires |a| == |b| && |x| == |y|
    ensures a + x == b + y <==> a == b && x == y
  {
    if a + x == b + y {
      assert (a + x)[..|a|] == a && (b + y)[..|a|] == b;
      assert (a + x)[|a|..] == x && (b + y)[|a|..] == y;
    }
  }

  lemma {:induction false} FlatMapSame<A, B>(s: seq<A>, f: A -> seq<B>, g: A -> seq<B>)
    requires forall x :: x in s ==> f(x) == g(x)
    ensures FlatMap(s, f) == FlatMap(s, g)
  {
    FlatMapPieces(s, f, g);
  }

  lemma FlatMapAround<A, B>(before: seq<A>, x: A, after: seq<A>, f: A -> seq<B>)
    ensures FlatMap((before + [x]) + after, f) == (FlatMap(before, f) + f(x)) + FlatMap(after, f)
    ensures FlatMap(before + after, f) == FlatMap(before, f) + FlatMap(after, f)
  {
    hide FlatMap;
    FlatMapConcat(before + [x], after, f);
    FlatMapConcat(before, after, f);
    FlatMapSnoc(before, x, f);
  }

  lemma SplitAt<A>(s: seq<A>, k: nat)
    requires k < |s|
    ensures s == (s[..k] + [s[k]]) + s[k + 1..]
  {
  }

  lemma FlatMapRemove<A, B>(s: seq<A>, k: nat, f: A -> seq<B>)
    requires k < |s|
    ensures multiset(FlatMap(s, f)) == multiset(FlatMap(Remove(s, k), f)) + multiset(f(s[k]))
  {
    hide FlatMap;
    SplitAt(s, k);
    FlatMapAround(s[..k], s[k], s[k + 1..], f);
    MiddleOut(FlatMap(s[..k], f), f(s[k]), FlatMap(s[k + 1..], f));
  }

  lemma MiddleOut<B>(a: seq<B>, x: seq<B>, c: seq<B>)
    ensures multiset((a + x) + c) == multiset(a + c) + multiset(x)
  {
  }

  lemma PermutedRemove<A>(s: seq<A>, t: seq<A>, k: nat)
    requires Permuted(s, t) && s != [] && k < |t| && t[k] == s[|s| - 1]
    ensures Permuted(s[..|s| - 1], Remove(t, k))
  {
    var n := |s| - 1;
    MultisetRemove(t, k);
    MultisetRemove(s, n);
    assert Remove(s, n) == s[..n];
    assert multiset(s[..n]) == multiset(s) - multiset{s[n]} == multiset(Remove(t, k));
  }

  /** Rearranging the input rearranges the output.  */
  lemma {:induction false} FlatMapPermuted<A, B>(s: seq<A>, t: seq<A>, f: A -> seq<B>)
    requires Permuted(s, t)
    ensures Permuted(FlatMap(s, f), FlatMap(t, f))
  {
    PermutedElements(s, t);
    if s != [] {
      var n := |s| - 1;
      assert s[n] in s;
      var k :| 0 <= k < |t| && t[k] == s[n];
      PermutedRemove(s, t, k);
      FlatMapPermuted(s[..n], Remove(t, k), f);
      FlatMapRemove(t, k, f);
    }
  }

  lemma {:induction false} FlatMapElement<A, B>(s: seq<A>, f: A -> seq<B>, x: B) returns (k: nat)
    requires x in FlatMap(s, f)
    ensures k < |s| && x in f(s[k])
  {
    if x in f(s[|s| - 1]) {
      k := |s| - 1;
    } else {
      k := FlatMapElement(s[..|s| - 1], f, x);
    }
  }
}

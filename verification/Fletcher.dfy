/** The block checksum: the folding loop, its closed form, and what it detects.  */
module Fletcher {
  import opened Bytes

  /** The modulus: 2^32 - 1.  */
  const M: nat := 0xFFFF_FFFF

  function Words(data: seq<byte>, count: nat): (ws: seq<uint32>)
    ensures |ws| == count && forall i :: 0 <= i < count ==> ws[i] == U32(data, 4 * i)
  {
    seq(count, i requires 0 <= i < count => U32(data, 4 * i))
  }

  function Sum(ws: seq<uint32>): int {
    if ws == [] then 0 else ws[0] + Sum(ws[1..])
  }

  /** Word i of n (from 0) has weight n - i.  */
  function Weighted(ws: seq<uint32>): int {
    if ws == [] then 0 else |ws| * ws[0] + Weighted(ws[1..])
  }

  predicate Congruent(x: int, y: int) { (x - y) % M == 0 }

  /** The representative of x in [1, M].  */
  function Top(x: int): (t: uint32)
    ensures 1 <= t <= M && Congruent(t, x)
  {
    (x - 1) % M + 1
  }

  /** The value of a folded accumulator that has absorbed a total of x.  */
  function Folded(x: nat): (t: uint32)
    ensures t <= M && Congruent(t, x)
    ensures t == 0 <==> x == 0
  {
    if x == 0 then 0 else Top(x)
  }

  /** The checksum in closed form: the high half answers for the weighted sum, the low half for both.  */
  function Checksum(ws: seq<uint32>): uint64 {
    Joined(Top(Weighted(ws)), Top(-Sum(ws) - Weighted(ws)))
  }

  function Joined(high: uint32, low: uint32): uint64 { high * TWO_TO_THE_32 + low }

  // ----- Arithmetic modulo M

  /** The end-around carry: x & m plus x >> 32.  */
  function Fold(x: nat): nat { x % TWO_TO_THE_32 + x / TWO_TO_THE_32 }

  lemma FoldStep(a: nat, b: nat)
    ensures Fold(Folded(a) + Folded(b)) == Folded(a + b)
  {
    hide Top, Folded, Congruent;
    var x := Folded(a) + Folded(b);
    FoldedIs(a);
    FoldedIs(b);
    CongruentSum(Folded(a), a, Folded(b), b);
    CarryKeepsResidue(x, a + b);
    if a + b > 0 {
      TopUnique(Fold(x), a + b);
    }
    FoldedIs(a + b);
  }

  lemma FoldedIs(a: nat)
    ensures Folded(a) == if a == 0 then 0 else Top(a)
  {
  }

  lemma CarryKeepsResidue(x: nat, y: int)
    requires x <= 2 * M && Congruent(x, y)
    ensures Fold(x) <= M && Congruent(Fold(x), y)
    ensures Fold(x) == 0 <==> x == 0
  {
    assert Fold(x) == if x < TWO_TO_THE_32 then x else x - M;
  }

  lemma FoldedWord(w: uint32)
    ensures Folded(w) == w
  {
  }

  lemma TopUnique(t: int, x: int)
    requires 1 <= t <= M && Congruent(t, x)
    ensures t == Top(x)
  {
  }

  lemma CongruentSum(a: int, x: int, b: int, y: int)
    requires Congruent(a, x) && Congruent(b, y)
    ensures Congruent(a + b, x + y) && Congruent(-a, -x)
  {
  }

  lemma Complement(x: int, y: int)
    requires Congruent(x, y)
    ensures M - x % M == Top(-y)
  {
  }

  lemma CongruentTimes(k: int, x: int)
    requires Congruent(x, 0)
    ensures Congruent(k * x, 0)
  {
    var q := x / M;
    assert k * x == M * (k * q);
    assert (M * (k * q)) % M == 0;
  }

  /** Two checksums agree exactly when both sums agree modulo M.  */
  lemma ChecksumEqual(ws: seq<uint32>, vs: seq<uint32>)
    ensures Checksum(ws) == Checksum(vs)
       <==> Congruent(Sum(ws), Sum(vs)) && Congruent(Weighted(ws), Weighted(vs))
  {
    hide Sum, Weighted, Top;
    var s, t, s', t' := Sum(ws), Weighted(ws), Sum(vs), Weighted(vs);
    SameTop(t, t');
    SameTop(-s - t, -s' - t');
    SameHalves(Top(t), Top(-s - t), Top(t'), Top(-s' - t'));
    if Congruent(t, t') {
      if Congruent(s, s') {
        CongruentSum(s, s', t, t');
        CongruentSum(s + t, s' + t', 0, 0);
      }
      if Congruent(-s - t, -s' - t') {
        CongruentSum(-s - t, -s' - t', t, t');
        CongruentSum(-s, -s', 0, 0);
      }
    }
  }

  lemma SameHalves(hi: uint32, lo: uint32, hi': uint32, lo': uint32)
    ensures hi * TWO_TO_THE_32 + lo == hi' * TWO_TO_THE_32 + lo' <==> hi == hi' && lo == lo'
  {
  }

  lemma SameTop(x: int, y: int)
    ensures Top(x) == Top(y) <==> Congruent(x, y)
  {
  }

  // ----- The loop

  lemma {:induction false} SumSnoc(ws: seq<uint32>, w: uint32)
    ensures Sum(ws + [w]) == Sum(ws) + w
  {
    if ws == [] {
    } else {
      assert (ws + [w])[1..] == ws[1..] + [w];
      SumSnoc(ws[1..], w);
    }
  }

  lemma {:induction false} WeightedSnoc(ws: seq<uint32>, w: uint32)
    ensures Weighted(ws + [w]) == Weighted(ws) + Sum(ws + [w])
  {
    SumSnoc(ws, w);
    if ws == [] {
    } else {
      assert (ws + [w])[1..] == ws[1..] + [w];
      WeightedSnoc(ws[1..], w);
      SumSnoc(ws[1..], w);
      assert (|ws| + 1) * ws[0] == |ws| * ws[0] + ws[0];
    }
  }

  lemma {:induction false} SumsNonNegative(ws: seq<uint32>)
    ensures Sum(ws) >= 0 && Weighted(ws) >= 0
    ensures Sum(ws) == 0 <==> forall i :: 0 <= i < |ws| ==> ws[i] == 0
    ensures Weighted(ws) == 0 <==> forall i :: 0 <= i < |ws| ==> ws[i] == 0
  {
    if ws != [] {
      SumsNonNegative(ws[1..]);
      assert ws == [ws[0]] + ws[1..];
      assert |ws| * ws[0] >= ws[0];
      if ws[0] == 0 {
        assert |ws| * ws[0] == 0;
        assert forall i :: 0 <= i < |ws| - 1 ==> ws[1..][i] == ws[i + 1];
        assert forall i :: 0 < i < |ws| ==> ws[i] == ws[1..][i - 1];
      }
    }
  }

  lemma Absorb(ws: seq<uint32>, w: uint32)
    requires Sum(ws) >= 0 && Weighted(ws) >= 0
    ensures Sum(ws + [w]) >= 0 && Weighted(ws + [w]) >= 0
    ensures Fold(Folded(Sum(ws)) + w) == Folded(Sum(ws + [w]))
    ensures Fold(Folded(Weighted(ws)) + Folded(Sum(ws + [w]))) == Folded(Weighted(ws + [w]))
  {
    hide Sum, Weighted, Folded, Fold;
    SumSnoc(ws, w);
    WeightedSnoc(ws, w);
    FoldedWord(w);
    FoldStep(Sum(ws), w);
    FoldStep(Weighted(ws), Sum(ws + [w]));
  }

  /** The two accumulators after the loop has consumed the words.  */
  function Accumulate(ws: seq<uint32>): (nat, nat) {
    if ws == [] then (0, 0)
    else
      var before := Accumulate(ws[..|ws| - 1]);
      var sum1 := Fold(before.0 + ws[|ws| - 1]);
      (sum1, Fold(before.1 + sum1))
  }

  /** The folding loop computes the plain and the weighted sum modulo 2^32 - 1; both accumulators stay at
      most 2^32 - 1, and each is 0 only if every word is.  */
  lemma {:induction false} LoopComputesSums(ws: seq<uint32>)
    ensures Sum(ws) >= 0 && Weighted(ws) >= 0
    ensures Accumulate(ws).0 == Folded(Sum(ws)) && Accumulate(ws).1 == Folded(Weighted(ws))
    ensures Accumulate(ws).0 <= M && Congruent(Accumulate(ws).0, Sum(ws))
    ensures Accumulate(ws).1 <= M && Congruent(Accumulate(ws).1, Weighted(ws))
    ensures Accumulate(ws).0 == 0 <==> forall i :: 0 <= i < |ws| ==> ws[i] == 0
    ensures Accumulate(ws).1 == 0 <==> forall i :: 0 <= i < |ws| ==> ws[i] == 0
  {
    SumsNonNegative(ws);
    hide Folded, Congruent;
    FoldedIs(0);
    if ws != [] {
      var init, last := ws[..|ws| - 1], ws[|ws| - 1];
      assert ws == init + [last];
      LoopComputesSums(init);
      Absorb(init, last);
    }
  }

  function CheckWord(sum: nat): uint32 { M - sum % M }

  lemma CheckWords(s: int, t: int, sum1: int, sum2: int)
    requires Congruent(sum1, s) && Congruent(sum2, t)
    ensures M - (sum1 + sum2) % M == Top(-s - t)
    ensures M - (sum1 + Top(-s - t)) % M == Top(t)
  {
    CongruentSum(sum1, s, sum2, t);
    Complement(sum1 + sum2, s + t);
    CongruentSum(sum1, s, Top(-s - t), -s - t);
    Complement(sum1 + Top(-s - t), -t);
  }

  lemma AccumulateSnoc(ws: seq<uint32>, w: uint32)
    ensures var before, after := Accumulate(ws), Accumulate(ws + [w]);
            && after.0 == Fold(before.0 + w) <= M
            && after.1 == Fold(before.1 + after.0) <= M
  {
    hide Sum, Weighted, Congruent, Folded, Fold;
    assert (ws + [w])[..|ws|] == ws;
    LoopComputesSums(ws + [w]);
  }

  lemma CheckWordsOf(ws: seq<uint32>)
    ensures var sum1, sum2 := Accumulate(ws).0, Accumulate(ws).1;
            Joined(CheckWord(sum1 + CheckWord(sum1 + sum2)), CheckWord(sum1 + sum2)) == Checksum(ws)
  {
    hide Sum, Weighted, Congruent, Folded, Top, Accumulate;
    LoopComputesSums(ws);
    CheckWords(Sum(ws), Weighted(ws), Accumulate(ws).0, Accumulate(ws).1);
  }

  /** The source's single pass.  Both accumulators and both check words are 64-bit, so every assignment
      below is checked not to overflow.  */
  method Fletcher64(data: seq<byte>, byteCount: uint32) returns (cksum: uint64)
    requires byteCount <= |data|
    ensures cksum == Checksum(Words(data, byteCount / 4))
  {
    hide Checksum, U32, Fold, CheckWord, Joined, Words;
    var sum1: uint64, sum2: uint64 := 0, 0;
    var wordPtr := 0;
    var wordCount: uint64 := byteCount / 4;
    ghost var ws := Words(data, wordCount);
    ghost var done: seq<uint32> := [];
    assert Accumulate(done) == (0, 0);
    hide Accumulate;
    while wordCount > 0
      invariant wordPtr == 4 * |done| && |done| + wordCount == |ws| && done <= ws
      invariant sum1 == Accumulate(done).0 <= M && sum2 == Accumulate(done).1 <= M
      decreases wordCount
    {
      var w := U32(data, wordPtr);
      AccumulateSnoc(done, w);
      wordCount := wordCount - 1;
      wordPtr := wordPtr + 4;
      sum1 := sum1 + w;
      sum1 := Fold(sum1);
      sum2 := sum2 + sum1;
      sum2 := Fold(sum2);
      done := done + [w];
    }
    assert done == ws;
    CheckWordsOf(done);
    var check1: uint64 := CheckWord(sum1 + sum2);
    var check2: uint64 := CheckWord(sum1 + check1);
    cksum := Joined(check2, check1);
  }

  // ----- What the checksum detects

  lemma {:induction false} SumUpdate(ws: seq<uint32>, i: nat, w: uint32)
    requires i < |ws|
    ensures Sum(ws[i := w]) == Sum(ws) + (w - ws[i])
    ensures Weighted(ws[i := w]) == Weighted(ws) + (|ws| - i) * (w - ws[i])
  {
    if i == 0 {
      assert ws[0 := w][1..] == ws[1..];
      assert |ws| * w == |ws| * ws[0] + |ws| * (w - ws[0]);
    } else {
      assert ws[i := w][1..] == ws[1..][i - 1 := w];
      SumUpdate(ws[1..], i - 1, w);
    }
  }

  /** One changed word goes unnoticed exactly when old and new value agree modulo 2^32 - 1.  */
  lemma SingleWordDetection(ws: seq<uint32>, i: nat, w: uint32)
    requires i < |ws|
    ensures Checksum(ws[i := w]) == Checksum(ws) <==> Congruent(w, ws[i])
  {
    SumUpdate(ws, i, w);
    ChecksumEqual(ws[i := w], ws);
    if Congruent(w, ws[i]) {
      CongruentTimes(|ws| - i, w - ws[i]);
    }
  }

  /** Two changed words at distance d go unnoticed exactly when the differences cancel and d times one
      of them vanishes modulo 2^32 - 1.  */
  lemma TwoWordDetection(ws: seq<uint32>, i: nat, j: nat, w: uint32, v: uint32)
    requires i < j < |ws|
    ensures Checksum(ws[i := w][j := v]) == Checksum(ws)
       <==> Congruent((w - ws[i]) + (v - ws[j]), 0) && Congruent((j - i) * (w - ws[i]), 0)
  {
    hide Checksum, Sum, Weighted;
    var us := ws[i := w][j := v];
    SumUpdate(ws, i, w);
    SumUpdate(ws[i := w], j, v);
    ChecksumEqual(us, ws);
    TwoDifferences(Weighted(us) - Weighted(ws), |ws| - j, j - i, w - ws[i], v - ws[j]);
  }

  lemma TwoDifferences(t: int, n: int, d: int, x: int, y: int)
    requires t == (n + d) * x + n * y
    ensures Congruent(x + y, 0) ==> (Congruent(t, 0) <==> Congruent(d * x, 0))
  {
    assert t == n * (x + y) + d * x;
    if Congruent(x + y, 0) {
      CongruentTimes(n, x + y);
      SummandVanishes(n * (x + y), d * x);
    }
  }

  lemma SummandVanishes(a: int, b: int)
    requires Congruent(a, 0)
    ensures Congruent(a + b, 0) <==> Congruent(b, 0)
  {
  }

  /** Any change to two adjacent words, at least one of them not congruent to what it was, is caught.  */
  lemma AdjacentWordsDetection(ws: seq<uint32>, i: nat, w: uint32, v: uint32)
    requires i + 1 < |ws|
    ensures Checksum(ws[i := w][i + 1 := v]) == Checksum(ws)
       <==> Congruent(w, ws[i]) && Congruent(v, ws[i + 1])
  {
    hide Checksum, Sum, Weighted;
    TwoWordDetection(ws, i, i + 1, w, v);
    assert (i + 1 - i) * (w - ws[i]) == w - ws[i];
  }

  // ----- The check words close the sum

  function Check1(ws: seq<uint32>): uint32 { Checksum(ws) % TWO_TO_THE_32 }

  function Check2(ws: seq<uint32>): uint32 { Checksum(ws) / TWO_TO_THE_32 }

  /** Both halves lie in [1, M]; the high half is the weighted sum modulo M; appending low then high half
      drives both accumulators to M, and the checksum of the extended data is 2^64 - 1.  */
  lemma CheckWordsClose(ws: seq<uint32>)
    ensures 1 <= Check1(ws) <= M && 1 <= Check2(ws) <= M
    ensures Congruent(Check2(ws), Weighted(ws))
    ensures var es := ws + [Check1(ws), Check2(ws)];
            Sum(es) > 0 && Weighted(es) > 0
            && Folded(Sum(es)) == M && Folded(Weighted(es)) == M
            && Checksum(es) == TWO_TO_THE_64 - 1
  {
    hide Sum, Weighted, Top, Folded;
    var s, t, c1, c2 := Sum(ws), Weighted(ws), Check1(ws), Check2(ws);
    Halves(Top(t), Top(-s - t));
    assert ws + [c1, c2] == ws + [c1] + [c2];
    SumSnoc(ws, c1);
    SumSnoc(ws + [c1], c2);
    WeightedSnoc(ws, c1);
    WeightedSnoc(ws + [c1], c2);
    SumsNonNegative(ws);
    ClosedSums(s, t, c1, c2);
  }

  lemma Halves(hi: uint32, lo: uint32)
    ensures (hi * TWO_TO_THE_32 + lo) / TWO_TO_THE_32 == hi
    ensures (hi * TWO_TO_THE_32 + lo) % TWO_TO_THE_32 == lo
  {
  }

  lemma ClosedSums(s: int, t: int, c1: int, c2: int)
    requires s >= 0 && t >= 0
    requires c1 == Top(-s - t) && c2 == Top(t)
    ensures Folded(s + c1 + c2) == M
    ensures Folded(t + (s + c1) + (s + c1 + c2)) == M
    ensures Top(t + (s + c1) + (s + c1 + c2)) == M
    ensures Top(-(s + c1 + c2) - (t + (s + c1) + (s + c1 + c2))) == M
  {
    var x, y := s + c1 + c2, t + (s + c1) + (s + c1 + c2);
    SumsCancel(s, t, c1, c2);
    TopOfZero(x);
    TopOfZero(y);
    TopOfZero(-x - y);
  }

  lemma SumsCancel(s: int, t: int, c1: int, c2: int)
    requires Congruent(c1, -s - t) && Congruent(c2, t)
    ensures Congruent(s + c1 + c2, 0)
    ensures Congruent(t + (s + c1) + (s + c1 + c2), 0)
    ensures Congruent(-(s + c1 + c2) - (t + (s + c1) + (s + c1 + c2)), 0)
  {
    var q1, q2 := (c1 + s + t) / M, (c2 - t) / M;
    assert c1 == M * q1 - s - t && c2 == M * q2 + t;
    Multiple(q1 + q2);
    Multiple(2 * q1 + q2);
    Multiple(-3 * q1 - 2 * q2);
  }

  lemma Multiple(q: int)
    ensures Congruent(M * q, 0)
  {
  }

  lemma TopOfZero(x: int)
    requires Congruent(x, 0)
    ensures Top(x) == M
  {
    TopUnique(M, x);
  }

  /** The same on bytes: word-aligned data with both check words appended, low half first.  */
  lemma CheckWordsCloseData(data: seq<byte>, n: nat)
    requires |data| == 4 * n
    ensures var ws := Words(data, n);
            Checksum(Words(data + (Enc32(Check1(ws)) + Enc32(Check2(ws))), n + 2)) == TWO_TO_THE_64 - 1
  {
    var ws := Words(data, n);
    var c1, c2 := Check1(ws), Check2(ws);
    hide Check1, Check2, Checksum;
    WordsOfExtension(data, n, c1, c2);
    CheckWordsClose(ws);
  }

  lemma SamePrefix(data: seq<byte>, rest: seq<byte>, off: nat)
    requires off + 4 <= |data|
    ensures U32(data + rest, off) == U32(data, off)
  {
  }

  lemma WordsOfExtension(data: seq<byte>, n: nat, c1: uint32, c2: uint32)
    requires |data| == 4 * n
    ensures Words(data + (Enc32(c1) + Enc32(c2)), n + 2) == Words(data, n) + [c1, c2]
  {
    hide U32, At, Enc32;
    var more := data + (Enc32(c1) + Enc32(c2));
    forall i | 0 <= i < n ensures U32(more, 4 * i) == U32(data, 4 * i) {
      SamePrefix(data, Enc32(c1) + Enc32(c2), 4 * i);
    }
    AtWhole(more);
    AtSplit(more, 0, data, Enc32(c1) + Enc32(c2));
    AtSplit(more, 4 * n, Enc32(c1), Enc32(c2));
    ReadU32(more, 4 * n, c1);
    ReadU32(more, 4 * n + 4, c2);
  }
}

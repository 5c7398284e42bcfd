/** Reassembling a file from its extents.  */
module Reassembly {
  import opened Bytes
  import opened Seqs
  import opened Merge

  const VOLUME_BASE: nat := 0xC80_5000
  const BLOCK_BYTES: nat := 4096
  const INT_RANGE: nat := 0x8000_0000  // a read length is held in a 32-bit signed integer

  predicate Contains(e: Extent, k: int) { e.logicalAddress <= k < e.logicalAddress + e.length }

  /** The position on disk of byte k of the file, given the extent that contains it.  */
  function DiskPosition(e: Extent, k: int): int {
    VOLUME_BASE + e.physicalBlock * BLOCK_BYTES + (k - e.logicalAddress)
  }

  function Min(a: int, b: int): int { if a < b then a else b }

  function Max0(n: int): nat { if n < 0 then 0 else n }

  predicate SortedByAddress(t: seq<Extent>) {
    forall i, j :: 0 <= i < j < |t| ==> t[i].logicalAddress <= t[j].logicalAddress
  }

  function Total(t: seq<Extent>): nat {
    if t == [] then 0 else Total(t[..|t| - 1]) + t[|t| - 1].length
  }

  /** How much is read of extent j, one extent after the other: what the extents before it have left of the
      file's length.  */
  function Piece(t: seq<Extent>, j: nat, length: nat): nat
    requires j < |t|
  {
    Min(t[j].length, Max0(length - Total(t[..j])))
  }

  /** Every piece stays inside a buffer of the file's length, and is no longer than a signed 32-bit integer
      can say.  */
  predicate WritesFit(t: seq<Extent>, length: nat) {
    forall j :: 0 <= j < |t| ==>
      var n := Piece(t, j, length);
      n < INT_RANGE && (n > 0 ==> t[j].logicalAddress + n <= length)
  }

  /** So it is in whatever way a sort by address breaks ties.  */
  ghost predicate Safe(extents: seq<Extent>, length: nat) {
    forall t :: Permuted(t, extents) && SortedByAddress(t) ==> WritesFit(t, length)
  }

  /** Something is read of every extent.  */
  predicate AllRead(t: seq<Extent>, length: nat) {
    forall j :: 0 <= j < |t| ==> Piece(t, j, length) > 0
  }

  predicate InPiece(t: seq<Extent>, j: nat, length: nat, k: int)
    requires j < |t|
  {
    t[j].logicalAddress <= k < t[j].logicalAddress + Piece(t, j, length)
  }

  /** Of the first m pieces, j is the last to hold byte k.  */
  predicate LastPiece(t: seq<Extent>, m: nat, length: nat, j: nat, k: int)
    requires j < m <= |t|
  {
    InPiece(t, j, length, k) && forall i :: j < i < m ==> !InPiece(t, i, length, k)
  }

  /** Extents in file order, none empty, without overlap; there may be gaps.  */
  predicate InFileOrder(t: seq<Extent>) {
    && (forall j :: 0 <= j < |t| ==> t[j].length > 0)
    && forall j :: 0 < j < |t| ==> t[j - 1].logicalAddress + t[j - 1].length <= t[j].logicalAddress
  }

  /** In file order without gap, starting at 0, and none too long for one read.  */
  predicate Contiguous(t: seq<Extent>) {
    && (forall j :: 0 <= j < |t| ==> 0 < t[j].length < INT_RANGE)
    && (|t| > 0 ==> t[0].logicalAddress == 0)
    && forall j :: 0 < j < |t| ==> t[j].logicalAddress == t[j - 1].logicalAddress + t[j - 1].length
  }

  /** Such extents fit a file of any length.  */
  lemma ContiguousFits(t: seq<Extent>, length: nat)
    requires Contiguous(t)
    ensures InFileOrder(t) && WritesFit(t, length)
  {
    forall j | 0 <= j < |t| ensures Total(t[..j]) == t[j].logicalAddress {
      NoGap(t, j);
    }
  }

  lemma {:induction false} NoGap(t: seq<Extent>, j: nat)
    requires Contiguous(t) && j < |t|
    ensures Total(t[..j]) == t[j].logicalAddress
  {
    if j > 0 {
      assert t[..j][..j - 1] == t[..j - 1];
      NoGap(t, j - 1);
    }
  }

  /** Stored in whatever order, the extents do not overlap and can be read into a buffer of the file's size.  */
  ghost predicate Separate(extents: seq<Extent>, length: nat) {
    exists t :: Permuted(t, extents) && InFileOrder(t) && WritesFit(t, length)
  }

  ghost predicate StartInside(extents: seq<Extent>, length: nat) {
    forall e :: e in extents ==> e.logicalAddress < length
  }

  /** Every byte of the file lies in some extent.  */
  ghost predicate Covering(extents: seq<Extent>, length: nat) {
    forall k :: 0 <= k < length ==> Mapped(extents, k)
  }

  ghost predicate Mapped(extents: seq<Extent>, k: nat) {
    exists e :: e in extents && Contains(e, k)
  }

  /** The disk holds every byte of the file that an extent maps.  */
  ghost predicate OnDisk(disk: seq<byte>, extents: seq<Extent>, length: nat) {
    forall e :: e in extents && e.logicalAddress < length ==>
      DiskPosition(e, e.logicalAddress) + Min(e.length, length - e.logicalAddress) <= |disk|
  }

  /** The extents can be read into a buffer of the file's size, and lie on the disk.  */
  ghost predicate Readable(disk: seq<byte>, extents: seq<Extent>, length: nat) {
    Safe(extents, length) && OnDisk(disk, extents, length)
  }

  /** A sort by address has no choice: extents at the same address are the same.  */
  predicate Untied(extents: seq<Extent>) {
    forall e, f :: e in extents && f in extents && e.logicalAddress == f.logicalAddress ==> e == f
  }

  /** A full read where the disk reaches far enough, a short one at its end.  */
  function Pread(disk: seq<byte>, count: nat, off: nat): seq<byte> {
    if off <= |disk| then disk[off..Min(off + count, |disk|)] else []
  }

  // ----- What a read returns

  function ReadCount(length: nat, offset: nat, size: nat): nat {
    if offset < length then Min(size, length - offset) else 0
  }

  /** Byte k of the file, as far as it is in the part, is the disk byte of the last piece that holds it.  */
  ghost predicate HoldsPieces(disk: seq<byte>, t: seq<Extent>, length: nat, offset: nat, part: seq<byte>) {
    forall j, k :: 0 <= j < |t| && offset <= k < offset + |part| && LastPiece(t, |t|, length, j, k) ==>
      0 <= DiskPosition(t[j], k) < |disk| && part[k - offset] == disk[DiskPosition(t[j], k)]
  }

  /** Byte k of the file, as far as it is in the part, is the disk byte of whatever extent contains it.  */
  ghost predicate HoldsFilePart(disk: seq<byte>, extents: seq<Extent>, offset: nat, part: seq<byte>) {
    forall e, k :: e in extents && offset <= k < offset + |part| && Contains(e, k) ==>
      0 <= DiskPosition(e, k) < |disk| && part[k - offset] == disk[DiskPosition(e, k)]
  }

  /** What a read of `size` bytes at `offset` returns, once the extents are sorted as t.  */
  ghost predicate IsPartOf(disk: seq<byte>, t: seq<Extent>, length: nat, offset: nat, size: nat, part: seq<byte>) {
    && |part| == (if AllRead(t, length) then ReadCount(length, offset, size) else 0)
    && HoldsPieces(disk, t, length, offset, part)
  }

  ghost predicate Arranges(t: seq<Extent>, extents: seq<Extent>) { Permuted(t, extents) && SortedByAddress(t) }

  /** A right answer to the read: what some sort by address leads to.  */
  ghost predicate IsPart(
    disk: seq<byte>, extents: seq<Extent>, length: nat, offset: nat, size: nat, part: seq<byte>)
  {
    exists t :: Arranges(t, extents) && IsPartOf(disk, t, length, offset, size, part)
  }

  /** All of the file: as long as the row says, and every mapped byte the disk byte of its extent.  */
  ghost predicate IsFile(disk: seq<byte>, extents: seq<Extent>, length: nat, content: seq<byte>) {
    |content| == length && HoldsFilePart(disk, extents, 0, content)
  }

  /** Where extents without overlap cover the file, there is only one right answer.  */
  lemma CoveredPartIsDetermined(
    disk: seq<byte>, extents: seq<Extent>, length: nat, offset: nat, size: nat, p: seq<byte>, q: seq<byte>)
    requires Separate(extents, length) && Covering(extents, length)
    requires IsPart(disk, extents, length, offset, size, p) && IsPart(disk, extents, length, offset, size, q)
    ensures p == q
  {
    hide Separate, IsPart, StartInside;
    PiecesAreTheAnswer(disk, extents, length, offset, size, p);
    PiecesAreTheAnswer(disk, extents, length, offset, size, q);
    forall k: nat | k < |p| ensures p[k] == q[k] {
      assert Mapped(extents, offset + k);
      var e :| e in extents && Contains(e, offset + k);
      assert p[offset + k - offset] == q[offset + k - offset];
    }
  }

  /** The order in which extents are stored does not matter.  */
  lemma AnswersIgnoreStoredOrder(
    disk: seq<byte>, extents: seq<Extent>, stored: seq<Extent>, length: nat, offset: nat, size: nat, part: seq<byte>)
    requires Permuted(stored, extents)
    ensures IsPart(disk, stored, length, offset, size, part) <==> IsPart(disk, extents, length, offset, size, part)
    ensures Readable(disk, stored, length) <==> Readable(disk, extents, length)
  {
    PermutedElements(stored, extents);
    assert forall t :: Permuted(t, stored) <==> Permuted(t, extents);
    hide Permuted, WritesFit, SortedByAddress, IsPartOf;
    assert forall t :: Arranges(t, stored) <==> Arranges(t, extents);
  }

  /** Right answers to reads of a bytes at o and of b bytes at o + a are together one to a + b bytes at o.  */
  lemma ReadsCompose(
    disk: seq<byte>, extents: seq<Extent>, length: nat, o: nat, a: nat, b: nat, p: seq<byte>, q: seq<byte>)
    requires Untied(extents)
    requires IsPart(disk, extents, length, o, a, p) && IsPart(disk, extents, length, o + a, b, q)
    ensures IsPart(disk, extents, length, o, a + b, p + q)
  {
    var t :| Arranges(t, extents) && IsPartOf(disk, t, length, o, a, p);
    var u :| Arranges(u, extents) && IsPartOf(disk, u, length, o + a, b, q);
    hide IsPartOf;
    OneArrangement(t, u, extents);
    PartsCompose(disk, t, length, o, a, b, p, q);
  }

  lemma PartsCompose(
    disk: seq<byte>, t: seq<Extent>, length: nat, o: nat, a: nat, b: nat, p: seq<byte>, q: seq<byte>)
    requires IsPartOf(disk, t, length, o, a, p) && IsPartOf(disk, t, length, o + a, b, q)
    ensures IsPartOf(disk, t, length, o, a + b, p + q)
  {
    hide LastPiece, AllRead;
  }

  // ----- Sorted lists

  /** Without ties there is one way to sort.  */
  lemma {:induction false} OneArrangement(t: seq<Extent>, u: seq<Extent>, extents: seq<Extent>)
    requires Untied(extents) && Arranges(t, extents) && Arranges(u, extents)
    ensures t == u
  {
    PermutedElements(t, extents);
    PermutedElements(u, extents);
    if t != [] {
      SameLast(t, u);
      DropLast(t, u);
      StaysArranged(t, u);
      hide Untied, Arranges, Permuted;
      OneArrangement(t[..|t| - 1], u[..|u| - 1], t[..|t| - 1]);
      SameInitAndLast(t, u);
    }
  }

  lemma StaysArranged(t: seq<Extent>, u: seq<Extent>)
    requires t != [] && u != [] && Untied(t) && SortedByAddress(t) && SortedByAddress(u)
    requires Permuted(t[..|t| - 1], u[..|u| - 1])
    ensures var v := t[..|t| - 1]; Untied(v) && Arranges(v, v) && Arranges(u[..|u| - 1], v)
  {
    assert forall e :: e in t[..|t| - 1] ==> e in t;
  }

  lemma SameLast(t: seq<Extent>, u: seq<Extent>)
    requires t != [] && Untied(t) && SortedByAddress(t) && SortedByAddress(u) && Permuted(t, u)
    ensures |t| == |u| && t[|t| - 1] == u[|u| - 1]
  {
    PermutedElements(t, u);
    var n := |t| - 1;
    assert t[n] in u && u[n] in t;
    var j :| 0 <= j < |u| && u[j] == t[n];
    var i :| 0 <= i < |t| && t[i] == u[n];
    assert u[n].logicalAddress <= t[n].logicalAddress && t[n].logicalAddress <= u[n].logicalAddress;
  }

  lemma DropLast(t: seq<Extent>, u: seq<Extent>)
    requires Permuted(t, u) && |t| == |u| > 0 && t[|t| - 1] == u[|u| - 1]
    ensures Permuted(t[..|t| - 1], u[..|u| - 1])
  {
    assert t == t[..|t| - 1] + [t[|t| - 1]] && u == u[..|u| - 1] + [u[|u| - 1]];
    var x := multiset{t[|t| - 1]};
    assert multiset(t[..|t| - 1]) == multiset(t) - x && multiset(u[..|u| - 1]) == multiset(u) - x;
  }

  /** Sorting by address recovers the one arrangement in file order, whatever the sort does with ties.  */
  lemma SortingFindsFileOrder(t: seq<Extent>, u: seq<Extent>)
    requires SortedByAddress(t) && InFileOrder(u) && Permuted(t, u)
    ensures t == u
  {
    FileOrderIsUntied(u);
    OneArrangement(t, u, u);
  }

  lemma {:induction false} FileOrderAscends(t: seq<Extent>, i: nat, j: nat)
    requires InFileOrder(t) && i < j < |t|
    ensures t[i].logicalAddress + t[i].length <= t[j].logicalAddress
    decreases j
  {
    if i + 1 < j {
      FileOrderAscends(t, i, j - 1);
    }
  }

  lemma FileOrderIsUntied(u: seq<Extent>)
    requires InFileOrder(u)
    ensures Untied(u) && SortedByAddress(u)
  {
    forall i, j | 0 <= i < j < |u| ensures u[i].logicalAddress < u[j].logicalAddress {
      FileOrderAscends(u, i, j);
    }
    forall e, f | e in u && f in u && e.logicalAddress == f.logicalAddress ensures e == f {
      var i :| 0 <= i < |u| && u[i] == e;
      var j :| 0 <= j < |u| && u[j] == f;
    }
  }

  lemma SeparateIsUntied(extents: seq<Extent>, length: nat)
    requires Separate(extents, length)
    ensures Untied(extents)
  {
    var t :| Permuted(t, extents) && InFileOrder(t) && WritesFit(t, length);
    PermutedElements(t, extents);
    FileOrderIsUntied(t);
  }

  lemma SameInitAndLast(t: seq<Extent>, u: seq<Extent>)
    requires |t| == |u| > 0 && t[..|t| - 1] == u[..|u| - 1] && t[|t| - 1] == u[|u| - 1]
    ensures t == u
  {
    assert t == t[..|t| - 1] + [t[|t| - 1]] && u == u[..|u| - 1] + [u[|u| - 1]];
  }

  // ----- Sorting, and the state of the buffer halfway

  function Inserted(s: seq<Extent>, e: Extent): seq<Extent> {
    if s == [] || s[|s| - 1].logicalAddress <= e.logicalAddress then s + [e]
    else Inserted(s[..|s| - 1], e) + [s[|s| - 1]]
  }

  lemma {:induction false} InsertedHasAll(s: seq<Extent>, e: Extent)
    ensures Permuted(Inserted(s, e), s + [e])
  {
    if s != [] && s[|s| - 1].logicalAddress > e.logicalAddress {
      assert s == s[..|s| - 1] + [s[|s| - 1]];
      InsertedHasAll(s[..|s| - 1], e);
    }
  }

  lemma {:induction false} InsertedIsSorted(s: seq<Extent>, e: Extent)
    requires SortedByAddress(s)
    ensures SortedByAddress(Inserted(s, e))
  {
    if s != [] && s[|s| - 1].logicalAddress > e.logicalAddress {
      var init, last := s[..|s| - 1], s[|s| - 1];
      InsertedIsSorted(init, e);
      var r := Inserted(init, e);
      InsertedHasAll(init, e);
      PermutedElements(r, init + [e]);
      forall k | 0 <= k < |r| ensures r[k].logicalAddress <= last.logicalAddress {
        assert r[k] in r && r[k] in init + [e];
      }
    }
  }

  lemma {:induction false} CanBeSorted(extents: seq<Extent>) returns (t: seq<Extent>)
    ensures Arranges(t, extents)
  {
    if extents == [] {
      t := [];
    } else {
      var init, last := extents[..|extents| - 1], extents[|extents| - 1];
      assert extents == init + [last];
      var u := CanBeSorted(init);
      InsertedIsSorted(u, last);
      InsertedHasAll(u, last);
      t := Inserted(u, last);
    }
  }

  function Overlay(buffer: seq<byte>, at: nat, part: seq<byte>): (r: seq<byte>)
    requires at + |part| <= |buffer|
    ensures |r| == |buffer|
    ensures forall k :: 0 <= k < |r| ==> r[k] == if at <= k < at + |part| then part[k - at] else buffer[k]
  {
    buffer[..at] + part + buffer[at + |part|..]
  }

  /** Every byte of the buffer that one of the first m pieces holds is the disk byte of the last of them.  */
  ghost predicate Filled(disk: seq<byte>, t: seq<Extent>, m: nat, buffer: seq<byte>)
    requires m <= |t|
  {
    forall j, k :: 0 <= j < m && 0 <= k < |buffer| && LastPiece(t, m, |buffer|, j, k) ==>
      0 <= DiskPosition(t[j], k) < |disk| && buffer[k] == disk[DiskPosition(t[j], k)]
  }

  /** Where the read of an extent starts: unsigned 64-bit arithmetic.  */
  function DiskOffset(e: Extent): uint64 {
    (VOLUME_BASE + e.physicalBlock * BLOCK_BYTES) % TWO_TO_THE_64
  }

  lemma PieceIsReadInFull(disk: seq<byte>, e: Extent, n: nat)
    requires DiskPosition(e, e.logicalAddress) + n <= |disk| < TWO_TO_THE_63
    ensures var at := DiskPosition(e, e.logicalAddress); Pread(disk, n, DiskOffset(e)) == disk[at..at + n]
  {
  }

  /** Writing piece j extends the filled part by it.  */
  lemma FilledStep(disk: seq<byte>, t: seq<Extent>, j: nat, buffer: seq<byte>, got: seq<byte>)
    requires j < |t| && Filled(disk, t, j, buffer)
    requires |got| == Piece(t, j, |buffer|) && t[j].logicalAddress + |got| <= |buffer|
    requires var off := DiskPosition(t[j], t[j].logicalAddress);
             off + |got| <= |disk| && got == disk[off..off + |got|]
    ensures Filled(disk, t, j + 1, Overlay(buffer, t[j].logicalAddress, got))
  {
    hide Piece, Total;
    var out, m := Overlay(buffer, t[j].logicalAddress, got), j + 1;
    forall i, k | 0 <= i < m && 0 <= k < |out| && LastPiece(t, m, |out|, i, k)
      ensures 0 <= DiskPosition(t[i], k) < |disk| && out[k] == disk[DiskPosition(t[i], k)]
    {
      if i < j {
        assert !InPiece(t, j, |buffer|, k) && LastPiece(t, j, |buffer|, i, k);
      }
    }
    assert Filled(disk, t, m, out);
  }

  /** Halfway: something was read of each of the first j extents.  */
  ghost predicate Progress(disk: seq<byte>, t: seq<Extent>, j: nat, remaining: int, buffer: seq<byte>) {
    && j <= |t| && remaining == Max0(|buffer| - Total(t[..j])) && Filled(disk, t, j, buffer)
    && forall i :: 0 <= i < j ==> Piece(t, i, |buffer|) > 0
  }

  lemma ProgressStart(disk: seq<byte>, t: seq<Extent>, buffer: seq<byte>)
    ensures Progress(disk, t, 0, |buffer|, buffer)
  {
  }

  lemma ProgressStep(disk: seq<byte>, t: seq<Extent>, j: nat, remaining: nat, buffer: seq<byte>, got: seq<byte>)
    requires WritesFit(t, |buffer|) && OnDisk(disk, t, |buffer|) && |disk| < TWO_TO_THE_63
    requires j < |t| && Progress(disk, t, j, remaining, buffer)
    requires got == Pread(disk, Min(t[j].length, remaining), DiskOffset(t[j]))
    ensures got == [] ==> !AllRead(t, |buffer|)
    ensures got != [] ==> t[j].logicalAddress + |got| <= |buffer| && |got| <= remaining
                          && Progress(disk, t, j + 1, remaining - |got|, Overlay(buffer, t[j].logicalAddress, got))
  {
    hide Filled, Total;
    assert t[j] in t;
    NextTotal(t, j);
    if Piece(t, j, |buffer|) > 0 {
      PieceIsReadInFull(disk, t[j], Piece(t, j, |buffer|));
      FilledStep(disk, t, j, buffer, got);
    }
  }

  lemma NextTotal(t: seq<Extent>, j: nat)
    requires j < |t|
    ensures Total(t[..j + 1]) == Total(t[..j]) + t[j].length
  {
    assert t[..j + 1][..j] == t[..j];
  }

  lemma ProgressEnd(disk: seq<byte>, t: seq<Extent>, remaining: nat, buffer: seq<byte>)
    requires Progress(disk, t, |t|, remaining, buffer)
    ensures AllRead(t, |buffer|) && Filled(disk, t, |t|, buffer)
  {
  }

  lemma HoldsNothing(disk: seq<byte>, t: seq<Extent>, length: nat, offset: nat)
    ensures HoldsPieces(disk, t, length, offset, [])
  {
  }

  lemma FilledFrom(disk: seq<byte>, t: seq<Extent>, file: seq<byte>, offset: nat, count: nat, buffer: seq<byte>)
    requires Filled(disk, t, |t|, file) && offset + count <= |file| && count <= |buffer|
    requires forall k :: 0 <= k < count ==> buffer[k] == file[offset + k]
    ensures HoldsPieces(disk, t, |file|, offset, buffer[..count])
  {
    hide LastPiece;
    assert forall k :: offset <= k < offset + count ==> buffer[..count][k - offset] == file[k];
  }

  // ----- Extents without overlap

  /** What comes before an extent takes up no more than the file before it.  */
  lemma {:induction false} TotalIsBefore(t: seq<Extent>, j: nat)
    requires InFileOrder(t) && j < |t|
    ensures Total(t[..j]) <= t[j].logicalAddress
  {
    if j > 0 {
      NextTotal(t, j - 1);
      TotalIsBefore(t, j - 1);
    }
  }

  /** An extent is read as far as the file goes, unless it starts at or after its end.  */
  lemma PieceOfExtent(t: seq<Extent>, j: nat, length: nat)
    requires InFileOrder(t) && WritesFit(t, length) && j < |t|
    ensures Piece(t, j, length) == Min(t[j].length, Max0(length - t[j].logicalAddress))
  {
    TotalIsBefore(t, j);
  }

  lemma SortedIsInFileOrder(sorted: seq<Extent>, extents: seq<Extent>, length: nat)
    requires Separate(extents, length) && Permuted(sorted, extents) && SortedByAddress(sorted)
    ensures InFileOrder(sorted) && WritesFit(sorted, length)
  {
    var t :| Permuted(t, extents) && InFileOrder(t) && WritesFit(t, length);
    SortingFindsFileOrder(sorted, t);
  }

  lemma SeparateIsSafe(extents: seq<Extent>, length: nat)
    requires Separate(extents, length)
    ensures Safe(extents, length)
  {
    hide Separate, WritesFit, Permuted;
    forall t | Permuted(t, extents) && SortedByAddress(t) ensures WritesFit(t, length) {
      SortedIsInFileOrder(t, extents, length);
    }
  }

  /** Without overlap, something is read of every extent exactly when all start inside the file; and then
      the pieces are what the extents contain of it.  */
  lemma PiecesAreExtents(disk: seq<byte>, t: seq<Extent>, length: nat, offset: nat, part: seq<byte>)
    requires InFileOrder(t) && WritesFit(t, length)
    ensures AllRead(t, length) <==> StartInside(t, length)
    ensures offset + |part| <= length && HoldsPieces(disk, t, length, offset, part) ==>
              HoldsFilePart(disk, t, offset, part)
  {
    forall j | 0 <= j < |t| ensures Piece(t, j, length) == Min(t[j].length, Max0(length - t[j].logicalAddress)) {
      PieceOfExtent(t, j, length);
    }
    hide Piece, WritesFit;
    assert forall j :: 0 <= j < |t| ==> t[j] in t;
    if offset + |part| <= length && HoldsPieces(disk, t, length, offset, part) {
      forall e, k | e in t && offset <= k < offset + |part| && Contains(e, k)
        ensures 0 <= DiskPosition(e, k) < |disk| && part[k - offset] == disk[DiskPosition(e, k)]
      {
        var j :| 0 <= j < |t| && t[j] == e;
        LastOfItsKind(t, j, length, k);
      }
    }
  }

  lemma LastOfItsKind(t: seq<Extent>, j: nat, length: nat, k: int)
    requires InFileOrder(t) && j < |t| && Contains(t[j], k) && k < length
    requires Piece(t, j, length) == Min(t[j].length, Max0(length - t[j].logicalAddress))
    ensures LastPiece(t, |t|, length, j, k)
  {
    hide Piece;
    forall i: nat | j < i < |t| ensures !InPiece(t, i, length, k) {
      FileOrderAscends(t, j, i);
    }
  }

  /** A right answer to a read of extents that do not overlap: that part of the file as the extents map it, or
      nothing when some extent starts at or after the file's end.  */
  lemma PiecesAreTheAnswer(
    disk: seq<byte>, extents: seq<Extent>, length: nat, offset: nat, size: nat, part: seq<byte>)
    requires Separate(extents, length) && IsPart(disk, extents, length, offset, size, part)
    ensures |part| == (if StartInside(extents, length) then ReadCount(length, offset, size) else 0)
    ensures HoldsFilePart(disk, extents, offset, part)
  {
    var t :| Arranges(t, extents) && IsPartOf(disk, t, length, offset, size, part);
    SortedIsInFileOrder(t, extents, length);
    PermutedElements(t, extents);
    hide Separate, WritesFit, InFileOrder, Permuted, HoldsPieces, AllRead;
    PiecesAreExtents(disk, t, length, if part == [] then 0 else offset, part);
  }

  lemma StoredOrderIrrelevant(disk: seq<byte>, sorted: seq<Extent>, extents: seq<Extent>, length: nat)
    requires Permuted(sorted, extents) && OnDisk(disk, extents, length)
    ensures OnDisk(disk, sorted, length)
  {
    PermutedElements(sorted, extents);
  }

  /** A single read may be as long as 2^31 - 1 bytes, and no longer.  */
  lemma KnownReadLimit()
    ensures WritesFit([Extent(0, 0, 0x7FFF_FFFF)], 0x7FFF_FFFF)
    ensures !WritesFit([Extent(0, 0, 0x8000_0000)], 0x8000_0000)
  {
    var t, u := [Extent(0, 0, 0x7FFF_FFFF)], [Extent(0, 0, 0x8000_0000)];
    assert t[..0] == [] && u[..0] == [];
    assert Piece(t, 0, 0x7FFF_FFFF) == 0x7FFF_FFFF && Piece(u, 0, 0x8000_0000) == 0x8000_0000;
  }

  // ----- Two overlapping extents, in numbers

  const OVERLAPPING: seq<Extent> := [Extent(0, 0, 4096), Extent(2048, 1, 4096)]

  lemma OverlappingPieces(t: seq<Extent>)
    requires Arranges(t, OVERLAPPING)
    ensures t == OVERLAPPING
    ensures Piece(t, 0, 4096) == 4096 && Piece(t, 1, 4096) == 0
    ensures Piece(t, 0, 6144) == 4096 && Piece(t, 1, 6144) == 2048
  {
    assert Arranges(OVERLAPPING, OVERLAPPING);
    OneArrangement(t, OVERLAPPING, OVERLAPPING);
    assert t[..1][..0] == [] && t[..0] == [];
    assert Total(t[..0]) == 0 && Total(t[..1]) == 4096;
  }

  /** A file of 4096 bytes is used up by the first, so nothing is read.  */
  lemma KnownUsedUp(disk: seq<byte>, part: seq<byte>)
    requires IsPart(disk, OVERLAPPING, 4096, 0, 4096, part)
    ensures part == []
  {
    var t :| Arranges(t, OVERLAPPING) && IsPartOf(disk, t, 4096, 0, 4096, part);
    OverlappingPieces(t);
    hide HoldsPieces;
  }

  /** Of a file of 6144 bytes, the second has only 2048 left to give, and where they overlap it prevails.  */
  lemma KnownOverlap(disk: seq<byte>, part: seq<byte>)
    requires IsPart(disk, OVERLAPPING, 6144, 0, 6144, part)
    ensures |part| == 6144 && 0xC80_6800 <= |disk|
    ensures part[..2048] == disk[0xC80_5000..0xC80_5800] && part[2048..4096] == disk[0xC80_6000..0xC80_6800]
  {
    var t :| Arranges(t, OVERLAPPING) && IsPartOf(disk, t, 6144, 0, 6144, part);
    OverlappingPieces(t);
    assert |part| == 6144;
    hide IsPart, IsPartOf, Piece, Arranges;
    forall k: nat | k < 4096 ensures OverlapPosition(k) < |disk| && part[k] == disk[OverlapPosition(k)] {
      OverlappingByte(disk, t, part, k);
    }
    assert OverlapPosition(4095) < |disk|;
  }

  function OverlapPosition(k: nat): nat { 0xC80_5000 + (if k < 2048 then k else k + 2048) }

  lemma OverlappingByte(disk: seq<byte>, t: seq<Extent>, part: seq<byte>, k: nat)
    requires t == OVERLAPPING && IsPartOf(disk, t, 6144, 0, 6144, part) && |part| == 6144 && k < 4096
    requires Piece(t, 0, 6144) == 4096 && Piece(t, 1, 6144) == 2048
    ensures OverlapPosition(k) < |disk| && part[k] == disk[OverlapPosition(k)]
  {
    hide Piece, AllRead;
    var j := if k < 2048 then 0 else 1;
    assert LastPiece(t, 2, 6144, j, k);
    assert part[k - 0] == disk[DiskPosition(t[j], k)];
  }
}

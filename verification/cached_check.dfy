/** Checking a piece through the write-through cache. */
module CachedCheck {
  import opened TorrentLengths
  import opened FileInfos
  import opened Wrappers
  import opened FileSpace
  import opened FileOperations
  import opened FileOpsProperties
  import opened Streaming
  import opened WriteThroughCache

  /** Byte `j` of file `f` as a read through the cache sees it. */
  function SeenCell(c: Config, s: State, f: nat, j: nat): Cell
    requires c.Valid() && f < |c.fileInfos| == |s.files|
  {
    match PieceAndOffset(c, f, j)
    case None => CellAt(s.files[f], j)
    case Some((p, o)) =>
      var i := Find(s.lru, p);
      if i < |s.lru| && o < |s.lru[i].data| then Some(s.lru[i].data[o]) else CellAt(s.files[f], j)
  }

  /** The files as reads through the cache see them. */
  function Seen(c: Config, s: State): (files: seq<seq<Cell>>)
    requires c.Valid() && |c.fileInfos| == |s.files|
    ensures |files| == |s.files|
    ensures forall f :: 0 <= f < |files| ==> |files[f]| == c.fileInfos[f].len
  {
    seq(|s.files|, f requires 0 <= f < |s.files| =>
      seq(c.fileInfos[f].len, j requires j >= 0 => SeenCell(c, s, f, j)))
  }

  /** All positions of a range inside a piece belong to that piece. */
  lemma SamePiece(c: Config, f: nat, offset: nat, k: nat)
    requires c.Valid() && f < |c.fileInfos| && PieceAndOffset(c, f, offset).Some?
    requires PieceAndOffset(c, f, offset).value.1 + k < c.lengths.PieceLen(PieceAndOffset(c, f, offset).value.0)
    ensures var (p, start) := PieceAndOffset(c, f, offset).value;
            PieceAndOffset(c, f, offset + k) == Some((p, start + k))
  {
    hide Lengths.TotalPieces; hide Lengths.PieceStart; hide ComputeCurrentPiece; hide Lengths.PieceEnd;
    var (p, start) := PieceAndOffset(c, f, offset).value;
    PieceAndOffsetHolds(c, f, offset);
    PieceBounds(c.lengths, p);
    CurrentPieceHolds(c.lengths, offset + k, c.fileInfos[f].offset);
    var q := ComputeCurrentPiece(c.lengths, offset + k, c.fileInfos[f].offset).value.id;
    if q < p { PieceOrder(c.lengths, q, p); }
    if p < q { PieceOrder(c.lengths, p, q); }
  }

  /** A read inside a file and inside a piece is answered as a storage with these files would answer it, and leaves
      them as they are seen. So whatever only reads such ranges, as the check of a piece does, sees these files. */
  lemma ReadSees(c: Config, s: State, f: nat, offset: nat, n: nat)
    requires c.Valid() && Coherent(c, s) && f < |c.fileInfos| == |s.files|
    requires offset + n <= c.fileInfos[f].len && PieceAndOffset(c, f, offset).Some?
    requires var (p, start) := PieceAndOffset(c, f, offset).value; start + n <= c.lengths.PieceLen(p)
    ensures var (r, t) := ReadResult(c, s, f, offset, n);
            r == Underlying(s.(files := Seen(c, s)), f, offset, n) && t.files == s.files && Seen(c, t) == Seen(c, s)
  {
    hide PieceAndOffset; hide Lengths.PieceLen; hide Find; hide Touch; hide EntryOk;
    var (p, start) := PieceAndOffset(c, f, offset).value;
    var i := Find(s.lru, p);
    var cells := CellRange(Seen(c, s)[f], offset, n);
    if i < |s.lru| { EntryShape(c, s, s.lru[i]); }
    forall k | 0 <= k < n
      ensures cells[k] == if i < |s.lru| then Some(s.lru[i].data[start + k]) else CellAt(s.files[f], offset + k)
    {
      SamePiece(c, f, offset, k);
      assert cells[k] == CellAt(Seen(c, s)[f], offset + k) == SeenCell(c, s, f, offset + k);
    }
    if i < |s.lru| {
      assert AllReadable(cells) && Values(cells) == s.lru[i].data[start..start + n];
      TouchSees(c, s, i);
    } else {
      assert cells == CellRange(s.files[f], offset, n);
    }
  }

  lemma TouchSees(c: Config, s: State, i: nat)
    requires c.Valid() && Coherent(c, s) && i < |s.lru| && |c.fileInfos| == |s.files|
    ensures Seen(c, s.(lru := Touch(s.lru, i))) == Seen(c, s)
  {
    hide PieceAndOffset; hide EntryOk; hide Find; hide Touch;
    var t := s.(lru := Touch(s.lru, i));
    forall f, j | 0 <= f < |s.files| && 0 <= j < c.fileInfos[f].len
      ensures SeenCell(c, t, f, j) == SeenCell(c, s, f, j)
    {
      if PieceAndOffset(c, f, j).Some? {
        TouchFinds(s.lru, i, PieceAndOffset(c, f, j).value.0);
      }
    }
    assert forall f :: 0 <= f < |s.files| ==> Seen(c, t)[f] == Seen(c, s)[f];
  }

  /** Moving an entry to the front keeps every entry. */
  lemma TouchFinds(lru: seq<Entry>, i: nat, p: nat)
    requires Distinct(lru) && i < |lru|
    ensures var t, k, m := Touch(lru, i), Find(lru, p), Find(Touch(lru, i), p);
            && (k < |lru| <==> m < |t|)
            && (k < |lru| ==> t[m] == lru[k])
  {
    hide Find;
    var t, k, m := Touch(lru, i), Find(lru, p), Find(Touch(lru, i), p);
    assert forall x :: 0 <= x < |t| ==> t[x] == lru[if x == 0 then i else if x <= i then x - 1 else x];
    if k < |lru| {
      TouchOrder(lru, i, k);
    }
  }

  // ---------- whole pieces ----------

  lemma InOrder(c: Config)
    requires c.Valid() && GoodInfos(c.lengths, c.fileInfos)
    ensures FilesInOrder(c)
  {
    forall f, g | 0 <= f < g < |c.fileInfos|
      ensures c.fileInfos[f].offset + c.fileInfos[f].len <= c.fileInfos[g].offset
    {
      OffsetMonotone(Lens(c.fileInfos), f, g);
    }
  }

  /** What the flat space holds at position `i`, by the file that holds it. */
  lemma Owner(fis: seq<FileInfo>, files: seq<seq<Cell>>, i: nat) returns (f: nat)
    requires |files| == |fis| && i < Sum(Lens(fis))
    ensures f < |fis| && Offset(Lens(fis), f) <= i < Offset(Lens(fis), f) + fis[f].len
    ensures Space(fis, files)[i] == if fis[f].padding then Some(0) else CellAt(files[f], i - Offset(Lens(fis), f))
  {
    hide Flat; hide Offset; hide CellAt;
    f := OwnerExists(Lens(fis), |fis|, i);
    FlatAt(fis, files, |fis|, f);
    var j := i - Offset(Lens(fis), f);
    assert Space(fis, files)[Offset(Lens(fis), f) + j] == FileCells(fis[f], files[f])[j];
  }

  /** Byte `j` of file `f` lies in piece `p` and is not padding. */
  predicate Holds(c: Config, p: nat, f: nat, j: nat) {
    && f < |c.fileInfos| && j < c.fileInfos[f].len && !c.fileInfos[f].padding
    && InPiece(c.lengths, p, c.fileInfos[f].offset + j)
  }

  lemma HeldAt(c: Config, p: nat, f: nat, j: nat)
    requires c.Valid() && GoodInfos(c.lengths, c.fileInfos) && p < c.lengths.TotalPieces() && Holds(c, p, f, j)
    ensures PieceAndOffset(c, f, j) == Some((p, c.fileInfos[f].offset + j - c.lengths.PieceStart(p)))
  {
    hide Lengths.TotalPieces; hide Lengths.PieceStart; hide Lengths.PieceEnd; hide ComputeCurrentPiece; hide Offset;
    OffsetMonotone(Lens(c.fileInfos), f, |c.fileInfos|);
    CurrentPieceHolds(c.lengths, j, c.fileInfos[f].offset);
    var q := ComputeCurrentPiece(c.lengths, j, c.fileInfos[f].offset).value.id;
    if q < p { PieceOrder(c.lengths, q, p); }
    if p < q { PieceOrder(c.lengths, p, q); }
  }

  /** The piece holds the same bytes through the cache as in the files if and only if each of its bytes outside padding
      is seen as it is stored. */
  lemma SeenPiece(c: Config, s: State, p: nat)
    requires c.Valid() && GoodInfos(c.lengths, c.fileInfos) && |c.fileInfos| == |s.files| && p < c.lengths.TotalPieces()
    ensures PieceCells(c.lengths, Space(c.fileInfos, Seen(c, s)), p) ==
            PieceCells(c.lengths, Space(c.fileInfos, s.files), p) <==>
            forall f: nat, j: nat :: Holds(c, p, f, j) ==> SeenCell(c, s, f, j) == CellAt(s.files[f], j)
  {
    hide Lengths.TotalPieces; hide Lengths.PieceStart; hide Lengths.PieceEnd; hide SeenCell; hide Flat; hide Offset;
    var l, fis, start, end := c.lengths, c.fileInfos, c.lengths.PieceStart(p), c.lengths.PieceEnd(p);
    var seen, flat := Space(fis, Seen(c, s)), Space(fis, s.files);
    PieceBounds(l, p);
    assert |seen| == |flat| == l.total;
    assert PieceCells(l, seen, p) == seen[start..end] && PieceCells(l, flat, p) == flat[start..end];
    if forall f: nat, j: nat :: Holds(c, p, f, j) ==> SeenCell(c, s, f, j) == CellAt(s.files[f], j) {
      forall i | start <= i < end ensures seen[i] == flat[i] {
        var f := Owner(fis, s.files, i);
        SeenAt(c, s, f, i - Offset(Lens(fis), f));
        assert !fis[f].padding ==> Holds(c, p, f, i - Offset(Lens(fis), f));
      }
      assert seen[start..end] == flat[start..end];
    } else {
      var f: nat, j: nat :| Holds(c, p, f, j) && SeenCell(c, s, f, j) != CellAt(s.files[f], j);
      SeenAt(c, s, f, j);
      var i := fis[f].offset + j;
      assert seen[i] != flat[i] && start <= i < end;
      assert seen[start..end][i - start] == seen[i] && flat[start..end][i - start] == flat[i];
    }
  }

  lemma SeenAt(c: Config, s: State, f: nat, j: nat)
    requires c.Valid() && GoodInfos(c.lengths, c.fileInfos) && |c.fileInfos| == |s.files|
    requires f < |c.fileInfos| && j < c.fileInfos[f].len
    ensures var fi, i := c.fileInfos[f], c.fileInfos[f].offset + j;
            && fi.offset == Offset(Lens(c.fileInfos), f) && i < Sum(Lens(c.fileInfos))
            && Space(c.fileInfos, s.files)[i] == (if fi.padding then Some(0) else CellAt(s.files[f], j))
            && Space(c.fileInfos, Seen(c, s))[i] == (if fi.padding then Some(0) else SeenCell(c, s, f, j))
  {
    hide SeenCell; hide Flat; hide Offset; hide CellAt;
    var fis := c.fileInfos;
    OffsetMonotone(Lens(fis), f, |fis|);
    FlatAt(fis, s.files, |fis|, f);
    FlatAt(fis, Seen(c, s), |fis|, f);
    assert Space(fis, s.files)[Offset(Lens(fis), f) + j] == FileCells(fis[f], s.files[f])[j];
    assert Space(fis, Seen(c, s))[Offset(Lens(fis), f) + j] == FileCells(fis[f], Seen(c, s)[f])[j];
    CellInside(Seen(c, s)[f], j);
  }

  lemma CellInside(content: seq<Cell>, j: nat)
    requires j < |content|
    ensures CellAt(content, j) == content[j]
  {
  }

  /** A piece that can be read checks alike in two flat spaces, whatever the hash, if and only if both hold the same
      bytes there. */
  lemma ChecksAlike(l: Lengths, a: seq<Cell>, b: seq<Cell>, p: nat)
    requires AllReadable(PieceCells(l, a, p))
    ensures (forall sha1, hashes :: CheckResult(l, a, sha1, hashes, p) == CheckResult(l, b, sha1, hashes, p)) <==>
            PieceCells(l, a, p) == PieceCells(l, b, p)
  {
    hide PieceCells;
    var x, y := PieceCells(l, a, p), PieceCells(l, b, p);
    if x != y {
      var hashes := HashesWith(p, Values(x));
      assert CheckResult(l, a, Telling, hashes, p) == Success(true);
      if AllReadable(y) {
        SameValues(x, y);
      }
      assert CheckResult(l, b, Telling, hashes, p) != Success(true);
    }
  }

  lemma SameValues(x: seq<Cell>, y: seq<Cell>)
    requires AllReadable(x) && AllReadable(y) && x != y
    ensures Values(x) != Values(y)
  {
    if |x| == |y| {
      var i :| 0 <= i < |x| && x[i] != y[i];
      assert Values(x)[i] != Values(y)[i];
    }
  }

  /** A byte of piece `p` was written since the piece entered the cache, or is zero in its file. */
  predicate WrittenOrZero(c: Config, s: State, p: nat, f: nat, j: nat)
    requires p in s.marks && f < |c.fileInfos| == |s.files|
  {
    c.fileInfos[f].offset + j - c.lengths.PieceStart(p) in s.marks[p].written || CellAt(s.files[f], j) == Some(0)
  }

  /** A piece that is not cached checks through the cache as in the files. A cached one without stray bytes does so,
      whatever the hash, if and only if each of its bytes outside padding was written since it entered the cache, or
      is zero: a piece that left the cache between two of its blocks is judged by zeros in place of the first. */
  lemma CachedCheckExact(c: Config, s: State, p: nat)
    requires c.Valid() && GoodInfos(c.lengths, c.fileInfos) && Coherent(c, s) && |c.fileInfos| == |s.files|
    requires p < c.lengths.TotalPieces()
    ensures Find(s.lru, p) == |s.lru| ==>
              PieceCells(c.lengths, Space(c.fileInfos, Seen(c, s)), p) ==
              PieceCells(c.lengths, Space(c.fileInfos, s.files), p)
    ensures Find(s.lru, p) < |s.lru| && p in s.marks && s.marks[p].stray == {} ==>
              ((forall sha1, hashes ::
                  CheckResult(c.lengths, Space(c.fileInfos, Seen(c, s)), sha1, hashes, p) ==
                  CheckResult(c.lengths, Space(c.fileInfos, s.files), sha1, hashes, p))
               <==>
               forall f: nat, j: nat :: Holds(c, p, f, j) ==> WrittenOrZero(c, s, p, f, j))
  {
    hide Lengths.TotalPieces; hide Lengths.PieceStart; hide Lengths.PieceEnd; hide Space; hide PieceAndOffset;
    hide Find;
    hide PieceCells; hide EntryOk; hide Lengths.PieceLen; hide CheckResult; hide GoodInfos;
    InOrder(c);
    PieceBounds(c.lengths, p);
    SeenPiece(c, s, p);
    var i := Find(s.lru, p);
    forall f: nat, j: nat | Holds(c, p, f, j)
      ensures i == |s.lru| ==> SeenCell(c, s, f, j) == CellAt(s.files[f], j)
      ensures i < |s.lru| && p in s.marks && s.marks[p].stray == {} ==>
                (SeenCell(c, s, f, j) == CellAt(s.files[f], j) <==> WrittenOrZero(c, s, p, f, j))
    {
      HeldAt(c, p, f, j);
      if i < |s.lru| && p in s.marks {
        EntryShape(c, s, s.lru[i]);
        var o := c.fileInfos[f].offset + j - c.lengths.PieceStart(p);
        assert HoldsByte(c, p, o, f, j);
        CachedByteIsRight(c, s, i, o, f, j);
      }
    }
    if i < |s.lru| && p in s.marks && s.marks[p].stray == {} {
      CachedIsReadable(c, s, p);
      ChecksAlike(c.lengths, Space(c.fileInfos, Seen(c, s)), Space(c.fileInfos, s.files), p);
    }
  }

  lemma CachedIsReadable(c: Config, s: State, p: nat)
    requires c.Valid() && GoodInfos(c.lengths, c.fileInfos) && Coherent(c, s) && |c.fileInfos| == |s.files|
    requires p < c.lengths.TotalPieces() && Find(s.lru, p) < |s.lru|
    ensures AllReadable(PieceCells(c.lengths, Space(c.fileInfos, Seen(c, s)), p))
  {
    hide Lengths.TotalPieces; hide Lengths.PieceStart; hide Lengths.PieceEnd; hide Flat; hide PieceAndOffset; hide Find;
    hide EntryOk; hide Lengths.PieceLen; hide Offset;
    var l, fis, start, end := c.lengths, c.fileInfos, c.lengths.PieceStart(p), c.lengths.PieceEnd(p);
    var seen := Space(fis, Seen(c, s));
    PieceBounds(l, p);
    assert |seen| == l.total;
    assert PieceCells(l, seen, p) == seen[start..end];
    forall i | start <= i < end ensures seen[i].Some? {
      var f := Owner(fis, s.files, i);
      var j := i - Offset(Lens(fis), f);
      SeenAt(c, s, f, j);
      if !fis[f].padding {
        HeldAt(c, p, f, j);
        EntryShape(c, s, s.lru[Find(s.lru, p)]);
      }
    }
  }
}

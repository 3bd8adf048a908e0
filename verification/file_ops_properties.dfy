/** How the ways of reading, checking and writing a torrent's files agree with each other. */
module FileOpsProperties {
  import opened TorrentLengths
  import opened FileInfos
  import opened Wrappers
  import opened FileSpace
  import opened FileOperations

  // ---------- streaming pass and single checks ----------

  /** No file of the piece failed before the piece started. */
  ghost predicate NothingDropped(lens: seq<nat>, flat: seq<Cell>, start: nat, end: nat) {
    forall i :: start <= i < end ==> !Dropped(lens, flat, start, i)
  }

  lemma {:induction false} FeedIsSlice(lens: seq<nat>, flat: seq<Cell>, start: nat, end: nat)
    requires start <= end <= |flat| && NothingDropped(lens, flat, start, end)
    ensures Feed(lens, flat, start, end) == flat[start..end]
  {
    hide Dropped;
    if start < end {
      assert NothingDropped(lens, flat, start, end - 1);
      FeedIsSlice(lens, flat, start, end - 1);
      assert flat[start..end] == flat[start..end - 1] + [flat[end - 1]];
    }
  }

  /** The streaming pass and the check of a single piece agree on every piece none of whose files
      failed earlier in the pass. */
  lemma StreamAgreesWithCheck(l: Lengths, lens: seq<nat>, flat: seq<Cell>, sha1: seq<byte> -> Digest,
                              hashes: seq<Digest>, p: nat)
    requires l.Valid() && p < l.TotalPieces() && l.total <= |flat|
    requires NothingDropped(lens, flat, l.PieceStart(p), l.PieceEnd(p))
    ensures l.PieceStart(p) <= l.PieceEnd(p) <= |flat|
    ensures Feed(lens, flat, l.PieceStart(p), l.PieceEnd(p)) == flat[l.PieceStart(p)..l.PieceEnd(p)]
    ensures PieceCells(l, flat, p) == flat[l.PieceStart(p)..l.PieceEnd(p)]
    ensures StreamHas(l, lens, flat, sha1, hashes, p) <==> CheckResult(l, flat, sha1, hashes, p) == Success(true)
  {
    hide Feed; hide Values; hide AllReadable; hide NothingDropped;
    PieceBounds(l, p);
    FeedIsSlice(lens, flat, l.PieceStart(p), l.PieceEnd(p));
  }

  /** Without read errors the pass finds exactly the pieces that check out one by one. */
  lemma ReadableStreamAgrees(l: Lengths, lens: seq<nat>, flat: seq<Cell>, sha1: seq<byte> -> Digest,
                             hashes: seq<Digest>, have: seq<bool>)
    requires l.Valid() && l.total <= |flat| && AllReadable(flat)
    requires StreamMarks(l, lens, flat, sha1, hashes, have, l.TotalPieces())
    ensures l.TotalPieces() <= |have|
    ensures forall p :: 0 <= p < l.TotalPieces() ==>
              (have[p] <==> CheckResult(l, flat, sha1, hashes, p) == Success(true))
  {
    RoundUp(l.TotalPieces(), 8);
    forall p | 0 <= p < l.TotalPieces() ensures have[p] <==> CheckResult(l, flat, sha1, hashes, p) == Success(true) {
      StreamAgreesWithCheck(l, lens, flat, sha1, hashes, p);
    }
  }

  // ---------- after a read error ----------

  /** A skipped position makes the feed shorter than the slice; a readable slice has a readable feed. */
  lemma {:induction false} FeedShrinks(lens: seq<nat>, flat: seq<Cell>, start: nat, end: nat)
    requires start <= end <= |flat|
    ensures |Feed(lens, flat, start, end)| <= end - start
    ensures |Feed(lens, flat, start, end)| == end - start <==> NothingDropped(lens, flat, start, end)
    ensures |Feed(lens, flat, start, end)| == 0 <==> AllDropped(lens, flat, start, end)
    ensures AllReadable(flat[start..end]) ==> AllReadable(Feed(lens, flat, start, end))
  {
    hide Dropped; hide AllReadable;
    if start < end {
      FeedShrinks(lens, flat, start, end - 1);
      assert flat[start..end] == flat[start..end - 1] + [flat[end - 1]];
      ReadableConcat(flat[start..end - 1], [flat[end - 1]]);
      var feed := Feed(lens, flat, start, end - 1);
      assert Feed(lens, flat, start, end) == feed || Feed(lens, flat, start, end) == feed + [flat[end - 1]];
      ReadableConcat(feed, [flat[end - 1]]);
    } else {
      FeedEmpty(lens, flat, start);
    }
  }

  /** All files of the piece failed before the piece started. */
  ghost predicate AllDropped(lens: seq<nat>, flat: seq<Cell>, start: nat, end: nat) {
    forall i :: start <= i < end ==> Dropped(lens, flat, start, i)
  }

  /** A hash that tells all inputs apart. */
  function Telling(bytes: seq<byte>): Digest {
    bytes
  }

  /** Hashes of which the one of piece `p` is `digest`. */
  function HashesWith(p: nat, digest: Digest): (hashes: seq<Digest>)
    ensures |hashes| == p + 1 && hashes[p] == digest
  {
    seq(p + 1, _ => digest)
  }

  /** Exactly when the streaming pass and the check of a single piece agree whatever the hash and the
      expected hashes are: no file of the piece failed earlier in the pass, or one fails while the piece
      itself is read. */
  lemma AgreementExact(l: Lengths, lens: seq<nat>, flat: seq<Cell>, p: nat)
    requires l.Valid() && p < l.TotalPieces() && l.total <= |flat|
    ensures (forall sha1, hashes ::
               StreamHas(l, lens, flat, sha1, hashes, p) <==> CheckResult(l, flat, sha1, hashes, p) == Success(true))
            <==>
            NothingDropped(lens, flat, l.PieceStart(p), l.PieceEnd(p)) || !FeedReadable(l, lens, flat, p)
  {
    hide Feed; hide Values; hide AllReadable; hide NothingDropped; hide AllDropped;
    var start, end := l.PieceStart(p), l.PieceEnd(p);
    PieceBounds(l, p);
    FeedShrinks(lens, flat, start, end);
    if NothingDropped(lens, flat, start, end) {
      forall sha1, hashes
        ensures StreamHas(l, lens, flat, sha1, hashes, p) <==> CheckResult(l, flat, sha1, hashes, p) == Success(true)
      {
        StreamAgreesWithCheck(l, lens, flat, sha1, hashes, p);
      }
    } else if FeedReadable(l, lens, flat, p) {
      var hashes := HashesWith(p, Values(Feed(lens, flat, start, end)));
      assert StreamHas(l, lens, flat, Telling, hashes, p);
      assert CheckResult(l, flat, Telling, hashes, p) != Success(true);
    }
  }

  /** Exactly when a piece is judged by the hash of no bytes at all: all its files failed earlier in the
      pass. They are not read again, but the piece is not skipped either. */
  lemma HashedEmptyExact(l: Lengths, lens: seq<nat>, flat: seq<Cell>, p: nat)
    requires l.Valid() && p < l.TotalPieces() && l.total <= |flat|
    ensures (forall sha1: seq<byte> -> Digest, hashes ::
               StreamHas(l, lens, flat, sha1, hashes, p) <==> p < |hashes| && sha1([]) == hashes[p]) <==>
            AllDropped(lens, flat, l.PieceStart(p), l.PieceEnd(p))
  {
    hide Feed; hide NothingDropped; hide AllDropped;
    var start, end := l.PieceStart(p), l.PieceEnd(p);
    PieceBounds(l, p);
    FeedShrinks(lens, flat, start, end);
    if !AllDropped(lens, flat, start, end) {
      var hashes := HashesWith(p, []);
      assert !StreamHas(l, lens, flat, Telling, hashes, p);
      assert Telling([]) == hashes[p];
    }
  }

  /** In particular, such is a piece lying wholly in a file with an unreadable byte before the piece. */
  lemma FailedFileIsHashedEmpty(l: Lengths, lens: seq<nat>, flat: seq<Cell>, sha1: seq<byte> -> Digest,
                                hashes: seq<Digest>,
                                p: nat, f: nat, bad: nat)
    requires l.Valid() && p < l.TotalPieces() && l.total <= |flat| && f < |lens|
    requires Offset(lens, f) <= bad < l.PieceStart(p) && bad < |flat| && flat[bad].None?
    requires l.PieceEnd(p) <= Offset(lens, f) + lens[f]
    ensures StreamHas(l, lens, flat, sha1, hashes, p) <==> p < |hashes| && sha1([]) == hashes[p]
  {
    hide Feed; hide Offset;
    PieceBounds(l, p);
    forall i | l.PieceStart(p) <= i < l.PieceEnd(p) ensures Dropped(lens, flat, l.PieceStart(p), i) {
      assert InFile(lens, f, bad) && InFile(lens, f, i);
      assert SameFile(lens, bad, i);
    }
    HashedEmptyExact(l, lens, flat, p);
  }

  // ---------- writing and reading back ----------

  predicate PaddingAt(fis: seq<FileInfo>, i: nat) {
    exists f :: 0 <= f < |fis| && fis[f].padding && InFile(Lens(fis), f, i)
  }

  /** Every file that is not padding is stored in full length. */
  predicate Allocated(fis: seq<FileInfo>, files: seq<seq<Cell>>) {
    |files| == |fis| && forall f :: 0 <= f < |fis| && !fis[f].padding ==> fis[f].len <= |files[f]|
  }

  /** The gap that a write opens in file `f`: the cells between the end of the stored file and the first
      written one. */
  predicate InGap(fi: FileInfo, o: nat, content: seq<Cell>, off: nat, data: seq<byte>, i: nat) {
    !fi.padding && |data| > 0 && |content| <= i && o + i < off < o + fi.len
  }

  lemma PartAt(data: seq<byte>, from: nat, to: nat, k: nat)
    requires from <= to <= |data| && k < to - from
    ensures Part(data, from, to)[k] == data[from + k]
  {
  }

  lemma WrittenAtCell(fi: FileInfo, o: nat, content: seq<Cell>, off: nat, data: seq<byte>, i: nat)
    requires i < fi.len
    ensures CellAt(WrittenAt(fi, o, content, off, data), i) ==
            if off <= o + i < off + |data| && !fi.padding then Some(data[o + i - off])
            else if InGap(fi, o, content, off, data, i) then Some(0)
            else CellAt(content, i)
  {
    hide Written; hide CellAt; hide Part;
    var from, to := Max(off, o), Min(off + |data|, o + fi.len);
    if !fi.padding && from < to {
      WrittenCell(content, from - o, Part(data, from - off, to - off), i);
      if from <= o + i < to {
        PartAt(data, from - off, to - off, o + i - from);
      }
    }
  }

  lemma WrittenFileCell(fis: seq<FileInfo>, f: nat, content: seq<Cell>, off: nat, data: seq<byte>, i: nat)
    requires f < |fis| && i < fis[f].len
    ensures var o := Offset(Lens(fis), f);
            FileCells(fis[f], WrittenFile(fis, f, content, off, data))[i] ==
            if off <= o + i < off + |data| && !fis[f].padding then Some(data[o + i - off])
            else if InGap(fis[f], o, content, off, data, i) then Some(0)
            else FileCells(fis[f], content)[i]
  {
    hide Offset; hide FileCells; hide CellAt; hide WrittenAt; hide InGap;
    WrittenAtCell(fis[f], Offset(Lens(fis), f), content, off, data, i);
    FileCellIs(fis[f], content, i);
    FileCellIs(fis[f], WrittenFile(fis, f, content, off, data), i);
    if fis[f].padding {
      PaddingHasNoGap(fis[f], Offset(Lens(fis), f), content, off, data, i);
    }
  }

  lemma PaddingHasNoGap(fi: FileInfo, o: nat, content: seq<Cell>, off: nat, data: seq<byte>, i: nat)
    requires fi.padding
    ensures !InGap(fi, o, content, off, data, i)
  {
  }

  lemma FileCellIs(fi: FileInfo, content: seq<Cell>, i: nat)
    requires i < fi.len
    ensures FileCells(fi, content)[i] == if fi.padding then Some(0) else CellAt(content, i)
  {
  }

  /** Position `i` lies in the gap of the file that holds it. */
  predicate GapAt(fis: seq<FileInfo>, files: seq<seq<Cell>>, off: nat, data: seq<byte>, i: nat)
    requires |files| == |fis|
  {
    exists f :: 0 <= f < |fis| && InFile(Lens(fis), f, i) && GapOf(fis, files, off, data, i, f)
  }

  predicate GapOf(fis: seq<FileInfo>, files: seq<seq<Cell>>, off: nat, data: seq<byte>, i: nat, f: nat)
    requires f < |fis| == |files| && InFile(Lens(fis), f, i)
  {
    InGap(fis[f], Offset(Lens(fis), f), files[f], off, data, i - Offset(Lens(fis), f))
  }

  /** Writing a block replaces exactly its bytes in the flat space. Padding is not changed, and a file
      that is stored shorter than the block's position in it is filled with zeros up to there. */
  lemma WriteIsSplice(fis: seq<FileInfo>, before: seq<seq<Cell>>, after: seq<seq<Cell>>, off: nat, data: seq<byte>)
    requires WrittenAll(fis, before, after, off, data)
    ensures forall i :: 0 <= i < Sum(Lens(fis)) ==>
              Space(fis, after)[i] ==
              if off <= i < off + |data| && !PaddingAt(fis, i) then Some(data[i - off])
              else if GapAt(fis, before, off, data, i) then Some(0)
              else Space(fis, before)[i]
    ensures forall i :: 0 <= i < Sum(Lens(fis)) && GapAt(fis, before, off, data, i) ==>
              i < off && Space(fis, before)[i] == None
  {
    hide Flat; hide FileCells; hide WrittenFile; hide Offset; hide PaddingAt; hide GapAt; hide InGap;
    forall i | 0 <= i < Sum(Lens(fis))
      ensures Space(fis, after)[i] ==
              if off <= i < off + |data| && !PaddingAt(fis, i) then Some(data[i - off])
              else if GapAt(fis, before, off, data, i) then Some(0)
              else Space(fis, before)[i]
      ensures GapAt(fis, before, off, data, i) ==> i < off && Space(fis, before)[i] == None
    {
      var f := OwnerExists(Lens(fis), |fis|, i);
      var j := i - Offset(Lens(fis), f);
      FlatAt(fis, before, |fis|, f);
      FlatAt(fis, after, |fis|, f);
      WrittenFileCell(fis, f, before[f], off, data, j);
      assert Space(fis, after)[Offset(Lens(fis), f) + j] == FileCells(fis[f], after[f])[j];
      assert Space(fis, before)[Offset(Lens(fis), f) + j] == FileCells(fis[f], before[f])[j];
      OnePadding(fis, f, i);
      OneGap(fis, before, off, data, f, i);
    }
  }

  lemma OneGap(fis: seq<FileInfo>, files: seq<seq<Cell>>, off: nat, data: seq<byte>, f: nat, i: nat)
    requires f < |fis| == |files| && InFile(Lens(fis), f, i)
    ensures GapAt(fis, files, off, data, i) <==>
            InGap(fis[f], Offset(Lens(fis), f), files[f], off, data, i - Offset(Lens(fis), f))
    ensures GapAt(fis, files, off, data, i) ==> i < off && FileCells(fis[f], files[f])[i - Offset(Lens(fis), f)] == None
  {
    hide Offset;
    if GapAt(fis, files, off, data, i) {
      var g :| 0 <= g < |fis| && InFile(Lens(fis), g, i) && GapOf(fis, files, off, data, i, g);
      InOneFile(Lens(fis), f, g, i);
    } else {
      assert !GapOf(fis, files, off, data, i, f);
    }
  }

  /** With files stored in full length there are no gaps: the block is spliced in and nothing else changes. */
  lemma FullFilesAreSpliced(fis: seq<FileInfo>, before: seq<seq<Cell>>, after: seq<seq<Cell>>, off: nat,
                            data: seq<byte>)
    requires Allocated(fis, before) && WrittenAll(fis, before, after, off, data)
    ensures forall i :: 0 <= i < Sum(Lens(fis)) ==>
              Space(fis, after)[i] ==
              if off <= i < off + |data| && !PaddingAt(fis, i) then Some(data[i - off]) else Space(fis, before)[i]
    ensures Allocated(fis, after)
  {
    hide Flat; hide FileCells; hide WrittenFile; hide Offset; hide PaddingAt;
    WriteIsSplice(fis, before, after, off, data);
    forall f | 0 <= f < |fis| && !fis[f].padding ensures fis[f].len <= |after[f]| {
      WrittenKeepsLength(fis, f, before[f], off, data);
    }
  }

  lemma WrittenKeepsLength(fis: seq<FileInfo>, f: nat, content: seq<Cell>, off: nat, data: seq<byte>)
    requires f < |fis|
    ensures |WrittenFile(fis, f, content, off, data)| >= |content|
  {
    hide Offset;
  }

  lemma OnePadding(fis: seq<FileInfo>, f: nat, i: nat)
    requires f < |fis| && InFile(Lens(fis), f, i)
    ensures PaddingAt(fis, i) <==> fis[f].padding
  {
    if PaddingAt(fis, i) {
      var g :| 0 <= g < |fis| && fis[g].padding && InFile(Lens(fis), g, i);
      InOneFile(Lens(fis), f, g, i);
    }
  }

  lemma PaddingReadsZero(fis: seq<FileInfo>, files: seq<seq<Cell>>, i: nat)
    requires |files| == |fis| && i < Sum(Lens(fis)) && PaddingAt(fis, i)
    ensures Space(fis, files)[i] == Some(0)
  {
    hide Flat; hide Offset;
    var f :| 0 <= f < |fis| && fis[f].padding && InFile(Lens(fis), f, i);
    FlatAt(fis, files, |fis|, f);
    var j := i - Offset(Lens(fis), f);
    assert Space(fis, files)[Offset(Lens(fis), f) + j] == FileCells(fis[f], files[f])[j] == Some(0);
  }

  /** Reading back a written block, with a buffer of its size, succeeds and returns it with the
      bytes that fall into padding replaced by zeros. */
  lemma ReadBackWritten(fis: seq<FileInfo>, before: seq<seq<Cell>>, after: seq<seq<Cell>>, off: nat, data: seq<byte>)
    requires WrittenAll(fis, before, after, off, data) && off + |data| <= Sum(Lens(fis))
    ensures var cells := Slice(Space(fis, after), off, off + |data|);
            && AllReadable(cells)
            && Values(cells) ==
               seq(|data|, i requires 0 <= i < |data| => if PaddingAt(fis, off + i) then 0 else data[i])
  {
    hide Space; hide PaddingAt; hide Offset; hide WrittenFile; hide GapAt;
    var flat, cells := Space(fis, after), Slice(Space(fis, after), off, off + |data|);
    WriteIsSplice(fis, before, after, off, data);
    forall i | 0 <= i < |data| ensures cells[i] == Some(if PaddingAt(fis, off + i) then 0 else data[i]) {
      assert cells[i] == flat[off + i];
      if PaddingAt(fis, off + i) {
        PaddingReadsZero(fis, after, off + i);
      }
    }
  }

  // ---------- chunks of pieces ----------

  /** Different chunks are different bytes of the torrent. */
  lemma ChunksApart(l: Lengths, p: nat, k: nat, q: nat, j: nat)
    requires l.Valid() && p < l.TotalPieces() && q < l.TotalPieces() && (p, k) != (q, j)
    requires l.ChunkLen(p, k) > 0 && l.ChunkLen(q, j) > 0
    ensures l.ChunkAt(p, k) + l.ChunkLen(p, k) <= l.ChunkAt(q, j) ||
            l.ChunkAt(q, j) + l.ChunkLen(q, j) <= l.ChunkAt(p, k)
  {
    hide Lengths.TotalPieces; hide Lengths.PieceStart; hide Lengths.PieceEnd; hide Lengths.PieceLen;
    PieceStartIsProduct(l, p);
    PieceStartIsProduct(l, q);
    PieceBounds(l, p);
    PieceBounds(l, q);
    if p < q { PieceOrder(l, p, q); }
    if q < p { PieceOrder(l, q, p); }
  }

  /** Writing a chunk, or a first part of it, leaves what reading any other chunk returns, if that could be read
      or the files are stored in full length. */
  lemma OtherChunkStays(l: Lengths, fis: seq<FileInfo>, before: seq<seq<Cell>>, after: seq<seq<Cell>>, p: nat, k: nat,
                        data: seq<byte>, q: nat, j: nat)
    requires l.Valid() && p < l.TotalPieces() && q < l.TotalPieces() && (p, k) != (q, j)
    requires 0 < l.ChunkLen(q, j) && |data| <= l.ChunkLen(p, k) && |before| == |fis|
    requires WrittenAll(fis, before, after, l.ChunkAt(p, k), data)
    ensures var at, n := l.ChunkAt(q, j), l.ChunkLen(q, j);
            var was := Slice(Space(fis, before), at, at + n);
            AllReadable(was) || Allocated(fis, before) ==> Slice(Space(fis, after), at, at + n) == was
  {
    hide Lengths.TotalPieces; hide Lengths.ChunkAt; hide Lengths.ChunkLen; hide Space; hide PaddingAt; hide GapAt;
    hide WrittenFile;
    var off, at, n := l.ChunkAt(p, k), l.ChunkAt(q, j), l.ChunkLen(q, j);
    var flat, flat' := Space(fis, before), Space(fis, after);
    var was, now := Slice(flat, at, at + n), Slice(flat', at, at + n);
    if |data| > 0 {
      ChunksApart(l, p, k, q, j);
    }
    WriteIsSplice(fis, before, after, off, data);
    if Allocated(fis, before) {
      FullFilesAreSpliced(fis, before, after, off, data);
    }
    if AllReadable(was) || Allocated(fis, before) {
      assert |flat| == |flat'| == Sum(Lens(fis));
      forall i | 0 <= i < |was| ensures now[i] == was[i] {
        assert was[i] == flat[at + i] && now[i] == flat'[at + i];
      }
    }
  }

  // ---------- what a check says ----------

  /** Checking a piece tells three cases apart: a byte of it cannot be read; it has no hash; or its bytes either have
      the expected hash or not. */
  lemma CheckMeans(l: Lengths, flat: seq<Cell>, sha1: seq<byte> -> Digest, hashes: seq<Digest>, p: nat, start: nat,
                   end: nat)
    requires l.Valid() && p < l.TotalPieces() && |flat| == l.total
    requires start == p * l.pieceLength && end == Min(start + l.pieceLength, l.total)
    ensures start < end <= |flat|
    ensures var r := CheckResult(l, flat, sha1, hashes, p);
            && (r == Failure(ReadError) <==> exists i :: start <= i < end && flat[i].None?)
            && (r == Failure(NoHash) <==> p >= |hashes| && forall i :: start <= i < end ==> flat[i].Some?)
            && (r == Success(true) <==> AllReadable(flat[start..end]) && p < |hashes| &&
                                        sha1(Values(flat[start..end])) == hashes[p])
            && (r == Success(false) <==> AllReadable(flat[start..end]) && p < |hashes| &&
                                         sha1(Values(flat[start..end])) != hashes[p])
  {
    hide Lengths.TotalPieces; hide Lengths.PieceStart;
    PieceStartIsProduct(l, p);
    PieceBounds(l, p);
    assert PieceCells(l, flat, p) == flat[start..end];
    assert forall i :: start <= i < end ==> flat[i] == flat[start..end][i - start];
  }
}

/** The chunk tracker itself: bitfields, per-file counters and totals, updated in place. */
module ChunkTracking {
  import opened TorrentLengths
  import opened FileInfos
  import opened Wrappers
  import opened TrackerSpec

  datatype TrackerError = BitfieldTooShort | BitfieldSizesDiffer | ZeroShift

  /** One bit per chunk, set for the chunks of had pieces. */
  method ComputeChunkHaveStatus(l: Lengths, havePieces: seq<bool>) returns (r: Result<seq<bool>, TrackerError>)
    requires l.Valid()
    ensures if |havePieces| < l.TotalPieces() then r == Failure(BitfieldTooShort) else r.Success?
    ensures r.Success? ==>
              && |r.value| == l.ChunkBits()
              && forall c :: 0 <= c < |r.value| ==> r.value[c] == HadChunk(l, havePieces, l.TotalPieces(), c)
  {
    if |havePieces| < l.TotalPieces() {
      return Failure(BitfieldTooShort);
    }
    var bits := seq(l.ChunkBits(), _ => false);
    for p := 0 to l.TotalPieces()
      invariant |bits| == l.ChunkBits()
      invariant forall c :: 0 <= c < |bits| ==> bits[c] == HadChunk(l, havePieces, p, c)
    {
      ChunkRangesDisjoint(l, p, p);
      ghost var before := bits;
      if havePieces[p] {
        bits := FillRange(bits, l.ChunkStart(p), l.ChunkEnd(p), true);
      }
      forall c | 0 <= c < |bits| ensures bits[c] == HadChunk(l, havePieces, p + 1, c) {
        assert HadChunk(l, havePieces, p + 1, c) <==>
               HadChunk(l, havePieces, p, c) || (l.IsChunkOf(p, c) && havePieces[p]);
      }
    }
    return Success(bits);
  }

  /** Selected and missing. */
  method ComputeQueuedPieces(havePieces: seq<bool>, selectedPieces: seq<bool>)
    returns (r: Result<seq<bool>, TrackerError>)
    ensures r == if |havePieces| != |selectedPieces| then Failure(BitfieldSizesDiffer)
                 else Success(Needed(havePieces, selectedPieces))
  {
    if |havePieces| != |selectedPieces| {
      return Failure(BitfieldSizesDiffer);
    }
    var queued := seq(|havePieces|, i requires 0 <= i < |havePieces| => !havePieces[i] && selectedPieces[i]);
    assert queued == Needed(havePieces, selectedPieces);
    return Success(queued);
  }

  class ChunkTracker {
    var queuePieces: seq<bool>
    var chunkStatus: seq<bool>
    var have: seq<bool>
    var selected: seq<bool>
    var perFileBytes: seq<nat>
    const lengths: Lengths
    var hns: Hns

    ghost function Contents(): State
      reads this
    {
      State(have, selected, queuePieces, chunkStatus, perFileBytes, hns)
    }

    ghost predicate WellShaped()
      reads this
    {
      Shape(lengths, Contents())
    }

    ghost predicate Valid()
      reads this
    {
      WellShaped() && InSync(lengths, Contents())
    }

    constructor (queuePieces: seq<bool>, chunkStatus: seq<bool>, have: seq<bool>, selected: seq<bool>,
                 lengths: Lengths, files: nat)
      ensures Contents() == State(have, selected, queuePieces, chunkStatus, seq(files, _ => 0), Hns(0, 0, 0))
      ensures this.lengths == lengths
    {
      this.queuePieces := queuePieces;
      this.chunkStatus := chunkStatus;
      this.have := have;
      this.selected := selected;
      this.perFileBytes := seq(files, _ => 0);
      this.lengths := lengths;
      this.hns := Hns(0, 0, 0);
    }

    static method New(havePieces: seq<bool>, selectedPieces: seq<bool>, l: Lengths, fis: seq<FileInfo>)
      returns (r: Result<ChunkTracker, TrackerError>)
      requires l.Valid() && RangesInside(fis, |havePieces|)
      ensures if |havePieces| != |selectedPieces| then r == Failure(BitfieldSizesDiffer)
              else if |havePieces| < l.TotalPieces() then r == Failure(BitfieldTooShort)
              else r.Success?
      ensures r.Success? ==>
                && fresh(r.value) && r.value.lengths == l && r.value.Valid()
                && Fresh(l, fis, havePieces, selectedPieces, r.value.Contents())
    {
      var queued := ComputeQueuedPieces(havePieces, selectedPieces);
      if queued.Failure? {
        return Failure(queued.error);
      }
      var chunks := ComputeChunkHaveStatus(l, havePieces);
      if chunks.Failure? {
        return Failure(chunks.error);
      }
      var ct := new ChunkTracker(queued.value, chunks.value, havePieces, selectedPieces, l, |fis|);
      ct.RecalculatePerFileBytes(fis);
      var totals := ct.CalcHns();
      ct.hns := totals;
      return Success(ct);
    }

    method RecalculatePerFileBytes(fis: seq<FileInfo>)
      requires |perFileBytes| == |fis| && RangesInside(fis, |have|)
      modifies this`perFileBytes
      ensures |perFileBytes| == |fis|
      ensures forall f :: 0 <= f < |fis| ==> perFileBytes[f] == RangeHave(lengths, fis[f], have, fis[f].pieceEnd)
    {
      for f := 0 to |fis|
        invariant |perFileBytes| == |fis|
        invariant forall g :: 0 <= g < f ==> perFileBytes[g] == RangeHave(lengths, fis[g], have, fis[g].pieceEnd)
      {
        var fi := fis[f];
        var sum := 0;
        for p := fi.pieceStart to fi.pieceEnd
          invariant sum == RangeHave(lengths, fi, have, p)
        {
          if have[p] {
            sum := sum + lengths.SizeOfPieceInFile(p, fi.offset, fi.len);
          }
        }
        perFileBytes := perFileBytes[f := sum];
      }
    }

    method CalcHns() returns (totals: Hns)
      requires WellShaped()
      ensures totals == HnsUpTo(lengths, have, selected, lengths.TotalPieces())
    {
      totals := Hns(0, 0, 0);
      for id := 0 to lengths.TotalPieces()
        invariant totals == HnsUpTo(lengths, have, selected, id)
      {
        totals := AddPiece(totals, lengths.PieceLen(id), have[id], selected[id]);
      }
    }

    method ReserveNeededPiece(p: nat)
      requires WellShaped() && p < lengths.TotalPieces()
      modifies this`queuePieces
      ensures Contents() == Reserve(old(Contents()), p)
    {
      queuePieces := queuePieces[p := false];
    }

    method MarkPieceBrokenIfNotHave(p: nat)
      requires WellShaped() && p < lengths.TotalPieces()
      modifies this`queuePieces, this`chunkStatus
      ensures Contents() == MarkBroken(lengths, old(Contents()), p)
    {
      if have[p] {
        return;
      }
      ChunkRangesDisjoint(lengths, p, p);
      queuePieces := queuePieces[p := true];
      chunkStatus := FillRange(chunkStatus, lengths.ChunkStart(p), lengths.ChunkEnd(p), false);
    }

    method MarkPieceDownloaded(p: nat)
      requires Valid() && p < lengths.TotalPieces()
      modifies this`have, this`hns
      ensures NoUnderflow(lengths, old(Contents()), p)
      ensures Contents() == MarkDownloaded(lengths, old(Contents()), p)
    {
      if !have[p] {
        if selected[p] {
          NeededCovers(lengths, have, selected, p, lengths.TotalPieces());
        }
        have := have[p := true];
        var len := lengths.PieceLen(p);
        hns := hns.(haveBytes := hns.haveBytes + len);
        if selected[p] {
          hns := hns.(neededBytes := hns.neededBytes - len);
        }
      }
    }

    method MarkChunkDownloaded(index: nat, begin: nat, blockLen: nat) returns (r: Option<ChunkMarkingResult>)
      requires WellShaped()
      modifies this`chunkStatus
      ensures (Contents(), r) == MarkChunk(lengths, old(Contents()), index, begin, blockLen)
    {
      if index >= lengths.TotalPieces() {
        return None;
      }
      var chunk := ChunkOfBlock(lengths, index, begin, blockLen);
      if chunk.None? {
        return None;
      }
      ChunkRangesDisjoint(lengths, index, index);
      var from, to := lengths.ChunkStart(index), lengths.ChunkEnd(index);
      if AllInRange(chunkStatus, from, to) {
        return Some(PreviouslyCompleted);
      }
      chunkStatus := chunkStatus[from + chunk.value := true];
      if AllInRange(chunkStatus, from, to) {
        return Some(Completed);
      }
      return Some(NotCompleted);
    }

    /** Decide a piece whose last byte the walk has just passed. */
    method DecidePiece(p: nat, touched: bool, totals: Hns, ghost s0: State, ghost want: seq<bool>)
      returns (totals': Hns)
      requires WellShaped() && Shape(lengths, s0) && p < lengths.TotalPieces() == |want| && touched == want[p]
      requires UpdatedUpTo(lengths, s0, want, p, Contents())
      requires totals == HnsUpTo(lengths, have, selected, p)
      modifies this`queuePieces, this`chunkStatus, this`selected
      ensures WellShaped() && UpdatedUpTo(lengths, s0, want, p + 1, Contents())
      ensures totals' == HnsUpTo(lengths, have, selected, p + 1)
    {
      totals' := AddPiece(totals, lengths.PieceLen(p), have[p], touched);
      ghost var s1 := Contents();
      selected := selected[p := touched];
      if touched && !have[p] {
        MarkPieceBrokenIfNotHave(p);
      } else if !touched && !have[p] {
        queuePieces := queuePieces[p := false];
      }
      UpdatedOneMore(lengths, s0, want, p, s1, Contents());
      HnsPrefix(lengths, s1.have, s1.selected, have, selected, p);
    }

    /** Walk over `shift` bytes of one file; a piece is decided when its last byte is passed. */
    method Advance(w: Walk, shift: nat, fileRequired: bool, ghost pos: nat, ghost s0: State, ghost want: seq<bool>)
      returns (w': Walk)
      requires WellShaped() && Shape(lengths, s0) && |want| == lengths.TotalPieces()
      requires Walked(lengths, s0, want, pos, w, Contents())
      requires 0 < shift <= w.remaining
      requires shift == w.remaining ==> want[w.piece] == (w.touched || fileRequired)
      modifies this`queuePieces, this`chunkStatus, this`selected
      ensures WellShaped() && Walked(lengths, s0, want, pos + shift, w', Contents())
      ensures if w'.piece == w.piece then w'.touched == (w.touched || fileRequired)
              else !w'.touched && lengths.PieceStart(w'.piece) == pos + shift
    {
      hide Lengths.ChunkBits; hide Lengths.PieceLen; hide Lengths.TotalPieces; hide HnsUpTo; hide UpdatedUpTo;
      CursorAdvance(lengths, pos, w, shift);
      assert shift < U32_LIMIT;  // the narrowing conversion cannot fail
      w' := w.(touched := w.touched || fileRequired, remaining := w.remaining - shift);
      if w'.remaining == 0 {
        var totals := DecidePiece(w.piece, w'.touched, w.totals, s0, want);
        w' := w'.(totals := totals);
        if w.piece != lengths.TotalPieces() - 1 {
          w' := Walk(w.piece + 1, lengths.PieceLen(w.piece + 1), false, totals);
        }
      }
    }

    /** Re-select the pieces of the chosen files by walking pieces and files side by side. */
    method UpdateOnlyFiles(fileLengths: seq<nat>, onlyFiles: set<nat>) returns (r: Result<Hns, TrackerError>)
      requires WellShaped()
      modifies this`queuePieces, this`chunkStatus, this`selected, this`hns
      ensures WellShaped()
      ensures Reselected(lengths, old(Contents()), fileLengths, onlyFiles, Contents())
      ensures r == if Sum(fileLengths) > lengths.total then Failure(ZeroShift) else Success(hns)
    {
      hide Lengths.ChunkBits; hide HnsUpTo; hide UpdatedUpTo; hide Wanted; hide CoveredPieces; hide Touches;
      ghost var s0 := Contents();
      ghost var want := Wanted(lengths, fileLengths, onlyFiles);
      ghost var pos := 0;   // bytes walked over
      WalkStart(lengths, s0, want);
      var w := Walk(0, lengths.PieceLen(0), false, Hns(0, 0, 0));
      TouchesNothing(fileLengths, onlyFiles, 0);

      var idx := 0;
      while idx < |fileLengths|
        invariant idx <= |fileLengths| && pos == Offset(fileLengths, idx)
        invariant WellShaped() && hns == s0.hns
        invariant Walked(lengths, s0, want, pos, w, Contents())
        invariant w.touched == Touches(fileLengths, onlyFiles, lengths.PieceStart(w.piece), pos)
      {
        var fileRequired := idx in onlyFiles;
        var remainingFile: nat := fileLengths[idx];
        while remainingFile > 0
          invariant remainingFile <= fileLengths[idx] &&
                      pos == Offset(fileLengths, idx) + fileLengths[idx] - remainingFile
          invariant WellShaped() && hns == s0.hns
          invariant Walked(lengths, s0, want, pos, w, Contents())
          invariant w.touched == Touches(fileLengths, onlyFiles, lengths.PieceStart(w.piece), pos)
        {
          var shift: nat := Min(w.remaining, remainingFile);
          if shift == 0 {
            WalkPastTheEnd(lengths, s0, fileLengths, onlyFiles, idx, pos, w, Contents());
            return Failure(ZeroShift);
          }
          WalkTouches(lengths, fileLengths, onlyFiles, pos, w, idx, shift);
          w := Advance(w, shift, fileRequired, pos, s0, want);
          remainingFile := remainingFile - shift;
          pos := pos + shift;
          TouchesNothing(fileLengths, onlyFiles, pos);
        }
        idx := idx + 1;
      }
      WalkAtEnd(lengths, s0, fileLengths, onlyFiles, w, Contents());
      hns := w.totals;
      return Success(hns);
    }

    predicate IsFileFinished(fi: FileInfo)
      reads this
    {
      // a range outside the bitfield counts as finished
      fi.pieceStart <= fi.pieceEnd <= |have| ==> AllInRange(have, fi.pieceStart, fi.pieceEnd)
    }

    method UpdateFileHaveOnPieceCompleted(p: nat, fileId: nat, fi: FileInfo) returns (remaining: nat)
      requires fileId < |perFileBytes|
      modifies this`perFileBytes
      ensures Contents() == CountPiece(lengths, old(Contents()), p, fileId, fi)
      ensures remaining == Max(0, fi.len - perFileBytes[fileId])
    {
      var diffHave := lengths.SizeOfPieceInFile(p, fi.offset, fi.len);
      perFileBytes := perFileBytes[fileId := perFileBytes[fileId] + diffHave];
      return Max(0, fi.len - perFileBytes[fileId]);
    }

    /** The file-counter part of the live torrent's `on_piece_completed`: skip the files before
        the piece, then update files for as long as they contain it. */
    method OnPieceCompleted(p: nat, fis: seq<FileInfo>)
      requires |perFileBytes| == |fis|
      modifies this`perFileBytes
      ensures Contents() == CountCompleted(lengths, fis, old(Contents()), p)
    {
      ghost var s0 := Contents();
      var idx := 0;
      while idx < |fis| && !fis[idx].InRange(p)
        invariant idx <= |fis| && FirstInRange(fis, p, 0) == FirstInRange(fis, p, idx)
      {
        idx := idx + 1;
      }
      ghost var first := idx;
      while idx < |fis| && fis[idx].InRange(p)
        invariant first <= idx <= |fis| && |perFileBytes| == |fis|
        invariant EndOfRun(fis, p, first) == EndOfRun(fis, p, idx)
        invariant Contents() == s0.(perFile := perFileBytes)
        invariant forall f :: 0 <= f < |fis| ==>
                    perFileBytes[f] == s0.perFile[f] +
                      if first <= f < idx then lengths.SizeOfPieceInFile(p, fis[f].offset, fis[f].len) else 0
      {
        var _ := UpdateFileHaveOnPieceCompleted(p, idx, fis[idx]);
        idx := idx + 1;
      }
    }
  }

  // ---------- the walk of UpdateOnlyFiles ----------

  /** The piece cursor: the current piece, how much of it is left, whether a chosen file
      touched it so far, and the totals of the pieces already decided. */
  datatype Walk = Walk(piece: nat, remaining: nat, touched: bool, totals: Hns) {
    /** Once the last piece is complete its remaining length stays 0, and it counts as decided. */
    function Decided(): nat {
      if remaining > 0 then piece else piece + 1
    }
  }

  /** The piece cursor agrees with the position `pos` in the flat space. */
  ghost predicate Cursor(l: Lengths, pos: nat, w: Walk)
    requires l.Valid()
  {
    && w.piece < l.TotalPieces()
    && pos + w.remaining == l.PieceEnd(w.piece)
    && l.PieceStart(w.piece) <= pos
    && (w.remaining == 0 ==> w.piece + 1 == l.TotalPieces())
  }

  ghost predicate Walked(l: Lengths, s0: State, want: seq<bool>, pos: nat, w: Walk, s: State)
    requires Shape(l, s0) && Shape(l, s) && |want| == l.TotalPieces()
  {
    && Cursor(l, pos, w)
    && UpdatedUpTo(l, s0, want, w.Decided(), s)
    && w.totals == HnsUpTo(l, s.have, s.selected, w.Decided())
  }

  lemma CursorAdvance(l: Lengths, pos: nat, w: Walk, shift: nat)
    requires l.Valid() && Cursor(l, pos, w) && 0 < shift <= w.remaining
    ensures shift < U32_LIMIT
    ensures var w1 := w.(remaining := w.remaining - shift);
            if shift < w.remaining || w.piece == l.TotalPieces() - 1 then Cursor(l, pos + shift, w1)
            else
              && Cursor(l, pos + shift, w.(piece := w.piece + 1, remaining := l.PieceLen(w.piece + 1)))
              && l.PieceLen(w.piece + 1) > 0
              && l.PieceStart(w.piece + 1) == pos + shift
  {
    PieceBounds(l, w.piece);
    if w.piece + 1 < l.TotalPieces() {
      PieceBounds(l, w.piece + 1);
    }
  }

  lemma TouchesNothing(lens: seq<nat>, chosen: set<nat>, a: nat)
    ensures !Touches(lens, chosen, a, a)
  {
  }

  /** Walking on inside file `idx` touches exactly that file. */
  lemma TouchesExtend(lens: seq<nat>, chosen: set<nat>, a: nat, pos: nat, pos': nat, idx: nat)
    requires idx < |lens| && Offset(lens, idx) <= pos < pos' <= Offset(lens, idx) + lens[idx]
    requires a <= pos
    ensures Touches(lens, chosen, a, pos') <==> Touches(lens, chosen, a, pos) || idx in chosen
  {
    hide Offset;
    if Touches(lens, chosen, a, pos') {
      var f :| 0 <= f < |lens| && f in chosen && FileShare(lens, f, a, pos') > 0;
      if f < idx {
        OffsetMonotone(lens, f, idx);
      } else if f > idx {
        OffsetMonotone(lens, idx, f);
      }
    }
    if Touches(lens, chosen, a, pos) {
      var f :| 0 <= f < |lens| && f in chosen && FileShare(lens, f, a, pos) > 0;
      assert FileShare(lens, f, a, pos') > 0;
    }
    if idx in chosen {
      assert FileShare(lens, idx, a, pos') > 0;
    }
  }

  /** Deciding piece `p` extends the updated prefix by one. */
  lemma UpdatedOneMore(l: Lengths, s0: State, want: seq<bool>, p: nat, s1: State, s2: State)
    requires Shape(l, s0) && p < l.TotalPieces() == |want| && Shape(l, s1)
    requires UpdatedUpTo(l, s0, want, p, s1)
    requires s2 == var t := s1.(selected := s1.selected[p := want[p]]);
                   if s0.have[p] then t
                   else if want[p] then MarkBroken(l, t, p)
                   else t.(queue := t.queue[p := false])
    ensures UpdatedUpTo(l, s0, want, p + 1, s2)
  {
    ChunkRangesDisjoint(l, p, p);
    forall c | 0 <= c < |s0.chunks|
      ensures s2.chunks[c] == (s0.chunks[c] && !ChunkCleared(l, s0.have, want, p + 1, c))
    {
      assert ChunkCleared(l, s0.have, want, p + 1, c) <==>
             ChunkCleared(l, s0.have, want, p, c) || (l.IsChunkOf(p, c) && !s0.have[p] && want[p]);
    }
  }

  /** Totals of the first `k` pieces, extended by piece `k`, whose selection just changed. */
  lemma HnsPrefix(l: Lengths, have: seq<bool>, selected: seq<bool>, have': seq<bool>, selected': seq<bool>, k: nat)
    requires |have| == |selected| == |selected'| && k < |have|
    requires have' == have && selected' == selected[k := selected'[k]]
    ensures HnsUpTo(l, have, selected, k) == HnsUpTo(l, have', selected', k)
  {
    BytesPrefix(l, selected, selected', k);
    BytesPrefix(l, Needed(have, selected), Needed(have', selected'), k);
  }

  /** If the last piece is full and bytes remain, the files are longer than the torrent. */
  lemma WalkPastTheEnd(l: Lengths, s0: State, lens: seq<nat>, chosen: set<nat>, idx: nat, pos: nat, w: Walk, s: State)
    requires Shape(l, s0) && Shape(l, s) && Walked(l, s0, Wanted(l, lens, chosen), pos, w, s) && w.remaining == 0
    requires idx < |lens| && pos < Offset(lens, idx) + lens[idx]
    requires s.hns == s0.hns
    ensures Sum(lens) > l.total && Reselected(l, s0, lens, chosen, s)
  {
    PieceBounds(l, w.piece);
    OffsetMonotone(lens, idx, |lens|);
    CoveredPiecesIs(l, Sum(lens), l.TotalPieces(), 0);
  }

  /** What `shift` more bytes of file `idx` touch, inside the current piece. */
  lemma WalkTouches(l: Lengths, lens: seq<nat>, chosen: set<nat>, pos: nat, w: Walk, idx: nat, shift: nat)
    requires l.Valid() && Cursor(l, pos, w) && idx < |lens| && 0 < shift <= w.remaining
    requires Offset(lens, idx) <= pos && pos + shift <= Offset(lens, idx) + lens[idx]
    requires w.touched == Touches(lens, chosen, l.PieceStart(w.piece), pos)
    ensures Touches(lens, chosen, l.PieceStart(w.piece), pos + shift) == (w.touched || idx in chosen)
    ensures shift == w.remaining ==> Wanted(l, lens, chosen)[w.piece] == (w.touched || idx in chosen)
  {
    TouchesExtend(lens, chosen, l.PieceStart(w.piece), pos, pos + shift, idx);
  }

  lemma WalkStart(l: Lengths, s: State, want: seq<bool>)
    requires Shape(l, s) && |want| == l.TotalPieces()
    ensures Walked(l, s, want, 0, Walk(0, l.PieceLen(0), false, Hns(0, 0, 0)), s)
    ensures l.PieceStart(0) == 0
  {
    FirstPiece(l);
  }

  lemma WalkAtEnd(l: Lengths, s0: State, lens: seq<nat>, chosen: set<nat>, w: Walk, s: State)
    requires Shape(l, s0) && Shape(l, s) && Walked(l, s0, Wanted(l, lens, chosen), Sum(lens), w, s)
    ensures Sum(lens) <= l.total && Reselected(l, s0, lens, chosen, s.(hns := w.totals))
  {
    PieceBounds(l, w.piece);
    if w.Decided() > 0 {
      PieceBounds(l, w.Decided() - 1);
    }
    CoveredPiecesIs(l, Sum(lens), w.Decided(), 0);
  }
}

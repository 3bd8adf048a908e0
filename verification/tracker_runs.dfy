/** What holds in every state a chunk tracker can reach. */
module TrackerRuns {
  import opened TorrentLengths
  import opened FileInfos
  import opened TrackerSpec

  /** One call on the tracker. `Complete` is the pair `mark_piece_downloaded`, `on_piece_completed`
      that a verified piece goes through. */
  datatype Op =
    | OpReserve(p: nat)
    | OpBroken(p: nat)
    | OpChunk(index: nat, begin: nat, blockLen: nat)
    | OpDownloaded(p: nat)
    | OpSelect(chosen: set<nat>)
    | OpComplete(p: nat)

  ghost predicate Step(l: Lengths, fis: seq<FileInfo>, s: State, op: Op, t: State)
    requires l.Valid()
  {
    && Shape(l, s) && |s.perFile| == |fis|
    && match op
       case OpReserve(p) => p < l.TotalPieces() && t == Reserve(s, p)
       case OpBroken(p) => p < l.TotalPieces() && t == MarkBroken(l, s, p)
       case OpChunk(index, begin, blockLen) => t == MarkChunk(l, s, index, begin, blockLen).0
       case OpDownloaded(p) => p < l.TotalPieces() && NoUnderflow(l, s, p) && t == MarkDownloaded(l, s, p)
       case OpSelect(chosen) => Reselected(l, s, Lens(fis), chosen, t)
       case OpComplete(p) =>
         p < l.TotalPieces() && NoUnderflow(l, s, p) && t == CountCompleted(l, fis, MarkDownloaded(l, s, p), p)
  }

  /** `trace` is a run of the operations `ops`. */
  ghost predicate Run(l: Lengths, fis: seq<FileInfo>, trace: seq<State>, ops: seq<Op>)
    requires l.Valid()
  {
    |trace| == |ops| + 1 && forall i :: 0 <= i < |ops| ==> Step(l, fis, trace[i], ops[i], trace[i + 1])
  }

  // ---------- the totals ----------

  lemma {:induction false} BytesSet(l: Lengths, a: seq<bool>, b: seq<bool>, p: nat, k: nat)
    requires p < |a| && k <= |a| && !a[p] && b == a[p := true]
    ensures Bytes(l, b, k) == Bytes(l, a, k) + if p < k then l.PieceLen(p) else 0
  {
    if k > 0 {
      BytesSet(l, a, b, p, k - 1);
    }
  }

  lemma DownloadedKeepsSync(l: Lengths, s: State, p: nat)
    requires Shape(l, s) && InSync(l, s) && p < l.TotalPieces()
    ensures NoUnderflow(l, s, p)
    ensures InSync(l, MarkDownloaded(l, s, p))
  {
    hide Lengths.PieceLen;
    if !s.have[p] {
      var n, have' := l.TotalPieces(), s.have[p := true];
      BytesSet(l, s.have, have', p, n);
      if s.selected[p] {
        NeededCovers(l, s.have, s.selected, p, n);
        assert Needed(s.have, s.selected) == Needed(have', s.selected)[p := true];
        BytesSet(l, Needed(have', s.selected), Needed(s.have, s.selected), p, n);
      } else {
        assert Needed(s.have, s.selected) == Needed(have', s.selected);
      }
    }
  }

  lemma CoveredAll(l: Lengths, bytes: nat)
    requires l.Valid() && bytes >= l.total
    ensures CoveredPieces(l, bytes) == l.TotalPieces()
  {
    FirstPiece(l);
    PieceBounds(l, l.TotalPieces() - 1);
    CoveredPiecesIs(l, bytes, l.TotalPieces(), 0);
  }

  /** Every operation keeps the totals equal to what recomputing them from the bitfields gives. */
  lemma StepKeepsSync(l: Lengths, fis: seq<FileInfo>, s: State, op: Op, t: State)
    requires l.Valid() && GoodInfos(l, fis) && Step(l, fis, s, op, t) && InSync(l, s)
    ensures Shape(l, t) && InSync(l, t) && |t.perFile| == |fis|
  {
    hide Lengths.ChunkBits;
    match op
    case OpDownloaded(p) => DownloadedKeepsSync(l, s, p);
    case OpComplete(p) => DownloadedKeepsSync(l, s, p);
    case OpSelect(chosen) => CoveredAll(l, Sum(Lens(fis)));
    case _ =>
  }

  /** In every state of every run the totals are in sync, so completing a piece never
      underflows the needed bytes. */
  lemma {:induction false} TotalsAlwaysInSync(l: Lengths, fis: seq<FileInfo>, trace: seq<State>, ops: seq<Op>, i: nat)
    requires l.Valid() && GoodInfos(l, fis) && Run(l, fis, trace, ops) && i < |trace|
    requires Shape(l, trace[0]) && InSync(l, trace[0]) && |trace[0].perFile| == |fis|
    ensures Shape(l, trace[i]) && InSync(l, trace[i]) && |trace[i].perFile| == |fis|
    ensures forall p :: 0 <= p < l.TotalPieces() ==> NoUnderflow(l, trace[i], p)
  {
    if i > 0 {
      TotalsAlwaysInSync(l, fis, trace, ops, i - 1);
      StepKeepsSync(l, fis, trace[i - 1], ops[i - 1], trace[i]);
    }
    forall p | 0 <= p < l.TotalPieces() ensures NoUnderflow(l, trace[i], p) {
      DownloadedKeepsSync(l, trace[i], p);
    }
  }

  function Both(a: seq<bool>, b: seq<bool>): seq<bool>
    requires |a| == |b|
  {
    seq(|a|, i requires 0 <= i < |a| => a[i] && b[i])
  }

  lemma {:induction false} BytesSplit(l: Lengths, have: seq<bool>, selected: seq<bool>, k: nat)
    requires |have| == |selected| && k <= |have|
    ensures Bytes(l, Needed(have, selected), k) + Bytes(l, Both(have, selected), k) == Bytes(l, selected, k)
  {
    if k > 0 {
      BytesSplit(l, have, selected, k - 1);
    }
  }

  lemma {:induction false} BytesBounds(l: Lengths, bits: seq<bool>, k: nat)
    requires l.Valid() && k <= l.TotalPieces() && k <= |bits|
    ensures Bytes(l, bits, k) <= l.total && (k > 0 ==> Bytes(l, bits, k) <= l.PieceEnd(k - 1))
    ensures Bytes(l, bits, k) == 0 <==> forall p :: 0 <= p < k ==> !bits[p]
  {
    if k > 0 {
      BytesBounds(l, bits, k - 1);
      PieceBounds(l, k - 1);
      if k > 1 {
        PieceBounds(l, k - 2);
      }
    }
  }

  /** What synchronised totals mean: progress counts the had selected pieces, and the torrent
      is finished exactly when every selected piece is had. */
  lemma TotalsMeaning(l: Lengths, s: State)
    requires Shape(l, s) && InSync(l, s)
    ensures s.hns.neededBytes <= s.hns.selectedBytes <= l.total && s.hns.haveBytes <= l.total
    ensures s.hns.Progress() == Bytes(l, Both(s.have, s.selected), l.TotalPieces())
    ensures s.hns.Finished() <==> forall p :: 0 <= p < l.TotalPieces() && s.selected[p] ==> s.have[p]
  {
    var n := l.TotalPieces();
    BytesSplit(l, s.have, s.selected, n);
    BytesBounds(l, s.selected, n);
    BytesBounds(l, s.have, n);
    var needed := Needed(s.have, s.selected);
    BytesBounds(l, needed, n);
    assert forall p :: 0 <= p < n ==> needed[p] == (s.selected[p] && !s.have[p]);
  }

  // ---------- the queue ----------

  /** Queued pieces are selected and missing. */
  ghost predicate QueueDisciplined(l: Lengths, s: State)
    requires Shape(l, s)
  {
    forall p :: 0 <= p < l.TotalPieces() && s.queue[p] ==> s.selected[p] && !s.have[p]
  }

  /** When an operation keeps the queue disciplined: a completed piece must have been reserved,
      and only a selected piece may be put back. */
  ghost predicate QueueGuard(l: Lengths, s: State, op: Op)
    requires Shape(l, s)
  {
    match op
    case OpDownloaded(p) => p < l.TotalPieces() ==> s.have[p] || !s.queue[p]
    case OpComplete(p) => p < l.TotalPieces() ==> s.have[p] || !s.queue[p]
    case OpBroken(p) => p < l.TotalPieces() ==> s.have[p] || s.selected[p]
    case _ => true
  }

  /** The guard is exact: it holds if and only if the operation keeps the discipline. */
  lemma QueueGuardExact(l: Lengths, fis: seq<FileInfo>, s: State, op: Op, t: State)
    requires l.Valid() && GoodInfos(l, fis) && Step(l, fis, s, op, t) && Shape(l, t) && QueueDisciplined(l, s)
    ensures QueueDisciplined(l, t) <==> QueueGuard(l, s, op)
  {
    hide Lengths.ChunkBits; hide Lengths.PieceLen; hide HnsUpTo; hide FillRange;
    match op
    case OpReserve(p) =>
    case OpBroken(p) =>
      if !s.have[p] { assert t.queue[p] && t.selected[p] == s.selected[p]; }
    case OpChunk(_, _, _) =>
    case OpDownloaded(p) =>
      if !s.have[p] { assert t.queue[p] == s.queue[p] && t.have[p]; }
    case OpSelect(chosen) => CoveredAll(l, Sum(Lens(fis)));
    case OpComplete(p) =>
      if !s.have[p] { assert t.queue[p] == s.queue[p] && t.have[p]; }
  }

  /** A reserved piece is no longer offered, and completing it keeps the discipline. */
  lemma ReservedPieceCompletes(l: Lengths, fis: seq<FileInfo>, s: State, p: nat, t: State)
    requires l.Valid() && GoodInfos(l, fis) && Shape(l, s) && QueueDisciplined(l, s) && p < l.TotalPieces()
    requires Step(l, fis, Reserve(s, p), OpComplete(p), t)
    ensures !Reserve(s, p).queue[p] && forall q :: 0 <= q < |s.queue| && q != p ==> Reserve(s, p).queue[q] == s.queue[q]
    ensures Shape(l, t) && QueueDisciplined(l, t)
  {
    hide Lengths.ChunkBits; hide Lengths.PieceLen; hide HnsUpTo;
    QueueGuardExact(l, fis, Reserve(s, p), OpComplete(p), t);
  }

  // ---------- chunk bits ----------

  /** Every had piece has all its chunk bits set. */
  ghost predicate HadPiecesFull(l: Lengths, s: State)
    requires Shape(l, s)
  {
    forall p, c :: 0 <= p < l.TotalPieces() && 0 <= c < |s.chunks| && s.have[p] && l.IsChunkOf(p, c) ==> s.chunks[c]
  }

  /** All chunks of the piece have arrived. */
  ghost predicate IsFull(l: Lengths, s: State, p: nat)
    requires Shape(l, s)
  {
    forall c :: 0 <= c < |s.chunks| && l.IsChunkOf(p, c) ==> s.chunks[c]
  }

  /** A piece must be complete before it is marked as had. */
  ghost predicate ChunkGuard(l: Lengths, s: State, op: Op)
    requires Shape(l, s)
  {
    match op
    case OpDownloaded(p) => p < l.TotalPieces() && !s.have[p] ==> IsFull(l, s, p)
    case OpComplete(p) => p < l.TotalPieces() && !s.have[p] ==> IsFull(l, s, p)
    case _ => true
  }

  lemma ChunkOwnerUnique(l: Lengths, p: nat, q: nat, c: nat)
    requires l.Valid() && p < l.TotalPieces() && q < l.TotalPieces() && l.IsChunkOf(p, c) && l.IsChunkOf(q, c)
    ensures p == q
  {
    ChunkRangesDisjoint(l, p, q);
    ChunkRangesDisjoint(l, q, p);
  }

  /** Clearing the chunks of missing pieces leaves the had pieces full. */
  lemma ClearedMissing(l: Lengths, s: State, t: State)
    requires Shape(l, s) && Shape(l, t) && HadPiecesFull(l, s) && t.have == s.have
    requires forall c :: 0 <= c < |s.chunks| && s.chunks[c] && !t.chunks[c] ==>
               exists q :: 0 <= q < l.TotalPieces() && !s.have[q] && l.IsChunkOf(q, c)
    ensures HadPiecesFull(l, t)
  {
    hide Lengths.ChunkBits; hide Lengths.IsChunkOf;
    forall p, c | 0 <= p < l.TotalPieces() && 0 <= c < |t.chunks| && t.have[p] && l.IsChunkOf(p, c)
      ensures t.chunks[c]
    {
      if !t.chunks[c] {
        var q :| 0 <= q < l.TotalPieces() && !s.have[q] && l.IsChunkOf(q, c);
        ChunkOwnerUnique(l, p, q, c);
      }
    }
  }

  lemma ChunkGuardExact(l: Lengths, fis: seq<FileInfo>, s: State, op: Op, t: State)
    requires l.Valid() && GoodInfos(l, fis) && Step(l, fis, s, op, t) && Shape(l, t) && HadPiecesFull(l, s)
    ensures HadPiecesFull(l, t) <==> ChunkGuard(l, s, op)
  {
    hide Lengths.ChunkBits; hide Lengths.PieceLen; hide HnsUpTo; hide Wanted;
    match op
    case OpReserve(p) =>
    case OpBroken(p) =>
      ChunkRangesDisjoint(l, p, p);
      if !s.have[p] {
        forall c | 0 <= c < |s.chunks| && s.chunks[c] && !t.chunks[c]
          ensures exists q :: 0 <= q < l.TotalPieces() && !s.have[q] && l.IsChunkOf(q, c)
        {
          assert l.IsChunkOf(p, c);
        }
        ClearedMissing(l, s, t);
      }
    case OpChunk(_, _, _) =>
    case OpDownloaded(p) =>
      if !s.have[p] { assert t.have[p]; }
    case OpSelect(chosen) =>
      CoveredAll(l, Sum(Lens(fis)));
      ClearedMissing(l, s, t);
    case OpComplete(p) =>
      if !s.have[p] { assert t.have[p]; }
  }

  /** Over every run whose operations respect the two guards, queued pieces are selected and
      missing, and had pieces are full. */
  lemma {:induction false} GuardedRuns(l: Lengths, fis: seq<FileInfo>, trace: seq<State>, ops: seq<Op>, i: nat)
    requires l.Valid() && GoodInfos(l, fis) && Run(l, fis, trace, ops) && i < |trace|
    requires |trace[0].have| == |trace[0].selected| >= l.TotalPieces()
    requires Fresh(l, fis, trace[0].have, trace[0].selected, trace[0])
    requires forall j :: 0 <= j < i ==>
               Shape(l, trace[j]) && QueueGuard(l, trace[j], ops[j]) && ChunkGuard(l, trace[j], ops[j])
    ensures Shape(l, trace[i]) && QueueDisciplined(l, trace[i]) && HadPiecesFull(l, trace[i])
  {
    hide Lengths.ChunkBits;
    TotalsAlwaysInSync(l, fis, trace, ops, i);
    if i > 0 {
      GuardedRuns(l, fis, trace, ops, i - 1);
      QueueGuardExact(l, fis, trace[i - 1], ops[i - 1], trace[i]);
      ChunkGuardExact(l, fis, trace[i - 1], ops[i - 1], trace[i]);
    }
  }
}

/** A torrent while it is downloaded from many peers: reserving and stealing pieces, writing blocks, checking
    complete pieces, and when all this keeps what is had verified. */
module LiveDownloads {
  import opened TorrentLengths
  import opened FileInfos
  import opened Wrappers
  import opened FileSpace
  import opened FileOperations
  import opened TrackerSpec
  import opened TrackerCounters
  import opened TrackerQueue
  import opened ChunkTracking
  import opened Streaming
  import Downloads = StreamDownloads

  type Peer = nat

  // ---------- what the lock protects ----------

  /** The tracker and which peer each piece in flight is expected from. */
  datatype Locked = Locked(tracker: State, inflight: map<nat, Peer>)

  /** The first of the pieces that the peer has. */
  function FirstIn(ids: seq<nat>, bitfield: seq<bool>): (r: Option<nat>)
    ensures r.Some? ==> r.value in ids && r.value < |bitfield| && bitfield[r.value]
    ensures r.None? ==> forall p :: p in ids ==> !(p < |bitfield| && bitfield[p])
  {
    if |ids| == 0 then None
    else if ids[0] < |bitfield| && bitfield[ids[0]] then Some(ids[0])
    else FirstIn(ids[1..], bitfield)
  }

  /** The pieces that streams ask for, without those that are had or in flight. */
  function Wanting(l: Lengths, s: Locked, streamed: seq<nat>): (r: seq<nat>)
    requires l.Valid() && l.TotalPieces() <= |s.tracker.have|
    ensures forall p :: p in r <==> p in streamed && p < l.TotalPieces() && !s.tracker.have[p] && p !in s.inflight
  {
    if |streamed| == 0 then []
    else
      var rest := Wanting(l, s, streamed[1..]);
      assert streamed == [streamed[0]] + streamed[1..];
      if streamed[0] < l.TotalPieces() && !s.tracker.have[streamed[0]] && streamed[0] !in s.inflight
      then [streamed[0]] + rest else rest
  }

  ghost predicate Tracks(l: Lengths, fis: seq<FileInfo>, s: State) {
    Shape(l, s) && |s.perFile| == |fis| && RangesInside(fis, |s.queue|)
  }

  /** The first queued piece that the peer has, file by file. `Failure` is the overflow in the piece order of a file
      that the search comes to. */
  function FirstQueued(l: Lengths, fis: seq<FileInfo>, s: State, priorities: seq<nat>, bitfield: seq<bool>)
    : Result<Option<nat>, ()>
    requires l.Valid() && l.TotalPieces() <= |s.queue| && |s.perFile| == |fis| && RangesInside(fis, |s.queue|)
  {
    if |priorities| == 0 then Success(None)
    else match QueuedOfFile(l, fis, s, priorities[0])
      case None => Failure(())
      case Some(ids) =>
        if FirstIn(ids, bitfield).Some? then Success(FirstIn(ids, bitfield))
        else FirstQueued(l, fis, s, priorities[1..], bitfield)
  }

  /** The piece that `reserve_next_needed_piece` takes for a peer, if any: pieces for streams first, then the
      queue. The queue is not filtered. */
  ghost function NextPiece(l: Lengths, fis: seq<FileInfo>, priorities: seq<nat>, s: Locked, streamed: seq<nat>,
                           bitfield: seq<bool>): (r: Result<Option<nat>, ()>)
    requires Tracks(l, fis, s.tracker)
  {
    var first := FirstIn(Wanting(l, s, streamed), bitfield);
    if first.Some? then Success(first) else FirstQueued(l, fis, s.tracker, priorities, bitfield)
  }

  class TorrentStateLocked {
    const chunks: ChunkTracker
    const fileInfos: seq<FileInfo>
    const filePriorities: seq<nat>
    var inflightPieces: map<nat, Peer>

    ghost function Contents(): Locked
      reads this, chunks
    {
      Locked(chunks.Contents(), inflightPieces)
    }

    ghost predicate Valid()
      reads this, chunks
    {
      Tracks(chunks.lengths, fileInfos, chunks.Contents()) && InSync(chunks.lengths, chunks.Contents())
    }

    constructor (chunks: ChunkTracker, fileInfos: seq<FileInfo>, filePriorities: seq<nat>)
      ensures this.chunks == chunks && this.fileInfos == fileInfos && this.filePriorities == filePriorities
      ensures Contents() == Locked(chunks.Contents(), map[])
    {
      this.chunks := chunks;
      this.fileInfos := fileInfos;
      this.filePriorities := filePriorities;
      this.inflightPieces := map[];
    }

    method ReserveNextNeededPiece(peer: Peer, streamed: seq<nat>, bitfield: seq<bool>)
      returns (r: Result<Option<nat>, ()>)
      requires Valid() && this as object != chunks
      modifies this, chunks
      ensures r == NextPiece(chunks.lengths, fileInfos, filePriorities, old(Contents()), streamed, bitfield)
      ensures r.Success? && r.value.Some? ==>
                && r.value.value < chunks.lengths.TotalPieces()
                && chunks.Contents() == Reserve(old(chunks.Contents()), r.value.value)
                && inflightPieces == old(inflightPieces)[r.value.value := peer]
      ensures r.Failure? || r.value.None? ==> Contents() == old(Contents())
    {
      hide RangesInside; hide InSync; hide Lengths.TotalPieces; hide Lengths.ChunkBits; hide NextPiece;
      r := FindNextPiece(streamed, bitfield);
      NextIsPiece(chunks.lengths, fileInfos, filePriorities, Contents(), streamed, bitfield);
      if r.Success? && r.value.Some? {
        inflightPieces := inflightPieces[r.value.value := peer];
        chunks.ReserveNeededPiece(r.value.value);
      }
    }

    method FindNextPiece(streamed: seq<nat>, bitfield: seq<bool>) returns (r: Result<Option<nat>, ()>)
      requires Valid()
      ensures r == NextPiece(chunks.lengths, fileInfos, filePriorities, Contents(), streamed, bitfield)
    {
      hide InSync; hide Lengths.TotalPieces; hide QueuedOfFile; hide FirstIn; hide Wanting; hide RangesInside;
      var first := FirstStreamed(streamed, bitfield);
      if first.Some? {
        return Success(first);
      }
      var tracker := State(chunks.have, chunks.selected, chunks.queuePieces, chunks.chunkStatus, chunks.perFileBytes,
                           chunks.hns);
      ghost var all := FirstQueued(chunks.lengths, fileInfos, tracker, filePriorities, bitfield);
      assert filePriorities[0..] == filePriorities;
      for i := 0 to |filePriorities|
        invariant FirstQueued(chunks.lengths, fileInfos, tracker, filePriorities[i..], bitfield) == all
      {
        assert filePriorities[i..][1..] == filePriorities[i + 1..];
        var queued := QueuedOfFile(chunks.lengths, fileInfos, tracker, filePriorities[i]);
        if queued.None? {
          return Failure(());
        }
        var n := FirstIn(queued.value, bitfield);
        if n.Some? {
          return Success(n);
        }
      }
      return Success(None);
    }

    method FirstStreamed(streamed: seq<nat>, bitfield: seq<bool>) returns (n: Option<nat>)
      requires Valid()
      ensures n == FirstIn(Wanting(chunks.lengths, Contents(), streamed), bitfield)
    {
      hide InSync; hide Lengths.TotalPieces; hide FirstIn; hide Wanting;
      ghost var l, s := chunks.lengths, Contents();
      assert streamed[0..] == streamed;
      for i := 0 to |streamed|
        invariant FirstIn(Wanting(l, s, streamed), bitfield) == FirstIn(Wanting(l, s, streamed[i..]), bitfield)
      {
        var p := streamed[i];
        FirstStep(l, s, streamed, i, bitfield);
        if p < chunks.lengths.TotalPieces() && !chunks.have[p] && p !in inflightPieces {
          if p < |bitfield| && bitfield[p] {
            return Some(p);
          }
        }
      }
      NothingWanted(l, s, streamed, bitfield);
      return None;
    }

    /** A faster peer takes over a piece in flight. */
    method Steal(p: nat, peer: Peer)
      requires p in inflightPieces
      modifies this
      ensures Contents() == old(Contents()).(inflight := old(inflightPieces)[p := peer])
    {
      inflightPieces := inflightPieces[p := peer];
    }

    /** May the peer write a block of the piece, or was the piece stolen or completed? */
    method MayWrite(p: nat, peer: Peer) returns (ok: bool)
      ensures ok <==> p in inflightPieces && inflightPieces[p] == peer
    {
      ok := p in inflightPieces && inflightPieces[p] == peer;
    }

    /** A block has been written. A piece that it completes is not in flight any more. */
    method ChunkStored(p: nat, begin: nat, blockLen: nat) returns (r: Option<ChunkMarkingResult>)
      requires Valid() && this as object != chunks
      modifies this, chunks
      ensures r == MarkChunk(chunks.lengths, old(chunks.Contents()), p, begin, blockLen).1
      ensures Contents() == AfterStored(chunks.lengths, old(Contents()), p, begin, blockLen)
    {
      r := chunks.MarkChunkDownloaded(p, begin, blockLen);
      if r == Some(Completed) {
        inflightPieces := inflightPieces - {p};
      }
    }

    /** A complete piece has been checked: it is had and counted, or put back. */
    method PieceChecked(p: nat, ok: bool)
      requires Valid() && p < chunks.lengths.TotalPieces()
      modifies chunks
      ensures NoUnderflow(chunks.lengths, old(chunks.Contents()), p)
      ensures chunks.Contents() ==
              var l, s := chunks.lengths, old(chunks.Contents());
              if ok then CountCompleted(l, fileInfos, MarkDownloaded(l, s, p), p) else MarkBroken(l, s, p)
    {
      TrackerRuns.DownloadedKeepsSync(chunks.lengths, chunks.Contents(), p);
      if ok {
        chunks.MarkPieceDownloaded(p);
        chunks.OnPieceCompleted(p, fileInfos);
      } else {
        chunks.MarkPieceBrokenIfNotHave(p);
      }
    }
  }

  lemma FirstStep(l: Lengths, s: Locked, streamed: seq<nat>, i: nat, bitfield: seq<bool>)
    requires l.Valid() && l.TotalPieces() <= |s.tracker.have| && i < |streamed|
    ensures FirstIn(Wanting(l, s, streamed[i..]), bitfield) ==
            var p := streamed[i];
            if p < l.TotalPieces() && !s.tracker.have[p] && p !in s.inflight && p < |bitfield| && bitfield[p]
            then Some(p)
            else FirstIn(Wanting(l, s, streamed[i + 1..]), bitfield)
  {
    hide Lengths.TotalPieces;
    var rest := Wanting(l, s, streamed[i + 1..]);
    assert streamed[i..][1..] == streamed[i + 1..];
    assert ([streamed[i]] + rest)[1..] == rest;
  }

  lemma NothingWanted(l: Lengths, s: Locked, streamed: seq<nat>, bitfield: seq<bool>)
    requires l.Valid() && l.TotalPieces() <= |s.tracker.have|
    ensures FirstIn(Wanting(l, s, streamed[|streamed|..]), bitfield) == None
  {
  }

  lemma {:induction false} FirstQueuedIsQueued(l: Lengths, fis: seq<FileInfo>, s: State, priorities: seq<nat>,
                                               bitfield: seq<bool>)
    requires l.Valid() && l.TotalPieces() <= |s.queue| && |s.perFile| == |fis| && RangesInside(fis, |s.queue|)
    ensures var r := FirstQueued(l, fis, s, priorities, bitfield);
            r.Success? && r.value.Some? ==>
              var p := r.value.value; p < l.TotalPieces() && s.queue[p] && p < |bitfield| && bitfield[p]
  {
    hide Lengths.TotalPieces; hide FirstIn; hide RangesInside; hide IterPiecePriorities;
    if |priorities| > 0 {
      FirstQueuedIsQueued(l, fis, s, priorities[1..], bitfield);
    }
  }

  /** What is taken is a piece that the peer has: a missing one that is not in flight, or a queued one. */
  lemma NextIsPiece(l: Lengths, fis: seq<FileInfo>, priorities: seq<nat>, s: Locked, streamed: seq<nat>,
                    bitfield: seq<bool>)
    requires Tracks(l, fis, s.tracker)
    ensures var next := NextPiece(l, fis, priorities, s, streamed, bitfield);
            next.Success? && next.value.Some? ==>
              var p := next.value.value;
              && p < l.TotalPieces() <= |s.tracker.queue| && p < |bitfield| && bitfield[p]
              && ((p in streamed && !s.tracker.have[p] && p !in s.inflight) || s.tracker.queue[p])
  {
    hide Lengths.TotalPieces; hide FirstQueued; hide FirstIn; hide Wanting; hide RangesInside;
    hide Lengths.ChunkBits;
    FirstQueuedIsQueued(l, fis, s.tracker, priorities, bitfield);
  }

  /** The piece is missing and not in flight, and the peer has it. */
  predicate Suits(l: Lengths, s: Locked, bitfield: seq<bool>, p: nat)
    requires l.Valid() && l.TotalPieces() <= |s.tracker.have|
  {
    p < l.TotalPieces() && !s.tracker.have[p] && p !in s.inflight && PeerHas(bitfield, p)
  }

  predicate PeerHas(bitfield: seq<bool>, p: nat) {
    p < |bitfield| && bitfield[p]
  }

  /** Piece `p` is the first of the sequence that the peer has. */
  predicate FirstHad(ids: seq<nat>, bitfield: seq<bool>, p: nat) {
    exists i :: 0 <= i < |ids| && ids[i] == p && PeerHas(bitfield, p) && forall j :: 0 <= j < i ==>
      !PeerHas(bitfield, ids[j])
  }

  /** Piece `p` is the first that streams ask for and that suits. */
  predicate FirstSuiting(l: Lengths, s: Locked, streamed: seq<nat>, bitfield: seq<bool>, p: nat)
    requires l.Valid() && l.TotalPieces() <= |s.tracker.have|
  {
    exists i :: 0 <= i < |streamed| && streamed[i] == p && Suits(l, s, bitfield, p) &&
                forall j :: 0 <= j < i ==> !Suits(l, s, bitfield, streamed[j])
  }

  lemma {:induction false} FirstInIs(ids: seq<nat>, bitfield: seq<bool>)
    ensures var r := FirstIn(ids, bitfield);
            if r.Some? then FirstHad(ids, bitfield, r.value) else forall p :: p in ids ==> !PeerHas(bitfield, p)
  {
    if |ids| > 0 && !PeerHas(bitfield, ids[0]) {
      FirstInIs(ids[1..], bitfield);
      var r := FirstIn(ids[1..], bitfield);
      if r.Some? {
        var i :| 0 <= i < |ids| - 1 && ids[1..][i] == r.value && PeerHas(bitfield, r.value) &&
          forall j :: 0 <= j < i ==> !PeerHas(bitfield, ids[1..][j]);
        forall j | 0 <= j < i + 1 ensures !PeerHas(bitfield, ids[j]) {
          assert j > 0 ==> ids[j] == ids[1..][j - 1];
        }
        assert ids[i + 1] == r.value;
      }
    }
  }

  lemma {:induction false} FirstWantedIs(l: Lengths, s: Locked, streamed: seq<nat>, bitfield: seq<bool>)
    requires l.Valid() && l.TotalPieces() <= |s.tracker.have|
    ensures var r := FirstIn(Wanting(l, s, streamed), bitfield);
            if r.Some? then FirstSuiting(l, s, streamed, bitfield, r.value)
            else forall p :: p in streamed ==> !Suits(l, s, bitfield, p)
  {
    hide Lengths.TotalPieces; hide Wanting; hide FirstIn; hide FirstSuiting;
    if |streamed| > 0 {
      assert streamed[0..] == streamed && streamed[1..] == streamed[0 + 1..];
      FirstStep(l, s, streamed, 0, bitfield);
      SuitingStep(l, s, streamed, bitfield);
      if !Suits(l, s, bitfield, streamed[0]) {
        FirstWantedIs(l, s, streamed[1..], bitfield);
        assert forall p :: p in streamed ==> p == streamed[0] || p in streamed[1..];
      }
    } else {
      NothingWanted(l, s, streamed, bitfield);
      assert streamed[|streamed|..] == streamed;
    }
  }

  lemma SuitingStep(l: Lengths, s: Locked, streamed: seq<nat>, bitfield: seq<bool>)
    requires l.Valid() && l.TotalPieces() <= |s.tracker.have| && |streamed| > 0
    ensures if Suits(l, s, bitfield, streamed[0]) then FirstSuiting(l, s, streamed, bitfield, streamed[0])
            else forall p :: FirstSuiting(l, s, streamed[1..], bitfield, p) ==>
                   FirstSuiting(l, s, streamed, bitfield, p)
  {
    hide Suits; hide Lengths.TotalPieces;
    if !Suits(l, s, bitfield, streamed[0]) {
      var rest := streamed[1..];
      forall p | FirstSuiting(l, s, rest, bitfield, p) ensures FirstSuiting(l, s, streamed, bitfield, p) {
        var i :| 0 <= i < |rest| && rest[i] == p && Suits(l, s, bitfield, p) &&
          forall j :: 0 <= j < i ==> !Suits(l, s, bitfield, rest[j]);
        assert forall j :: 0 <= j < i + 1 ==> streamed[j] == if j == 0 then streamed[0] else rest[j - 1];
        assert streamed[i + 1] == p;
      }
    }
  }

  /** The search in the queue finds the first piece that the peer has among those of the first `k` files, if there
      is one, and otherwise goes on behind these files. */
  lemma {:induction false} FirstQueuedIs(l: Lengths, fis: seq<FileInfo>, s: State, priorities: seq<nat>,
                                         bitfield: seq<bool>, k: nat)
    requires l.Valid() && l.TotalPieces() <= |s.queue| && |s.perFile| == |fis| && RangesInside(fis, |s.queue|)
    requires k <= |priorities| && IterQueuedPieces(l, fis, s, priorities[..k]).Some?
    ensures var ids, next := IterQueuedPieces(l, fis, s, priorities[..k]).value,
                             FirstQueued(l, fis, s, priorities, bitfield);
            if exists p :: p in ids && PeerHas(bitfield, p)
            then next.Success? && next.value.Some? && FirstHad(ids, bitfield, next.value.value)
            else next == FirstQueued(l, fis, s, priorities[k..], bitfield)
  {
    hide Lengths.TotalPieces; hide QueuedOfFile; hide FirstIn; hide RangesInside; hide FirstHad; hide PeerHas;
    if k == 0 {
      assert priorities[0..] == priorities;
    } else {
      assert priorities[..k][0] == priorities[0] && priorities[..k][1..] == priorities[1..][..k - 1];
      var ids := QueuedOfFile(l, fis, s, priorities[0]).value;
      var rest := IterQueuedPieces(l, fis, s, priorities[1..][..k - 1]).value;
      FirstInIs(ids, bitfield);
      HadIsHad(ids, bitfield);
      HadIsHad(rest, bitfield);
      FirstQueuedIs(l, fis, s, priorities[1..], bitfield, k - 1);
      assert priorities[1..][k - 1..] == priorities[k..];
      FirstOfJoined(ids, rest, bitfield);
    }
  }

  lemma FirstOfJoined(a: seq<nat>, b: seq<nat>, bitfield: seq<bool>)
    ensures forall p :: FirstHad(a, bitfield, p) ==> FirstHad(a + b, bitfield, p)
    ensures (forall p :: p in a ==> !PeerHas(bitfield, p)) ==>
              forall p :: FirstHad(b, bitfield, p) ==> FirstHad(a + b, bitfield, p)
  {
    hide PeerHas;
    forall p | FirstHad(a, bitfield, p) ensures FirstHad(a + b, bitfield, p) {
      var i :| 0 <= i < |a| && a[i] == p && forall j :: 0 <= j < i ==> !PeerHas(bitfield, a[j]);
      assert (a + b)[i] == p && forall j :: 0 <= j < i ==> (a + b)[j] == a[j];
    }
    if forall p :: p in a ==> !PeerHas(bitfield, p) {
      forall p | FirstHad(b, bitfield, p) ensures FirstHad(a + b, bitfield, p) {
        var i :| 0 <= i < |b| && b[i] == p && forall j :: 0 <= j < i ==> !PeerHas(bitfield, b[j]);
        assert (a + b)[|a| + i] == p;
        assert forall j :: 0 <= j < |a| + i ==> (a + b)[j] == if j < |a| then a[j] else b[j - |a|];
      }
    }
  }

  /** Which piece is taken: if streams ask for a piece that suits, the first such one. Otherwise the first queued piece
      that the peer has among those of the first `k` files, if there is one; if there is none and these are all
      files, none; if there is none and the order of the next file overflows, that is the result. */
  lemma NextIsFirst(l: Lengths, fis: seq<FileInfo>, priorities: seq<nat>, s: Locked, streamed: seq<nat>,
                    bitfield: seq<bool>, k: nat)
    requires Tracks(l, fis, s.tracker)
    requires k <= |priorities| && IterQueuedPieces(l, fis, s.tracker, priorities[..k]).Some?
    ensures var next := NextPiece(l, fis, priorities, s, streamed, bitfield);
            var queued := IterQueuedPieces(l, fis, s.tracker, priorities[..k]).value;
            if exists p :: p in streamed && Suits(l, s, bitfield, p)
            then next.Success? && next.value.Some? && FirstSuiting(l, s, streamed, bitfield, next.value.value)
            else if exists p :: p in queued && PeerHas(bitfield, p)
            then next.Success? && next.value.Some? && FirstHad(queued, bitfield, next.value.value)
            else if k == |priorities| then next == Success(None)
            else QueuedOfFile(l, fis, s.tracker, priorities[k]).None? ==> next == Failure(())
  {
    hide Lengths.TotalPieces; hide IterQueuedPieces; hide FirstIn; hide Wanting; hide RangesInside; hide FirstSuiting;
    hide Lengths.ChunkBits; hide FirstHad; hide PeerHas; hide Suits; hide QueuedOfFile;
    FirstWantedIs(l, s, streamed, bitfield);
    SuitingSuits(l, s, streamed, bitfield);
    FirstQueuedIs(l, fis, s.tracker, priorities, bitfield, k);
  }

  lemma SuitingSuits(l: Lengths, s: Locked, streamed: seq<nat>, bitfield: seq<bool>)
    requires l.Valid() && l.TotalPieces() <= |s.tracker.have|
    ensures forall p :: FirstSuiting(l, s, streamed, bitfield, p) ==> p in streamed && Suits(l, s, bitfield, p)
  {
  }

  lemma HadIsHad(ids: seq<nat>, bitfield: seq<bool>)
    ensures forall p :: FirstHad(ids, bitfield, p) ==> p in ids && PeerHas(bitfield, p)
  {
  }

  ghost function Reserved(s: Locked, p: nat, peer: Peer): Locked
    requires p < |s.tracker.queue|
  {
    Locked(Reserve(s.tracker, p), s.inflight[p := peer])
  }

  ghost function AfterStored(l: Lengths, s: Locked, p: nat, begin: nat, blockLen: nat): Locked
    requires Shape(l, s.tracker)
  {
    var (tracker, r) := MarkChunk(l, s.tracker, p, begin, blockLen);
    Locked(tracker, if r == Some(Completed) then s.inflight - {p} else s.inflight)
  }

  // ---------- the whole download ----------

  /** A peer's block on its way to the disk. */
  datatype Write = Write(peer: Peer, p: nat, begin: nat, data: seq<byte>)

  /** What the lock protects; the blocks being written, and whether they are stored yet; the complete pieces
      being checked, and those of them whose hash turned out right; and the files. */
  datatype Transfer = Transfer(locked: Locked, writing: map<Write, bool>, checking: set<nat>, passed: set<nat>,
                               files: seq<seq<Cell>>)

  datatype Op =
    | OpReserve(peer: Peer, streamed: seq<nat>, bitfield: seq<bool>)
    | OpSteal(p: nat, peer: Peer)
    | OpStart(w: Write)
    | OpStore(w: Write)
    | OpStoreFails(w: Write, done: nat)
    | OpStored(w: Write)
    | OpPasses(p: nat)
    | OpFails(p: nat)
    | OpCannotCheck(p: nat)
    | OpComplete(p: nat)
    | OpPutBack(p: nat)
    | OpChoose(chosen: set<nat>)
    | OpStream(e: Streaming.Event)

  function DiskOf(a: Transfer): Downloads.Disk {
    Downloads.Disk(a.locked.tracker.have, a.files)
  }

  ghost predicate Running(t: Downloads.Torrent, a: Transfer)
    requires t.Valid()
  {
    && Tracks(t.lengths, t.fileInfos, a.locked.tracker) && InSync(t.lengths, a.locked.tracker)
    && |a.files| == |t.fileInfos|
  }

  /** The block is a chunk of its piece. */
  predicate IsChunk(l: Lengths, w: Write)
    requires l.Valid()
  {
    w.p < l.TotalPieces() && ChunkOfBlock(l, w.p, w.begin, |w.data|).Some?
  }

  /** Storing the block makes its piece complete. */
  ghost predicate Completes(t: Downloads.Torrent, a: Transfer, w: Write)
    requires t.Valid() && Running(t, a)
  {
    MarkChunk(t.lengths, a.locked.tracker, w.p, w.begin, |w.data|).1 == Some(Completed)
  }

  /** The first `n` bytes of the block have been written to the files. */
  ghost predicate BlockWritten(l: Lengths, fis: seq<FileInfo>, before: seq<seq<Cell>>, after: seq<seq<Cell>>, w: Write,
                               n: nat)
  {
    n <= |w.data| && WrittenAll(fis, before, after, l.PieceStart(w.p) + w.begin, w.data[..n])
  }

  ghost predicate Writes(t: Downloads.Torrent, a: Transfer, w: Write, n: nat, b: Transfer) {
    BlockWritten(t.lengths, t.fileInfos, a.files, b.files, w, n)
  }

  /** Writing a block to the files, as a step of the download does: the whole block, or only a first part of it if a
      write of the storage fails. */
  method StoreBlock(ops: FileOps, w: Write) returns (ok: bool, ghost done: nat)
    requires ops.Valid()
    modifies ops.storage
    ensures ops.Valid()
    ensures BlockWritten(ops.lengths, ops.fileInfos, old(ops.storage.files), ops.storage.files, w, done)
    ensures ok ==> done == |w.data|
    ensures ops.storage.failures == old(ops.storage.failures) + if ok then 0 else 1
  {
    hide WrittenAll;
    PieceStartIsProduct(ops.lengths, w.p);
    var r;
    r, done := ops.WriteChunk(ChunkInfo(w.p, w.begin, |w.data|), w.data);
    ok := r.Success?;
  }

  /** One step of the download: a peer reserves or steals a piece; a block passes the test for being expected from
      its peer, is stored (or not, which stops the peer), and is marked; a complete piece is checked, found right, and
      marked, or put back, or cannot be read; a dead peer's piece is put back; files are chosen; a stream is read. */
  ghost predicate Step(t: Downloads.Torrent, priorities: seq<nat>, f: nat, a: Transfer, s: Progress, op: Op,
                       b: Transfer, s': Progress)
    requires t.Valid() && f < |t.fileInfos|
  {
    && Running(t, a) && s.position <= t.fileInfos[f].len
    && (op.OpStream? || s' == s)
    && match op
       case OpReserve(peer, streamed, bitfield) =>
         var next := NextPiece(t.lengths, t.fileInfos, priorities, a.locked, streamed, bitfield);
         next.Success? &&
         (match next.value
          case None => b == a
          case Some(p) =>
            p < |a.locked.tracker.queue| && b == a.(locked := Reserved(a.locked, p, peer)))
       case OpSteal(p, peer) =>
         && p in a.locked.inflight && (forall w :: w in a.writing ==> w.p != p)
         && b == a.(locked := a.locked.(inflight := a.locked.inflight[p := peer]))
       case OpStart(w) =>
         && IsChunk(t.lengths, w) && w.p in a.locked.inflight && a.locked.inflight[w.p] == w.peer && w !in a.writing
         && b == a.(writing := a.writing[w := false])
       case OpStore(w) =>
         && IsChunk(t.lengths, w) && w in a.writing && !a.writing[w] && Writes(t, a, w, |w.data|, b)
         && b == a.(writing := a.writing[w := true], files := b.files)
       case OpStoreFails(w, done) =>
         && IsChunk(t.lengths, w) && w in a.writing && !a.writing[w] && Writes(t, a, w, done, b)
         && b == a.(writing := a.writing - {w}, files := b.files)
       case OpStored(w) =>
         && w in a.writing && a.writing[w]
         && b == Transfer(AfterStored(t.lengths, a.locked, w.p, w.begin, |w.data|), a.writing - {w},
                          if Completes(t, a, w) then a.checking + {w.p} else a.checking, a.passed, a.files)
       case OpPasses(p) =>
         p in a.checking && p < t.lengths.TotalPieces() && Downloads.ChecksOut(t, DiskOf(a), p) &&
         b == a.(passed := a.passed + {p})
       case OpFails(p) =>
         && p in a.checking && p !in a.passed && p < t.lengths.TotalPieces()
         && b == a.(checking := a.checking - {p},
                    locked := a.locked.(tracker := MarkBroken(t.lengths, a.locked.tracker, p)))
       case OpCannotCheck(p) =>
         p in a.checking && p !in a.passed && b == a.(checking := a.checking - {p})
       case OpComplete(p) =>
         && p in a.passed && b.checking == a.checking - {p} && b.passed == a.passed - {p}
         && TrackerRuns.Step(t.lengths, t.fileInfos, a.locked.tracker, TrackerRuns.OpComplete(p), b.locked.tracker)
         && b == a.(locked := a.locked.(tracker := b.locked.tracker), checking := b.checking, passed := b.passed)
       case OpPutBack(p) =>
         && p < t.lengths.TotalPieces()
         && b == a.(locked := a.locked.(tracker := MarkBroken(t.lengths, a.locked.tracker, p)))
       case OpChoose(chosen) =>
         && Reselected(t.lengths, a.locked.tracker, Lens(t.fileInfos), chosen, b.locked.tracker)
         && b == a.(locked := a.locked.(tracker := b.locked.tracker))
       case OpStream(e) =>
         && Downloads.Inside(t, f) && !e.Download? && b == a
         && var w := World(a.locked.tracker.have, a.files[f]);
            StreamStep(t.lengths, t.fileInfos[f].offset, t.fileInfos[f].len, w, s, e, w, s')
  }

  /** The piece is missing and not being checked. */
  ghost predicate Free(t: Downloads.Torrent, a: Transfer, p: nat)
    requires t.Valid() && Running(t, a)
  {
    p < t.lengths.TotalPieces() && !a.locked.tracker.have[p] && p !in a.checking
  }

  /** Every piece in flight or being written is missing and not being checked; pieces being checked are missing. */
  ghost predicate Safe(t: Downloads.Torrent, a: Transfer)
    requires t.Valid() && Running(t, a)
  {
    && (forall p :: p in a.locked.inflight ==> Free(t, a, p))
    && (forall w :: w in a.writing ==> Free(t, a, w.p))
    && (forall p :: p in a.checking ==> p < t.lengths.TotalPieces() && !a.locked.tracker.have[p])
    && a.passed <= a.checking
  }

  /** No other block of the piece is being written. */
  predicate Alone(a: Transfer, w: Write) {
    forall v :: v in a.writing && v.p == w.p ==> v == w
  }

  /** When a step is safe: the piece that is reserved must be missing and not being checked, and a block that completes
      its piece must be the only one of it being written. */
  ghost predicate Guard(t: Downloads.Torrent, priorities: seq<nat>, a: Transfer, op: Op)
    requires t.Valid() && Running(t, a)
  {
    match op
    case OpReserve(peer, streamed, bitfield) =>
      var next := NextPiece(t.lengths, t.fileInfos, priorities, a.locked, streamed, bitfield);
      next.Success? && next.value.Some? ==> Free(t, a, next.value.value)
    case OpStored(w) => Completes(t, a, w) ==> Alone(a, w)
    case _ => true
  }

  /** Steps that neither finish pieces nor put new ones in flight. */
  lemma SafeStays(t: Downloads.Torrent, a: Transfer, b: Transfer)
    requires t.Valid() && Running(t, a) && Running(t, b) && Safe(t, a)
    requires b.locked.tracker.have == a.locked.tracker.have && b.checking <= a.checking && b.passed <= b.checking
    requires forall p :: p in b.locked.inflight ==> p in a.locked.inflight
    requires forall w :: w in b.writing ==> w in a.writing || w.p in a.locked.inflight
    ensures Safe(t, b)
  {
    hide Running; hide Lengths.TotalPieces;
  }

  lemma ReserveExact(t: Downloads.Torrent, a: Transfer, p: nat, peer: Peer, b: Transfer)
    requires t.Valid() && Running(t, a) && Running(t, b) && Safe(t, a) && p < |a.locked.tracker.queue|
    requires b == a.(locked := Reserved(a.locked, p, peer))
    ensures Safe(t, b) <==> Free(t, a, p)
  {
    hide Running; hide Lengths.TotalPieces;
    assert p in b.locked.inflight;
    assert Free(t, b, p) <==> Free(t, a, p);
    if Free(t, a, p) {
      forall q | q in b.locked.inflight ensures Free(t, b, q) {
        assert q == p || q in a.locked.inflight;
        assert q != p ==> Free(t, a, q);
      }
      forall w | w in b.writing ensures Free(t, b, w.p) {
        assert Free(t, a, w.p);
      }
    }
  }

  lemma StoredExact(t: Downloads.Torrent, a: Transfer, w: Write, b: Transfer)
    requires t.Valid() && Running(t, a) && Running(t, b) && Safe(t, a) && w in a.writing
    requires b.locked.tracker.have == a.locked.tracker.have && b.writing == a.writing - {w} && b.passed == a.passed
    requires if Completes(t, a, w)
             then b.checking == a.checking + {w.p} && b.locked.inflight == a.locked.inflight - {w.p}
             else b.checking == a.checking && b.locked.inflight == a.locked.inflight
    ensures Safe(t, b) <==> (Completes(t, a, w) ==> Alone(a, w))
  {
    hide Running; hide Lengths.TotalPieces; hide Completes;
    assert Free(t, a, w.p);
    if !Completes(t, a, w) {
      SafeStays(t, a, b);
    } else if Alone(a, w) {
      forall v | v in b.writing ensures Free(t, b, v.p) {
        assert v in a.writing && v.p != w.p && Free(t, a, v.p);
      }
      forall q | q in b.locked.inflight ensures Free(t, b, q) {
        assert q in a.locked.inflight && Free(t, a, q);
      }
    } else {
      var v :| v in a.writing && v.p == w.p && v != w;
      assert v in b.writing && !Free(t, b, v.p);
    }
  }

  lemma CompleteKeeps(t: Downloads.Torrent, a: Transfer, p: nat, b: Transfer)
    requires t.Valid() && Running(t, a) && Running(t, b) && Safe(t, a) && p in a.passed
    requires b.locked.tracker.have == a.locked.tracker.have[p := true]
    requires b.locked.inflight == a.locked.inflight && b.writing == a.writing
    requires b.checking == a.checking - {p} && b.passed == a.passed - {p}
    ensures Safe(t, b)
  {
    hide Lengths.TotalPieces; hide InSync; hide RangesInside; hide Lengths.ChunkBits;
    assert p in a.checking;
    forall q | q in b.locked.inflight ensures Free(t, b, q) {
      assert Free(t, a, q) && p in a.checking;
    }
    forall w | w in b.writing ensures Free(t, b, w.p) {
      assert Free(t, a, w.p) && p in a.checking;
    }
  }

  // ---------- every step ----------

  /** What a step does to the tracker, as one of the tracker's own operations. */
  function TrackerOp(t: Downloads.Torrent, op: Op): Option<TrackerRuns.Op> {
    match op
    case OpStored(w) => Some(TrackerRuns.OpChunk(w.p, w.begin, |w.data|))
    case OpFails(p) => Some(TrackerRuns.OpBroken(p))
    case OpPutBack(p) => Some(TrackerRuns.OpBroken(p))
    case OpComplete(p) => Some(TrackerRuns.OpComplete(p))
    case OpChoose(chosen) => Some(TrackerRuns.OpSelect(chosen))
    case _ => None
  }

  lemma TrackerSteps(t: Downloads.Torrent, priorities: seq<nat>, f: nat, a: Transfer, s: Progress, op: Op, b: Transfer,
                     s': Progress)
    requires t.Valid() && f < |t.fileInfos| && Step(t, priorities, f, a, s, op, b, s')
    ensures var from, to := a.locked.tracker, b.locked.tracker;
            if op.OpReserve?
            then to == from || exists p :: TrackerRuns.Step(t.lengths, t.fileInfos, from, TrackerRuns.OpReserve(p), to)
            else match TrackerOp(t, op)
              case None => to == from
              case Some(o) => TrackerRuns.Step(t.lengths, t.fileInfos, from, o, to)
    ensures |b.files| == |a.files|
  {
    hide Lengths.TotalPieces; hide Lengths.ChunkBits; hide InSync; hide NextPiece; hide GoodInfos; hide MarkChunk;
    hide RangesInside; hide StreamStep; hide Downloads.ChecksOut; hide WrittenFile; hide Reselected;
    match op
    case OpReserve(peer, streamed, bitfield) =>
      NextIsPiece(t.lengths, t.fileInfos, priorities, a.locked, streamed, bitfield);
      var next := NextPiece(t.lengths, t.fileInfos, priorities, a.locked, streamed, bitfield);
      if next.value.Some? {
        assert TrackerRuns.Step(t.lengths, t.fileInfos, a.locked.tracker, TrackerRuns.OpReserve(next.value.value),
                                b.locked.tracker);
      }
    case _ =>
  }

  /** The tracker stays well-formed and in sync. */
  lemma RunningStays(t: Downloads.Torrent, priorities: seq<nat>, f: nat, a: Transfer, s: Progress, op: Op, b: Transfer,
                     s': Progress)
    requires t.Valid() && f < |t.fileInfos| && Step(t, priorities, f, a, s, op, b, s')
    ensures Running(t, b)
  {
    hide Lengths.TotalPieces; hide Lengths.ChunkBits; hide InSync; hide Step; hide TrackerRuns.Step;
    TrackerSteps(t, priorities, f, a, s, op, b, s');
    var from, to := a.locked.tracker, b.locked.tracker;
    StepStarts(t, priorities, f, a, s, op, b, s');
    if op.OpReserve? && to != from {
      var p :| TrackerRuns.Step(t.lengths, t.fileInfos, from, TrackerRuns.OpReserve(p), to);
      TrackerRuns.StepKeepsSync(t.lengths, t.fileInfos, from, TrackerRuns.OpReserve(p), to);
    } else if to != from && TrackerOp(t, op).Some? {
      TrackerRuns.StepKeepsSync(t.lengths, t.fileInfos, from, TrackerOp(t, op).value, to);
    }
  }

  lemma StepStarts(t: Downloads.Torrent, priorities: seq<nat>, f: nat, a: Transfer, s: Progress, op: Op, b: Transfer,
                   s': Progress)
    requires t.Valid() && f < |t.fileInfos| && Step(t, priorities, f, a, s, op, b, s')
    ensures Running(t, a)
  {
  }

  /** The guard is exact: a step from a safe state is safe if and only if the guard holds. */
  lemma GuardExact(t: Downloads.Torrent, priorities: seq<nat>, f: nat, a: Transfer, s: Progress, op: Op, b: Transfer,
                   s': Progress)
    requires t.Valid() && f < |t.fileInfos| && Step(t, priorities, f, a, s, op, b, s') && Safe(t, a)
    ensures Running(t, b) && (Safe(t, b) <==> Guard(t, priorities, a, op))
  {
    hide Lengths.TotalPieces; hide Lengths.ChunkBits; hide InSync; hide NextPiece; hide GoodInfos; hide WrittenAll;
    hide Safe; hide Free; hide Completes; hide RangesInside; hide Alone; hide StreamStep; hide Downloads.ChecksOut;
    SafeMeans(t, a);
    RunningStays(t, priorities, f, a, s, op, b, s');
    match op
    case OpReserve(peer, streamed, bitfield) =>
      var next := NextPiece(t.lengths, t.fileInfos, priorities, a.locked, streamed, bitfield);
      if next.value.Some? {
        ReserveExact(t, a, next.value.value, peer, b);
      }
    case OpStored(w) =>
      AfterStoredIs(t, a, w);
      StoredExact(t, a, w, b);
    case OpComplete(p) =>
      CompleteHave(t, a.locked.tracker, p, b.locked.tracker);
      CompleteKeeps(t, a, p, b);
    case _ =>
      SafeStays(t, a, b);
  }

  lemma AfterStoredIs(t: Downloads.Torrent, a: Transfer, w: Write)
    requires t.Valid() && Running(t, a)
    ensures var after := AfterStored(t.lengths, a.locked, w.p, w.begin, |w.data|);
            && after.tracker.have == a.locked.tracker.have
            && after.inflight == if Completes(t, a, w) then a.locked.inflight - {w.p} else a.locked.inflight
  {
  }

  lemma SafeMeans(t: Downloads.Torrent, a: Transfer)
    requires t.Valid() && Running(t, a) && Safe(t, a)
    ensures a.passed <= a.checking
  {
  }

  lemma CompleteHave(t: Downloads.Torrent, s: State, p: nat, s': State)
    requires t.Valid() && TrackerRuns.Step(t.lengths, t.fileInfos, s, TrackerRuns.OpComplete(p), s')
    ensures p < |s.have| && s'.have == s.have[p := true]
  {
    if s.have[p] {
      assert s.have[p := true] == s.have;
    }
  }

  // ---------- what safe steps do to the disk ----------

  /** What a step is for the disk. */
  function DiskEvent(t: Downloads.Torrent, op: Op): Downloads.Event {
    match op
    case OpStore(w) => Downloads.Block(w.p, t.lengths.PieceStart(w.p) + w.begin, w.data)
    case OpStoreFails(w, done) =>
      Downloads.Block(w.p, t.lengths.PieceStart(w.p) + w.begin, w.data[..Min(done, |w.data|)])
    case OpComplete(p) => Downloads.Done(p)
    case OpStream(e) => Downloads.Stream(e)
    case _ => Downloads.Other
  }

  ghost predicate PassedCheckOut(t: Downloads.Torrent, a: Transfer)
    requires t.Valid() && Running(t, a)
  {
    forall p :: p in a.passed ==> p < t.lengths.TotalPieces() && Downloads.ChecksOut(t, DiskOf(a), p)
  }

  /** A chunk lies inside its piece. */
  lemma ChunkInside(l: Lengths, w: Write)
    requires l.Valid() && IsChunk(l, w)
    ensures l.PieceStart(w.p) + w.begin + |w.data| <= l.PieceEnd(w.p)
  {
    PieceBounds(l, w.p);
    CeilDivIsDivCeil(l.PieceLen(w.p), CHUNK_SIZE);
    var k := w.begin / CHUNK_SIZE;
    assert w.begin == k * CHUNK_SIZE + w.begin % CHUNK_SIZE;
    MulMonotone(k + 1, l.ChunksPerPiece(w.p), CHUNK_SIZE);
  }

  /** From a safe state, every block that is stored goes to a missing piece, and every piece that becomes had checks
      out: the step is one that keeps had pieces verified and streams faithful. */
  lemma StepIsDiskStep(t: Downloads.Torrent, priorities: seq<nat>, f: nat, a: Transfer, s: Progress, op: Op,
                       b: Transfer, s': Progress)
    requires t.Valid() && f < |t.fileInfos| && Step(t, priorities, f, a, s, op, b, s')
    requires Running(t, b) && Safe(t, a) && PassedCheckOut(t, a)
    ensures Downloads.Step(t, f, DiskOf(a), s, DiskEvent(t, op), DiskOf(b), s')
  {
    hide Step; hide Running; hide Safe; hide PassedCheckOut; hide Downloads.Step; hide DiskOf;
    match op
    case OpStore(w) => BlockIsDiskStep(t, priorities, f, a, s, op, b, s');
    case OpStoreFails(w, done) => BlockIsDiskStep(t, priorities, f, a, s, op, b, s');
    case OpComplete(p) => CompleteIsDiskStep(t, priorities, f, a, s, op, b, s');
    case _ => OtherIsDiskStep(t, priorities, f, a, s, op, b, s');
  }

  lemma BlockIsDiskStep(t: Downloads.Torrent, priorities: seq<nat>, f: nat, a: Transfer, s: Progress, op: Op,
                        b: Transfer, s': Progress)
    requires t.Valid() && f < |t.fileInfos| && Step(t, priorities, f, a, s, op, b, s') && (op.OpStore? ||
               op.OpStoreFails?)
    requires Running(t, b) && Safe(t, a)
    ensures Downloads.Step(t, f, DiskOf(a), s, DiskEvent(t, op), DiskOf(b), s')
  {
    hide Lengths.TotalPieces; hide Lengths.ChunkBits; hide InSync; hide GoodInfos; hide RangesInside; hide WrittenFile;
    hide Lengths.PieceEnd; hide ChunkOfBlock;
    var w := op.w;
    ChunkInside(t.lengths, w);
    assert Free(t, a, w.p) && w.data[..|w.data|] == w.data;
  }

  lemma CompleteIsDiskStep(t: Downloads.Torrent, priorities: seq<nat>, f: nat, a: Transfer, s: Progress, op: Op,
                           b: Transfer, s': Progress)
    requires t.Valid() && f < |t.fileInfos| && Step(t, priorities, f, a, s, op, b, s') && op.OpComplete?
    requires Running(t, b) && PassedCheckOut(t, a)
    ensures Downloads.Step(t, f, DiskOf(a), s, DiskEvent(t, op), DiskOf(b), s')
  {
    hide Lengths.TotalPieces; hide Lengths.ChunkBits; hide InSync; hide GoodInfos; hide RangesInside;
    hide Downloads.ChecksOut; hide TrackerRuns.Step;
    CompleteHave(t, a.locked.tracker, op.p, b.locked.tracker);
  }

  /** Steps that write no block and complete no piece leave files and had pieces alone. */
  lemma OtherIsDiskStep(t: Downloads.Torrent, priorities: seq<nat>, f: nat, a: Transfer, s: Progress, op: Op,
                        b: Transfer, s': Progress)
    requires t.Valid() && f < |t.fileInfos| && Step(t, priorities, f, a, s, op, b, s')
    requires !op.OpStore? && !op.OpStoreFails? && !op.OpComplete? && Running(t, b)
    ensures Downloads.Step(t, f, DiskOf(a), s, DiskEvent(t, op), DiskOf(b), s')
  {
    hide Lengths.TotalPieces; hide Lengths.ChunkBits; hide InSync; hide NextPiece; hide GoodInfos; hide RangesInside;
    hide Downloads.ChecksOut; hide StreamStep; hide Reselected;
    match op
    case OpChoose(chosen) =>
      ChoosingKeepsHave(t.lengths, a.locked.tracker, Lens(t.fileInfos), chosen, b.locked.tracker);
    case OpStored(w) =>
      AfterStoredIs(t, a, w);
    case _ =>
  }

  lemma ChoosingKeepsHave(l: Lengths, s: State, lens: seq<nat>, chosen: set<nat>, s': State)
    requires Shape(l, s) && Reselected(l, s, lens, chosen, s')
    ensures s'.have == s.have
  {
  }

  /** Pieces whose hash turned out right keep checking out until they are marked. */
  lemma PassedStay(t: Downloads.Torrent, priorities: seq<nat>, f: nat, a: Transfer, s: Progress, op: Op, b: Transfer,
                   s': Progress)
    requires t.Valid() && f < |t.fileInfos| && Step(t, priorities, f, a, s, op, b, s')
    requires Running(t, b) && Safe(t, a) && PassedCheckOut(t, a)
    ensures PassedCheckOut(t, b)
  {
    hide Lengths.TotalPieces; hide Lengths.ChunkBits; hide InSync; hide NextPiece; hide GoodInfos; hide RangesInside;
    hide Downloads.ChecksOut; hide StreamStep; hide Lengths.PieceEnd; hide ChunkOfBlock; hide Reselected;
    hide WrittenAll;
    hide MarkChunk; hide TrackerRuns.Step;
    forall p | p in b.passed ensures p < t.lengths.TotalPieces() && Downloads.ChecksOut(t, DiskOf(b), p) {
      if op.OpStore? || op.OpStoreFails? {
        var w := op.w;
        var n := if op.OpStore? then |w.data| else op.done;
        assert Free(t, a, w.p) && p in a.passed && p in a.checking;
        ChunkInside(t.lengths, w);
        Downloads.BlockKeepsCheck(t, DiskOf(a), DiskOf(b), w.p, t.lengths.PieceStart(w.p) + w.begin, w.data[..n], p);
      } else {
        FilesStay(t, priorities, f, a, s, op, b, s');
        assert p in a.passed || op == OpPasses(p);
        Downloads.SameCheck(t, DiskOf(a), DiskOf(b), p);
      }
    }
  }

  lemma FilesStay(t: Downloads.Torrent, priorities: seq<nat>, f: nat, a: Transfer, s: Progress, op: Op, b: Transfer,
                  s': Progress)
    requires t.Valid() && f < |t.fileInfos| && Step(t, priorities, f, a, s, op, b, s')
    requires !op.OpStore? && !op.OpStoreFails?
    ensures b.files == a.files
  {
  }

  // ---------- runs ----------

  ghost predicate Run(t: Downloads.Torrent, priorities: seq<nat>, f: nat, xs: seq<Transfer>, ss: seq<Progress>,
                      ops: seq<Op>)
    requires t.Valid() && f < |t.fileInfos|
  {
    && |xs| == |ss| == |ops| + 1
    && forall i :: 0 <= i < |ops| ==> Step(t, priorities, f, xs[i], ss[i], ops[i], xs[i + 1], ss[i + 1])
  }

  /** Nothing is in flight, being written or being checked. */
  predicate Idle(a: Transfer) {
    a.locked.inflight == map[] && a.writing == map[] && a.checking == {} && a.passed == {}
  }

  /** A stream's position and what it delivered, over what is had and stored. */
  ghost predicate Delivers(t: Downloads.Torrent, f: nat, a: Transfer, s: Progress)
    requires t.Valid() && f < |t.fileInfos| && Running(t, a)
  {
    && Downloads.Inside(t, f)
    && Faithful(t.lengths, t.fileInfos[f].offset, t.fileInfos[f].len, World(a.locked.tracker.have, a.files[f]), s)
  }

  /** Everything a safe state keeps. */
  ghost predicate Good(t: Downloads.Torrent, f: nat, a: Transfer, s: Progress)
    requires t.Valid() && f < |t.fileInfos|
  {
    && Running(t, a) && Safe(t, a) && PassedCheckOut(t, a) && Downloads.Verified(t, DiskOf(a)) && Delivers(t, f, a, s)
  }

  lemma GoodStays(t: Downloads.Torrent, priorities: seq<nat>, f: nat, a: Transfer, s: Progress, op: Op, b: Transfer,
                  s': Progress)
    requires t.Valid() && f < |t.fileInfos| && Step(t, priorities, f, a, s, op, b, s')
    requires Good(t, f, a, s) && Guard(t, priorities, a, op)
    ensures Good(t, f, b, s')
  {
    hide Step; hide Safe; hide PassedCheckOut; hide Guard; hide Downloads.Step; hide Faithful; hide Lengths.TotalPieces;
    hide StreamStep; hide Downloads.Verified; hide InSync; hide RangesInside; hide Lengths.ChunkBits;
    GuardExact(t, priorities, f, a, s, op, b, s');
    StepIsDiskStep(t, priorities, f, a, s, op, b, s');
    PassedStay(t, priorities, f, a, s, op, b, s');
    var e := DiskEvent(t, op);
    Downloads.StepIsStreamStep(t, f, DiskOf(a), s, e, DiskOf(b), s');
    StepKeepsFaithful(t.lengths, t.fileInfos[f].offset, t.fileInfos[f].len, Downloads.WorldOf(DiskOf(a), f), s,
                      if e.Stream? then e.e else Streaming.Download, Downloads.WorldOf(DiskOf(b), f), s');
  }

  lemma GoodStarts(t: Downloads.Torrent, f: nat, a: Transfer)
    requires t.Valid() && f < |t.fileInfos| && Running(t, a) && Idle(a) && Downloads.Verified(t, DiskOf(a))
    ensures Good(t, f, a, Progress(0, 0, []))
  {
    hide Lengths.TotalPieces; hide Downloads.Verified; hide InSync; hide RangesInside; hide Lengths.ChunkBits;
    Downloads.FilesInside(t, f);
    StartsFaithful(t.lengths, t.fileInfos[f].offset, t.fileInfos[f].len, World(a.locked.tracker.have, a.files[f]));
  }

  /** Over every run whose steps meet the guard, every had piece checks out, and a stream has delivered the file from
      its last seek point to its position. */
  lemma {:induction false} RunsStayVerified(t: Downloads.Torrent, priorities: seq<nat>, f: nat, xs: seq<Transfer>,
                                            ss: seq<Progress>, ops: seq<Op>, i: nat)
    requires t.Valid() && f < |t.fileInfos| && Run(t, priorities, f, xs, ss, ops) && i < |xs|
    requires Running(t, xs[0]) && Idle(xs[0]) && Downloads.Verified(t, DiskOf(xs[0])) && ss[0] == Progress(0, 0, [])
    requires forall j :: 0 <= j < i ==> Running(t, xs[j]) && Guard(t, priorities, xs[j], ops[j])
    ensures Good(t, f, xs[i], ss[i])
  {
    hide Good; hide Guard; hide Step; hide Running; hide Idle; hide Downloads.Verified;
    if i == 0 {
      GoodStarts(t, f, xs[0]);
    } else {
      RunsStayVerified(t, priorities, f, xs, ss, ops, i - 1);
      GoodStays(t, priorities, f, xs[i - 1], ss[i - 1], ops[i - 1], xs[i], ss[i]);
    }
  }

  /** Hence each byte delivered since the last seek is the byte of the torrent at its place, in a piece that is had and
      checks out. */
  lemma DeliveredBytesAreVerified(t: Downloads.Torrent, priorities: seq<nat>, f: nat, xs: seq<Transfer>,
                                  ss: seq<Progress>, ops: seq<Op>, i: nat, k: nat)
    requires t.Valid() && f < |t.fileInfos| && Run(t, priorities, f, xs, ss, ops) && i < |xs|
    requires !t.fileInfos[f].padding
    requires Running(t, xs[0]) && Idle(xs[0]) && Downloads.Verified(t, DiskOf(xs[0])) && ss[0] == Progress(0, 0, [])
    requires forall j :: 0 <= j < i ==> Running(t, xs[j]) && Guard(t, priorities, xs[j], ops[j])
    requires k < |ss[i].delivered|
    ensures Running(t, xs[i])
    ensures var at, flat := t.fileInfos[f].offset + (ss[i].base + k), Space(t.fileInfos, xs[i].files);
            && at < |flat| && flat[at] == Some(ss[i].delivered[k])
            && exists p :: 0 <= p < t.lengths.TotalPieces() && xs[i].locked.tracker.have[p] &&
                           InPiece(t.lengths, p, at) && Downloads.ChecksOut(t, DiskOf(xs[i]), p)
  {
    hide Guard; hide Step; hide Idle; hide Downloads.Verified; hide Safe; hide PassedCheckOut; hide Faithful;
    hide Lengths.TotalPieces; hide Downloads.ChecksOut; hide Space; hide InSync; hide RangesInside;
    hide Lengths.ChunkBits;
    RunsStayVerified(t, priorities, f, xs, ss, ops, i);
    Downloads.DeliveredIsVerified(t, f, DiskOf(xs[i]), ss[i], k);
  }

  // ---------- what the guard asks for ----------

  /** The piece reserved is one for a stream, which is missing and may only fail the guard by being checked, or one
      from the queue, which may also be had. So a disciplined queue and no candidate being checked suffice. */
  lemma WhenReservingIsSafe(t: Downloads.Torrent, priorities: seq<nat>, a: Transfer, peer: Peer, streamed: seq<nat>,
                            bitfield: seq<bool>)
    requires t.Valid() && Running(t, a) && TrackerRuns.QueueDisciplined(t.lengths, a.locked.tracker)
    requires forall p :: p in a.checking ==>
               p !in streamed && (p < |a.locked.tracker.queue| ==> !a.locked.tracker.queue[p])
    ensures Guard(t, priorities, a, OpReserve(peer, streamed, bitfield))
  {
    hide Lengths.TotalPieces; hide NextPiece; hide InSync; hide RangesInside; hide Lengths.ChunkBits;
    NextIsPiece(t.lengths, t.fileInfos, priorities, a.locked, streamed, bitfield);
  }

  /** In a safe state only missing pieces are completed, so the counters stay right exactly when no empty file lies
      inside the piece. */
  lemma SafeCompletionIsFirst(t: Downloads.Torrent, priorities: seq<nat>, f: nat, a: Transfer, s: Progress, p: nat,
                              b: Transfer, s': Progress)
    requires t.Valid() && f < |t.fileInfos| && Step(t, priorities, f, a, s, OpComplete(p), b, s') && Safe(t, a)
    requires CountersCorrect(t.lengths, t.fileInfos, a.locked.tracker)
    ensures Running(t, b)
    ensures CountersCorrect(t.lengths, t.fileInfos, b.locked.tracker) <==> NoEmptyFileInside(t.fileInfos, p)
  {
    hide Lengths.TotalPieces; hide CountersCorrect; hide NoEmptyFileInside; hide InSync; hide RangesInside;
    hide Lengths.ChunkBits; hide GoodInfos;
    RunningStays(t, priorities, f, a, s, OpComplete(p), b, s');
    assert p in a.checking;
    CompleteExact(t.lengths, t.fileInfos, a.locked.tracker, p, b.locked.tracker);
  }
}

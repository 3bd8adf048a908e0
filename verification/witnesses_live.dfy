/** Concrete downloads in which a piece that is had is overwritten or counted twice. */
module LiveWitnesses {
  import opened TorrentLengths
  import opened FileInfos
  import opened Wrappers
  import opened FileSpace
  import opened FileOperations
  import opened FileOpsProperties
  import opened TrackerSpec
  import opened TrackerCounters
  import opened TrackerQueue
  import opened Streaming
  import Downloads = StreamDownloads
  import opened LiveDownloads

  /** A file of two pieces of a byte each, which should be 7 and 8. */
  const TWO := Lengths(2, 1)
  const FILE := [FileInfo(0, 2, 0, 2, false)]
  const HASHES: seq<Digest> := [[7], [8]]

  function TheTorrent(): Downloads.Torrent {
    Downloads.Torrent(TWO, FILE, Telling, HASHES)
  }

  /** The tracker as far as piece 0 is concerned; piece 1 stays missing and queued. */
  function Tracker(have: bool, queued: bool, chunk: bool, counted: nat): State {
    State([have, false], [true, true], [queued, true],
          [chunk, false, false, false, false, false, false, false], [counted],
          Hns(if have then 1 else 0, if have then 1 else 2, 2))
  }

  function Files(x: byte): (files: seq<seq<Cell>>)
    ensures |files| == 1
  {
    [[Some(x), Some(0)]]
  }

  /** Nothing downloaded yet, both pieces queued. */
  function Begin(): Transfer {
    Transfer(Locked(Tracker(false, true, false, 0), map[]), map[], {}, {}, Files(0))
  }

  const NOTHING_READ := Progress(0, 0, [])

  /** There is a run from the beginning, with no stream reading, that ends in `b`. */
  ghost predicate Reachable(b: Transfer)
    requires TheTorrent().Valid()
  {
    exists xs, ss, ops :: IsRun(xs, ss, ops, b)
  }

  ghost predicate IsRun(xs: seq<Transfer>, ss: seq<Progress>, ops: seq<Op>, b: Transfer)
    requires TheTorrent().Valid()
  {
    && Run(TheTorrent(), [0], 0, xs, ss, ops) && xs[0] == Begin() && ss[0] == NOTHING_READ
    && xs[|xs| - 1] == b && ss[|ss| - 1] == NOTHING_READ
  }

  lemma Pieces()
    ensures TWO.Valid() && TWO.TotalPieces() == 2
    ensures TWO.PieceStart(0) == 0 && TWO.PieceEnd(0) == 1 == TWO.PieceStart(1) && TWO.PieceEnd(1) == 2
    ensures TWO.PieceLen(0) == 1 == TWO.PieceLen(1)
  {
    assert CeilDiv(1, 1) == 1 && CeilDiv(2, 1) == 2;
    assert TWO.PieceStart(1) == 1;
  }

  lemma Chunks()
    ensures TWO.Valid() && TWO.ChunkBits() == 8
    ensures TWO.ChunkStart(0) == 0 && TWO.ChunkEnd(0) == 1 == TWO.ChunkStart(1) && TWO.ChunkEnd(1) == 2
    ensures TWO.ChunksPerPiece(0) == 1
  {
    Pieces();
    assert TWO.DefaultChunksPerPiece() == 1;
    assert TWO.ChunkStart(1) == 1;
  }

  lemma FileIsGood()
    ensures TWO.Valid() && GoodInfos(TWO, FILE) && TheTorrent().Valid() && Lens(FILE) == [2] && Offset([2], 0) == 0
  {
    hide Lengths.TotalPieces; hide Lengths.PieceStart; hide Lengths.PieceEnd; hide Lengths.PieceLen;
    Pieces();
    assert Lens(FILE) == [2];
    assert Offset([2], 1) == 2;
    forall f, p: nat | 0 <= f < |FILE|
      ensures FILE[f].InRange(p) <==> p < TWO.TotalPieces() && TWO.SizeOfPieceInFile(p, FILE[f].offset, FILE[f].len) > 0
    {
      assert p < 2 ==> p == 0 || p == 1;
    }
  }

  lemma TwoPieces(l: Lengths, bits: seq<bool>)
    requires |bits| == 2
    ensures Bytes(l, bits, 2) == (if bits[0] then l.PieceLen(0) else 0) + (if bits[1] then l.PieceLen(1) else 0)
  {
    hide Lengths.PieceLen;
    assert Bytes(l, bits, 1) == if bits[0] then l.PieceLen(0) else 0;
  }

  lemma TrackerIsSound(have: bool, queued: bool, chunk: bool, counted: nat)
    ensures TWO.Valid() && Tracks(TWO, FILE, Tracker(have, queued, chunk, counted))
    ensures InSync(TWO, Tracker(have, queued, chunk, counted))
  {
    hide Lengths.TotalPieces; hide Lengths.PieceLen; hide Lengths.PieceStart; hide Lengths.PieceEnd;
    hide Lengths.ChunkBits; hide Lengths.ChunkStart; hide Lengths.ChunkEnd; hide Lengths.ChunksPerPiece; hide Bytes;
    Pieces();
    Chunks();
    var s := Tracker(have, queued, chunk, counted);
    var needed := Needed(s.have, s.selected);
    assert needed == [!have, true];
    TwoPieces(TWO, s.have);
    TwoPieces(TWO, s.selected);
    TwoPieces(TWO, needed);
  }

  lemma BeginIsRun()
    ensures TheTorrent().Valid() && Reachable(Begin())
    ensures Running(TheTorrent(), Begin()) && Idle(Begin()) && Downloads.Verified(TheTorrent(), DiskOf(Begin()))
  {
    hide Lengths.TotalPieces; hide Lengths.PieceLen; hide Lengths.PieceStart; hide Lengths.PieceEnd;
    hide Lengths.ChunkBits; hide Lengths.ChunkStart; hide Lengths.ChunkEnd; hide Lengths.ChunksPerPiece;
    hide InSync; hide Tracks; hide Step; hide GoodInfos; hide Downloads.ChecksOut;
    Pieces();
    Chunks();
    FileIsGood();
    TrackerIsSound(false, true, false, 0);
    BeginFits();
    assert IsRun([Begin()], [NOTHING_READ], [], Begin());
  }

  lemma BeginFits()
    ensures Begin().locked.tracker == Tracker(false, true, false, 0) && Begin().locked.tracker.have == [false, false]
    ensures |Begin().files| == 1 == |FILE|
  {
  }

  lemma Extend(a: Transfer, op: Op, b: Transfer)
    requires TheTorrent().Valid() && Reachable(a) && Step(TheTorrent(), [0], 0, a, NOTHING_READ, op, b, NOTHING_READ)
    ensures Reachable(b)
  {
    hide Step;
    var xs, ss, ops :| IsRun(xs, ss, ops, a);
    var xs', ss', ops' := xs + [b], ss + [NOTHING_READ], ops + [op];
    forall i | 0 <= i < |ops'| ensures Step(TheTorrent(), [0], 0, xs'[i], ss'[i], ops'[i], xs'[i + 1], ss'[i + 1]) {
      if i < |ops| {
        assert Step(TheTorrent(), [0], 0, xs[i], ss[i], ops[i], xs[i + 1], ss[i + 1]);
      }
    }
    assert IsRun(xs', ss', ops', b);
  }

  // ---------- single steps ----------

  ghost predicate Has(a: Transfer, have: bool, queued: bool, chunk: bool, counted: nat) {
    a.locked.tracker == Tracker(have, queued, chunk, counted) && |a.files| == 1
  }

  lemma Runs(a: Transfer, have: bool, queued: bool, chunk: bool, counted: nat)
    requires Has(a, have, queued, chunk, counted)
    ensures TheTorrent().Valid() && Running(TheTorrent(), a)
  {
    hide Lengths.TotalPieces; hide Lengths.PieceLen; hide Lengths.PieceStart; hide Lengths.PieceEnd;
    hide Lengths.ChunkBits; hide Lengths.ChunkStart; hide Lengths.ChunkEnd; hide Lengths.ChunksPerPiece;
    hide Tracks; hide InSync; hide Tracker; hide GoodInfos;
    FileIsGood();
    TrackerIsSound(have, queued, chunk, counted);
  }

  /** Both pieces are queued, and the queue yields the first one before the second. */
  lemma BothQueued(s: State)
    requires s.queue == [true, true]
    ensures IterPiecePriorities(0, 2) == Some([0, 1]) && Queued([0, 1], s.queue, 2) == [0, 1]
  {
    hide Queued;
    PriorityShape(0, 2);
    var ids: seq<nat> := [0, 1];
    assert [0, 1] + Range(1, 1) == ids;
    QueuedCons(1, [], s.queue, 2);
    QueuedCons(0, [1], s.queue, 2);
    NoneQueued(s.queue, 2);
    assert [0] + [1] == ids && [1] + [] == [1];
  }

  lemma NoneQueued(queue: seq<bool>, n: nat)
    requires n <= |queue|
    ensures Queued([], queue, n) == []
  {
  }

  lemma FirstOfBoth()
    ensures FirstIn([0, 1], [true, false]) == Some(0) && FirstIn([0], [true, false]) == Some(0)
    ensures FirstIn([], [true, false]) == None
  {
  }

  lemma QueueYieldsFirst(a: Locked, have: bool, chunk: bool, counted: nat)
    requires a.tracker == Tracker(have, true, chunk, counted) && counted != 2
    ensures Tracks(TWO, FILE, a.tracker)
    ensures NextPiece(TWO, FILE, [0], a, [], [true, false]) == Success(Some(0))
  {
    hide Lengths.TotalPieces; hide Lengths.PieceLen; hide Lengths.PieceStart; hide Lengths.PieceEnd;
    hide Lengths.ChunkBits; hide Lengths.ChunkStart; hide Lengths.ChunkEnd; hide Lengths.ChunksPerPiece;
    hide IterPiecePriorities; hide Queued; hide FirstIn;
    TrackerIsSound(have, true, chunk, counted);
    BothQueued(a.tracker);
    Pieces();
    Chunks();
    FileIsGood();
    FirstOfBoth();
    NothingStreamed(a);
  }

  lemma NothingStreamed(a: Locked)
    requires TWO.Valid() && TWO.TotalPieces() <= |a.tracker.have|
    ensures Wanting(TWO, a, []) == []
  {
  }

  lemma Reserving(have: bool, queued: bool, chunk: bool, counted: nat)
    ensures |Tracker(have, queued, chunk, counted).queue| == 2
    ensures Reserve(Tracker(have, queued, chunk, counted), 0) == Tracker(have, false, chunk, counted)
  {
    assert [queued, true][0 := false] == [false, true];
  }

  /** Peer `peer`, which has piece 0 only, takes it from the queue, even if it is had. */
  lemma ReserveQueued(a: Transfer, peer: Peer, have: bool, chunk: bool, counted: nat)
    requires TheTorrent().Valid() && Reachable(a) && Has(a, have, true, chunk, counted) && counted != 2
    ensures Reachable(a.(locked := Locked(Tracker(have, false, chunk, counted), a.locked.inflight[0 := peer])))
  {
    hide Reachable; hide NextPiece; hide Tracker; hide Reserve; hide GoodInfos; hide Running; hide Tracks;
    QueueYieldsFirst(a.locked, have, chunk, counted);
    Reserving(have, true, chunk, counted);
    Runs(a, have, true, chunk, counted);
    Extend(a, OpReserve(peer, [], [true, false]),
           a.(locked := Locked(Tracker(have, false, chunk, counted), a.locked.inflight[0 := peer])));
  }

  lemma StreamYieldsFirst(a: Locked, queued: bool, chunk: bool, counted: nat)
    requires a.tracker == Tracker(false, queued, chunk, counted) && 0 !in a.inflight
    ensures Tracks(TWO, FILE, a.tracker)
    ensures NextPiece(TWO, FILE, [0], a, [0], [true, false]) == Success(Some(0))
  {
    hide Lengths.TotalPieces; hide Lengths.PieceLen; hide Lengths.PieceStart; hide Lengths.PieceEnd;
    hide Lengths.ChunkBits; hide Lengths.ChunkStart; hide Lengths.ChunkEnd; hide Lengths.ChunksPerPiece;
    hide FirstQueued; hide Tracks; hide FirstIn;
    Pieces();
    TrackerIsSound(false, queued, chunk, counted);
    FirstOfBoth();
    assert Wanting(TWO, a, [0]) == [0];
  }

  /** The same for a stream that wants piece 0, which must be missing and not in flight. */
  lemma ReserveStreamed(a: Transfer, peer: Peer, queued: bool, chunk: bool, counted: nat)
    requires TheTorrent().Valid() && Reachable(a) && Has(a, false, queued, chunk, counted) && 0 !in a.locked.inflight
    ensures Reachable(a.(locked := Locked(Tracker(false, false, chunk, counted), a.locked.inflight[0 := peer])))
  {
    hide Reachable; hide NextPiece; hide Tracker; hide Reserve; hide GoodInfos; hide Running; hide Tracks;
    StreamYieldsFirst(a.locked, queued, chunk, counted);
    Reserving(false, queued, chunk, counted);
    Runs(a, false, queued, chunk, counted);
    Extend(a, OpReserve(peer, [0], [true, false]),
           a.(locked := Locked(Tracker(false, false, chunk, counted), a.locked.inflight[0 := peer])));
  }

  /** Choosing the file again while piece 0 is missing queues it and forgets its chunk. */
  lemma ChooseAgain(a: Transfer, queued: bool, chunk: bool, counted: nat)
    requires TheTorrent().Valid() && Reachable(a) && Has(a, false, queued, chunk, counted)
    ensures Reachable(a.(locked := a.locked.(tracker := Tracker(false, true, false, counted))))
  {
    hide Lengths.TotalPieces; hide Lengths.PieceLen; hide Lengths.PieceStart; hide Lengths.PieceEnd;
    hide Lengths.ChunkBits; hide Lengths.ChunkStart; hide Lengths.ChunkEnd; hide Lengths.ChunksPerPiece;
    hide Reachable;
    Runs(a, false, queued, chunk, counted);
    Pieces();
    Chunks();
    FileIsGood();
    ChoosingQueues(queued, chunk, counted);
    Extend(a, OpChoose({0}), a.(locked := a.locked.(tracker := Tracker(false, true, false, counted))));
  }

  lemma ChoosingQueues(queued: bool, chunk: bool, counted: nat)
    ensures Shape(TWO, Tracker(false, queued, chunk, counted))
    ensures var s, s' := Tracker(false, queued, chunk, counted), Tracker(false, true, false, counted);
            Reselected(TWO, s, Lens(FILE), {0}, s')
  {
    hide Lengths.TotalPieces; hide Lengths.PieceLen; hide Lengths.PieceStart; hide Lengths.PieceEnd;
    hide Lengths.ChunkBits; hide Lengths.ChunkStart; hide Lengths.ChunkEnd; hide Lengths.ChunksPerPiece;
    Pieces();
    Chunks();
    FileIsGood();
    TrackerIsSound(false, queued, chunk, counted);
    TrackerIsSound(false, true, false, counted);
    var s, s', lens := Tracker(false, queued, chunk, counted), Tracker(false, true, false, counted), Lens(FILE);
    assert lens == [2];
    TrackerRuns.CoveredAll(TWO, Sum(lens));
    var want := Wanted(TWO, lens, {0});
    assert 0 in {0} && FileShare(lens, 0, 0, 1) > 0 && FileShare(lens, 0, 1, 2) > 0;
    assert PieceTouched(TWO, lens, {0}, 0) && PieceTouched(TWO, lens, {0}, 1);
    assert want[0] && want[1];
    assert TWO.IsChunkOf(0, 0);
    assert ChunkCleared(TWO, s.have, want, 2, 0);
    assert UpdatedUpTo(TWO, s, want, 2, s');
  }

  /** Peer `peer` writes the byte `x` as piece 0. */
  lemma WriteByte(a: Transfer, peer: Peer, x: byte, y: byte, have: bool, queued: bool, chunk: bool, counted: nat)
    requires TheTorrent().Valid() && Reachable(a) && Has(a, have, queued, chunk, counted) && a.files == Files(x)
    requires 0 in a.locked.inflight && a.locked.inflight[0] == peer && a.writing == map[]
    ensures Reachable(a.(writing := map[Write(peer, 0, 0, [y]) := true], files := Files(y)))
  {
    hide Lengths.TotalPieces; hide Lengths.PieceLen; hide Lengths.PieceStart; hide Lengths.PieceEnd;
    hide Lengths.ChunkBits; hide Lengths.ChunkStart; hide Lengths.ChunkEnd; hide Lengths.ChunksPerPiece;
    hide Reachable;
    Runs(a, have, queued, chunk, counted);
    Pieces();
    Chunks();
    FileIsGood();
    var w := Write(peer, 0, 0, [y]);
    assert IsChunk(TWO, w);
    var b := a.(writing := map[w := false]);
    assert a.writing[w := false] == b.writing;
    Extend(a, OpStart(w), b);
    Runs(b, have, queued, chunk, counted);
    ByteWritten(x, y);
    var c := b.(writing := map[w := true], files := Files(y));
    assert b.writing[w := true] == c.writing;
    assert w.data[..1] == w.data;
    Extend(b, OpStore(w), c);
  }

  lemma ByteWritten(x: byte, y: byte)
    ensures WrittenAll(FILE, Files(x), Files(y), 0, [y])
  {
    var data: seq<byte> := [y];
    assert data[0..1] == data;
    assert Written([Some(x), Some(0)], 0, data) == [Some(y), Some(0)];
    assert Offset(Lens(FILE), 0) == 0;
  }

  /** Marking that block completes piece 0. */
  lemma MarkByte(a: Transfer, w: Write, have: bool, queued: bool, counted: nat)
    requires TheTorrent().Valid() && Reachable(a) && Has(a, have, queued, false, counted)
    requires w.p == 0 && w.begin == 0 && |w.data| == 1 && a.writing == map[w := true]
    ensures Reachable(Transfer(Locked(Tracker(have, queued, true, counted), a.locked.inflight - {0}), map[],
                               a.checking + {0}, a.passed, a.files))
  {
    hide Lengths.TotalPieces; hide Lengths.PieceLen; hide Lengths.PieceStart; hide Lengths.PieceEnd;
    hide Lengths.ChunkBits; hide Lengths.ChunkStart; hide Lengths.ChunkEnd; hide Lengths.ChunksPerPiece;
    hide Reachable;
    Runs(a, have, queued, false, counted);
    Pieces();
    Chunks();
    FileIsGood();
    var s := a.locked.tracker;
    assert ChunkOfBlock(TWO, 0, 0, 1) == Some(0);
    assert !AllInRange(s.chunks, 0, 1) by { assert !s.chunks[0]; }
    assert s.chunks[0 := true] == Tracker(have, queued, true, counted).chunks;
    assert AllInRange(s.chunks[0 := true], 0, 1);
    assert MarkChunk(TWO, s, 0, 0, 1) == (Tracker(have, queued, true, counted), Some(Completed));
    assert a.writing - {w} == map[];
    Extend(a, OpStored(w), Transfer(Locked(Tracker(have, queued, true, counted), a.locked.inflight - {0}), map[],
                                    a.checking + {0}, a.passed, a.files));
  }

  lemma SevenChecksOut(d: Downloads.Disk)
    requires d.files == Files(7) && |d.have| == 2
    ensures TheTorrent().Valid() && Downloads.Fits(TheTorrent(), d) && Downloads.ChecksOut(TheTorrent(), d, 0)
  {
    hide Lengths.TotalPieces; hide Lengths.PieceLen; hide Lengths.PieceStart; hide Lengths.PieceEnd;
    hide Lengths.ChunkBits; hide Lengths.ChunkStart; hide Lengths.ChunkEnd; hide Lengths.ChunksPerPiece;
    Pieces();
    Chunks();
    FileIsGood();
    PieceZero(7);
    assert Values([Some(7)]) == [7];
  }

  lemma NineFails(d: Downloads.Disk)
    requires d.files == Files(9) && |d.have| == 2 && d.have[0]
    ensures TheTorrent().Valid() && Downloads.Fits(TheTorrent(), d) && !Downloads.Verified(TheTorrent(), d)
  {
    hide Lengths.TotalPieces; hide Lengths.PieceLen; hide Lengths.PieceStart; hide Lengths.PieceEnd;
    hide Lengths.ChunkBits; hide Lengths.ChunkStart; hide Lengths.ChunkEnd; hide Lengths.ChunksPerPiece;
    Pieces();
    Chunks();
    FileIsGood();
    PieceZero(9);
    assert Values([Some(9)]) == [9];
    assert !Downloads.ChecksOut(TheTorrent(), d, 0);
  }

  lemma PieceZero(x: byte)
    ensures PieceCells(TWO, Space(FILE, Files(x)), 0) == [Some(x)]
  {
    hide Lengths.TotalPieces; hide Lengths.PieceLen; hide Lengths.PieceStart; hide Lengths.PieceEnd;
    hide Lengths.ChunkBits; hide Lengths.ChunkStart; hide Lengths.ChunkEnd; hide Lengths.ChunksPerPiece;
    Pieces();
    Chunks();
    FileIsGood();
    assert FileCells(FILE[0], Files(x)[0]) == [Some(x), Some(0)];
    assert Flat(FILE, Files(x), 0) == [];
    assert Space(FILE, Files(x)) == [Some(x), Some(0)];
  }

  lemma Passing(a: Transfer, have: bool, queued: bool, chunk: bool, counted: nat)
    requires TheTorrent().Valid() && Reachable(a) && Has(a, have, queued, chunk, counted)
    requires a.checking == {0} && a.passed == {} && a.files == Files(7)
    ensures Reachable(a.(passed := {0}))
  {
    hide Lengths.TotalPieces; hide Lengths.PieceLen; hide Lengths.PieceStart; hide Lengths.PieceEnd;
    hide Lengths.ChunkBits; hide Lengths.ChunkStart; hide Lengths.ChunkEnd; hide Lengths.ChunksPerPiece;
    hide Reachable; hide Tracker; hide Files; hide GoodInfos; hide Running; hide Downloads.ChecksOut;
    Pieces();
    Runs(a, have, queued, chunk, counted);
    TrackerHas(have, queued, chunk, counted);
    SevenChecksOut(DiskOf(a));
    Extend(a, OpPasses(0), a.(passed := {0}));
  }

  lemma TrackerHas(have: bool, queued: bool, chunk: bool, counted: nat)
    ensures Tracker(have, queued, chunk, counted).have == [have, false]
  {
  }

  /** The piece is checked with success and becomes had, once more if it was. */
  lemma CheckAndComplete(a: Transfer, have: bool, queued: bool, chunk: bool)
    requires TheTorrent().Valid() && Reachable(a) && Has(a, have, queued, chunk, if have then 1 else 0)
    requires a.checking == {0} && a.passed == {} && a.files == Files(7)
    ensures var counted := if have then 2 else 1;
            Reachable(a.(locked := a.locked.(tracker := Tracker(true, queued, chunk, counted)), checking := {}))
  {
    hide Reachable; hide Tracker; hide Files; hide GoodInfos; hide Running; hide TrackerRuns.Step;
    var before, counted := if have then 1 else 0, if have then 2 else 1;
    Passing(a, have, queued, chunk, before);
    var b := a.(passed := {0});
    Runs(b, have, queued, chunk, before);
    CompletingCounts(have, queued, chunk);
    var c := a.(locked := a.locked.(tracker := Tracker(true, queued, chunk, counted)), checking := {});
    assert b.checking - {0} == {} && b.passed - {0} == {};
    Extend(b, OpComplete(0), c);
  }

  lemma CompletingCounts(have: bool, queued: bool, chunk: bool)
    ensures TheTorrent().Valid()
    ensures TrackerRuns.Step(TWO, FILE, Tracker(have, queued, chunk, if have then 1 else 0), TrackerRuns.OpComplete(0),
                             Tracker(true, queued, chunk, if have then 2 else 1))
  {
    hide Lengths.TotalPieces; hide Lengths.PieceLen; hide Lengths.PieceStart; hide Lengths.PieceEnd;
    hide Lengths.ChunkBits; hide Lengths.ChunkStart; hide Lengths.ChunkEnd; hide Lengths.ChunksPerPiece;
    var s := Tracker(have, queued, chunk, if have then 1 else 0);
    TrackerIsSound(have, queued, chunk, if have then 1 else 0);
    Pieces();
    Chunks();
    FileIsGood();
    assert FILE[0].InRange(0);
    assert InFirstRun(FILE, 0, 0);
    assert TWO.SizeOfPieceInFile(0, 0, 2) == 1;
    assert s.have[0 := true] == [true, false];
    var m := MarkDownloaded(TWO, s, 0);
    assert CountCompleted(TWO, FILE, m, 0).perFile == [if have then 2 else 1];
  }

  // ---------- the runs ----------

  /** The first peer delivers piece 0 and it is being checked. */
  lemma FirstDelivery()
    ensures TheTorrent().Valid()
    ensures Reachable(Transfer(Locked(Tracker(false, false, true, 0), map[]), map[], {0}, {}, Files(7)))
  {
    hide Reachable; hide Tracker; hide Files; hide Running; hide GoodInfos; hide Idle; hide Downloads.Verified;
    BeginIsRun();
    ReserveQueued(Begin(), 1, false, false, 0);
    var a := Transfer(Locked(Tracker(false, false, false, 0), map[0 := 1]), map[], {}, {}, Files(0));
    assert map[][0 := 1] == map[0 := 1];
    WriteByte(a, 1, 0, 7, false, false, false, 0);
    var w := Write(1, 0, 0, [7]);
    var b := a.(writing := map[w := true], files := Files(7));
    MarkByte(b, w, false, false, 0);
    assert map[0 := 1] - {0} == map[] && {} + {0} == {0};
  }

  /** Choosing the file again while piece 0 is on its way queues it a second time. Once it is had, a second peer
      takes it from the queue and overwrites it. */
  lemma ReselectionOverwritesHadPiece()
    ensures TheTorrent().Valid()
    ensures exists a, b ::
              && Reachable(a) && a.locked.tracker.have == [true, false] && 0 in a.locked.inflight
              && Running(TheTorrent(), a) && !Safe(TheTorrent(), a) && Downloads.Verified(TheTorrent(), DiskOf(a))
              && Reachable(b) && Running(TheTorrent(), b) && !Downloads.Verified(TheTorrent(), DiskOf(b))
  {
    hide Reachable; hide Downloads.Verified; hide Tracker; hide Files; hide Running; hide Safe; hide GoodInfos;
    TrackerHas(true, false, true, 1);
    BeginIsRun();
    ReserveQueued(Begin(), 1, false, false, 0);
    var a := Transfer(Locked(Tracker(false, false, false, 0), map[0 := 1]), map[], {}, {}, Files(0));
    assert map[][0 := 1] == map[0 := 1];
    ChooseAgain(a, false, false, 0);
    a := a.(locked := a.locked.(tracker := Tracker(false, true, false, 0)));
    WriteByte(a, 1, 0, 7, false, true, false, 0);
    var w := Write(1, 0, 0, [7]);
    a := a.(writing := map[w := true], files := Files(7));
    MarkByte(a, w, false, true, 0);
    a := Transfer(Locked(Tracker(false, true, true, 0), map[]), map[], {0}, {}, Files(7));
    assert map[0 := 1] - {0} == map[] && {} + {0} == {0};
    CheckAndComplete(a, false, true, true);
    a := Transfer(Locked(Tracker(true, true, true, 1), map[]), map[], {}, {}, Files(7));
    ReserveQueued(a, 2, true, true, 1);
    a := Transfer(Locked(Tracker(true, false, true, 1), map[0 := 2]), map[], {}, {}, Files(7));
    assert map[][0 := 2] == map[0 := 2];
    HadInFlight(a);
    WriteByte(a, 2, 7, 9, true, false, true, 1);
    var b := a.(writing := map[Write(2, 0, 0, [9]) := true], files := Files(9));
    Runs(b, true, false, true, 1);
    NineFails(DiskOf(b));
  }

  lemma HadInFlight(a: Transfer)
    requires a == Transfer(Locked(Tracker(true, false, true, 1), map[0 := 2]), map[], {}, {}, Files(7))
    ensures TheTorrent().Valid() && Running(TheTorrent(), a) && !Safe(TheTorrent(), a)
    ensures Downloads.Verified(TheTorrent(), DiskOf(a))
  {
    hide Lengths.TotalPieces; hide Lengths.PieceLen; hide Lengths.PieceStart; hide Lengths.PieceEnd;
    hide Lengths.ChunkBits; hide Lengths.ChunkStart; hide Lengths.ChunkEnd; hide Lengths.ChunksPerPiece;
    Runs(a, true, false, true, 1);
    Pieces();
    Chunks();
    FileIsGood();
    assert 0 in a.locked.inflight && !Free(TheTorrent(), a, 0);
    SevenChecksOut(DiskOf(a));
  }

  /** While piece 0 is being checked it is neither had nor in flight. So a second peer takes it for a stream, and
      overwrites it after it has become had. */
  lemma StreamOverwritesHadPiece()
    ensures TheTorrent().Valid()
    ensures exists a, b ::
              && Reachable(a) && a.locked.tracker.have == [true, false] && 0 in a.locked.inflight
              && Running(TheTorrent(), a) && !Safe(TheTorrent(), a) && Downloads.Verified(TheTorrent(), DiskOf(a))
              && Reachable(b) && Running(TheTorrent(), b) && !Downloads.Verified(TheTorrent(), DiskOf(b))
  {
    hide Reachable; hide Downloads.Verified; hide Tracker; hide Files; hide Running; hide Safe; hide GoodInfos;
    TrackerHas(true, false, true, 1);
    FirstDelivery();
    var a := Transfer(Locked(Tracker(false, false, true, 0), map[]), map[], {0}, {}, Files(7));
    ReserveStreamed(a, 2, false, true, 0);
    a := a.(locked := Locked(Tracker(false, false, true, 0), map[0 := 2]));
    assert map[][0 := 2] == map[0 := 2];
    CheckAndComplete(a, false, false, true);
    a := Transfer(Locked(Tracker(true, false, true, 1), map[0 := 2]), map[], {}, {}, Files(7));
    HadInFlight(a);
    WriteByte(a, 2, 7, 9, true, false, true, 1);
    var b := a.(writing := map[Write(2, 0, 0, [9]) := true], files := Files(9));
    Runs(b, true, false, true, 1);
    NineFails(DiskOf(b));
  }

  /** Choosing the file again while piece 0 is being checked also forgets its chunk. A second peer then completes
      the piece a second time, and its bytes are counted twice. */
  lemma PieceCountedTwice()
    ensures TheTorrent().Valid()
    ensures exists a ::
              && Reachable(a) && Running(TheTorrent(), a)
              && a.locked.tracker.perFile == [2] && a.locked.tracker.hns.haveBytes == 1
              && !CountersCorrect(TWO, FILE, a.locked.tracker)
  {
    hide Lengths.TotalPieces; hide Lengths.PieceLen; hide Lengths.PieceStart; hide Lengths.PieceEnd;
    hide Lengths.ChunkBits; hide Lengths.ChunkStart; hide Lengths.ChunkEnd; hide Lengths.ChunksPerPiece;
    hide Reachable;
    FirstDelivery();
    var a := Transfer(Locked(Tracker(false, false, true, 0), map[]), map[], {0}, {}, Files(7));
    ChooseAgain(a, false, true, 0);
    a := a.(locked := Locked(Tracker(false, true, false, 0), map[]));
    ReserveQueued(a, 2, false, false, 0);
    a := a.(locked := Locked(Tracker(false, false, false, 0), map[0 := 2]));
    assert map[][0 := 2] == map[0 := 2];
    CheckAndComplete(a, false, false, false);
    a := Transfer(Locked(Tracker(true, false, false, 1), map[0 := 2]), map[], {}, {}, Files(7));
    WriteByte(a, 2, 7, 7, true, false, false, 1);
    var w := Write(2, 0, 0, [7]);
    a := a.(writing := map[w := true]);
    MarkByte(a, w, true, false, 1);
    a := Transfer(Locked(Tracker(true, false, true, 1), map[]), map[], {0}, {}, Files(7));
    assert map[0 := 2] - {0} == map[] && {} + {0} == {0};
    CheckAndComplete(a, true, false, true);
    a := Transfer(Locked(Tracker(true, false, true, 2), map[]), map[], {}, {}, Files(7));
    Runs(a, true, false, true, 2);
    Pieces();
    Chunks();
    FileIsGood();
    assert FileHave(TWO, FILE[0], a.locked.tracker.have, 1) == 1;
    assert FileHave(TWO, FILE[0], a.locked.tracker.have, 2) == 1;
  }
}

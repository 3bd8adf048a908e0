/** Concrete states and inputs in which the code does not do what one would expect. Each shows that the failing
    side of an exact condition proved elsewhere can be reached. */
module Witnesses {
  import opened TorrentLengths
  import opened FileInfos
  import opened Wrappers
  import opened FileSpace
  import opened FileOperations
  import opened FileOpsProperties
  import CreateTorrent
  import opened TrackerSpec
  import opened TrackerRuns
  import opened TrackerCounters
  import opened TrackerQueue
  import FileTree
  import WriteThroughCache

  /** A torrent of one piece of two bytes. */
  const ONE_PIECE := Lengths(2, 2)

  /** One file that fills it. */
  const ONE_FILE := [FileInfo(0, 2, 0, 1, false)]

  /** Two files of a byte each, with an empty file between them. */
  const EMPTY_INSIDE := [FileInfo(0, 1, 0, 1, false), FileInfo(1, 0, 0, 0, false), FileInfo(1, 1, 0, 1, false)]

  /** A tracker of that torrent without the piece. */
  function Missing(selected: bool, queued: bool, files: nat): State {
    State([false], [selected], [queued], seq(8, _ => false), seq(files, _ => 0),
          Hns(0, if selected then 2 else 0, if selected then 2 else 0))
  }

  lemma OnePiece()
    ensures ONE_PIECE.Valid() && ONE_PIECE.TotalPieces() == 1 && ONE_PIECE.ChunkBits() == 8
    ensures ONE_PIECE.PieceStart(0) == 0 && ONE_PIECE.PieceEnd(0) == 2 && ONE_PIECE.PieceLen(0) == 2
  {
  }

  lemma MissingIsSound(selected: bool, queued: bool, fis: seq<FileInfo>)
    ensures ONE_PIECE.Valid() && Shape(ONE_PIECE, Missing(selected, queued, |fis|))
    ensures InSync(ONE_PIECE, Missing(selected, queued, |fis|))
    ensures CountersCorrect(ONE_PIECE, fis, Missing(selected, queued, |fis|))
    ensures QueueDisciplined(ONE_PIECE, Missing(selected, queued, |fis|)) <==> queued ==> selected
  {
    OnePiece();
    var s := Missing(selected, queued, |fis|);
    assert Bytes(ONE_PIECE, s.have, 1) == 0 && Bytes(ONE_PIECE, s.selected, 1) == if selected then 2 else 0;
    assert Needed(s.have, s.selected)[0] == selected;
    forall f | 0 <= f < |fis| ensures FileHave(ONE_PIECE, fis[f], s.have, 1) == 0 {
      assert FileHave(ONE_PIECE, fis[f], s.have, 0) == 0;
    }
  }

  lemma OneFileIsGood()
    ensures ONE_PIECE.Valid() && GoodInfos(ONE_PIECE, ONE_FILE) && Lens(ONE_FILE) == [2]
  {
    OnePiece();
    assert Lens(ONE_FILE) == [2];
    assert Offset([2], 1) == 2;
  }

  lemma EmptyInsideIsGood()
    ensures ONE_PIECE.Valid() && GoodInfos(ONE_PIECE, EMPTY_INSIDE)
  {
    OnePiece();
    var lens := Lens(EMPTY_INSIDE);
    assert lens == [1, 0, 1];
    assert Offset(lens, 1) == 1 && Offset(lens, 2) == 1 && Offset(lens, 3) == 2;
  }

  /** Completing the piece does not count the file behind the empty one. */
  lemma EmptyFileLosesCount()
    ensures GoodInfos(ONE_PIECE, EMPTY_INSIDE) && !NoEmptyFileInside(EMPTY_INSIDE, 0)
    ensures ONE_PIECE.Valid() && Shape(ONE_PIECE, Missing(true, false, 3))
    ensures CountersCorrect(ONE_PIECE, EMPTY_INSIDE, Missing(true, false, 3))
    ensures exists t ::
              && Step(ONE_PIECE, EMPTY_INSIDE, Missing(true, false, 3), OpComplete(0), t)
              && Shape(ONE_PIECE, t) && t.have[0] && !CountersCorrect(ONE_PIECE, EMPTY_INSIDE, t)
  {
    OnePiece();
    EmptyInsideIsGood();
    MissingIsSound(true, false, EMPTY_INSIDE);
    var s := Missing(true, false, 3);
    assert EMPTY_INSIDE[0].InRange(0) && EMPTY_INSIDE[2].InRange(0) && EMPTY_INSIDE[1].len == 0;
    var t := CountCompleted(ONE_PIECE, EMPTY_INSIDE, MarkDownloaded(ONE_PIECE, s, 0), 0);
    CompleteExact(ONE_PIECE, EMPTY_INSIDE, s, 0, t);
    assert Step(ONE_PIECE, EMPTY_INSIDE, s, OpComplete(0), t);
  }

  /** Putting back a piece that is not selected queues it. */
  lemma UnselectedIsQueued()
    ensures ONE_PIECE.Valid() && Shape(ONE_PIECE, Missing(false, false, 1))
    ensures InSync(ONE_PIECE, Missing(false, false, 1))
    ensures QueueDisciplined(ONE_PIECE, Missing(false, false, 1))
    ensures exists t :: Step(ONE_PIECE, ONE_FILE, Missing(false, false, 1), OpBroken(0), t) && Shape(ONE_PIECE, t) &&
                        !QueueDisciplined(ONE_PIECE, t)
  {
    OnePiece();
    OneFileIsGood();
    MissingIsSound(false, false, ONE_FILE);
    var s := Missing(false, false, 1);
    var t := MarkBroken(ONE_PIECE, s, 0);
    QueueGuardExact(ONE_PIECE, ONE_FILE, s, OpBroken(0), t);
    assert Step(ONE_PIECE, ONE_FILE, s, OpBroken(0), t);
  }

  /** Completing a piece that was not reserved leaves it queued. */
  lemma UnreservedStaysQueued()
    ensures ONE_PIECE.Valid() && Shape(ONE_PIECE, Missing(true, true, 1)) && InSync(ONE_PIECE, Missing(true, true, 1))
    ensures QueueDisciplined(ONE_PIECE, Missing(true, true, 1))
    ensures exists t :: Step(ONE_PIECE, ONE_FILE, Missing(true, true, 1), OpDownloaded(0), t) && Shape(ONE_PIECE, t) &&
                        t.have[0] && t.queue[0]
  {
    OnePiece();
    MissingIsSound(true, true, ONE_FILE);
    var s := Missing(true, true, 1);
    var t := MarkDownloaded(ONE_PIECE, s, 0);
    assert Step(ONE_PIECE, ONE_FILE, s, OpDownloaded(0), t);
  }

  /** Choosing the file again while its piece is in flight, and then completing the piece. */
  lemma ReselectedStaysQueued()
    ensures ONE_PIECE.Valid() && GoodInfos(ONE_PIECE, ONE_FILE) && Shape(ONE_PIECE, Missing(true, false, 1))
    ensures exists t, u ::
              && Step(ONE_PIECE, ONE_FILE, Missing(true, false, 1), OpSelect({0}), t)
              && Step(ONE_PIECE, ONE_FILE, t, OpComplete(0), u)
              && Shape(ONE_PIECE, u) && u.have[0] && u.queue[0]
  {
    OnePiece();
    OneFileIsGood();
    MissingIsSound(true, false, ONE_FILE);
    MissingIsSound(true, true, ONE_FILE);
    var s, t := Missing(true, false, 1), Missing(true, true, 1);
    CoveredAll(ONE_PIECE, Sum(Lens(ONE_FILE)));
    assert 0 in {0} && FileShare([2], 0, 0, 2) > 0;
    assert PieceTouched(ONE_PIECE, [2], {0}, 0);
    assert Wanted(ONE_PIECE, [2], {0})[0];
    assert Reselected(ONE_PIECE, s, Lens(ONE_FILE), {0}, t);
    var u := CountCompleted(ONE_PIECE, ONE_FILE, MarkDownloaded(ONE_PIECE, t, 0), 0);
    assert Step(ONE_PIECE, ONE_FILE, t, OpComplete(0), u);
    ReselectInFlight(ONE_PIECE, ONE_FILE, s, {0}, t, 0, u);
  }

  /** The torrent of a file of one byte and an empty one has no hash for its only piece. */
  lemma EmptyLastFileLosesHash(sha1: seq<byte> -> Digest)
    ensures CreateTorrent.CreatedHashes(sha1, 2, [[7], []], [])
    ensures Lengths(1, 2).Valid() && Lengths(1, 2).TotalPieces() == 1
    ensures |CreateTorrent.Content([[7], []])| == 1 && !CreateTorrent.LastFileNonEmpty([[7], []])
  {
    var files: seq<seq<byte>> := [[7], []];
    assert CreateTorrent.FileLens(files) == [1, 0];
    assert Offset([1, 0], 1) == 1 && Offset([1, 0], 2) == 1;
  }

  /** The torrent of a file that fills a piece has a hash too many. */
  lemma FullLastPieceAddsHash(sha1: seq<byte> -> Digest)
    ensures CreateTorrent.CreatedHashes(sha1, 2, [[7, 7]], [sha1([7, 7]), sha1([])]) && ONE_PIECE.TotalPieces() == 1
    ensures |CreateTorrent.Content([[7, 7]])| == 2
  {
    OnePiece();
    var files: seq<seq<byte>> := [[7, 7]];
    var bytes: seq<byte> := [7, 7];
    assert CreateTorrent.FileLens(files) == [2];
    assert CreateTorrent.Concat(files, 0) + files[0] == bytes;
    assert CreateTorrent.Content(files) == bytes;
    assert CreateTorrent.Start(2, 1) == 2 && CreateTorrent.Start(2, 0) == 0;
    assert bytes[2..] == [] && bytes[0..2] == bytes;
    var hashes := [sha1(bytes), sha1([])];
    assert CreateTorrent.HashOf(sha1, 2, bytes, 0, hashes[0]);
    assert hashes[..1] == [sha1(bytes)];
  }

  /** Two pieces of a byte in a file whose first byte cannot be read: the second piece checks out on its own, but
      the streaming pass hashes no bytes for it. */
  lemma FailedFileFailsGoodPiece()
    ensures Lengths(2, 1).Valid() && Lengths(2, 1).TotalPieces() == 2
    ensures CheckResult(Lengths(2, 1), [None, Some(7)], Telling, HashesWith(1, [7]), 1) == Success(true)
    ensures !StreamHas(Lengths(2, 1), [2], [None, Some(7)], Telling, HashesWith(1, [7]), 1)
    ensures CheckResult(Lengths(2, 1), [None, Some(7)], Telling, HashesWith(1, []), 1) == Success(false)
    ensures StreamHas(Lengths(2, 1), [2], [None, Some(7)], Telling, HashesWith(1, []), 1)
  {
    var l, lens: seq<nat>, flat: seq<Cell> := Lengths(2, 1), [2], [None, Some(7)];
    assert CeilDiv(1, 1) == 1;
    assert l.PieceStart(1) == 1 && l.PieceEnd(1) == 2;
    assert Offset(lens, 1) == 2;
    assert PieceCells(l, flat, 1) == [Some(7)];
    assert Values([Some(7)]) == [7];
    FailedFileIsHashedEmpty(l, lens, flat, Telling, HashesWith(1, [7]), 1, 0, 0);
    FailedFileIsHashedEmpty(l, lens, flat, Telling, HashesWith(1, []), 1, 0, 0);
  }

  const CACHE := WriteThroughCache.Config(ONE_PIECE, ONE_FILE, 1)

  /** Nothing cached over a stored file without zeros. */
  const STORED := WriteThroughCache.State([], map[], [[Some(5), Some(6)]])

  lemma CacheOffsets()
    ensures CACHE.Valid() && WriteThroughCache.PieceAndOffset(CACHE, 0, 0) == Some((0, 0))
    ensures WriteThroughCache.PieceAndOffset(CACHE, 0, 1) == Some((0, 1))
  {
    OnePiece();
  }

  /** The cache after writing the byte 9 at the start of the file. */
  lemma NineCached(ok: bool, done: nat)
    requires done <= 1
    ensures CACHE.Valid()
    ensures var s := WriteThroughCache.WriteResult(CACHE, STORED, 0, 0, [9], ok, done).1;
            && s.lru == [WriteThroughCache.Entry(0, [9, 0])]
            && s.files == [if done == 0 then [Some(5), Some(6)] else [Some(9), Some(6)]]
  {
    hide WriteThroughCache.Marked; hide WriteThroughCache.PieceAndOffset; hide Written; hide Lengths.PieceLen;
    hide Lengths.PieceStart;
    OnePiece();
    CacheOffsets();
    var t := WriteThroughCache.Enter(CACHE, STORED, 0);
    assert WriteThroughCache.Find(STORED.lru, 0) == 0;
    assert seq(2, _ => 0) == [0, 0];
    assert t.lru == [WriteThroughCache.Entry(0, [0, 0])] && t.files == STORED.files;
    var zeros: seq<byte> := [0, 0];
    assert WriteThroughCache.Overwrite(zeros, 0, [9]) == [9, 0];
    FirstByteWritten(done);
  }

  lemma FirstByteWritten(done: nat)
    requires done <= 1
    ensures var bytes: seq<byte> := [9];
            Written([Some(5), Some(6)], 0, bytes[..done]) ==
            if done == 0 then [Some(5), Some(6)] else [Some(9), Some(6)]
  {
    var bytes: seq<byte> := [9];
    assert bytes[..0] == [] && bytes[..1] == bytes;
  }

  lemma NineRead(s: WriteThroughCache.State, o: nat)
    requires o < 2 && s.lru == [WriteThroughCache.Entry(0, [9, 0])] && |s.files| == 1
    ensures CACHE.Valid() && WriteThroughCache.ReadResult(CACHE, s, 0, o, 1).0 == Success([if o == 0 then 9 else 0])
  {
    hide WriteThroughCache.PieceAndOffset; hide WriteThroughCache.Touch;
    OnePiece();
    CacheOffsets();
    assert WriteThroughCache.Find(s.lru, 0) == 0;
    var data: seq<byte> := [9, 0];
    assert data[0..1] == [9] && data[1..2] == [0];
  }

  lemma StoredByte(s: WriteThroughCache.State, o: nat, x: byte)
    requires |s.files| == 1 && o < |s.files[0]| && s.files[0][o] == Some(x)
    ensures WriteThroughCache.Underlying(s, 0, o, 1) == Success([x])
  {
    var cells := CellRange(s.files[0], o, 1);
    assert cells[0] == CellAt(s.files[0], o + 0) == Some(x);
    assert AllReadable(cells) && Values(cells)[0] == x;
    assert Values(cells) == [x];
  }

  /** Writing one byte of a piece makes the other one read as zero, although the file holds a 6. */
  lemma CachedNeighbourIsZero()
    ensures CACHE.Valid() && WriteThroughCache.FilesInOrder(CACHE) && WriteThroughCache.Coherent(CACHE, STORED)
    ensures var s := WriteThroughCache.WriteResult(CACHE, STORED, 0, 0, [9], true, 1).1;
            && |s.files| == 1
            && WriteThroughCache.ReadResult(CACHE, s, 0, 1, 1).0 == Success([0])
            && WriteThroughCache.Underlying(s, 0, 1, 1) == Success([6])
  {
    hide WriteThroughCache.WriteResult; hide WriteThroughCache.ReadResult; hide WriteThroughCache.Underlying;
    OnePiece();
    NineCached(true, 1);
    var s := WriteThroughCache.WriteResult(CACHE, STORED, 0, 0, [9], true, 1).1;
    NineRead(s, 1);
    StoredByte(s, 1, 6);
  }

  /** After a write that failed in the files, the cache answers with a byte that was never stored. */
  lemma FailedWriteIsRead()
    ensures CACHE.Valid()
    ensures var s := WriteThroughCache.WriteResult(CACHE, STORED, 0, 0, [9], false, 0).1;
            && |s.files| == 1
            && WriteThroughCache.ReadResult(CACHE, s, 0, 0, 1).0 == Success([9])
            && WriteThroughCache.Underlying(s, 0, 0, 1) == Success([5])
  {
    hide WriteThroughCache.WriteResult; hide WriteThroughCache.ReadResult; hide WriteThroughCache.Underlying;
    NineCached(false, 0);
    var s := WriteThroughCache.WriteResult(CACHE, STORED, 0, 0, [9], false, 0).1;
    NineRead(s, 0);
    StoredByte(s, 0, 5);
  }

  /** Two pieces of two bytes in one file, and a cache for one piece. */
  const SMALL_CACHE := WriteThroughCache.Config(Lengths(4, 2), [FileInfo(0, 4, 0, 2, false)], 1)

  lemma SmallOffsets()
    ensures SMALL_CACHE.Valid() && SMALL_CACHE.lengths.PieceLen(0) == 2 == SMALL_CACHE.lengths.PieceLen(1)
    ensures WriteThroughCache.PieceAndOffset(SMALL_CACHE, 0, 0) == Some((0, 0))
    ensures WriteThroughCache.PieceAndOffset(SMALL_CACHE, 0, 1) == Some((0, 1))
    ensures WriteThroughCache.PieceAndOffset(SMALL_CACHE, 0, 2) == Some((1, 0))
  {
    var l := SMALL_CACHE.lengths;
    assert l.PieceStart(0) == 0 && l.PieceStart(1) == 2;
    assert FloorDiv(0, 2) == 0 && FloorDiv(1, 2) == 0 && FloorDiv(2, 2) == 1;
  }

  /** Writing one byte that lies at offset `o` of piece `p`, when another piece is cached, or none. */
  lemma ByteEnters(s: WriteThroughCache.State, offset: nat, x: byte, p: nat, o: nat)
    requires |s.files| == 1 && offset < |s.files[0]| && o < 2 && |s.lru| <= 1 && (|s.lru| == 1 ==> s.lru[0].piece != p)
    requires SMALL_CACHE.Valid() && WriteThroughCache.PieceAndOffset(SMALL_CACHE, 0, offset) == Some((p, o))
    requires SMALL_CACHE.lengths.PieceLen(p) == 2
    ensures var t := WriteThroughCache.WriteResult(SMALL_CACHE, s, 0, offset, [x], true, 1).1;
            && t.lru == [WriteThroughCache.Entry(p, if o == 0 then [x, 0] else [0, x])]
            && t.files == [s.files[0][offset := Some(x)]]
  {
    hide WriteThroughCache.Marked; hide WriteThroughCache.PieceAndOffset; hide Written; hide Lengths.PieceLen;
    hide Lengths.PieceStart; hide WriteThroughCache.Landed;
    var t := WriteThroughCache.Enter(SMALL_CACHE, s, p);
    var zeros, bytes: seq<byte> := [0, 0], [x];
    assert WriteThroughCache.Find(s.lru, p) == |s.lru|;
    assert seq(2, _ => 0) == zeros;
    assert s.lru[..0] == [];
    assert t.lru == [WriteThroughCache.Entry(p, zeros)] && t.files == s.files;
    assert WriteThroughCache.Overwrite(zeros, o, bytes) == if o == 0 then [x, 0] else [0, x];
    OneByteWritten(s.files[0], offset, x);
    assert s.files == [s.files[0]];
  }

  lemma OneByteWritten(content: seq<Cell>, offset: nat, x: byte)
    requires offset < |content|
    ensures var bytes: seq<byte> := [x]; Written(content, offset, bytes[..1]) == content[offset := Some(x)]
  {
    var bytes: seq<byte> := [x];
    assert bytes[..1] == bytes;
  }

  /** The bytes 7 and 8 of a piece are written, and a byte of the other piece in between. Through the cache the piece
      reads as 0 and 8, although the files hold it. */
  lemma EvictionSpoilsPiece()
    ensures SMALL_CACHE.Valid()
    ensures var s0 := WriteThroughCache.State([], map[], [[Some(1), Some(2), Some(3), Some(4)]]);
            var s1 := WriteThroughCache.WriteResult(SMALL_CACHE, s0, 0, 0, [7], true, 1).1;
            && |s1.files| == 1
            && var s2 := WriteThroughCache.WriteResult(SMALL_CACHE, s1, 0, 2, [9], true, 1).1;
               && |s2.files| == 1
               && var s3 := WriteThroughCache.WriteResult(SMALL_CACHE, s2, 0, 1, [8], true, 1).1;
                  && |s3.files| == 1
                  && WriteThroughCache.Underlying(s3, 0, 0, 2) == Success([7, 8])
                  && WriteThroughCache.ReadResult(SMALL_CACHE, s3, 0, 0, 2).0 == Success([0, 8])
  {
    hide WriteThroughCache.WriteResult; hide WriteThroughCache.PieceAndOffset; hide WriteThroughCache.Touch;
    hide Lengths.PieceLen;
    SmallOffsets();
    var s0 := WriteThroughCache.State([], map[], [[Some(1), Some(2), Some(3), Some(4)]]);
    ByteEnters(s0, 0, 7, 0, 0);
    var s1 := WriteThroughCache.WriteResult(SMALL_CACHE, s0, 0, 0, [7], true, 1).1;
    ByteEnters(s1, 2, 9, 1, 0);
    var s2 := WriteThroughCache.WriteResult(SMALL_CACHE, s1, 0, 2, [9], true, 1).1;
    ByteEnters(s2, 1, 8, 0, 1);
    var s3 := WriteThroughCache.WriteResult(SMALL_CACHE, s2, 0, 1, [8], true, 1).1;
    assert s3.files[0] == [Some(7), Some(8), Some(9), Some(4)];
    var cells, data: seq<byte> := CellRange(s3.files[0], 0, 2), [0, 8];
    assert cells[0] == CellAt(s3.files[0], 0 + 0) && cells[1] == CellAt(s3.files[0], 0 + 1);
    assert cells == [Some(7), Some(8)];
    assert AllReadable(cells) && Values(cells)[0] == 7 && Values(cells)[1] == 8;
    assert Values(cells) == [7, 8];
    assert s3.lru[0].data[0..2] == data;
  }

  /** An empty range behind the first piece, and the first torrent id that does not decode. */
  lemma SmallestOverflows()
    ensures IterPiecePriorities(1, 1) == None
    ensures FileTree.DecodeId(FileTree.EncodeId(0, 0xffff)) == None
  {
  }
}

/** Chunk deliveries: a piece is reported complete exactly once. */
module TrackerChunks {
  import opened TorrentLengths
  import opened Wrappers
  import opened TrackerSpec

  /** A received block: piece index, byte offset inside the piece, and length. */
  datatype Block = Block(index: nat, begin: nat, len: nat)

  /** The block is exactly chunk `k` of piece `p`. */
  predicate Fills(l: Lengths, p: nat, b: Block, k: nat) {
    && b.index == p && b.begin == k * CHUNK_SIZE && b.begin < l.PieceLen(p)
    && b.begin + b.len == Min((k + 1) * CHUNK_SIZE, l.PieceLen(p))
  }

  /** The block is a chunk of piece `p`. */
  ghost predicate IsChunk(l: Lengths, p: nat, b: Block) {
    exists k: nat :: Fills(l, p, b, k)
  }

  predicate Arrived(l: Lengths, p: nat, blocks: seq<Block>, k: nat) {
    exists i :: 0 <= i < |blocks| && Fills(l, p, blocks[i], k)
  }

  /** Every chunk of the piece has arrived. */
  ghost predicate Whole(l: Lengths, p: nat, blocks: seq<Block>) {
    forall k: nat :: k * CHUNK_SIZE < l.PieceLen(p) ==> Arrived(l, p, blocks, k)
  }

  /** Chunks of piece `p` that some block of `blocks` fills. */
  function Delivered(l: Lengths, p: nat, blocks: seq<Block>): set<nat> {
    set k | 0 <= k < l.ChunksPerPiece(p) && Arrived(l, p, blocks, k)
  }

  function AllChunks(l: Lengths, p: nat): set<nat> {
    set k | 0 <= k < l.ChunksPerPiece(p) && HasChunk(l, p, k)
  }

  predicate HasChunk(l: Lengths, p: nat, k: nat) {
    k < l.ChunksPerPiece(p)
  }

  /** The chunk of piece `p` that the block fills, if it is one, as `MarkChunk` finds it. */
  function FilledBy(l: Lengths, p: nat, b: Block): set<nat> {
    if b.index == p && ChunkOfBlock(l, p, b.begin, b.len).Some? then {ChunkOfBlock(l, p, b.begin, b.len).value} else {}
  }

  lemma FilledByIs(l: Lengths, p: nat, b: Block, k: nat)
    ensures k in FilledBy(l, p, b) <==> Fills(l, p, b, k)
    ensures k in FilledBy(l, p, b) ==> k < l.ChunksPerPiece(p)
  {
    hide Lengths.PieceLen; hide Lengths.ChunksPerPiece; hide ChunkOfBlock;
    BlockIsChunk(l, p, b.begin, b.len, k);
    ChunkExists(l, p, k);
  }

  lemma NoChunkFillsNothing(l: Lengths, p: nat, b: Block)
    ensures IsChunk(l, p, b) <==> FilledBy(l, p, b) != {}
  {
    hide FilledBy; hide Fills;
    if IsChunk(l, p, b) {
      var k: nat :| Fills(l, p, b, k);
      FilledByIs(l, p, b, k);
    }
    if FilledBy(l, p, b) != {} {
      var k: nat :| k in FilledBy(l, p, b);
      FilledByIs(l, p, b, k);
    }
  }

  lemma DeliveredMore(l: Lengths, p: nat, blocks: seq<Block>)
    ensures |blocks| == 0 ==> Delivered(l, p, blocks) == {}
    ensures |blocks| > 0 ==>
              Delivered(l, p, blocks) ==
              Delivered(l, p, blocks[..|blocks| - 1]) + FilledBy(l, p, blocks[|blocks| - 1])
  {
    hide Lengths.ChunksPerPiece; hide Fills; hide FilledBy;
    if |blocks| > 0 {
      var before, b := blocks[..|blocks| - 1], blocks[|blocks| - 1];
      forall k: nat ensures k in Delivered(l, p, blocks) <==> k in Delivered(l, p, before) || k in FilledBy(l, p, b) {
        FilledByIs(l, p, b, k);
        assert Arrived(l, p, blocks, k) <==> Arrived(l, p, before, k) || Fills(l, p, b, k) by {
          if Arrived(l, p, before, k) {
            var i :| 0 <= i < |before| && Fills(l, p, before[i], k);
            assert Fills(l, p, blocks[i], k);
          }
          if Arrived(l, p, blocks, k) {
            var i :| 0 <= i < |blocks| && Fills(l, p, blocks[i], k);
            assert i < |before| ==> Fills(l, p, before[i], k);
          }
        }
      }
    }
  }

  lemma WholeIsAll(l: Lengths, p: nat, blocks: seq<Block>)
    ensures Whole(l, p, blocks) <==> Delivered(l, p, blocks) == AllChunks(l, p)
  {
    hide Lengths.ChunksPerPiece; hide Lengths.PieceLen; hide Arrived;
    forall k: nat ensures k in AllChunks(l, p) <==> k * CHUNK_SIZE < l.PieceLen(p) {
      ChunkExists(l, p, k);
    }
    if Delivered(l, p, blocks) == AllChunks(l, p) {
      forall k: nat | k * CHUNK_SIZE < l.PieceLen(p) ensures Arrived(l, p, blocks, k) {
        assert k in AllChunks(l, p) && k in Delivered(l, p, blocks);
      }
    }
  }

  predicate Covers(l: Lengths, p: nat, b: Block, o: nat) {
    Fills(l, p, b, o / CHUNK_SIZE) && b.begin <= o < b.begin + b.len
  }

  predicate CoveredAt(l: Lengths, p: nat, blocks: seq<Block>, o: nat) {
    exists i :: 0 <= i < |blocks| && Covers(l, p, blocks[i], o)
  }

  /** All chunks have arrived if and only if blocks that are chunks cover every byte of the piece. */
  lemma WholeIsCovered(l: Lengths, p: nat, blocks: seq<Block>)
    ensures Whole(l, p, blocks) <==> forall o: nat :: o < l.PieceLen(p) ==> CoveredAt(l, p, blocks, o)
  {
    hide Lengths.PieceLen;
    if Whole(l, p, blocks) {
      forall o: nat | o < l.PieceLen(p) ensures CoveredAt(l, p, blocks, o) {
        assert Arrived(l, p, blocks, o / CHUNK_SIZE);
        var i :| 0 <= i < |blocks| && Fills(l, p, blocks[i], o / CHUNK_SIZE);
        assert Covers(l, p, blocks[i], o);
      }
    }
    if forall o: nat :: o < l.PieceLen(p) ==> CoveredAt(l, p, blocks, o) {
      forall k: nat | k * CHUNK_SIZE < l.PieceLen(p) ensures Arrived(l, p, blocks, k) {
        assert CoveredAt(l, p, blocks, k * CHUNK_SIZE);
        var i :| 0 <= i < |blocks| && Covers(l, p, blocks[i], k * CHUNK_SIZE);
        assert k * CHUNK_SIZE / CHUNK_SIZE == k;
        assert Fills(l, p, blocks[i], k);
      }
    }
  }

  /** The state after marking all blocks in order. */
  ghost function MarkAll(l: Lengths, s: State, blocks: seq<Block>): (t: State)
    requires Shape(l, s)
    ensures Shape(l, t)
  {
    if |blocks| == 0 then s
    else
      var t := MarkAll(l, s, blocks[..|blocks| - 1]);
      var b := blocks[|blocks| - 1];
      MarkChunk(l, t, b.index, b.begin, b.len).0
  }

  /** What marking the last block reports. */
  ghost function LastResult(l: Lengths, s: State, blocks: seq<Block>): Option<ChunkMarkingResult>
    requires Shape(l, s) && |blocks| > 0
  {
    var b := blocks[|blocks| - 1];
    MarkChunk(l, MarkAll(l, s, blocks[..|blocks| - 1]), b.index, b.begin, b.len).1
  }

  /** No chunk of the piece is marked. */
  ghost predicate IsReset(l: Lengths, s: State, p: nat)
    requires Shape(l, s)
  {
    forall c :: 0 <= c < |s.chunks| && l.IsChunkOf(p, c) ==> !s.chunks[c]
  }

  /** Bit of chunk `k` of piece `p`. */
  predicate Bit(l: Lengths, s: State, p: nat, k: nat)
    requires l.ChunkStart(p) + k < |s.chunks|
  {
    s.chunks[l.ChunkStart(p) + k]
  }

  /** The bits of a piece are set exactly for the chunks delivered since the reset. */
  ghost predicate BitsAre(l: Lengths, s: State, p: nat, ks: set<nat>)
    requires Shape(l, s) && p < l.TotalPieces()
  {
    l.ChunkEnd(p) <= |s.chunks| &&
    forall k: nat :: k < l.ChunksPerPiece(p) ==> (Bit(l, s, p, k) <==> k in ks)
  }

  lemma BitsDecideAll(l: Lengths, s: State, p: nat, ks: set<nat>)
    requires Shape(l, s) && p < l.TotalPieces() && BitsAre(l, s, p, ks)
    ensures AllInRange(s.chunks, l.ChunkStart(p), l.ChunkEnd(p)) <==> AllChunks(l, p) <= ks
  {
    hide Lengths.ChunkBits; hide Lengths.ChunkStart; hide Lengths.ChunksPerPiece;
    ChunkRangesDisjoint(l, p, p);
    var from, n := l.ChunkStart(p), l.ChunksPerPiece(p);
    if AllInRange(s.chunks, from, from + n) {
      forall k | k in AllChunks(l, p) ensures k in ks {
        assert Bit(l, s, p, k);
      }
    }
    if AllChunks(l, p) <= ks {
      forall i | from <= i < from + n ensures s.chunks[i] {
        assert i - from in AllChunks(l, p) && Bit(l, s, p, i - from);
      }
    }
  }

  /** One delivery adds its chunk, if any, to the bits of piece `p`. */
  lemma MarkAddsBit(l: Lengths, s: State, p: nat, ks: set<nat>, b: Block)
    requires Shape(l, s) && p < l.TotalPieces() && BitsAre(l, s, p, ks)
    ensures BitsAre(l, MarkChunk(l, s, b.index, b.begin, b.len).0, p, ks + FilledBy(l, p, b))
  {
    hide Lengths.ChunkBits; hide Lengths.ChunkStart; hide Lengths.ChunksPerPiece; hide AllInRange;
    hide Lengths.PieceLen;
    var t := MarkChunk(l, s, b.index, b.begin, b.len).0;
    if b.index < l.TotalPieces() && ChunkOfBlock(l, b.index, b.begin, b.len).Some? {
      var k' := ChunkOfBlock(l, b.index, b.begin, b.len).value;
      ChunkRangesDisjoint(l, b.index, p);
      ChunkRangesDisjoint(l, p, b.index);
      BitsDecideAll(l, s, p, ks);
      assert k' < l.ChunksPerPiece(b.index);
      assert b.index == p && AllChunks(l, p) <= ks ==> k' in ks;
    }
  }

  lemma DeliveredInside(l: Lengths, p: nat, blocks: seq<Block>)
    ensures Delivered(l, p, blocks) <= AllChunks(l, p)
  {
  }

  lemma {:induction false} BitsAfter(l: Lengths, s: State, p: nat, blocks: seq<Block>)
    requires Shape(l, s) && p < l.TotalPieces() && IsReset(l, s, p)
    ensures BitsAre(l, MarkAll(l, s, blocks), p, Delivered(l, p, blocks))
    ensures Delivered(l, p, blocks) <= AllChunks(l, p)
  {
    hide Lengths.ChunkBits; hide Lengths.ChunkStart; hide Lengths.ChunksPerPiece; hide MarkChunk;
    hide Delivered; hide FilledBy;
    ChunkRangesDisjoint(l, p, p);
    DeliveredMore(l, p, blocks);
    DeliveredInside(l, p, blocks);
    if |blocks| == 0 {
      forall k: nat | k < l.ChunksPerPiece(p) ensures !Bit(l, s, p, k) {
        assert l.IsChunkOf(p, l.ChunkStart(p) + k);
      }
    } else {
      var before := blocks[..|blocks| - 1];
      BitsAfter(l, s, p, before);
      MarkAddsBit(l, MarkAll(l, s, before), p, Delivered(l, p, before), blocks[|blocks| - 1]);
    }
  }

  /** After a reset, whatever the order, duplicates and blocks of other pieces in between, the
      report for a block of `p` depends only on which chunks of `p` have arrived: it is
      `Completed` exactly when the block fills the last missing chunk. */
  lemma ReportIsDetermined(l: Lengths, s: State, p: nat, blocks: seq<Block>)
    requires Shape(l, s) && p < l.TotalPieces() && IsReset(l, s, p) && |blocks| > 0
    requires blocks[|blocks| - 1].index == p
    ensures LastResult(l, s, blocks) ==
            if !IsChunk(l, p, blocks[|blocks| - 1]) then None
            else if Whole(l, p, blocks[..|blocks| - 1]) then Some(PreviouslyCompleted)
            else if Whole(l, p, blocks) then Some(Completed)
            else Some(NotCompleted)
  {
    hide Lengths.ChunkBits; hide Lengths.ChunkStart; hide Lengths.ChunksPerPiece; hide AllInRange; hide ChunkOfBlock;
    hide BitsAre; hide AllChunks; hide Whole; hide Fills; hide Delivered;
    var before, b := blocks[..|blocks| - 1], blocks[|blocks| - 1];
    BitsAfter(l, s, p, before);
    BitsAfter(l, s, p, blocks);
    BitsDecideAll(l, MarkAll(l, s, before), p, Delivered(l, p, before));
    BitsDecideAll(l, MarkAll(l, s, blocks), p, Delivered(l, p, blocks));
    WholeIsAll(l, p, before);
    WholeIsAll(l, p, blocks);
    NoChunkFillsNothing(l, p, b);
  }

  /** How many blocks of `p` were reported as completing it. */
  ghost function Completions(l: Lengths, s: State, p: nat, blocks: seq<Block>): nat
    requires Shape(l, s)
  {
    if |blocks| == 0 then 0
    else Completions(l, s, p, blocks[..|blocks| - 1]) +
         if blocks[|blocks| - 1].index == p && LastResult(l, s, blocks) == Some(Completed) then 1 else 0
  }

  /** From a reset, a piece is reported complete once if all its chunks arrive, and never otherwise. */
  lemma {:induction false} CompletedExactlyOnce(l: Lengths, s: State, p: nat, blocks: seq<Block>)
    requires Shape(l, s) && p < l.TotalPieces() && IsReset(l, s, p)
    ensures Completions(l, s, p, blocks) == if Whole(l, p, blocks) then 1 else 0
  {
    hide Lengths.ChunkBits; hide Lengths.ChunkStart; hide LastResult; hide ChunkOfBlock; hide Fills; hide Delivered;
    hide Lengths.ChunksPerPiece; hide Lengths.PieceLen; hide Whole;
    if |blocks| == 0 {
      NotYetWhole(l, p, blocks);
    } else {
      var before, b := blocks[..|blocks| - 1], blocks[|blocks| - 1];
      CompletedExactlyOnce(l, s, p, before);
      WholeIsAll(l, p, before);
      WholeIsAll(l, p, blocks);
      DeliveredMore(l, p, blocks);
      DeliveredInside(l, p, blocks);
      if b.index == p {
        ReportIsDetermined(l, s, p, blocks);
        NoChunkFillsNothing(l, p, b);
      }
    }
  }

  lemma NotYetWhole(l: Lengths, p: nat, blocks: seq<Block>)
    requires l.Valid() && p < l.TotalPieces() && blocks == []
    ensures !Whole(l, p, blocks)
  {
    PieceBounds(l, p);
    assert 0 * CHUNK_SIZE < l.PieceLen(p) && !Arrived(l, p, blocks, 0);
  }

  /** A piece cut into blocks of the chunk size, the last one as long as what is left, is reported complete once all
      of them have arrived, in whatever order, and however many other blocks come in between. */
  lemma CutPieceCompletes(l: Lengths, s: State, p: nat, blocks: seq<Block>)
    requires Shape(l, s) && p < l.TotalPieces() && IsReset(l, s, p)
    requires forall k: nat :: k * CHUNK_SIZE < l.PieceLen(p) ==>
               Block(p, k * CHUNK_SIZE, Min(CHUNK_SIZE, l.PieceLen(p) - k * CHUNK_SIZE)) in blocks
    ensures Completions(l, s, p, blocks) == 1
  {
    hide Lengths.PieceLen; hide Lengths.ChunkBits; hide Completions; hide IsReset;
    CompletedExactlyOnce(l, s, p, blocks);
    forall k: nat | k * CHUNK_SIZE < l.PieceLen(p) ensures Arrived(l, p, blocks, k) {
      var b := Block(p, k * CHUNK_SIZE, Min(CHUNK_SIZE, l.PieceLen(p) - k * CHUNK_SIZE));
      var i :| 0 <= i < |blocks| && blocks[i] == b;
      assert Fills(l, p, blocks[i], k);
    }
  }

  /** Putting a missing piece back resets its chunks. */
  lemma BrokenResets(l: Lengths, s: State, p: nat)
    requires Shape(l, s) && p < l.TotalPieces() && !s.have[p]
    ensures Shape(l, MarkBroken(l, s, p)) && IsReset(l, MarkBroken(l, s, p), p)
  {
    ChunkRangesDisjoint(l, p, p);
  }
}

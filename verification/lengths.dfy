/** Geometry of a torrent: one flat byte space, cut into pieces of equal length
    (the last one may be shorter) and, independently, into files.

    `Lengths` stands for the type of the same name in `librqbit_core`; only what
    the modelled code uses of it is defined here. */
module TorrentLengths {

  const CHUNK_SIZE: nat := 16384
  const U32_LIMIT: nat := 0x1_0000_0000

  function Min(a: int, b: int): int { if a <= b then a else b }

  function Max(a: int, b: int): int { if a <= b then b else a }

  /** Number of common points of the half-open intervals [a, b) and [c, d). */
  function Overlap(a: int, b: int, c: int, d: int): nat {
    Max(0, Min(b, d) - Max(a, c))
  }

  /** Splitting one of two intervals splits their overlap. */
  lemma OverlapSplit(a: int, b: int, c: int, d: int, e: int)
    requires c <= d <= e
    ensures Overlap(a, b, c, e) == Overlap(a, b, c, d) + Overlap(a, b, d, e)
    ensures Overlap(c, e, a, b) == Overlap(c, d, a, b) + Overlap(d, e, a, b)
    ensures Overlap(a, b, c, c) == 0
  {
  }

  /** How many blocks of `b` bytes it takes to hold `a` bytes (`a.div_ceil(b)`, see `CeilDivIsDivCeil`). */
  function CeilDiv(a: nat, b: nat): (q: nat)
    requires b > 0
    ensures q == 0 <==> a == 0
  {
    if a == 0 then 0 else if a <= b then 1 else 1 + CeilDiv(a - b, b)
  }

  lemma {:induction false} CeilDivIsDivCeil(a: nat, b: nat)
    requires b > 0
    ensures CeilDiv(a, b) == (a + b - 1) / b
    ensures CeilDiv(a, b) * b < a + b && a <= CeilDiv(a, b) * b
  {
    if a > b {
      CeilDivIsDivCeil(a - b, b);
      assert CeilDiv(a, b) * b == CeilDiv(a - b, b) * b + b;
    } else if a > 0 {
      assert (a + b - 1) - b < b;
    }
    QuotientUnique(a + b - 1, b, CeilDiv(a, b));
  }

  lemma QuotientUnique(x: nat, b: nat, q: nat)
    requires b > 0 && q * b <= x < q * b + b
    ensures x / b == q
  {
    var d, r := x / b, x % b;
    assert x == d * b + r;
    if d < q {
      MulMonotone(d + 1, q, b);
    } else if q < d {
      MulMonotone(q + 1, d, b);
    }
  }

  function FloorDiv(a: nat, b: nat): nat
    requires b > 0
  {
    a / b
  }

  lemma DivBounds(x: nat, b: nat)
    requires b > 0
    ensures FloorDiv(x, b) * b <= x < FloorDiv(x, b) * b + b
  {
    assert x == (x / b) * b + x % b;
  }

  lemma DivAtMost(x: nat, b: nat, p: nat)
    requires b > 0
    ensures FloorDiv(x, b) <= p <==> x < p * b + b
  {
    var q := FloorDiv(x, b);
    DivBounds(x, b);
    if q <= p {
      MulMonotone(q, p, b);
    } else {
      MulMonotone(p + 1, q, b);
      assert (p + 1) * b == p * b + b;
    }
  }

  lemma MulMonotone(a: nat, b: nat, c: nat)
    requires a <= b
    ensures a * c <= b * c
  {
    assert (b - a) * c >= 0;
  }

  lemma RoundUp(a: nat, b: nat)
    requires b > 0
    ensures a <= CeilDiv(a, b) * b < a + b
  {
    CeilDivIsDivCeil(a, b);
  }

  lemma {:induction false} CeilDivMonotone(a: nat, a': nat, b: nat)
    requires b > 0 && a <= a'
    ensures CeilDiv(a, b) <= CeilDiv(a', b)
  {
    if a > b {
      CeilDivMonotone(a - b, a' - b, b);
    }
  }

  /** `total` bytes cut into pieces of `pieceLength` bytes. */
  datatype Lengths = Lengths(total: nat, pieceLength: nat) {

    predicate Valid() {
      total > 0 && 0 < pieceLength < U32_LIMIT
    }

    function TotalPieces(): nat
      requires Valid()
    {
      CeilDiv(total, pieceLength)
    }

    /** Pieces lie one after the other: piece `p` starts at `p * pieceLength` (`PieceStartIsProduct`). */
    function PieceStart(p: nat): nat {
      if p == 0 then 0 else PieceStart(p - 1) + pieceLength
    }

    function PieceEnd(p: nat): nat {
      Min(PieceStart(p) + pieceLength, total)
    }

    function PieceLen(p: nat): nat {
      Max(0, PieceEnd(p) - PieceStart(p))
    }

    /** `size_of_piece_in_file`: bytes of piece `p` inside the file [offset, offset + len). */
    function SizeOfPieceInFile(p: nat, offset: nat, len: nat): nat {
      Overlap(PieceStart(p), PieceEnd(p), offset, offset + len)
    }

    function ChunksPerPiece(p: nat): nat {
      CeilDiv(PieceLen(p), CHUNK_SIZE)
    }

    /** Length of chunk `k` of piece `p`: the chunk size, or what is left of the piece. */
    function ChunkLen(p: nat, k: nat): nat {
      Max(0, Min(CHUNK_SIZE, PieceLen(p) - k * CHUNK_SIZE))
    }

    /** First byte of chunk `k` of piece `p` in the torrent. */
    function ChunkAt(p: nat, k: nat): nat {
      p * pieceLength + k * CHUNK_SIZE
    }

    function DefaultChunksPerPiece(): nat
    {
      CeilDiv(pieceLength, CHUNK_SIZE)
    }

    /** First chunk bit of piece `p`: `p * DefaultChunksPerPiece()` (`ChunkStartIsProduct`). */
    function ChunkStart(p: nat): nat {
      if p == 0 then 0 else ChunkStart(p - 1) + DefaultChunksPerPiece()
    }

    function ChunkEnd(p: nat): nat {
      ChunkStart(p) + ChunksPerPiece(p)
    }

    /** Is bit `c` one of the chunk bits of piece `p`? */
    predicate IsChunkOf(p: nat, c: nat) {
      ChunkStart(p) <= c < ChunkEnd(p)
    }

    /** Bits of a bitfield with one bit per piece, rounded up to whole bytes. */
    function PieceBits(): nat
      requires Valid()
    {
      CeilDiv(TotalPieces(), 8) * 8
    }

    function ChunkBits(): nat
      requires Valid()
    {
      CeilDiv(ChunkEnd(TotalPieces() - 1), 8) * 8
    }
  }

  lemma {:induction false} PieceStartIsProduct(l: Lengths, p: nat)
    ensures l.PieceStart(p) == p * l.pieceLength
  {
    if p > 0 {
      PieceStartIsProduct(l, p - 1);
    }
  }

  lemma {:induction false} ChunkStartIsProduct(l: Lengths, p: nat)
    requires l.Valid()
    ensures l.ChunkStart(p) == p * l.DefaultChunksPerPiece()
  {
    if p > 0 {
      ChunkStartIsProduct(l, p - 1);
    }
  }

  /** Cutting the first `p` pieces off leaves the remaining pieces. */
  lemma {:induction false} PiecesLeft(l: Lengths, p: nat)
    requires l.Valid() && (p < l.TotalPieces() || l.PieceStart(p) <= l.total)
    ensures l.PieceStart(p) <= l.total && (p < l.TotalPieces() ==> l.PieceStart(p) < l.total)
    ensures l.TotalPieces() == p + CeilDiv(l.total - l.PieceStart(p), l.pieceLength)
  {
    if p > 0 {
      PiecesLeft(l, p - 1);
    }
  }

  /** Every piece is a non-empty interval, and consecutive pieces touch. */
  lemma PieceBounds(l: Lengths, p: nat)
    requires l.Valid() && p < l.TotalPieces()
    ensures l.PieceStart(p) < l.PieceEnd(p) <= l.total
    ensures l.PieceLen(p) == l.PieceEnd(p) - l.PieceStart(p) <= l.pieceLength
    ensures p + 1 < l.TotalPieces() ==> l.PieceEnd(p) == l.PieceStart(p + 1)
    ensures p + 1 == l.TotalPieces() ==> l.PieceEnd(p) == l.total
  {
    PiecesLeft(l, p);
    if p + 1 < l.TotalPieces() {
      PiecesLeft(l, p + 1);
    }
  }

  /** A torrent has at least one piece, and the first one starts at 0. */
  lemma FirstPiece(l: Lengths)
    requires l.Valid()
    ensures l.TotalPieces() > 0
    ensures l.PieceStart(0) == 0 < l.PieceEnd(0) == l.PieceLen(0)
  {
  }

  /** Pieces are ordered and do not overlap. */
  lemma {:induction false} PieceOrder(l: Lengths, p: nat, q: nat)
    requires l.Valid() && p < q < l.TotalPieces()
    ensures l.PieceEnd(p) <= l.PieceStart(q)
  {
    if p + 1 < q {
      PieceOrder(l, p, q - 1);
    }
  }

  lemma ChunkCount(l: Lengths, p: nat)
    requires l.Valid() && p < l.TotalPieces()
    ensures 1 <= l.ChunksPerPiece(p) <= l.DefaultChunksPerPiece()
  {
    PieceBounds(l, p);
    CeilDivMonotone(l.PieceLen(p), l.pieceLength, CHUNK_SIZE);
  }

  /** The chunks of a piece are the intervals between multiples of the chunk size that share a byte with it. */
  lemma ChunkExists(l: Lengths, p: nat, k: nat)
    ensures k < l.ChunksPerPiece(p) <==> k * CHUNK_SIZE < l.PieceLen(p)
    ensures k < l.ChunksPerPiece(p) <==> l.ChunkLen(p, k) > 0
  {
    hide Lengths.PieceLen;
    CeilDivIsDivCeil(l.PieceLen(p), CHUNK_SIZE);
  }

  /** Every byte of a piece lies in exactly one of its chunks. */
  lemma ChunksPartition(l: Lengths, p: nat, o: nat, k: nat)
    ensures k * CHUNK_SIZE <= o < k * CHUNK_SIZE + l.ChunkLen(p, k) <==> o < l.PieceLen(p) && k == o / CHUNK_SIZE
  {
    hide Lengths.PieceLen;
  }

  /** Chunk ranges of distinct pieces are disjoint and inside the chunk bitfield. */
  lemma ChunkRangesDisjoint(l: Lengths, p: nat, q: nat)
    requires l.Valid() && p < l.TotalPieces() && q < l.TotalPieces()
    ensures p < q ==> l.ChunkEnd(p) <= l.ChunkStart(q)
    ensures l.ChunkStart(p) < l.ChunkEnd(p) <= l.ChunkBits()
  {
    ChunkCount(l, p);
    ChunkCount(l, l.TotalPieces() - 1);
    CeilDivIsDivCeil(l.ChunkEnd(l.TotalPieces() - 1), 8);
    ChunkStartOrder(l, p, l.TotalPieces() - 1);
    ChunkStartOrder(l, p, q);
  }

  lemma {:induction false} ChunkStartOrder(l: Lengths, p: nat, q: nat)
    requires l.Valid()
    ensures p < q ==> l.ChunkStart(p) + l.DefaultChunksPerPiece() <= l.ChunkStart(q)
  {
    if p + 1 < q {
      ChunkStartOrder(l, p, q - 1);
    }
  }

  /** First byte of file `f`: the sum of the lengths of the files before it. */
  function Offset(lens: seq<nat>, f: nat): nat
    requires f <= |lens|
  {
    if f == 0 then 0 else Offset(lens, f - 1) + lens[f - 1]
  }

  lemma OffsetStep(lens: seq<nat>, f: nat)
    requires f < |lens|
    ensures Offset(lens, f + 1) == Offset(lens, f) + lens[f]
  {
  }

  lemma OffsetZero(lens: seq<nat>)
    ensures Offset(lens, 0) == 0
  {
  }

  function Sum(lens: seq<nat>): nat {
    Offset(lens, |lens|)
  }

  /** Bytes of [a, b) that lie in file `f`. */
  function FileShare(lens: seq<nat>, f: nat, a: nat, b: nat): nat
    requires f < |lens|
  {
    Overlap(a, b, Offset(lens, f), Offset(lens, f) + lens[f])
  }

  lemma {:induction false} OffsetMonotone(lens: seq<nat>, f: nat, g: nat)
    requires f < g <= |lens|
    ensures Offset(lens, f) + lens[f] <= Offset(lens, g)
  {
    if f + 1 < g {
      OffsetMonotone(lens, f, g - 1);
    }
  }
}

/** What a chunk tracker stores, and what each of its operations does to it. */
module TrackerSpec {
  import opened TorrentLengths
  import opened FileInfos
  import opened Wrappers

  /** Quick-to-retrieve totals, which must agree with the bitfields. */
  datatype Hns = Hns(haveBytes: nat, neededBytes: nat, selectedBytes: nat) {

    function Progress(): nat
      requires neededBytes <= selectedBytes
    {
      selectedBytes - neededBytes
    }

    predicate Finished() {
      neededBytes == 0
    }
  }

  datatype State = State(
    have: seq<bool>, selected: seq<bool>, queue: seq<bool>, chunks: seq<bool>, perFile: seq<nat>, hns: Hns)

  /** Bitfields of the right sizes: one bit per piece (possibly more, to fill a byte), and
      one bit per chunk. */
  ghost predicate Shape(l: Lengths, s: State) {
    && l.Valid()
    && |s.have| == |s.selected| == |s.queue|
    && l.TotalPieces() <= |s.have|
    && |s.chunks| == l.ChunkBits()
  }

  /** Total length of the pieces below `k` whose bit is set. */
  function Bytes(l: Lengths, bits: seq<bool>, k: nat): nat
    requires k <= |bits|
  {
    if k == 0 then 0 else Bytes(l, bits, k - 1) + if bits[k - 1] then l.PieceLen(k - 1) else 0
  }

  function Needed(have: seq<bool>, selected: seq<bool>): (r: seq<bool>)
    requires |have| == |selected|
  {
    seq(|have|, i requires 0 <= i < |have| => selected[i] && !have[i])
  }

  lemma {:induction false} BytesPrefix(l: Lengths, a: seq<bool>, b: seq<bool>, k: nat)
    requires k <= |a| && k <= |b| && forall i :: 0 <= i < k ==> a[i] == b[i]
    ensures Bytes(l, a, k) == Bytes(l, b, k)
  {
    if k > 0 {
      BytesPrefix(l, a, b, k - 1);
    }
  }

  function HnsUpTo(l: Lengths, have: seq<bool>, selected: seq<bool>, k: nat): Hns
    requires k <= |have| == |selected|
  {
    Hns(Bytes(l, have, k), Bytes(l, Needed(have, selected), k), Bytes(l, selected, k))
  }

  /** The contribution of one piece to the totals. */
  function AddPiece(totals: Hns, len: nat, isHave: bool, isSelected: bool): Hns {
    Hns(totals.haveBytes + (if isHave then len else 0),
        totals.neededBytes + (if isSelected && !isHave then len else 0),
        totals.selectedBytes + (if isSelected then len else 0))
  }

  ghost predicate InSync(l: Lengths, s: State)
    requires Shape(l, s)
  {
    s.hns == HnsUpTo(l, s.have, s.selected, l.TotalPieces())
  }

  // ---------- operations ----------

  function FillRange(bits: seq<bool>, from: nat, to: nat, v: bool): (r: seq<bool>)
    requires from <= to <= |bits|
    ensures |r| == |bits|
    ensures forall i :: 0 <= i < |bits| ==> r[i] == if from <= i < to then v else bits[i]
  {
    bits[..from] + seq(to - from, _ => v) + bits[to..]
  }

  predicate AllInRange(bits: seq<bool>, from: nat, to: nat)
    requires from <= to <= |bits|
  {
    forall i :: from <= i < to ==> bits[i]
  }

  /** `reserve_needed_piece` */
  function Reserve(s: State, p: nat): State
    requires p < |s.queue|
  {
    s.(queue := s.queue[p := false])
  }

  /** `mark_piece_broken_if_not_have` */
  ghost function MarkBroken(l: Lengths, s: State, p: nat): (t: State)
    requires Shape(l, s) && p < l.TotalPieces()
    ensures Shape(l, t)
  {
    ChunkRangesDisjoint(l, p, p);
    if s.have[p] then s
    else s.(queue := s.queue[p := true], chunks := FillRange(s.chunks, l.ChunkStart(p), l.ChunkEnd(p), false))
  }

  /** The unsigned subtraction of `mark_piece_downloaded` does not underflow. */
  predicate NoUnderflow(l: Lengths, s: State, p: nat)
    requires p < |s.have| == |s.selected|
  {
    s.selected[p] && !s.have[p] ==> l.PieceLen(p) <= s.hns.neededBytes
  }

  /** `mark_piece_downloaded` */
  function MarkDownloaded(l: Lengths, s: State, p: nat): State
    requires p < |s.have| == |s.selected| && NoUnderflow(l, s, p)
  {
    if s.have[p] then s
    else s.(have := s.have[p := true],
            hns := Hns(s.hns.haveBytes + l.PieceLen(p),
                       if s.selected[p] then s.hns.neededBytes - l.PieceLen(p) else s.hns.neededBytes,
                       s.hns.selectedBytes))
  }

  /** A piece that is selected and missing is part of the needed total. */
  lemma {:induction false} NeededCovers(l: Lengths, have: seq<bool>, selected: seq<bool>, p: nat, k: nat)
    requires |have| == |selected| && p < k <= |have| && selected[p] && !have[p]
    ensures l.PieceLen(p) <= Bytes(l, Needed(have, selected), k)
  {
    if p < k - 1 {
      NeededCovers(l, have, selected, p, k - 1);
    }
  }

  datatype ChunkMarkingResult = PreviouslyCompleted | NotCompleted | Completed

  /** The chunk a received block fills: blocks start at multiples of the chunk size
      and have exactly the size of their chunk. */
  function ChunkOfBlock(l: Lengths, p: nat, begin: nat, blockLen: nat): Option<nat>
  {
    var k := begin / CHUNK_SIZE;
    if begin % CHUNK_SIZE == 0 && k < l.ChunksPerPiece(p) && blockLen == Min(CHUNK_SIZE, l.PieceLen(p) - begin)
    then Some(k) else None
  }

  /** Chunk `k` of a piece is filled by the block that begins at `k` chunk sizes and ends a chunk size later or, if that
      is earlier, with the piece. Nothing else fills a chunk. */
  lemma BlockIsChunk(l: Lengths, p: nat, begin: nat, blockLen: nat, k: nat)
    ensures ChunkOfBlock(l, p, begin, blockLen) == Some(k) <==>
            && begin == k * CHUNK_SIZE && begin < l.PieceLen(p)
            && begin + blockLen == Min((k + 1) * CHUNK_SIZE, l.PieceLen(p))
  {
    hide Lengths.PieceLen; hide Lengths.ChunksPerPiece;
    ChunkExists(l, p, k);
    ChunkExists(l, p, begin / CHUNK_SIZE);
  }

  /** `mark_chunk_downloaded` */
  ghost function MarkChunk(l: Lengths, s: State, p: nat, begin: nat, blockLen: nat)
    : (r: (State, Option<ChunkMarkingResult>))
    requires Shape(l, s)
    ensures Shape(l, r.0)
  {
    if p >= l.TotalPieces() || ChunkOfBlock(l, p, begin, blockLen).None? then (s, None)
    else
      ChunkRangesDisjoint(l, p, p);
      var from, to := l.ChunkStart(p), l.ChunkEnd(p);
      if AllInRange(s.chunks, from, to) then (s, Some(PreviouslyCompleted))
      else
        var chunks := s.chunks[from + ChunkOfBlock(l, p, begin, blockLen).value := true];
        (s.(chunks := chunks), Some(if AllInRange(chunks, from, to) then Completed else NotCompleted))
  }

  /** Some chosen file has a byte in [a, b). */
  ghost predicate Touches(lens: seq<nat>, chosen: set<nat>, a: nat, b: nat) {
    exists f :: 0 <= f < |lens| && f in chosen && FileShare(lens, f, a, b) > 0
  }

  ghost predicate PieceTouched(l: Lengths, lens: seq<nat>, chosen: set<nat>, p: nat) {
    Touches(lens, chosen, l.PieceStart(p), l.PieceEnd(p))
  }

  /** One bit per piece: does some chosen file have a byte in it? */
  ghost function Wanted(l: Lengths, lens: seq<nat>, chosen: set<nat>): (want: seq<bool>)
    requires l.Valid()
    ensures |want| == l.TotalPieces()
    ensures forall p :: 0 <= p < |want| ==> want[p] == PieceTouched(l, lens, chosen, p)
  {
    seq(l.TotalPieces(), p requires p >= 0 => PieceTouched(l, lens, chosen, p))
  }

  /** Chunk `c` belongs to one of the first `k` pieces that is wanted and missing. */
  ghost predicate ChunkCleared(l: Lengths, have: seq<bool>, want: seq<bool>, k: nat, c: nat)
    requires k <= |have| && k <= |want|
  {
    exists p :: 0 <= p < k && l.IsChunkOf(p, c) && !have[p] && want[p]
  }

  /** From `s` to `t`, exactly the first `k` pieces got their selection from `want`. */
  ghost predicate UpdatedUpTo(l: Lengths, s: State, want: seq<bool>, k: nat, t: State)
    requires Shape(l, s) && k <= l.TotalPieces() == |want|
  {
    && t.have == s.have && t.perFile == s.perFile
    && |t.selected| == |s.selected| && |t.queue| == |s.queue| && |t.chunks| == |s.chunks|
    && (forall p :: 0 <= p < |s.selected| ==> t.selected[p] == if p < k then want[p] else s.selected[p])
    && (forall p :: 0 <= p < |s.queue| ==> t.queue[p] == if p < k && !s.have[p] then want[p] else s.queue[p])
    && (forall c :: 0 <= c < |s.chunks| ==> t.chunks[c] == (s.chunks[c] && !ChunkCleared(l, s.have, want, k, c)))
  }

  /** How many pieces lie wholly inside the first `bytes` bytes, given that the first `from` do. */
  function CoveredPieces(l: Lengths, bytes: nat, from: nat := 0): (k: nat)
    requires l.Valid() && from <= l.TotalPieces()
    ensures from <= k <= l.TotalPieces()
    decreases l.TotalPieces() - from
  {
    if from < l.TotalPieces() && l.PieceEnd(from) <= bytes then CoveredPieces(l, bytes, from + 1) else from
  }

  lemma {:induction false} CoveredPiecesIs(l: Lengths, bytes: nat, k: nat, from: nat)
    requires l.Valid() && from <= k <= l.TotalPieces()
    requires k > 0 ==> l.PieceEnd(k - 1) <= bytes
    requires k < l.TotalPieces() ==> bytes < l.PieceEnd(k)
    ensures CoveredPieces(l, bytes, from) == k
    decreases k - from
  {
    if from < k {
      if from < k - 1 {
        PieceOrder(l, from, k - 1);
        PieceBounds(l, k - 1);
      }
      CoveredPiecesIs(l, bytes, k, from + 1);
    }
  }

  /** `update_only_files`: pieces wholly inside the given file lengths are re-selected; the
      totals are replaced unless the files are longer than the torrent, which is an error. */
  ghost predicate Reselected(l: Lengths, s: State, lens: seq<nat>, chosen: set<nat>, t: State)
    requires Shape(l, s)
  {
    var k := CoveredPieces(l, Sum(lens));
    && UpdatedUpTo(l, s, Wanted(l, lens, chosen), k, t)
    && t.hns == if Sum(lens) > l.total then s.hns else HnsUpTo(l, t.have, t.selected, k)
  }

  // ---------- per-file counters ----------

  /** `update_file_have_on_piece_completed` */
  function CountPiece(l: Lengths, s: State, p: nat, fileId: nat, fi: FileInfo): State
    requires fileId < |s.perFile|
  {
    s.(perFile := s.perFile[fileId := s.perFile[fileId] + l.SizeOfPieceInFile(p, fi.offset, fi.len)])
  }

  /** Index of the first file from `from` on whose range contains the piece. */
  function FirstInRange(fis: seq<FileInfo>, p: nat, from: nat): nat
    requires from <= |fis|
    ensures from <= FirstInRange(fis, p, from) <= |fis|
    decreases |fis| - from
  {
    if from == |fis| || fis[from].InRange(p) then from else FirstInRange(fis, p, from + 1)
  }

  /** End of the run of files containing the piece that starts at `from`. */
  function EndOfRun(fis: seq<FileInfo>, p: nat, from: nat): nat
    requires from <= |fis|
    ensures from <= EndOfRun(fis, p, from) <= |fis|
    decreases |fis| - from
  {
    if from < |fis| && fis[from].InRange(p) then EndOfRun(fis, p, from + 1) else from
  }

  /** Is file `f` in the first run of files containing the piece? */
  predicate InFirstRun(fis: seq<FileInfo>, p: nat, f: nat) {
    var first := FirstInRange(fis, p, 0);
    first <= f < EndOfRun(fis, p, first)
  }

  function CountCompleted(l: Lengths, fis: seq<FileInfo>, s: State, p: nat): State
    requires |s.perFile| == |fis|
  {
    s.(perFile := seq(|fis|, f requires 0 <= f < |fis| =>
      s.perFile[f] + if InFirstRun(fis, p, f) then l.SizeOfPieceInFile(p, fis[f].offset, fis[f].len) else 0))
  }

  // ---------- the freshly created tracker ----------

  /** Chunk `c` belongs to one of the first `k` pieces and that piece is had. */
  ghost predicate HadChunk(l: Lengths, have: seq<bool>, k: nat, c: nat)
    requires k <= |have|
  {
    exists p :: 0 <= p < k && l.IsChunkOf(p, c) && have[p]
  }

  /** Bytes of the file covered by the had pieces of its range that are below `k`. */
  function RangeHave(l: Lengths, fi: FileInfo, have: seq<bool>, k: nat): nat
    requires k <= |have|
  {
    if k <= fi.pieceStart then 0
    else RangeHave(l, fi, have, k - 1) + if have[k - 1] then l.SizeOfPieceInFile(k - 1, fi.offset, fi.len) else 0
  }

  ghost predicate RangesInside(fis: seq<FileInfo>, n: nat) {
    forall f :: 0 <= f < |fis| ==> fis[f].pieceStart <= fis[f].pieceEnd <= n
  }

  ghost predicate Fresh(l: Lengths, fis: seq<FileInfo>, have: seq<bool>, selected: seq<bool>, s: State)
    requires |have| == |selected| && RangesInside(fis, |have|)
  {
    && Shape(l, s)
    && s.have == have && s.selected == selected && s.queue == Needed(have, selected)
    && (forall c :: 0 <= c < |s.chunks| ==> s.chunks[c] == HadChunk(l, have, l.TotalPieces(), c))
    && |s.perFile| == |fis|
    && (forall f :: 0 <= f < |fis| ==> s.perFile[f] == RangeHave(l, fis[f], have, fis[f].pieceEnd))
    && InSync(l, s)
  }
}

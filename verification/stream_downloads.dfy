/** Streaming a file while its torrent is downloaded: the blocks that arrive, the checks of whole pieces
    and the reads of a stream, all over the same stored files. */
module StreamDownloads {
  import opened TorrentLengths
  import opened FileInfos
  import opened Wrappers
  import opened FileSpace
  import opened FileOperations
  import opened FileOpsProperties
  import opened Streaming

  /** What does not change while a torrent is downloaded. */
  datatype Torrent = Torrent(lengths: Lengths, fileInfos: seq<FileInfo>, sha1: seq<byte> -> Digest,
                             hashes: seq<Digest>) {

    ghost predicate Valid() {
      lengths.Valid() && GoodInfos(lengths, fileInfos)
    }
  }

  /** Which pieces are had, and what is stored. */
  datatype Disk = Disk(have: seq<bool>, files: seq<seq<Cell>>)

  ghost predicate Fits(t: Torrent, d: Disk)
    requires t.Valid()
  {
    t.lengths.TotalPieces() <= |d.have| && |d.files| == |t.fileInfos|
  }

  /** The piece checks out against its hash. */
  ghost predicate ChecksOut(t: Torrent, d: Disk, p: nat)
    requires t.Valid() && Fits(t, d)
  {
    CheckResult(t.lengths, Space(t.fileInfos, d.files), t.sha1, t.hashes, p) == Success(true)
  }

  ghost predicate Verified(t: Torrent, d: Disk)
    requires t.Valid() && Fits(t, d)
  {
    forall p :: 0 <= p < t.lengths.TotalPieces() && d.have[p] ==> ChecksOut(t, d, p)
  }

  datatype Event =
    | Block(p: nat, off: nat, data: seq<byte>)
    | Done(p: nat)
    | Stream(e: Streaming.Event)
    | Other

  function WorldOf(d: Disk, f: nat): World
    requires f < |d.files|
  {
    World(d.have, d.files[f])
  }

  /** Blocks are written into missing pieces only, all of the block or, when writing fails, a first part of it;
      a piece becomes had when it checks out; and a stream reads file `f`. */
  ghost predicate Step(t: Torrent, f: nat, d: Disk, s: Progress, e: Event, d': Disk, s': Progress)
    requires t.Valid() && f < |t.fileInfos|
  {
    && Fits(t, d) && Fits(t, d') && s.position <= t.fileInfos[f].len
    && match e
       case Block(p, off, data) =>
         && p < t.lengths.TotalPieces() && !d.have[p]
         && t.lengths.PieceStart(p) <= off && off + |data| <= t.lengths.PieceEnd(p)
         && WrittenAll(t.fileInfos, d.files, d'.files, off, data) && d'.have == d.have && s' == s
       case Done(p) =>
         p < t.lengths.TotalPieces() && ChecksOut(t, d, p) && d' == d.(have := d.have[p := true]) && s' == s
       case Stream(e) =>
         && Inside(t, f) && !e.Download? && d' == d
         && StreamStep(t.lengths, t.fileInfos[f].offset, t.fileInfos[f].len, WorldOf(d, f), s, e, WorldOf(d', f), s')
       case Other => d' == d && s' == s
  }

  ghost predicate Inside(t: Torrent, f: nat)
    requires t.Valid() && f < |t.fileInfos|
  {
    t.fileInfos[f].offset + t.fileInfos[f].len <= t.lengths.total
  }

  lemma FilesInside(t: Torrent, f: nat)
    requires t.Valid() && f < |t.fileInfos|
    ensures Inside(t, f) && t.fileInfos[f].offset == Offset(Lens(t.fileInfos), f)
  {
    OffsetMonotone(Lens(t.fileInfos), f, |t.fileInfos|);
  }

  lemma PiecesApart(l: Lengths, p: nat, q: nat, i: nat, off: nat, n: nat)
    requires l.Valid() && p < l.TotalPieces() && q < l.TotalPieces() && p != q
    requires InPiece(l, p, i) && l.PieceStart(q) <= off && off + n <= l.PieceEnd(q)
    ensures !(off <= i < off + n)
  {
    if p < q { PieceOrder(l, p, q); } else { PieceOrder(l, q, p); }
  }

  /** Writing a block of a missing piece leaves the readable bytes of had pieces alone. */
  lemma BlockIsDownload(l: Lengths, fis: seq<FileInfo>, f: nat, have: seq<bool>, content: seq<Cell>,
                        p: nat, off: nat, data: seq<byte>)
    requires l.Valid() && f < |fis| && p < l.TotalPieces() <= |have| && !have[p]
    requires l.PieceStart(p) <= off && off + |data| <= l.PieceEnd(p)
    ensures DownloadGoesOn(l, Offset(Lens(fis), f), fis[f].len, World(have, content),
                           World(have, WrittenFile(fis, f, content, off, data)))
  {
    hide Lengths.TotalPieces; hide Lengths.PieceStart; hide Lengths.PieceEnd; hide Offset; hide WrittenAt; hide CellAt;
    var o := Offset(Lens(fis), f);
    forall i | 0 <= i < fis[f].len && HadAt(l, have, o + i) && CellAt(content, i).Some?
      ensures CellAt(WrittenFile(fis, f, content, off, data), i) == CellAt(content, i)
    {
      var q :| 0 <= q < l.TotalPieces() && have[q] && InPiece(l, q, o + i);
      PiecesApart(l, q, p, o + i, off, |data|);
      WrittenAtCell(fis[f], o, content, off, data, i);
      if |content| <= i { PastTheEnd(content, i); }
    }
  }

  lemma PastTheEnd(content: seq<Cell>, i: nat)
    requires |content| <= i
    ensures CellAt(content, i) == None
  {
  }

  /** Writing a block does not change whether a piece checks out of which it covers padding only. */
  lemma UntouchedKeepsCheck(t: Torrent, d: Disk, d': Disk, off: nat, data: seq<byte>, q: nat)
    requires t.Valid() && Fits(t, d) && Fits(t, d') && q < t.lengths.TotalPieces()
    requires WrittenAll(t.fileInfos, d.files, d'.files, off, data) && ChecksOut(t, d, q)
    requires forall i: nat :: InPiece(t.lengths, q, i) && off <= i < off + |data| ==> PaddingAt(t.fileInfos, i)
    ensures ChecksOut(t, d', q)
  {
    hide Lengths.TotalPieces; hide Lengths.PieceStart; hide Lengths.PieceEnd; hide Space; hide WrittenAll; hide GapAt;
    hide PaddingAt;
    var l, flat, flat' := t.lengths, Space(t.fileInfos, d.files), Space(t.fileInfos, d'.files);
    WriteIsSplice(t.fileInfos, d.files, d'.files, off, data);
    PieceBounds(l, q);
    var start, end := l.PieceStart(q), l.PieceEnd(q);
    assert |flat| == |flat'| == l.total;
    assert PieceCells(l, flat, q) == flat[start..end] && PieceCells(l, flat', q) == flat'[start..end];
    forall i | start <= i < end ensures flat'[i] == flat[i] {
      assert InPiece(l, q, i);
      assert flat[i] == flat[start..end][i - start];
      assert flat[i] != None;
    }
    assert flat'[start..end] == flat[start..end];
  }

  /** In particular a block of another piece does not. */
  lemma BlockKeepsCheck(t: Torrent, d: Disk, d': Disk, p: nat, off: nat, data: seq<byte>, q: nat)
    requires t.Valid() && Fits(t, d) && Fits(t, d')
    requires p < t.lengths.TotalPieces() && q < t.lengths.TotalPieces() && q != p
    requires t.lengths.PieceStart(p) <= off && off + |data| <= t.lengths.PieceEnd(p)
    requires WrittenAll(t.fileInfos, d.files, d'.files, off, data) && ChecksOut(t, d, q)
    ensures ChecksOut(t, d', q)
  {
    hide Lengths.TotalPieces; hide Lengths.PieceStart; hide Lengths.PieceEnd; hide ChecksOut; hide WrittenAll;
    hide PaddingAt;
    forall i: nat | InPiece(t.lengths, q, i) ensures !(off <= i < off + |data|) {
      PiecesApart(t.lengths, q, p, i, off, |data|);
    }
    UntouchedKeepsCheck(t, d, d', off, data, q);
  }

  /** Every step is a step of the stream's own run, and had pieces stay verified. */
  lemma StepIsStreamStep(t: Torrent, f: nat, d: Disk, s: Progress, e: Event, d': Disk, s': Progress)
    requires t.Valid() && f < |t.fileInfos| && Step(t, f, d, s, e, d', s') && Verified(t, d)
    ensures Verified(t, d') && Inside(t, f)
    ensures StreamStep(t.lengths, t.fileInfos[f].offset, t.fileInfos[f].len, WorldOf(d, f), s,
                       if e.Stream? then e.e else Download, WorldOf(d', f), s')
  {
    hide ChecksOut; hide WrittenFile; hide Lengths.TotalPieces; hide Offset;
    FilesInside(t, f);
    match e
    case Block(p, off, data) =>
      BlockIsDownload(t.lengths, t.fileInfos, f, d.have, d.files[f], p, off, data);
      forall q | 0 <= q < t.lengths.TotalPieces() && d'.have[q] ensures ChecksOut(t, d', q) {
        BlockKeepsCheck(t, d, d', p, off, data, q);
      }
    case Done(p) =>
      forall q | 0 <= q < t.lengths.TotalPieces() && d'.have[q] ensures ChecksOut(t, d', q) {
        SameCheck(t, d, d', q);
      }
    case Stream(_) =>
    case Other =>
  }

  lemma SameCheck(t: Torrent, d: Disk, d': Disk, q: nat)
    requires t.Valid() && Fits(t, d) && Fits(t, d') && d'.files == d.files
    ensures ChecksOut(t, d, q) == ChecksOut(t, d', q)
  {
  }

  /** Each byte that a faithful stream has delivered since its last seek is the byte of the torrent at its
      place, in a piece that is had, and so checks out if had pieces are verified. Padding files are not
      streamed from the flat space. */
  lemma DeliveredIsVerified(t: Torrent, f: nat, d: Disk, s: Progress, k: nat)
    requires t.Valid() && f < |t.fileInfos| && !t.fileInfos[f].padding && Fits(t, d) && Verified(t, d)
    requires Faithful(t.lengths, t.fileInfos[f].offset, t.fileInfos[f].len, WorldOf(d, f), s)
    requires k < |s.delivered|
    ensures var at, flat := t.fileInfos[f].offset + (s.base + k), Space(t.fileInfos, d.files);
            && at < |flat| && flat[at] == Some(s.delivered[k])
            && exists p :: 0 <= p < t.lengths.TotalPieces() &&
                           d.have[p] && InPiece(t.lengths, p, at) && ChecksOut(t, d, p)
  {
    hide Lengths.TotalPieces; hide Lengths.PieceStart; hide Lengths.PieceEnd; hide ChecksOut; hide Flat; hide Offset;
    FilesInside(t, f);
    var at := t.fileInfos[f].offset + (s.base + k);
    assert FaithfulAt(t.lengths, t.fileInfos[f].offset, WorldOf(d, f), s, k);
    FlatAt(t.fileInfos, d.files, |t.fileInfos|, f);
    assert Space(t.fileInfos, d.files)[Offset(Lens(t.fileInfos), f) + (s.base + k)] ==
           FileCells(t.fileInfos[f], d.files[f])[s.base + k];
    var p :| 0 <= p < t.lengths.TotalPieces() && d.have[p] && InPiece(t.lengths, p, at);
    assert ChecksOut(t, d, p);
  }

  // ---------- where verified pieces come from ----------

  /** The pieces that the check of all files marks are verified if no file of them failed earlier in that check, which
      is so if everything can be read. Otherwise the check may have judged a piece by other bytes (`AgreementExact`). */
  lemma CheckedStart(t: Torrent, d: Disk)
    requires t.Valid() && Fits(t, d)
    requires var lens, flat := Lens(t.fileInfos), Space(t.fileInfos, d.files);
             && StreamMarks(t.lengths, lens, flat, t.sha1, t.hashes, d.have, t.lengths.TotalPieces())
             && (AllReadable(flat) ||
                 forall p :: 0 <= p < t.lengths.TotalPieces() && d.have[p] ==>
                   NothingDropped(lens, flat, t.lengths.PieceStart(p), t.lengths.PieceEnd(p)))
    ensures Verified(t, d)
  {
    hide Lengths.TotalPieces; hide CheckResult; hide StreamHas; hide Feed; hide Space; hide Offset;
    var lens, flat := Lens(t.fileInfos), Space(t.fileInfos, d.files);
    forall p | 0 <= p < t.lengths.TotalPieces() && d.have[p] ensures ChecksOut(t, d, p) {
      StreamAgreesWithCheck(t.lengths, lens, flat, t.sha1, t.hashes, p);
    }
  }

  // ---------- why blocks must go to missing pieces ----------

  /** The torrent whose expected hashes are those of what is on the disk, for a hash that tells all inputs apart. */
  function TorrentOf(l: Lengths, fis: seq<FileInfo>, files: seq<seq<Cell>>): Torrent
    requires l.Valid() && |files| == |fis|
  {
    var flat := Space(fis, files);
    Torrent(l, fis, Telling, seq(l.TotalPieces(), p requires p >= 0 => ReadableBytes(PieceCells(l, flat, p))))
  }

  function ReadableBytes(cells: seq<Cell>): seq<byte> {
    if AllReadable(cells) then Values(cells) else []
  }

  /** Every write of `n` bytes at `off` keeps had pieces verified. */
  ghost predicate AlwaysKeeps(t: Torrent, d: Disk, off: nat, n: nat)
    requires t.Valid() && Fits(t, d)
  {
    forall data: seq<byte>, files' {:trigger WrittenAll(t.fileInfos, d.files, files', off, data)} ::
      |data| == n && WrittenAll(t.fileInfos, d.files, files', off, data) ==> Verified(t, d.(files := files'))
  }

  function Another(b: byte): byte {
    if b == 0 then 1 else 0
  }

  lemma OwnTorrentVerified(l: Lengths, fis: seq<FileInfo>, d: Disk)
    requires l.Valid() && GoodInfos(l, fis) && l.TotalPieces() <= |d.have| && |d.files| == |fis|
    requires forall q :: 0 <= q < l.TotalPieces() && d.have[q] ==> AllReadable(PieceCells(l, Space(fis, d.files), q))
    ensures Verified(TorrentOf(l, fis, d.files), d)
  {
    hide Lengths.TotalPieces; hide PieceCells; hide Space; hide AllReadable;
  }

  /** Changing a byte of a piece that can be read. */
  lemma ChangedFails(l: Lengths, fis: seq<FileInfo>, d: Disk, files': seq<seq<Cell>>, p: nat, i: nat)
    requires l.Valid() && GoodInfos(l, fis) && l.TotalPieces() <= |d.have| && |d.files| == |fis| == |files'|
    requires p < l.TotalPieces() && AllReadable(PieceCells(l, Space(fis, d.files), p)) && InPiece(l, p, i)
    requires i < |Space(fis, d.files)| && Space(fis, files')[i] != Space(fis, d.files)[i]
    ensures !ChecksOut(TorrentOf(l, fis, d.files), d.(files := files'), p)
  {
    hide Lengths.TotalPieces; hide Lengths.PieceStart; hide Lengths.PieceEnd; hide Space;
    PieceBounds(l, p);
    var start, end := l.PieceStart(p), l.PieceEnd(p);
    var cells, cells' := PieceCells(l, Space(fis, d.files), p), PieceCells(l, Space(fis, files'), p);
    assert cells == Space(fis, d.files)[start..end] && cells' == Space(fis, files')[start..end];
    assert cells[i - start] != cells'[i - start];
    if AllReadable(cells') {
      assert Values(cells)[i - start] == cells[i - start].value && Values(cells')[i - start] == cells'[i - start].value;
    }
  }

  /** A block of a missing piece keeps had pieces verified whatever it contains. A block of a had piece does so only
      if it lies in padding. */
  lemma BlockGuardExact(l: Lengths, fis: seq<FileInfo>, d: Disk, p: nat, off: nat, n: nat)
    requires l.Valid() && GoodInfos(l, fis) && l.TotalPieces() <= |d.have| && |d.files| == |fis| && p < l.TotalPieces()
    requires l.PieceStart(p) <= off && off + n <= l.PieceEnd(p)
    requires forall q :: 0 <= q < l.TotalPieces() && d.have[q] ==> AllReadable(PieceCells(l, Space(fis, d.files), q))
    ensures Verified(TorrentOf(l, fis, d.files), d)
    ensures AlwaysKeeps(TorrentOf(l, fis, d.files), d, off, n) <==>
            !d.have[p] || forall i :: off <= i < off + n ==> PaddingAt(fis, i)
  {
    hide Lengths.TotalPieces; hide Lengths.PieceStart; hide Lengths.PieceEnd; hide ChecksOut; hide WrittenFile;
    hide PaddingAt;
    hide PieceCells; hide Space; hide AllReadable;
    var t := TorrentOf(l, fis, d.files);
    OwnTorrentVerified(l, fis, d);
    if !d.have[p] || forall i :: off <= i < off + n ==> PaddingAt(fis, i) {
      forall data: seq<byte>, files' | |data| == n && WrittenAll(fis, d.files, files', off, data)
        ensures Verified(t, d.(files := files'))
      {
        forall q | 0 <= q < l.TotalPieces() && d.have[q] ensures ChecksOut(t, d.(files := files'), q) {
          if q != p {
            BlockKeepsCheck(t, d, d.(files := files'), p, off, data, q);
          } else {
            UntouchedKeepsCheck(t, d, d.(files := files'), off, data, q);
          }
        }
      }
    } else {
      var i :| off <= i < off + n && !PaddingAt(fis, i);
      var data, files' := Spoil(l, fis, d, p, off, n, i);
      ChangedFails(l, fis, d, files', p, i);
      assert !Verified(t, d.(files := files'));
    }
  }

  /** A block of a readable piece that changes byte `i`. */
  lemma Spoil(l: Lengths, fis: seq<FileInfo>, d: Disk, p: nat, off: nat, n: nat, i: nat)
    returns (data: seq<byte>, files': seq<seq<Cell>>)
    requires l.Valid() && GoodInfos(l, fis) && |d.files| == |fis| && p < l.TotalPieces()
    requires l.PieceStart(p) <= off && off + n <= l.PieceEnd(p) && off <= i < off + n && !PaddingAt(fis, i)
    requires AllReadable(PieceCells(l, Space(fis, d.files), p))
    ensures |data| == n && WrittenAll(fis, d.files, files', off, data) && |files'| == |fis|
    ensures InPiece(l, p, i) && i < |Space(fis, d.files)| && Space(fis, files')[i] != Space(fis, d.files)[i]
  {
    hide Lengths.TotalPieces; hide Lengths.PieceStart; hide Lengths.PieceEnd; hide PaddingAt; hide GapAt;
    hide WrittenFile;
    hide Space;
    PieceBounds(l, p);
    var flat, start, end := Space(fis, d.files), l.PieceStart(p), l.PieceEnd(p);
    assert |flat| == l.total;
    assert PieceCells(l, flat, p) == flat[start..end];
    assert flat[i] == flat[start..end][i - start];
    data := seq(n, _ => Another(flat[i].value));
    files' := seq(|fis|, f requires 0 <= f < |fis| => WrittenFile(fis, f, d.files[f], off, data));
    WriteIsSplice(fis, d.files, files', off, data);
  }
}

/** From creating a torrent to seeding it: what creation, checking and tracking say together. */
module Seeding {
  import opened TorrentLengths
  import opened FileInfos
  import opened Wrappers
  import opened FileSpace
  import opened FileOperations
  import opened CreateTorrent
  import opened TrackerSpec
  import opened TrackerRuns
  import opened TrackerCounters

  lemma {:induction false} AllBytes(l: Lengths, have: seq<bool>, k: nat)
    requires l.Valid() && 0 < k <= l.TotalPieces() && k <= |have| && forall p :: 0 <= p < k ==> have[p]
    ensures Bytes(l, have, k) == l.PieceEnd(k - 1)
  {
    hide Lengths.TotalPieces;
    PieceBounds(l, k - 1);
    if k > 1 {
      AllBytes(l, have, k - 1);
      PieceBounds(l, k - 2);
    }
  }

  /** Create a torrent from readable files, check the same files, and start tracking with the result:
      whatever is selected, nothing is left to download, and every file counts as complete. */
  lemma CreatedTorrentIsComplete(sha1: seq<byte> -> Digest, l: Lengths, fis: seq<FileInfo>, stored: seq<seq<Cell>>,
                                 files: seq<seq<byte>>, hashes: seq<Digest>, have: seq<bool>, selected: seq<bool>,
                                   s: State)
    requires l.Valid() && GoodInfos(l, fis) && l.total == |Content(files)|
    requires CreatedHashes(sha1, l.pieceLength, files, hashes) && SameFiles(fis, stored, files)
    requires StreamMarks(l, Lens(fis), Space(fis, stored), sha1, hashes, have, l.TotalPieces())
    requires |selected| == |have| >= l.TotalPieces() && Fresh(l, fis, have, selected, s)
    ensures s.hns.Finished() && s.hns.haveBytes == l.total
    ensures forall f :: 0 <= f < |fis| ==> s.perFile[f] == fis[f].len
    ensures forall p :: 0 <= p < l.TotalPieces() ==> !s.queue[p]
  {
    hide StreamMarks; hide CreatedHashes; hide Content; hide Space; hide Fresh; hide SameFiles;
    CreatedThenChecked(sha1, l, fis, stored, files, hashes);
    FullTrackerIsComplete(l, fis, have, selected, s);
  }

  lemma FullTrackerIsComplete(l: Lengths, fis: seq<FileInfo>, have: seq<bool>, selected: seq<bool>, s: State)
    requires l.Valid() && GoodInfos(l, fis)
    requires |selected| == |have| >= l.TotalPieces() && Fresh(l, fis, have, selected, s)
    requires forall p :: 0 <= p < l.TotalPieces() ==> have[p]
    ensures s.hns.Finished() && s.hns.haveBytes == l.total
    ensures forall f :: 0 <= f < |fis| ==> s.perFile[f] == fis[f].len
    ensures forall p :: 0 <= p < l.TotalPieces() ==> !s.queue[p]
  {
    hide Lengths.ChunkBits; hide Lengths.TotalPieces; hide FileHave; hide RangeHave; hide Bytes;
    TotalsMeaning(l, s);
    FirstPiece(l);
    PieceBounds(l, l.TotalPieces() - 1);
    AllBytes(l, have, l.TotalPieces());
    HnsHave(l, s.have, s.selected, l.TotalPieces());
    FreshCounters(l, fis, s);
    Conservation(l, fis, s);
  }
}

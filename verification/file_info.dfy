/** Where a file lies in the torrent, and the order in which its pieces are asked for. */
module FileInfos {
  import opened TorrentLengths
  import opened Wrappers

  datatype FileInfo = FileInfo(offset: nat, len: nat, pieceStart: nat, pieceEnd: nat, padding: bool) {

    predicate InRange(p: nat) {
      pieceStart <= p < pieceEnd
    }
  }

  function Lens(fis: seq<FileInfo>): (lens: seq<nat>)
    ensures |lens| == |fis|
  {
    seq(|fis|, i requires 0 <= i < |fis| => fis[i].len)
  }

  /** The file table of a torrent: files lie one after the other and fill the flat space,
      and the piece range of a file is the set of pieces it shares at least one byte with. */
  ghost predicate GoodInfos(l: Lengths, fis: seq<FileInfo>)
    requires l.Valid()
  {
    && Sum(Lens(fis)) == l.total
    && (forall f :: 0 <= f < |fis| ==> fis[f].offset == Offset(Lens(fis), f))
    && (forall f :: 0 <= f < |fis| ==> fis[f].pieceStart <= fis[f].pieceEnd <= l.TotalPieces())
    && (forall f, p: nat :: 0 <= f < |fis| ==>
          (fis[f].InRange(p) <==> p < l.TotalPieces() && l.SizeOfPieceInFile(p, fis[f].offset, fis[f].len) > 0))
  }

  /** The numbers from `from` up to, but not including, `to`. */
  function Range(from: nat, to: nat): (r: seq<nat>)
  {
    if from < to then seq(to - from, i requires i >= 0 => from + i) else []
  }

  /** First piece, last piece, then the middle from start to end. `None` is the arithmetic
      overflow of `start + (len - 1)` when `len` is 0, whose decrement wraps to the largest usize. */
  function IterPiecePriorities(start: nat, end: nat): Option<seq<nat>>
  {
    var len := if start < end then end - start else 0;
    if len == 0 then
      if start > 0 then None else Some([])
    else
      var first, last := start, start + (len - 1);
      var skipped := Range(start + 1, end);
      var mid := if len == 1 then skipped else skipped[..len - 2];
      Some(([first, last] + mid)[..len])
  }

  lemma PriorityShape(start: nat, end: nat)
    requires start + 1 < end
    ensures IterPiecePriorities(start, end) == Some([start, end - 1] + Range(start + 1, end - 1))
  {
    var ids := IterPiecePriorities(start, end).value;
    assert Range(start + 1, end)[..end - start - 2] == Range(start + 1, end - 1);
    assert ids == [start, end - 1] + Range(start + 1, end - 1);
  }

  lemma MoveLastForward(first: nat, mid: seq<nat>, last: nat)
    ensures multiset([first, last] + mid) == multiset([first] + mid + [last])
  {
  }

  lemma PriorityCases(start: nat, end: nat)
    ensures end <= start && start > 0 ==> IterPiecePriorities(start, end) == None
    ensures end <= start == 0 ==> IterPiecePriorities(start, end) == Some([])
    ensures start + 1 == end ==> IterPiecePriorities(start, end) == Some([start])
  {
    if start + 1 == end {
      assert IterPiecePriorities(start, end).value == [start];
    }
  }

  lemma RangeCases(start: nat, end: nat)
    ensures end <= start ==> Range(start, end) == []
    ensures start + 1 == end ==> Range(start, end) == [start]
    ensures start + 1 < end ==> Range(start, end) == [start] + Range(start + 1, end - 1) + [end - 1]
    ensures forall i :: 0 <= i < |Range(start, end)| ==> Range(start, end)[i] == start + i
  {
  }

  /** The call overflows exactly on an empty range that does not start at 0; otherwise it
      yields every piece of the range exactly once, the two ends first. */
  lemma PrioritiesArePermutation(start: nat, end: nat)
    ensures IterPiecePriorities(start, end).None? <==> end <= start && start > 0
    ensures IterPiecePriorities(start, end).Some? ==>
              var ids := IterPiecePriorities(start, end).value;
              && multiset(ids) == multiset(Range(start, end))
              && (start < end ==> ids[0] == start)
              && (start + 1 < end ==> ids[1] == end - 1)
              && (forall i, j :: 2 <= i < j < |ids| ==> ids[i] < ids[j])
  {
    hide IterPiecePriorities; hide Range;
    PriorityCases(start, end);
    RangeCases(start, end);
    if start + 1 < end {
      var mid := Range(start + 1, end - 1);
      PriorityShape(start, end);
      RangeCases(start + 1, end - 1);
      MoveLastForward(start, mid, end - 1);
    }
  }
}

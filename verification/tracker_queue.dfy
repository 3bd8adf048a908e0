/** Selecting files, and asking for queued pieces file by file. */
module TrackerQueue {
  import opened TorrentLengths
  import opened FileInfos
  import opened Wrappers
  import opened TrackerSpec
  import opened TrackerRuns
  import opened TrackerCounters

  // ---------- selection ----------

  /** The pieces of the chosen files (all files when no choice is given), as the torrent
      computes them when it starts. A range outside the bitfield is skipped. */
  method ComputeSelectedPieces(l: Lengths, onlyFiles: Option<seq<nat>>, fis: seq<FileInfo>) returns (bits: seq<bool>)
    requires l.Valid()
    ensures |bits| == l.PieceBits()
    ensures forall p :: 0 <= p < |bits| ==>
              (bits[p] <==> exists f :: 0 <= f < |fis| && (onlyFiles.None? || f in onlyFiles.value) &&
                                        fis[f].pieceEnd <= |bits| && fis[f].InRange(p))
  {
    bits := seq(l.PieceBits(), _ => false);
    for id := 0 to |fis|
      invariant |bits| == l.PieceBits()
      invariant forall p :: 0 <= p < |bits| ==>
                  (bits[p] <==> exists f :: 0 <= f < id && (onlyFiles.None? || f in onlyFiles.value) &&
                                            fis[f].pieceEnd <= |bits| && fis[f].InRange(p))
    {
      if onlyFiles.None? || id in onlyFiles.value {
        if fis[id].pieceStart <= fis[id].pieceEnd <= |bits| {
          bits := FillRange(bits, fis[id].pieceStart, fis[id].pieceEnd, true);
        }
      }
    }
  }

  /** The set of files a choice stands for. */
  function ChosenSet(onlyFiles: Option<seq<nat>>, files: nat): set<nat> {
    set f: nat | f < files && (onlyFiles.None? || f in onlyFiles.value)
  }

  /** A piece is touched by the chosen files when it is in the range of one of them. */
  lemma TouchedIsInRange(l: Lengths, fis: seq<FileInfo>, chosen: set<nat>, p: nat)
    requires l.Valid() && GoodInfos(l, fis) && p < l.TotalPieces()
    ensures PieceTouched(l, Lens(fis), chosen, p) <==> exists f :: 0 <= f < |fis| && f in chosen && fis[f].InRange(p)
  {
    hide Offset; hide Lengths.TotalPieces; hide Lengths.PieceStart; hide Lengths.PieceEnd;
    forall f | 0 <= f < |fis|
      ensures FileShare(Lens(fis), f, l.PieceStart(p), l.PieceEnd(p)) > 0 <==> fis[f].InRange(p)
    {
      OverlapsPositive(l, fis, p, f);
    }
  }

  /** Re-selecting files in a torrent whose files add up to its length: every piece is selected
      exactly when a chosen file has a byte in it, missing pieces are queued exactly when
      selected, had pieces keep their queue bit, and exactly the chunks of missing selected
      pieces are forgotten. */
  lemma SelectionMeaning(l: Lengths, fis: seq<FileInfo>, s: State, chosen: set<nat>, t: State)
    requires Shape(l, s) && GoodInfos(l, fis) && Reselected(l, s, Lens(fis), chosen, t)
    ensures Shape(l, t) && InSync(l, t) && t.have == s.have
    ensures forall p :: 0 <= p < l.TotalPieces() ==>
              && (t.selected[p] <==> exists f :: 0 <= f < |fis| && f in chosen && fis[f].InRange(p))
              && t.queue[p] == if s.have[p] then s.queue[p] else t.selected[p]
    ensures forall p, c :: 0 <= p < l.TotalPieces() && 0 <= c < |s.chunks| && l.IsChunkOf(p, c) ==>
              t.chunks[c] == (s.chunks[c] && !(t.selected[p] && !s.have[p]))
  {
    hide Lengths.ChunkBits; hide Lengths.IsChunkOf; hide FileInfo.InRange; hide HnsUpTo; hide Offset;
    var want := Wanted(l, Lens(fis), chosen);
    CoveredAll(l, Sum(Lens(fis)));
    forall p | 0 <= p < l.TotalPieces()
      ensures t.selected[p] <==> exists f :: 0 <= f < |fis| && f in chosen && fis[f].InRange(p)
    {
      TouchedIsInRange(l, fis, chosen, p);
    }
    forall p, c | 0 <= p < l.TotalPieces() && 0 <= c < |s.chunks| && l.IsChunkOf(p, c)
      ensures t.chunks[c] == (s.chunks[c] && !(t.selected[p] && !s.have[p]))
    {
      if ChunkCleared(l, s.have, want, l.TotalPieces(), c) {
        var q :| 0 <= q < l.TotalPieces() && l.IsChunkOf(q, c) && !s.have[q] && want[q];
        ChunkOwnerUnique(l, p, q, c);
      }
    }
  }

  /** Starting with a choice of files and re-selecting the same files later select the same pieces. */
  lemma StartAndUpdateAgree(l: Lengths, fis: seq<FileInfo>, s: State, onlyFiles: Option<seq<nat>>, bits: seq<bool>,
                            t: State)
    requires Shape(l, s) && GoodInfos(l, fis) && |bits| >= l.TotalPieces()
    requires Reselected(l, s, Lens(fis), ChosenSet(onlyFiles, |fis|), t)
    requires forall p :: 0 <= p < |bits| ==>
               (bits[p] <==> exists f :: 0 <= f < |fis| && (onlyFiles.None? || f in onlyFiles.value) &&
                                         fis[f].pieceEnd <= |bits| && fis[f].InRange(p))
    ensures |t.selected| >= l.TotalPieces() && forall p :: 0 <= p < l.TotalPieces() ==> t.selected[p] == bits[p]
  {
    hide Lengths.ChunkBits; hide Lengths.TotalPieces; hide Reselected;
    SelectionMeaning(l, fis, s, ChosenSet(onlyFiles, |fis|), t);
    forall p | 0 <= p < l.TotalPieces() ensures t.selected[p] == bits[p] {
      if bits[p] {
        var f :| 0 <= f < |fis| && (onlyFiles.None? || f in onlyFiles.value) && fis[f].pieceEnd <= |bits| &&
          fis[f].InRange(p);
        assert f in ChosenSet(onlyFiles, |fis|);
      }
    }
  }

  /** Re-selecting while a piece is in flight puts it back into the queue; if the running download
      then completes it, it stays queued although it is had. */
  lemma ReselectInFlight(l: Lengths, fis: seq<FileInfo>, s: State, chosen: set<nat>, t: State, p: nat, u: State)
    requires Shape(l, s) && GoodInfos(l, fis) && |s.perFile| == |fis| && p < l.TotalPieces()
    requires !s.have[p] && !s.queue[p]
    requires Reselected(l, s, Lens(fis), chosen, t) && t.selected[p]
    requires Shape(l, t) && Step(l, fis, t, OpComplete(p), u)
    ensures u.queue[p] && u.have[p] && Shape(l, u) && !QueueDisciplined(l, u)
  {
    hide Lengths.ChunkBits; hide HnsUpTo;
    SelectionMeaning(l, fis, s, chosen, t);
    StepKeepsSync(l, fis, t, OpComplete(p), u);
  }

  // ---------- asking for pieces ----------

  function Queued(ids: seq<nat>, queue: seq<bool>, n: nat): (r: seq<nat>)
    requires n <= |queue| && forall i :: 0 <= i < |ids| ==> ids[i] < |queue|
    ensures forall p :: p in r <==> p in ids && queue[p] && p < n
  {
    if |ids| == 0 then []
    else
      var rest := Queued(ids[1..], queue, n);
      assert ids == [ids[0]] + ids[1..];
      if queue[ids[0]] && ids[0] < n then [ids[0]] + rest else rest
  }

  /** One after the other, unless one of them overflowed. */
  function Join(a: Option<seq<nat>>, b: Option<seq<nat>>): Option<seq<nat>> {
    if a.Some? && b.Some? then Some(a.value + b.value) else None
  }

  lemma JoinAssociates(a: Option<seq<nat>>, b: Option<seq<nat>>, c: Option<seq<nat>>)
    ensures Join(Join(a, b), c) == Join(a, Join(b, c))
    ensures Join(Some([]), c) == c
  {
    if a.Some? && b.Some? && c.Some? {
      assert (a.value + b.value) + c.value == a.value + (b.value + c.value);
    }
    if c.Some? {
      assert [] + c.value == c.value;
    }
  }

  /** The queued pieces of one file in the order first, last, middle; nothing for a finished or unknown
      file. `None` is the overflow in the piece order of an empty range. */
  function QueuedOfFile(l: Lengths, fis: seq<FileInfo>, s: State, id: nat): Option<seq<nat>>
    requires l.Valid() && l.TotalPieces() <= |s.queue| && |s.perFile| == |fis| && RangesInside(fis, |s.queue|)
  {
    if id >= |fis| || s.perFile[id] == fis[id].len then Some([])
    else
      var ids := IterPiecePriorities(fis[id].pieceStart, fis[id].pieceEnd);
      if ids.None? then None
      else
        PrioritiesInside(fis[id].pieceStart, fis[id].pieceEnd);
        Some(Queued(ids.value, s.queue, l.TotalPieces()))
  }

  /** `iter_queued_pieces`: the queued pieces of the files, in priority order. */
  function IterQueuedPieces(l: Lengths, fis: seq<FileInfo>, s: State, priorities: seq<nat>): Option<seq<nat>>
    requires l.Valid() && l.TotalPieces() <= |s.queue| && |s.perFile| == |fis| && RangesInside(fis, |s.queue|)
  {
    if |priorities| == 0 then Some([])
    else Join(QueuedOfFile(l, fis, s, priorities[0]), IterQueuedPieces(l, fis, s, priorities[1..]))
  }

  lemma PrioritiesInside(start: nat, end: nat)
    requires IterPiecePriorities(start, end).Some?
    ensures forall p :: p in IterPiecePriorities(start, end).value <==> start <= p < end
  {
    var ids := IterPiecePriorities(start, end).value;
    PrioritiesArePermutation(start, end);
    forall p ensures p in ids <==> start <= p < end {
      assert p in ids <==> p in multiset(ids);
      assert p in Range(start, end) <==> p in multiset(Range(start, end));
      if start <= p < end { assert Range(start, end)[p - start] == p; }
    }
  }

  /** When a piece of the range [start, end) is asked for: the first one, the last one, then the others upwards. */
  function AskRank(start: nat, end: nat, p: nat): int {
    if p == start then 0 else if p == end - 1 then 1 else 1 + p - start
  }

  predicate Ascends(start: nat, end: nat, ids: seq<nat>) {
    forall i, j :: 0 <= i < j < |ids| ==> AskRank(start, end, ids[i]) < AskRank(start, end, ids[j])
  }

  lemma PrioritiesAscend(start: nat, end: nat)
    requires IterPiecePriorities(start, end).Some?
    ensures Ascends(start, end, IterPiecePriorities(start, end).value)
  {
    hide IterPiecePriorities; hide Range;
    PrioritiesArePermutation(start, end);
    PriorityCases(start, end);
    if start + 1 < end {
      PriorityShape(start, end);
      RangeCases(start + 1, end - 1);
      assert forall i :: 2 <= i < |IterPiecePriorities(start, end).value| ==>
               start < IterPiecePriorities(start, end).value[i] < end - 1 by { MiddleIsInside(start, end); }
    }
  }

  lemma MiddleIsInside(start: nat, end: nat)
    requires start + 1 < end
    ensures IterPiecePriorities(start, end).Some?
    ensures forall i :: 2 <= i < |IterPiecePriorities(start, end).value| ==>
              start < IterPiecePriorities(start, end).value[i] < end - 1
  {
    hide IterPiecePriorities;
    PriorityShape(start, end);
  }

  lemma {:induction false} QueuedAscends(start: nat, end: nat, ids: seq<nat>, queue: seq<bool>, n: nat)
    requires n <= |queue| && (forall i :: 0 <= i < |ids| ==> ids[i] < |queue|) && Ascends(start, end, ids)
    ensures Ascends(start, end, Queued(ids, queue, n))
  {
    if |ids| > 0 {
      QueuedAscends(start, end, ids[1..], queue, n);
      forall p | p in Queued(ids[1..], queue, n) ensures AskRank(start, end, ids[0]) < AskRank(start, end, p) {
        var i :| 0 <= i < |ids| - 1 && ids[1..][i] == p;
        assert ids[i + 1] == p;
      }
    }
  }

  /** What is asked for of a file: nothing if it is unknown or its counter is full; an overflow if its range is empty
      and does not start at 0; otherwise exactly the queued pieces of its range, the first one, the last one, then
      upwards. */
  lemma QueuedOfFileIs(l: Lengths, fis: seq<FileInfo>, s: State, id: nat)
    requires l.Valid() && l.TotalPieces() <= |s.queue| && |s.perFile| == |fis| && RangesInside(fis, |s.queue|)
    ensures var r := QueuedOfFile(l, fis, s, id);
            if id >= |fis| || s.perFile[id] == fis[id].len then r == Some([])
            else
              && (r.None? <==> fis[id].pieceEnd <= fis[id].pieceStart && fis[id].pieceStart > 0)
              && (r.Some? ==>
                    && Ascends(fis[id].pieceStart, fis[id].pieceEnd, r.value)
                    && forall p :: p in r.value <==>
                         fis[id].pieceStart <= p < fis[id].pieceEnd && p < l.TotalPieces() && s.queue[p])
  {
    hide Lengths.TotalPieces; hide IterPiecePriorities; hide Queued; hide Ascends;
    if id < |fis| {
      var from, to := fis[id].pieceStart, fis[id].pieceEnd;
      PrioritiesArePermutation(from, to);
      if IterPiecePriorities(from, to).Some? {
        PrioritiesInside(from, to);
        PrioritiesAscend(from, to);
        var ids := IterPiecePriorities(from, to).value;
        forall i | 0 <= i < |ids| ensures ids[i] < |s.queue| {
          assert ids[i] in ids;
        }
        QueuedAscends(from, to, ids, s.queue, l.TotalPieces());
      }
    }
  }

  /** Files are asked for strictly in priority order. */
  lemma {:induction false} PrioritiesInOrder(l: Lengths, fis: seq<FileInfo>, s: State, a: seq<nat>, b: seq<nat>)
    requires l.Valid() && l.TotalPieces() <= |s.queue| && |s.perFile| == |fis| && RangesInside(fis, |s.queue|)
    ensures IterQueuedPieces(l, fis, s, a + b) == Join(IterQueuedPieces(l, fis, s, a), IterQueuedPieces(l, fis, s, b))
  {
    hide Lengths.TotalPieces; hide QueuedOfFile; hide Join;
    var right := IterQueuedPieces(l, fis, s, b);
    if |a| == 0 {
      assert a + b == b;
      JoinAssociates(right, right, right);
    } else {
      PrioritiesInOrder(l, fis, s, a[1..], b);
      assert (a + b)[1..] == a[1..] + b;
      JoinAssociates(QueuedOfFile(l, fis, s, a[0]), IterQueuedPieces(l, fis, s, a[1..]), right);
    }
  }

  lemma QueuedFront(x: nat, y: nat, ids: seq<nat>, queue: seq<bool>, n: nat)
    requires n <= |queue| && (forall i :: 0 <= i < |ids| ==> ids[i] < |queue|) && x < n && y < n && queue[x] && queue[y]
    ensures [x, y] <= Queued([x, y] + ids, queue, n)
  {
    hide Queued;
    var rest := [y] + ids;
    assert [x, y] + ids == [x] + rest;
    QueuedCons(x, rest, queue, n);
    QueuedCons(y, ids, queue, n);
  }

  lemma QueuedCons(x: nat, ids: seq<nat>, queue: seq<bool>, n: nat)
    requires n <= |queue| && (forall i :: 0 <= i < |ids| ==> ids[i] < |queue|) && x < n && queue[x]
    ensures Queued([x] + ids, queue, n) == [x] + Queued(ids, queue, n)
  {
    assert ([x] + ids)[1..] == ids;
  }

  lemma RangeBelow(from: nat, to: nat)
    ensures forall i :: 0 <= i < |Range(from, to)| ==> Range(from, to)[i] < to
  {
  }

  /** An unfinished file is asked for from its two ends: if its first and last piece are queued, they come first. */
  lemma EndsComeFirst(l: Lengths, fis: seq<FileInfo>, s: State, id: nat)
    requires l.Valid() && l.TotalPieces() <= |s.queue| && |s.perFile| == |fis| && RangesInside(fis, |s.queue|)
    requires id < |fis| && s.perFile[id] != fis[id].len && fis[id].pieceStart + 1 < fis[id].pieceEnd <= l.TotalPieces()
    requires s.queue[fis[id].pieceStart] && s.queue[fis[id].pieceEnd - 1]
    ensures QueuedOfFile(l, fis, s, id).Some?
    ensures [fis[id].pieceStart, fis[id].pieceEnd - 1] <= QueuedOfFile(l, fis, s, id).value
  {
    hide Lengths.TotalPieces; hide IterPiecePriorities; hide Queued; hide Range; hide RangesInside;
    var from, to := fis[id].pieceStart, fis[id].pieceEnd;
    PriorityShape(from, to);
    RangeBelow(from + 1, to - 1);
    QueuedFront(from, to - 1, Range(from + 1, to - 1), s.queue, l.TotalPieces());
  }

  lemma FileQueueIsExact(l: Lengths, fis: seq<FileInfo>, s: State, id: nat)
    requires Shape(l, s) && GoodInfos(l, fis) && CountersCorrect(l, fis, s) && QueueDisciplined(l, s)
    ensures QueuedOfFile(l, fis, s, id).Some?
    ensures forall p: nat :: p in QueuedOfFile(l, fis, s, id).value <==>
              p < l.TotalPieces() && s.queue[p] && id < |fis| && fis[id].InRange(p)
  {
    hide Lengths.ChunkBits; hide Lengths.SizeOfPieceInFile; hide FileHave; hide Offset; hide IterPiecePriorities;
    if id < |fis| {
      FileCounter(l, fis, id, s.have);
      if s.perFile[id] != fis[id].len {
        assert fis[id].pieceStart < fis[id].pieceEnd;
        PrioritiesArePermutation(fis[id].pieceStart, fis[id].pieceEnd);
        PrioritiesInside(fis[id].pieceStart, fis[id].pieceEnd);
      }
    }
  }

  /** Skipping finished files loses nothing and the piece order never overflows: with a disciplined
      queue and right counters, the pieces yielded are exactly the queued pieces of the prioritised files. */
  lemma {:induction false} NoQueuedPieceIsLost(l: Lengths, fis: seq<FileInfo>, s: State, priorities: seq<nat>)
    requires Shape(l, s) && GoodInfos(l, fis) && CountersCorrect(l, fis, s) && QueueDisciplined(l, s)
    ensures IterQueuedPieces(l, fis, s, priorities).Some?
    ensures forall p: nat :: p in IterQueuedPieces(l, fis, s, priorities).value <==>
              p < l.TotalPieces() && s.queue[p] &&
              exists i :: 0 <= i < |priorities| && priorities[i] < |fis| && fis[priorities[i]].InRange(p)
  {
    hide Lengths.ChunkBits; hide FileHave; hide Offset; hide QueuedOfFile;
    if |priorities| > 0 {
      var id, rest := priorities[0], priorities[1..];
      NoQueuedPieceIsLost(l, fis, s, rest);
      FileQueueIsExact(l, fis, s, id);
      forall p: nat | p < l.TotalPieces() && s.queue[p]
        ensures p in IterQueuedPieces(l, fis, s, priorities).value <==>
                exists i :: 0 <= i < |priorities| && priorities[i] < |fis| && fis[priorities[i]].InRange(p)
      {
        if i :| 0 <= i < |rest| && rest[i] < |fis| && fis[rest[i]].InRange(p) {
          assert priorities[i + 1] == rest[i];
        }
        if i :| 0 <= i < |priorities| && priorities[i] < |fis| && fis[priorities[i]].InRange(p) {
          assert i > 0 ==> rest[i - 1] == priorities[i];
        }
      }
    }
  }
}

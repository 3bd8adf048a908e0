/** Per-file byte counters: what they count, when they stay right, and that nothing is lost. */
module TrackerCounters {
  import opened TorrentLengths
  import opened FileInfos
  import opened TrackerSpec
  import opened TrackerRuns
  import opened ChunkTracking

  /** Bytes of the file that lie in had pieces below `k`. */
  function FileHave(l: Lengths, fi: FileInfo, have: seq<bool>, k: nat): nat
    requires k <= |have|
  {
    if k == 0 then 0
    else FileHave(l, fi, have, k - 1) + if have[k - 1] then l.SizeOfPieceInFile(k - 1, fi.offset, fi.len) else 0
  }

  ghost predicate CountersCorrect(l: Lengths, fis: seq<FileInfo>, s: State)
    requires Shape(l, s)
  {
    |s.perFile| == |fis| && forall f :: 0 <= f < |fis| ==> s.perFile[f] == FileHave(l, fis[f], s.have, l.TotalPieces())
  }

  // ---------- one file ----------

  /** Summing over the piece range of a file is summing over all pieces. */
  lemma {:induction false} RangeIsEnough(l: Lengths, fis: seq<FileInfo>, f: nat, have: seq<bool>, k: nat)
    requires l.Valid() && GoodInfos(l, fis) && f < |fis| && k <= l.TotalPieces() <= |have|
    ensures FileHave(l, fis[f], have, k) == RangeHave(l, fis[f], have, Min(k, fis[f].pieceEnd))
  {
    hide Lengths.SizeOfPieceInFile; hide Lengths.TotalPieces;
    if k > 0 {
      RangeIsEnough(l, fis, f, have, k - 1);
      assert fis[f].InRange(k - 1) <==> l.SizeOfPieceInFile(k - 1, fis[f].offset, fis[f].len) > 0;
    }
  }

  /** The counter of a fresh tracker is right. */
  lemma FreshCounters(l: Lengths, fis: seq<FileInfo>, s: State)
    requires l.Valid() && GoodInfos(l, fis) && |s.have| == |s.selected| >= l.TotalPieces()
    requires Fresh(l, fis, s.have, s.selected, s)
    ensures CountersCorrect(l, fis, s)
  {
    hide Lengths.TotalPieces; hide Lengths.ChunkBits; hide HnsUpTo;
    forall f | 0 <= f < |fis| ensures s.perFile[f] == FileHave(l, fis[f], s.have, l.TotalPieces()) {
      RangeIsEnough(l, fis, f, s.have, l.TotalPieces());
    }
  }

  /** A file never has more bytes than the pieces so far can give it, and it has all of them
      exactly when every piece that overlaps it is had. */
  lemma {:induction false} FileHaveBound(l: Lengths, fi: FileInfo, have: seq<bool>, k: nat)
    requires l.Valid() && 0 < k <= l.TotalPieces() <= |have|
    ensures FileHave(l, fi, have, k) <= Overlap(0, l.PieceEnd(k - 1), fi.offset, fi.offset + fi.len)
    ensures FileHave(l, fi, have, k) == Overlap(0, l.PieceEnd(k - 1), fi.offset, fi.offset + fi.len) <==>
            forall p :: 0 <= p < k && l.SizeOfPieceInFile(p, fi.offset, fi.len) > 0 ==> have[p]
  {
    hide Overlap; hide Lengths.TotalPieces;
    PieceBounds(l, k - 1);
    if k > 1 {
      FileHaveBound(l, fi, have, k - 1);
      PieceBounds(l, k - 2);
      OverlapSplit(fi.offset, fi.offset + fi.len, 0, l.PieceStart(k - 1), l.PieceEnd(k - 1));
    }
  }

  // ---------- all files ----------

  lemma {:induction false} SumAdd(a: seq<nat>, b: seq<nat>, c: seq<nat>, k: nat)
    requires |a| == |b| == |c| && k <= |a| && forall i :: 0 <= i < |a| ==> c[i] == a[i] + b[i]
    ensures Offset(c, k) == Offset(a, k) + Offset(b, k)
  {
    if k > 0 {
      SumAdd(a, b, c, k - 1);
    }
  }

  lemma {:induction false} SumZero(a: seq<nat>, k: nat)
    requires k <= |a| && forall i :: 0 <= i < k ==> a[i] == 0
    ensures Offset(a, k) == 0
  {
    if k > 0 {
      SumZero(a, k - 1);
    }
  }

  /** The bytes of [a, b) in each of the files. */
  function Shares(lens: seq<nat>, a: nat, b: nat): (r: seq<nat>)
    ensures |r| == |lens|
    ensures forall f :: 0 <= f < |lens| ==> r[f] == FileShare(lens, f, a, b)
  {
    seq(|lens|, f requires 0 <= f < |lens| => FileShare(lens, f, a, b))
  }

  /** The files partition the flat space, so the shares of an interval add up to it. */
  lemma {:induction false} SharesAddUp(lens: seq<nat>, a: nat, b: nat, k: nat)
    requires k <= |lens|
    ensures Offset(Shares(lens, a, b), k) == Overlap(a, b, 0, Offset(lens, k))
  {
    hide Overlap; hide Offset; hide Shares;
    OverlapSplit(a, b, 0, 0, 0);
    if k == 0 {
      OffsetZero(lens);
      OffsetZero(Shares(lens, a, b));
    } else {
      SharesAddUp(lens, a, b, k - 1);
      OffsetStep(lens, k - 1);
      OffsetStep(Shares(lens, a, b), k - 1);
      assert Shares(lens, a, b)[k - 1] == FileShare(lens, k - 1, a, b);
      OverlapSplit(a, b, 0, Offset(lens, k - 1), Offset(lens, k));
    }
  }

  function Row(l: Lengths, fis: seq<FileInfo>, have: seq<bool>, k: nat): (r: seq<nat>)
    requires k <= |have|
    ensures |r| == |fis|
  {
    seq(|fis|, f requires 0 <= f < |fis| => FileHave(l, fis[f], have, k))
  }

  lemma PieceShares(l: Lengths, fis: seq<FileInfo>, p: nat)
    requires l.Valid() && GoodInfos(l, fis) && p < l.TotalPieces()
    ensures Sum(Shares(Lens(fis), l.PieceStart(p), l.PieceEnd(p))) == l.PieceLen(p) > 0
    ensures forall f :: 0 <= f < |fis| ==>
              Shares(Lens(fis), l.PieceStart(p), l.PieceEnd(p))[f] == l.SizeOfPieceInFile(p, fis[f].offset, fis[f].len)
  {
    hide Lengths.TotalPieces; hide Offset;
    PieceBounds(l, p);
    SharesAddUp(Lens(fis), l.PieceStart(p), l.PieceEnd(p), |fis|);
  }

  /** Counting had bytes file by file or piece by piece gives the same total. */
  lemma {:induction false} RowSum(l: Lengths, fis: seq<FileInfo>, have: seq<bool>, k: nat)
    requires l.Valid() && GoodInfos(l, fis) && k <= l.TotalPieces() <= |have|
    ensures Sum(Row(l, fis, have, k)) == Bytes(l, have, k)
  {
    hide Lengths.TotalPieces; hide Lengths.PieceLen; hide Offset; hide Lengths.SizeOfPieceInFile;
    if k == 0 {
      SumZero(Row(l, fis, have, 0), |fis|);
    } else {
      RowSum(l, fis, have, k - 1);
      var row := Row(l, fis, have, k - 1);
      if have[k - 1] {
        PieceShares(l, fis, k - 1);
        SumAdd(row, Shares(Lens(fis), l.PieceStart(k - 1), l.PieceEnd(k - 1)), Row(l, fis, have, k), |fis|);
      } else {
        assert Row(l, fis, have, k) == row;
      }
    }
  }

  lemma HnsHave(l: Lengths, have: seq<bool>, selected: seq<bool>, k: nat)
    requires k <= |have| == |selected|
    ensures HnsUpTo(l, have, selected, k).haveBytes == Bytes(l, have, k)
  {
  }

  /** Conservation: right counters add up to the had bytes of the torrent; each is bounded by
      its file's length and reaches it exactly when all pieces of the file are had. */
  lemma Conservation(l: Lengths, fis: seq<FileInfo>, s: State)
    requires Shape(l, s) && GoodInfos(l, fis) && CountersCorrect(l, fis, s) && InSync(l, s)
    ensures Sum(s.perFile) == s.hns.haveBytes
    ensures forall f :: 0 <= f < |fis| ==>
              && s.perFile[f] <= fis[f].len
              && (s.perFile[f] == fis[f].len <==> forall p: nat :: fis[f].InRange(p) ==> s.have[p])
  {
    hide Lengths.ChunkBits; hide Lengths.SizeOfPieceInFile; hide Lengths.TotalPieces; hide HnsUpTo; hide FileHave;
    var n := l.TotalPieces();
    RowSum(l, fis, s.have, n);
    assert s.hns.haveBytes == Bytes(l, s.have, n) by {
      assert s.hns == HnsUpTo(l, s.have, s.selected, n);
      HnsHave(l, s.have, s.selected, n);
    }
    assert s.perFile == Row(l, fis, s.have, n);
    forall f | 0 <= f < |fis|
      ensures s.perFile[f] <= fis[f].len
      ensures s.perFile[f] == fis[f].len <==> forall p: nat :: fis[f].InRange(p) ==> s.have[p]
    {
      FileCounter(l, fis, f, s.have);
    }
  }

  lemma FileCounter(l: Lengths, fis: seq<FileInfo>, f: nat, have: seq<bool>)
    requires l.Valid() && GoodInfos(l, fis) && f < |fis| && l.TotalPieces() <= |have|
    ensures var got := FileHave(l, fis[f], have, l.TotalPieces());
            got <= fis[f].len && (got == fis[f].len <==> forall p: nat :: fis[f].InRange(p) ==> have[p])
  {
    hide Lengths.SizeOfPieceInFile; hide FileHave; hide Offset;
    FirstPiece(l);
    PieceBounds(l, l.TotalPieces() - 1);
    OffsetMonotone(Lens(fis), f, |fis|);
    FileHaveBound(l, fis[f], have, l.TotalPieces());
  }

  /** A file is finished exactly when its counter has reached its length. */
  lemma FinishedMeansCounted(ct: ChunkTracker, fis: seq<FileInfo>, f: nat)
    requires ct.Valid() && GoodInfos(ct.lengths, fis) && CountersCorrect(ct.lengths, fis, ct.Contents()) && f < |fis|
    ensures ct.IsFileFinished(fis[f]) <==> ct.perFileBytes[f] == fis[f].len
  {
    hide Lengths.ChunkBits; hide HnsUpTo; hide FileHave; hide Lengths.TotalPieces;
    Conservation(ct.lengths, fis, ct.Contents());
    assert AllInRange(ct.have, fis[f].pieceStart, fis[f].pieceEnd) <==>
           forall p: nat :: fis[f].InRange(p) ==> ct.have[p];
  }

  // ---------- completing a piece ----------

  lemma {:induction false} FileHaveSet(l: Lengths, fi: FileInfo, have: seq<bool>, p: nat, k: nat)
    requires p < |have| && k <= |have| && !have[p]
    ensures FileHave(l, fi, have[p := true], k) ==
            FileHave(l, fi, have, k) + if p < k then l.SizeOfPieceInFile(p, fi.offset, fi.len) else 0
  {
    if k > 0 {
      FileHaveSet(l, fi, have, p, k - 1);
    }
  }

  lemma {:induction false} FirstInRangeIsFirst(fis: seq<FileInfo>, p: nat, from: nat)
    requires from <= |fis|
    ensures forall f :: from <= f < FirstInRange(fis, p, from) ==> !fis[f].InRange(p)
    ensures FirstInRange(fis, p, from) < |fis| ==> fis[FirstInRange(fis, p, from)].InRange(p)
    decreases |fis| - from
  {
    if from < |fis| && !fis[from].InRange(p) {
      FirstInRangeIsFirst(fis, p, from + 1);
    }
  }

  lemma {:induction false} RunIsMaximal(fis: seq<FileInfo>, p: nat, from: nat)
    requires from <= |fis|
    ensures forall f :: from <= f < EndOfRun(fis, p, from) ==> fis[f].InRange(p)
    ensures EndOfRun(fis, p, from) < |fis| ==> !fis[EndOfRun(fis, p, from)].InRange(p)
    decreases |fis| - from
  {
    if from < |fis| && fis[from].InRange(p) {
      RunIsMaximal(fis, p, from + 1);
    }
  }

  /** No empty file lies between two files that both overlap the piece. */
  ghost predicate NoEmptyFileInside(fis: seq<FileInfo>, p: nat) {
    forall f, g, h :: 0 <= f < g < h < |fis| && fis[f].InRange(p) && fis[h].InRange(p) ==> fis[g].len > 0
  }

  lemma BetweenOverlaps(l: Lengths, fis: seq<FileInfo>, p: nat, f: nat, g: nat, h: nat)
    requires l.Valid() && GoodInfos(l, fis) && p < l.TotalPieces()
    requires f < g < h < |fis| && fis[f].InRange(p) && fis[h].InRange(p)
    ensures fis[g].InRange(p) <==> fis[g].len > 0
  {
    hide Lengths.TotalPieces; hide Offset;
    OffsetMonotone(Lens(fis), f, g);
    OffsetMonotone(Lens(fis), g, h);
    assert forall i :: 0 <= i < |fis| ==>
             (fis[i].InRange(p) <==> l.SizeOfPieceInFile(p, fis[i].offset, fis[i].len) > 0);
  }

  /** Skipping to the first overlapping file and stopping at the first that does not overlap
      visits every overlapping file if and only if no empty file lies inside. */
  lemma RunCoversIff(l: Lengths, fis: seq<FileInfo>, p: nat)
    requires l.Valid() && GoodInfos(l, fis) && p < l.TotalPieces()
    ensures (forall f :: 0 <= f < |fis| ==> (InFirstRun(fis, p, f) <==> fis[f].InRange(p))) <==>
            NoEmptyFileInside(fis, p)
  {
    hide GoodInfos; hide Lengths.TotalPieces; hide EndOfRun; hide FirstInRange; hide FileInfo.InRange;
    var first := FirstInRange(fis, p, 0);
    FirstInRangeIsFirst(fis, p, 0);
    RunIsMaximal(fis, p, first);
    var end := EndOfRun(fis, p, first);
    if NoEmptyFileInside(fis, p) {
      forall f | 0 <= f < |fis| ensures InFirstRun(fis, p, f) <==> fis[f].InRange(p) {
        if fis[f].InRange(p) && f >= end {
          assert first < end < f;
          BetweenOverlaps(l, fis, p, first, end, f);
        }
      }
    } else {
      var f, g, h :| 0 <= f < g < h < |fis| && fis[f].InRange(p) && fis[h].InRange(p) && fis[g].len == 0;
      BetweenOverlaps(l, fis, p, f, g, h);
      assert first <= f;
      assert !InFirstRun(fis, p, h);
    }
  }

  lemma SomeFileOverlaps(l: Lengths, fis: seq<FileInfo>, p: nat) returns (f: nat)
    requires l.Valid() && GoodInfos(l, fis) && p < l.TotalPieces()
    ensures f < |fis| && fis[f].InRange(p) && f == FirstInRange(fis, p, 0) && InFirstRun(fis, p, f)
  {
    hide Lengths.SizeOfPieceInFile; hide Lengths.TotalPieces; hide Offset;
    f := FirstInRange(fis, p, 0);
    FirstInRangeIsFirst(fis, p, 0);
    PieceShares(l, fis, p);
    if f == |fis| {
      SumZero(Shares(Lens(fis), l.PieceStart(p), l.PieceEnd(p)), |fis|);
    }
    RunIsMaximal(fis, p, f);
  }

  /** When an operation keeps the counters right: a piece is completed once, through the pair of
      calls, and no empty file lies inside it. */
  ghost predicate CounterGuard(l: Lengths, fis: seq<FileInfo>, s: State, op: Op)
    requires Shape(l, s)
  {
    match op
    case OpDownloaded(p) => p < l.TotalPieces() ==> s.have[p]
    case OpComplete(p) => p < l.TotalPieces() ==> !s.have[p] && NoEmptyFileInside(fis, p)
    case _ => true
  }

  lemma CompleteExact(l: Lengths, fis: seq<FileInfo>, s: State, p: nat, t: State)
    requires Shape(l, s) && GoodInfos(l, fis) && CountersCorrect(l, fis, s)
    requires p < l.TotalPieces() && NoUnderflow(l, s, p) && t == CountCompleted(l, fis, MarkDownloaded(l, s, p), p)
    ensures Shape(l, t) && (CountersCorrect(l, fis, t) <==> !s.have[p] && NoEmptyFileInside(fis, p))
  {
    hide Lengths.TotalPieces; hide Lengths.ChunkBits; hide Lengths.PieceLen; hide Lengths.SizeOfPieceInFile;
    hide InFirstRun;
    hide NoEmptyFileInside;
    var n := l.TotalPieces();
    var first := SomeFileOverlaps(l, fis, p);
    RunCoversIff(l, fis, p);
    assert forall f :: 0 <= f < |fis| ==>
             (fis[f].InRange(p) <==> l.SizeOfPieceInFile(p, fis[f].offset, fis[f].len) > 0);
    if s.have[p] {
      assert t.perFile[first] > s.perFile[first];
    } else {
      forall f | 0 <= f < |fis|
        ensures t.perFile[f] == FileHave(l, fis[f], t.have, n) <==> (fis[f].InRange(p) ==> InFirstRun(fis, p, f))
      {
        FileHaveSet(l, fis[f], s.have, p, n);
      }
      RunInRange(fis, p);
    }
  }

  lemma RunInRange(fis: seq<FileInfo>, p: nat)
    ensures forall f :: 0 <= f < |fis| && InFirstRun(fis, p, f) ==> fis[f].InRange(p)
  {
    RunIsMaximal(fis, p, FirstInRange(fis, p, 0));
  }

  /** The guard is exact. */
  lemma CounterGuardExact(l: Lengths, fis: seq<FileInfo>, s: State, op: Op, t: State)
    requires l.Valid() && GoodInfos(l, fis) && Step(l, fis, s, op, t) && Shape(l, t) && CountersCorrect(l, fis, s)
    ensures CountersCorrect(l, fis, t) <==> CounterGuard(l, fis, s, op)
  {
    hide Lengths.TotalPieces; hide Lengths.ChunkBits; hide Lengths.PieceLen; hide Lengths.SizeOfPieceInFile;
    hide InFirstRun;
    hide NoEmptyFileInside; hide FillRange; hide GoodInfos; hide HnsUpTo;
    match op
    case OpComplete(p) => CompleteExact(l, fis, s, p, t);
    case OpDownloaded(p) =>
      if !s.have[p] {
        var f := SomeFileOverlaps(l, fis, p);
        FileHaveSet(l, fis[f], s.have, p, l.TotalPieces());
        OverlapsPositive(l, fis, p, f);
      }
    case _ =>
  }

  lemma OverlapsPositive(l: Lengths, fis: seq<FileInfo>, p: nat, f: nat)
    requires l.Valid() && GoodInfos(l, fis) && f < |fis|
    ensures fis[f].InRange(p) <==> p < l.TotalPieces() && l.SizeOfPieceInFile(p, fis[f].offset, fis[f].len) > 0
  {
  }

  /** From a fresh tracker, over every run that completes each piece once, the counters are right;
      with `Conservation` nothing is lost or counted twice. */
  lemma {:induction false} CountersAlwaysCorrect(l: Lengths, fis: seq<FileInfo>, trace: seq<State>, ops: seq<Op>,
                                                 i: nat)
    requires l.Valid() && GoodInfos(l, fis) && Run(l, fis, trace, ops) && i < |trace|
    requires |trace[0].have| == |trace[0].selected| >= l.TotalPieces()
    requires Fresh(l, fis, trace[0].have, trace[0].selected, trace[0])
    requires forall j :: 0 <= j < i ==> Shape(l, trace[j]) && CounterGuard(l, fis, trace[j], ops[j])
    ensures Shape(l, trace[i]) && InSync(l, trace[i]) && CountersCorrect(l, fis, trace[i])
    ensures Sum(trace[i].perFile) == trace[i].hns.haveBytes
  {
    hide Lengths.TotalPieces; hide Lengths.ChunkBits; hide GoodInfos; hide CounterGuard; hide HnsUpTo;
    TotalsAlwaysInSync(l, fis, trace, ops, i);
    if i > 0 {
      CountersAlwaysCorrect(l, fis, trace, ops, i - 1);
      CounterGuardExact(l, fis, trace[i - 1], ops[i - 1], trace[i]);
    } else {
      FreshCounters(l, fis, trace[0]);
    }
    Conservation(l, fis, trace[i]);
  }
}

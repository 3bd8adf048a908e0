/** The bins in which a torrent's row shows which pieces it has and how available the others are. */
module RowSnapshot {
  import opened TorrentLengths
  import opened Availability

  const BINS: nat := 200

  datatype PieceBin = PieceBin(haveRatio: real, minAvail: nat, piecesInBin: nat)

  /** Downloaded part of the torrent, between 0 and 1. */
  function ProgressOf(downloaded: nat, totalBytes: nat): (r: real)
    ensures 0.0 <= r <= 1.0
    ensures r == 1.0 <==> totalBytes > 0 && downloaded >= totalBytes
    ensures r * (totalBytes as real) == Min(downloaded, totalBytes) as real
  {
    if totalBytes == 0 then 0.0
    else if downloaded >= totalBytes then 1.0
    else
      RatioBelowOne(downloaded, totalBytes);
      (downloaded as real) / (totalBytes as real)
  }

  lemma RatioBelowOne(a: nat, b: nat)
    requires a < b
    ensures 0.0 <= (a as real) / (b as real) < 1.0
    ensures (a as real) / (b as real) * (b as real) == a as real
  {
    var r := (a as real) / (b as real);
    assert r * (b as real) == a as real;
  }

  function CompletedPieces(progress: real, total: nat): (n: nat)
    requires 0.0 <= progress <= 1.0
    ensures n <= total && (total > 0 ==> (n == total <==> progress == 1.0))
    ensures n as real <= Scaled(progress, total as real) < n as real + 1.0
  {
    hide Scaled;
    Scaled(progress, total as real).Floor
  }

  /** The completed pieces are the share of the downloaded bytes, rounded down. */
  lemma CompletedIsShare(downloaded: nat, totalBytes: nat, total: nat)
    requires totalBytes > 0
    ensures var n, d := CompletedPieces(ProgressOf(downloaded, totalBytes), total), Min(downloaded, totalBytes);
            n * totalBytes <= d * total < (n + 1) * totalBytes
  {
    hide ProgressOf; hide CompletedPieces; hide Scaled; hide Times;
    var r, d := ProgressOf(downloaded, totalBytes), Min(downloaded, totalBytes);
    var n, x := CompletedPieces(r, total), Scaled(r, total as real);
    ScaledTimes(r, total as real, totalBytes as real);
    ProductIsReal(n, totalBytes);
    ProductIsReal(n + 1, totalBytes);
    ProductIsReal(d, total);
    TimesKeepsOrder(n as real, x, totalBytes as real);
    TimesKeepsOrder(x, (n + 1) as real, totalBytes as real);
    ProgressTimes(downloaded, totalBytes);
    RealsKeepOrder(n * totalBytes, d * total, (n + 1) * totalBytes);
  }

  function Times(a: real, b: real): real {
    a * b
  }

  lemma ProgressTimes(downloaded: nat, totalBytes: nat)
    ensures Times(ProgressOf(downloaded, totalBytes), totalBytes as real) == Min(downloaded, totalBytes) as real
  {
    hide ProgressOf;
  }

  lemma ScaledTimes(r: real, t: real, b: real)
    requires 0.0 <= r <= 1.0 && t >= 0.0
    ensures Times(Scaled(r, t), b) == Times(Times(r, b), t)
  {
  }

  lemma TimesKeepsOrder(a: real, b: real, c: real)
    requires c > 0.0
    ensures a <= b ==> Times(a, c) <= Times(b, c)
    ensures a < b ==> Times(a, c) < Times(b, c)
  {
    assert Times(b, c) - Times(a, c) == (b - a) * c;
  }

  lemma ProductIsReal(a: nat, b: nat)
    ensures Times(a as real, b as real) == (a * b) as real
  {
  }

  lemma RealsKeepOrder(a: int, b: int, c: int)
    requires a as real <= b as real < c as real
    ensures a <= b < c
  {
  }

  function Scaled(r: real, t: real): (x: real)
    requires 0.0 <= r <= 1.0 && t >= 0.0
    ensures 0.0 <= x <= t && (t > 0.0 ==> (x == t <==> r == 1.0))
  {
    ScaledBounds(r, t);
    r * t
  }

  lemma ScaledBounds(r: real, t: real)
    requires 0.0 <= r <= 1.0 && t >= 0.0
    ensures 0.0 <= r * t <= t && (t > 0.0 ==> (r * t == t <==> r == 1.0))
  {
    var rest := 1.0 - r;
    assert r * t + rest * t == t;
    assert rest * t >= 0.0;
    assert rest > 0.0 && t > 0.0 ==> rest * t > 0.0;
  }

  /** The pieces, cut into bins as the torrent is cut into pieces. */
  function Binned(total: nat): Lengths {
    Lengths(total, CeilDiv(total, BINS))
  }

  /** Pieces of bin `b` are those in [from, to), an empty range once the pieces are used up. */
  function BinFrom(total: nat, b: nat): nat {
    Min(Binned(total).PieceStart(b), total)
  }

  /** A missing piece whose availability is known and below the largest 32-bit number. */
  predicate Counts(avail: seq<nat>, completed: nat, p: nat) {
    completed <= p < |avail| && avail[p] < U32_MAX
  }

  /** `m` is the least availability of the missing pieces in [from, to), or `none` if none counts. */
  predicate IsLeast(avail: seq<nat>, completed: nat, from: nat, to: nat, m: nat, none: nat) {
    && (forall p :: from <= p < to && Counts(avail, completed, p) ==> m <= avail[p])
    && ((exists p :: from <= p < to && Counts(avail, completed, p) && avail[p] == m) ||
        (m == none && forall p :: from <= p < to ==> !Counts(avail, completed, p)))
  }

  /** How many pieces a bin shows as had. */
  function HadShown(bin: PieceBin): real {
    bin.haveRatio * (bin.piecesInBin as real)
  }

  /** What a bin shows about its pieces [from, to). */
  predicate Shows(bin: PieceBin, avail: seq<nat>, completed: nat, from: nat, to: nat)
    requires from <= to
  {
    && bin.piecesInBin == to - from
    && HadShown(bin) == Overlap(from, to, 0, completed) as real
    && (from == to ==> bin.haveRatio == 0.0)
    && if from < to <= completed then bin.minAvail == U32_MAX else IsLeast(avail, completed, from, to, bin.minAvail, 0)
  }

  lemma BinRange(total: nat, b: nat)
    requires total > 0
    ensures Binned(total).PieceStart(b) == b * CeilDiv(total, BINS)
    ensures Binned(total).PieceStart(b + 1) == (b + 1) * CeilDiv(total, BINS)
    ensures BinFrom(total, b) == Min(b * CeilDiv(total, BINS), total)
    ensures BinFrom(total, b + 1) == Min((b + 1) * CeilDiv(total, BINS), total)
    ensures BinFrom(total, b) <= BinFrom(total, b + 1) <= total
    ensures BinFrom(total, BINS) == total
  {
    PieceStartIsProduct(Binned(total), b);
    PieceStartIsProduct(Binned(total), b + 1);
    PieceStartIsProduct(Binned(total), BINS);
    RoundUp(total, BINS);
  }

  method MinAvailability(avail: seq<nat>, completed: nat, from: nat, to: nat) returns (m: nat)
    requires from <= to
    ensures IsLeast(avail, completed, from, to, m, 0)
  {
    m := U32_MAX;
    for p := from to to
      invariant m <= U32_MAX && IsLeast(avail, completed, from, p, m, U32_MAX)
    {
      if p < |avail| && p >= completed {
        m := Min(m, avail[p]);
      }
    }
    if m == U32_MAX {
      m := 0;
    }
  }

  /** The bin of the pieces [start, end). */
  method Bin(avail: seq<nat>, completed: nat, start: nat, end: nat) returns (bin: PieceBin)
    requires start < end
    ensures Shows(bin, avail, completed, start, end)
  {
    hide IsLeast;
    var piecesInBin := end - start;
    var haveCount: nat := Min(Max(0, completed - start), piecesInBin);
    var haveRatio := (haveCount as real) / (piecesInBin as real);
    RatioIsOne(haveCount, piecesInBin, haveRatio);
    var minAvail := U32_MAX;
    if haveRatio < 1.0 {
      minAvail := MinAvailability(avail, completed, start, end);
    }
    return PieceBin(haveRatio, minAvail, piecesInBin);
  }

  /** The bins of a row; a torrent whose number of pieces is not known yet counts as one piece. */
  method PiecesBins(totalPiecesEstimate: nat, downloaded: nat, totalBytes: nat, avail: seq<nat>)
    returns (bins: seq<PieceBin>)
    ensures var total := Max(totalPiecesEstimate, 1);
            RowShows(bins, avail, CompletedPieces(ProgressOf(downloaded, totalBytes), total), total) && |bins| == BINS
  {
    var total: nat := Max(totalPiecesEstimate, 1);
    var piecesPerBin := CeilDiv(total, BINS);
    var completed := CompletedPieces(ProgressOf(downloaded, totalBytes), total);
    hide CompletedPieces; hide ProgressOf; hide CeilDiv; hide Shows; hide Lengths.PieceStart; hide BinFrom;
    bins := [];
    for b := 0 to BINS
      invariant |bins| == b && RowShows(bins, avail, completed, total)
    {
      BinRange(total, b);
      var start := b * piecesPerBin;
      var end: nat := Min((b + 1) * piecesPerBin, total);
      var bin := PieceBin(0.0, 0, 0);
      if start >= total {
        EmptyBin(avail, completed, total);
      } else {
        bin := Bin(avail, completed, start, end);
      }
      bins := bins + [bin];
    }
  }

  ghost predicate RowShows(bins: seq<PieceBin>, avail: seq<nat>, completed: nat, total: nat) {
    forall b :: 0 <= b < |bins| ==>
      && BinFrom(total, b) <= BinFrom(total, b + 1)
      && Shows(bins[b], avail, completed, BinFrom(total, b), BinFrom(total, b + 1))
  }

  lemma EmptyBin(avail: seq<nat>, completed: nat, from: nat)
    ensures Shows(PieceBin(0.0, 0, 0), avail, completed, from, from)
  {
  }

  lemma RatioIsOne(a: nat, b: nat, r: real)
    requires a <= b && 0 < b && r == (a as real) / (b as real)
    ensures r * (b as real) == a as real
    ensures r >= 1.0 <==> a == b
  {
    if r >= 1.0 {
      assert r * (b as real) >= 1.0 * (b as real);
    }
  }

  // ---------- what the row says as a whole ----------

  function PiecesIn(bins: seq<PieceBin>): nat {
    if |bins| == 0 then 0 else PiecesIn(bins[..|bins| - 1]) + bins[|bins| - 1].piecesInBin
  }

  /** Had pieces, as far as the shown ratios tell. */
  function HadIn(bins: seq<PieceBin>): real {
    if |bins| == 0 then 0.0 else HadIn(bins[..|bins| - 1]) + HadShown(bins[|bins| - 1])
  }

  lemma {:induction false} BinsAddUp(total: nat, completed: nat, avail: seq<nat>, bins: seq<PieceBin>)
    requires total > 0 && completed <= total && RowShows(bins, avail, completed, total)
    ensures PiecesIn(bins) == BinFrom(total, |bins|)
    ensures HadIn(bins) == Min(completed, BinFrom(total, |bins|)) as real
  {
    hide IsLeast; hide CeilDiv; hide HadShown;
    if |bins| > 0 {
      var k := |bins| - 1;
      BinsAddUp(total, completed, avail, bins[..k]);
      assert Shows(bins[k], avail, completed, BinFrom(total, k), BinFrom(total, k + 1));
    }
  }

  /** The bins of a row share out all pieces and all had pieces: nothing is lost or shown twice. */
  lemma RowIsComplete(total: nat, completed: nat, avail: seq<nat>, bins: seq<PieceBin>)
    requires total > 0 && completed <= total && |bins| == BINS && RowShows(bins, avail, completed, total)
    ensures PiecesIn(bins) == total && HadIn(bins) == completed as real
  {
    hide BinFrom; hide Shows;
    BinRange(total, 0);
    BinsAddUp(total, completed, avail, bins);
  }

  /** With exact counters, the availability shown for an unfinished bin is the number of peers that have
      its last piece; only a count too large for 32 bits shows as 0. */
  lemma BinShowsLastPiece<F>(pieces: F -> nat, total: nat, s: State<F>, completed: nat, bin: PieceBin, from: nat,
                             to: nat)
    requires Exact(pieces, total, s) && from < to <= total && completed < to && Shows(bin, s.avail, completed, from, to)
    ensures var holders := |Holders(pieces, s.cache, total, to - 1)|;
            bin.minAvail == if holders < U32_MAX then holders else 0
  {
    hide Holders;
    forall p | 0 <= p < to ensures s.avail[to - 1] <= s.avail[p] {
      CountersDescend(pieces, total, s, p, to - 1);
    }
    if s.avail[to - 1] < U32_MAX {
      assert Counts(s.avail, completed, to - 1);
    }
  }
}

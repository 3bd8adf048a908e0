/** How many peers have each piece, kept up to date as peers report progress and leave. */
module Availability {
  import opened TorrentLengths

  const U32_MAX: nat := 0xffff_ffff

  /** Pieces a peer with this progress is taken to have, the first `pieces(progress)` or all of them. `pieces`
      is the rounded-up product of progress and number of pieces, in whatever arithmetic. */
  function PiecesOf<F>(pieces: F -> nat, progress: F, total: nat): (n: nat)
    ensures n <= total
  {
    Min(pieces(progress), total)
  }

  function SaturatingSub(n: nat): nat {
    if n == 0 then 0 else n - 1
  }

  function SaturatingAdd(n: nat): nat {
    if n >= U32_MAX then n else n + 1
  }

  function Resized(avail: seq<nat>, total: nat): seq<nat> {
    if |avail| >= total then avail[..total] else avail + seq(total - |avail|, _ => 0)
  }

  /** The first `n` counters changed by one. */
  function Changed(avail: seq<nat>, n: nat, up: bool): (r: seq<nat>)
    ensures |r| == |avail|
  {
    seq(|avail|, i requires 0 <= i < |avail| =>
      if i < n then (if up then SaturatingAdd(avail[i]) else SaturatingSub(avail[i])) else avail[i])
  }

  datatype State<F> = State(avail: seq<nat>, cache: map<string, F>)

  /** `update_piece_availability_from_peers` */
  function Update<F>(pieces: F -> nat, total: nat, s: State<F>, peer: string, progress: F): State<F> {
    if total == 0 then s
    else
      var a := if |s.avail| != total then Resized(s.avail, total) else s.avail;
      var b := if peer in s.cache then Changed(a, PiecesOf(pieces, s.cache[peer], total), false) else a;
      State(Changed(b, PiecesOf(pieces, progress, total), true), s.cache[peer := progress])
  }

  /** `remove_peer_from_availability` */
  function Remove<F>(pieces: F -> nat, total: nat, s: State<F>, peer: string): State<F> {
    if peer !in s.cache then s
    else
      var n := PiecesOf(pieces, s.cache[peer], total);
      State(if |s.avail| == total then Changed(s.avail, n, false) else s.avail, s.cache - {peer})
  }

  class TorrentRuntime<F> {
    const pieces: F -> nat
    const totalPiecesEstimate: nat
    var pieceAvailability: seq<nat>
    var peerProgressCache: map<string, F>

    ghost function Contents(): State<F>
      reads this
    {
      State(pieceAvailability, peerProgressCache)
    }

    constructor (totalPiecesEstimate: nat, pieces: F -> nat)
      ensures this.totalPiecesEstimate == totalPiecesEstimate && this.pieces == pieces
      ensures Contents() == State(seq(totalPiecesEstimate, _ => 0), map[])
    {
      this.totalPiecesEstimate := totalPiecesEstimate;
      this.pieces := pieces;
      this.pieceAvailability := seq(totalPiecesEstimate, _ => 0);
      this.peerProgressCache := map[];
    }

    method UpdatePieceAvailabilityFromPeers(peerProgress: F, peerId: string)
      modifies this
      ensures Contents() == Update(pieces, totalPiecesEstimate, old(Contents()), peerId, peerProgress)
      ensures peerProgressCache == if totalPiecesEstimate == 0 then old(peerProgressCache)
                                   else old(peerProgressCache)[peerId := peerProgress]
    {
      var total := totalPiecesEstimate;
      if total == 0 {
        return;
      }
      if |pieceAvailability| != total {
        pieceAvailability := Resized(pieceAvailability, total);
      }
      if peerId in peerProgressCache {
        ChangeFirst(PiecesOf(pieces, peerProgressCache[peerId], total), false);
      }
      ChangeFirst(PiecesOf(pieces, peerProgress, total), true);
      peerProgressCache := peerProgressCache[peerId := peerProgress];
    }

    method RemovePeerFromAvailability(peerId: string)
      modifies this
      ensures Contents() == Remove(pieces, totalPiecesEstimate, old(Contents()), peerId)
      ensures peerProgressCache == old(peerProgressCache) - {peerId}
    {
      if peerId in peerProgressCache {
        var progress := peerProgressCache[peerId];
        peerProgressCache := peerProgressCache - {peerId};
        if |pieceAvailability| == totalPiecesEstimate {
          ChangeFirst(PiecesOf(pieces, progress, totalPiecesEstimate), false);
        }
      }
    }

    method ChangeFirst(n: nat, up: bool)
      requires n <= |pieceAvailability|
      modifies this`pieceAvailability
      ensures pieceAvailability == Changed(old(pieceAvailability), n, up)
    {
      for i := 0 to n
        invariant |pieceAvailability| == |old(pieceAvailability)|
        invariant forall j :: 0 <= j < |pieceAvailability| ==>
                    pieceAvailability[j] == if j < i then Changed(old(pieceAvailability), n, up)[j]
                      else old(pieceAvailability)[j]
      {
        var v := pieceAvailability[i];
        pieceAvailability := pieceAvailability[i := if up then SaturatingAdd(v) else SaturatingSub(v)];
      }
    }
  }

  // ---------- what the counters mean ----------

  /** A peer with this progress is taken to have piece `i`. */
  predicate Has<F>(pieces: F -> nat, progress: F, total: nat, i: nat) {
    i < total && i < pieces(progress)
  }

  lemma HasFirstPieces<F>(pieces: F -> nat, progress: F, total: nat)
    ensures forall i: nat :: i < PiecesOf(pieces, progress, total) <==> Has(pieces, progress, total, i)
  {
  }

  /** The peers that are taken to have piece `i`. */
  function Holders<F>(pieces: F -> nat, cache: map<string, F>, total: nat, i: nat): set<string> {
    set peer | peer in cache && Has(pieces, cache[peer], total, i)
  }

  /** Every counter is the number of cached peers that have the piece. */
  ghost predicate Exact<F>(pieces: F -> nat, total: nat, s: State<F>) {
    |s.avail| == total && forall i :: 0 <= i < total ==> s.avail[i] == |Holders(pieces, s.cache, total, i)|
  }

  lemma HoldersRemove<F>(pieces: F -> nat, cache: map<string, F>, total: nat, i: nat, peer: string)
    requires peer in cache
    ensures |Holders(pieces, cache - {peer}, total, i)| ==
            |Holders(pieces, cache, total, i)| - (if Has(pieces, cache[peer], total, i) then 1 else 0)
  {
    hide Has;
    assert Holders(pieces, cache - {peer}, total, i) == Holders(pieces, cache, total, i) - {peer};
  }

  lemma HoldersAdd<F>(pieces: F -> nat, cache: map<string, F>, total: nat, i: nat, peer: string, progress: F)
    requires peer !in cache
    ensures |Holders(pieces, cache[peer := progress], total, i)| ==
            |Holders(pieces, cache, total, i)| + (if Has(pieces, progress, total, i) then 1 else 0)
  {
    hide Has;
    var added := Holders(pieces, cache[peer := progress], total, i);
    assert added - {peer} == Holders(pieces, cache, total, i);
    assert peer in added <==> Has(pieces, progress, total, i);
    if peer in added {
      assert added == Holders(pieces, cache, total, i) + {peer};
    }
  }

  lemma {:induction false} SubsetSize<T>(a: set<T>, b: set<T>)
    requires a <= b
    ensures |a| <= |b|
  {
    if a != {} {
      var x :| x in a;
      SubsetSize(a - {x}, b - {x});
    }
  }

  /** Removing a peer keeps the counters exact, and no subtraction saturates. */
  lemma RemoveKeeps<F>(pieces: F -> nat, total: nat, s: State<F>, peer: string)
    requires Exact(pieces, total, s)
    ensures Exact(pieces, total, Remove(pieces, total, s, peer))
    ensures peer in s.cache ==>
              forall i: nat :: Has(pieces, s.cache[peer], total, i) ==> i < |s.avail| && s.avail[i] > 0
  {
    hide PiecesOf;
    if peer in s.cache {
      HasFirstPieces(pieces, s.cache[peer], total);
      forall i | 0 <= i < total
        ensures Remove(pieces, total, s, peer).avail[i] == |Holders(pieces, s.cache - {peer}, total, i)|
        ensures Has(pieces, s.cache[peer], total, i) ==> s.avail[i] > 0
      {
        HoldersRemove(pieces, s.cache, total, i, peer);
      }
    }
  }

  /** No counter that must go up has reached the largest 32-bit number: fewer than 2^32 - 1 other
      cached peers have the first piece, if this peer has it. */
  predicate Room<F>(pieces: F -> nat, total: nat, s: State<F>, peer: string, progress: F) {
    Has(pieces, progress, total, 0) ==> |Holders(pieces, s.cache - {peer}, total, 0)| < U32_MAX
  }

  lemma AddExact<F>(pieces: F -> nat, total: nat, s: State<F>, peer: string, progress: F)
    requires Exact(pieces, total, s) && peer !in s.cache
    ensures var avail := Changed(s.avail, PiecesOf(pieces, progress, total), true);
            Exact(pieces, total, State(avail, s.cache[peer := progress])) <==> Room(pieces, total, s, peer, progress)
  {
    var n := PiecesOf(pieces, progress, total);
    hide PiecesOf;
    HasFirstPieces(pieces, progress, total);
    assert s.cache - {peer} == s.cache;
    forall i | 0 <= i < total
      ensures Changed(s.avail, n, true)[i] == |Holders(pieces, s.cache[peer := progress], total, i)| <==>
              (i < n ==> s.avail[i] < U32_MAX)
    {
      HoldersAdd(pieces, s.cache, total, i, peer, progress);
    }
    forall i | 0 <= i < n ensures s.avail[i] <= s.avail[0] {
      CountersDescend(pieces, total, s, 0, i);
    }
  }

  /** A progress report is the removal of the peer followed by its return with the new progress. It keeps
      the counters exact if and only if there is room. */
  lemma UpdateExact<F>(pieces: F -> nat, total: nat, s: State<F>, peer: string, progress: F)
    requires Exact(pieces, total, s) && total > 0
    ensures Exact(pieces, total, Update(pieces, total, s, peer, progress)) <==> Room(pieces, total, s, peer, progress)
  {
    hide PiecesOf; hide Changed; hide Holders;
    var t := if peer in s.cache then Remove(pieces, total, s, peer) else s;
    RemoveKeeps(pieces, total, s, peer);
    assert t.cache[peer := progress] == s.cache[peer := progress];
    assert t.cache - {peer} == s.cache - {peer};
    AddExact(pieces, total, t, peer, progress);
  }

  /** Exact counters never increase from one piece to a later one. */
  lemma CountersDescend<F>(pieces: F -> nat, total: nat, s: State<F>, i: nat, j: nat)
    requires Exact(pieces, total, s) && i <= j < total
    ensures s.avail[j] <= s.avail[i]
  {
    SubsetSize(Holders(pieces, s.cache, total, j), Holders(pieces, s.cache, total, i));
  }

  // ---------- runs ----------

  datatype Event<F> = Progressed(peer: string, progress: F) | Left(peer: string)

  function After<F>(pieces: F -> nat, total: nat, s: State<F>, e: Event<F>): State<F> {
    match e
    case Progressed(peer, progress) => Update(pieces, total, s, peer, progress)
    case Left(peer) => Remove(pieces, total, s, peer)
  }

  function AfterAll<F>(pieces: F -> nat, total: nat, events: seq<Event<F>>): State<F> {
    if |events| == 0 then State(seq(total, _ => 0), map[])
    else After(pieces, total, AfterAll(pieces, total, events[..|events| - 1]), events[|events| - 1])
  }

  /** Every report found room. */
  predicate AlwaysRoom<F>(pieces: F -> nat, total: nat, events: seq<Event<F>>) {
    forall k :: 0 <= k < |events| && events[k].Progressed? ==>
      Room(pieces, total, AfterAll(pieces, total, events[..k]), events[k].peer, events[k].progress)
  }

  /** With a fixed number of pieces, after any sequence of reports that found room and of departures, every
      counter is the number of cached peers that have the piece; so the counters never increase along
      the pieces, and no subtraction ever saturates. */
  lemma {:induction false} CountersStayExact<F>(pieces: F -> nat, total: nat, events: seq<Event<F>>)
    requires AlwaysRoom(pieces, total, events)
    ensures Exact(pieces, total, AfterAll(pieces, total, events))
    ensures forall i, j :: 0 <= i <= j < total ==>
              AfterAll(pieces, total, events).avail[j] <= AfterAll(pieces, total, events).avail[i]
  {
    hide PiecesOf; hide Update; hide Remove; hide Room;
    if |events| == 0 {
      assert forall i :: 0 <= i < total ==> Holders(pieces, map[], total, i) == {};
    } else {
      var before, s := events[..|events| - 1], AfterAll(pieces, total, events[..|events| - 1]);
      assert forall k :: 0 <= k < |before| ==> before[k] == events[k] && before[..k] == events[..k];
      CountersStayExact(pieces, total, before);
      match events[|events| - 1]
      case Progressed(peer, progress) =>
        if total > 0 { UpdateExact(pieces, total, s, peer, progress); } else { NoPieces(pieces, s, peer, progress); }
      case Left(peer) => RemoveKeeps(pieces, total, s, peer);
    }
    forall i, j | 0 <= i <= j < total
      ensures AfterAll(pieces, total, events).avail[j] <= AfterAll(pieces, total, events).avail[i]
    {
      CountersDescend(pieces, total, AfterAll(pieces, total, events), i, j);
    }
  }

  lemma NoPieces<F>(pieces: F -> nat, s: State<F>, peer: string, progress: F)
    ensures Update(pieces, 0, s, peer, progress) == s
  {
  }
}

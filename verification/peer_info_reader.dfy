/** Reassembling the torrent's metadata from pieces that peers send in any order (BEP 9). */
module PeerInfoReader {
  import opened TorrentLengths
  import opened Wrappers

  const MAX_METADATA_SIZE: nat := 33554432

  datatype MetadataError = TooBig | WrongIndex | WrongLength | AlreadyReceived | ChecksumInvalid

  /** Metadata of `size` bytes, cut into chunks. */
  function Cut(size: nat): Lengths {
    Lengths(size, CHUNK_SIZE)
  }

  function Pieces(size: nat): nat {
    CeilDiv(size, CHUNK_SIZE)
  }

  /** `last_element_size` */
  function LastElementSize(total: nat, element: nat): nat
    requires element > 0
  {
    if total % element == 0 then element else total % element
  }

  class HandlerLocked {
    const metadataSize: nat
    const totalPieces: nat
    var buffer: seq<byte>
    var receivedPieces: seq<bool>

    ghost predicate Valid()
      reads this
    {
      && metadataSize <= MAX_METADATA_SIZE && totalPieces == Pieces(metadataSize)
      && |buffer| == metadataSize && |receivedPieces| == totalPieces
    }

    constructor (metadataSize: nat)
      requires metadataSize <= MAX_METADATA_SIZE
      ensures Valid() && this.metadataSize == metadataSize
      ensures buffer == seq(metadataSize, _ => 0) && receivedPieces == seq(totalPieces, _ => false)
    {
      this.metadataSize := metadataSize;
      this.totalPieces := Pieces(metadataSize);
      this.buffer := seq(metadataSize, _ => 0);
      this.receivedPieces := seq(Pieces(metadataSize), _ => false);
    }

    static method New(metadataSize: nat) returns (r: Result<HandlerLocked, MetadataError>)
      ensures r.Failure? <==> metadataSize > MAX_METADATA_SIZE
      ensures r.Success? ==>
                && fresh(r.value) && r.value.Valid() && r.value.metadataSize == metadataSize
                && State(r.value.buffer, r.value.receivedPieces) == Initial(metadataSize)
    {
      if metadataSize > MAX_METADATA_SIZE {
        return Failure(TooBig);
      }
      var h := new HandlerLocked(metadataSize);
      return Success(h);
    }

    method PieceSize(index: nat) returns (size: nat)
      requires Valid() && index < totalPieces
      ensures size == Cut(metadataSize).PieceLen(index) > 0
    {
      LastPiece(metadataSize, index);
      if index == totalPieces - 1 {
        return LastElementSize(metadataSize, CHUNK_SIZE);
      } else {
        return CHUNK_SIZE;
      }
    }

    method RecordPiece(index: nat, data: seq<byte>, sha1: seq<byte> -> Digest, infoHash: Digest)
      returns (r: Result<bool, MetadataError>)
      requires Valid()
      modifies this
      ensures Valid()
      ensures (r, State(buffer, receivedPieces)) ==
              Record(metadataSize, old(State(buffer, receivedPieces)), Delivery(index, data), sha1, infoHash)
    {
      if index >= totalPieces {
        return Failure(WrongIndex);
      }
      PieceInBuffer(metadataSize, index);
      assert index * CHUNK_SIZE < U32_LIMIT;  // the 32-bit product cannot overflow
      var offset := index * CHUNK_SIZE;
      var size := PieceSize(index);
      if |data| != size {
        return Failure(WrongLength);
      }
      if receivedPieces[index] {
        return Failure(AlreadyReceived);
      }
      buffer := buffer[..offset] + data + buffer[offset + size..];
      receivedPieces := receivedPieces[index := true];
      if forall i :: 0 <= i < |receivedPieces| ==> receivedPieces[i] {
        if sha1(buffer) != infoHash {
          return Failure(ChecksumInvalid);
        }
        return Success(true);
      }
      return Success(false);
    }
  }

  lemma LastPiece(size: nat, index: nat)
    requires 0 < size && index < Pieces(size)
    ensures Cut(size).PieceLen(index) ==
            if index == Pieces(size) - 1 then LastElementSize(size, CHUNK_SIZE) else CHUNK_SIZE
    ensures Cut(size).PieceLen(index) > 0
  {
    var l, n := Cut(size), Pieces(size);
    PieceBounds(l, index);
    PieceStartIsProduct(l, index);
    CeilDivIsDivCeil(size, CHUNK_SIZE);
    if index + 1 < n {
      PieceBounds(l, index + 1);
    }
  }

  /** A chunk's bytes lie inside the buffer, at a position that fits 32 bits. */
  lemma PieceInBuffer(size: nat, index: nat)
    requires size <= MAX_METADATA_SIZE && index < Pieces(size)
    ensures index * CHUNK_SIZE == Cut(size).PieceStart(index) < U32_LIMIT
    ensures Cut(size).PieceStart(index) + Cut(size).PieceLen(index) == Cut(size).PieceEnd(index) <= size
  {
    PieceStartIsProduct(Cut(size), index);
    PieceBounds(Cut(size), index);
  }

  // ---------- what recording does ----------

  datatype State = State(buffer: seq<byte>, received: seq<bool>)

  datatype Delivery = Delivery(index: nat, data: seq<byte>)

  function Initial(size: nat): State {
    State(seq(size, _ => 0), seq(Pieces(size), _ => false))
  }

  predicate Sized(size: nat, s: State) {
    size <= MAX_METADATA_SIZE && |s.buffer| == size && |s.received| == Pieces(size)
  }

  predicate Complete(s: State) {
    forall i :: 0 <= i < |s.received| ==> s.received[i]
  }

  /** `record_piece` */
  function Record(size: nat, s: State, d: Delivery, sha1: seq<byte> -> Digest, infoHash: Digest)
    : (r: (Result<bool, MetadataError>, State))
    requires Sized(size, s)
    ensures Sized(size, r.1)
  {
    var l := Cut(size);
    if d.index >= Pieces(size) then (Failure(WrongIndex), s)
    else if |d.data| != l.PieceLen(d.index) then (Failure(WrongLength), s)
    else if s.received[d.index] then (Failure(AlreadyReceived), s)
    else
      PieceInBuffer(size, d.index);
      var buffer := s.buffer[..l.PieceStart(d.index)] + d.data + s.buffer[l.PieceEnd(d.index)..];
      var t := State(buffer, s.received[d.index := true]);
      (if !Complete(t) then Success(false)
       else if sha1(t.buffer) == infoHash then Success(true)
       else Failure(ChecksumInvalid), t)
  }

  // ---------- runs ----------

  /** The pieces accepted from a sequence of deliveries: for each index the first one of the right length. */
  function Accepted(size: nat, ds: seq<Delivery>): map<nat, seq<byte>>
  {
    if |ds| == 0 then map[]
    else
      var before, d := Accepted(size, ds[..|ds| - 1]), ds[|ds| - 1];
      if d.index < Pieces(size) && |d.data| == Cut(size).PieceLen(d.index) && d.index !in before
      then before[d.index := d.data] else before
  }

  function RecordAll(size: nat, ds: seq<Delivery>, sha1: seq<byte> -> Digest, infoHash: Digest): (s: State)
    requires size <= MAX_METADATA_SIZE
    ensures Sized(size, s)
  {
    if |ds| == 0 then Initial(size)
    else Record(size, RecordAll(size, ds[..|ds| - 1], sha1, infoHash), ds[|ds| - 1], sha1, infoHash).1
  }

  /** The buffer holds every accepted piece at its place, and exactly those are marked received. */
  ghost predicate Holds(size: nat, s: State, accepted: map<nat, seq<byte>>)
    requires Sized(size, s)
  {
    && (forall i :: 0 <= i < Pieces(size) ==> (s.received[i] <==> i in accepted))
    && (forall i :: i in accepted ==> i < Pieces(size) && HoldsAt(size, s.buffer, i, accepted[i]))
  }

  predicate HoldsAt(size: nat, buffer: seq<byte>, i: nat, data: seq<byte>) {
    && Cut(size).PieceStart(i) <= Cut(size).PieceEnd(i) <= |buffer|
    && buffer[Cut(size).PieceStart(i)..Cut(size).PieceEnd(i)] == data
  }

  /** Pieces fill disjoint segments, so a new one leaves the others alone. */
  lemma OthersStay(size: nat, buffer: seq<byte>, i: nat, data: seq<byte>, j: nat, other: seq<byte>)
    requires size <= MAX_METADATA_SIZE && |buffer| == size && i < Pieces(size) && j < Pieces(size)
    requires |data| == Cut(size).PieceLen(i) && HoldsAt(size, buffer, j, other) && i != j
    ensures Cut(size).PieceStart(i) <= Cut(size).PieceEnd(i) <= size
    ensures HoldsAt(size, buffer[..Cut(size).PieceStart(i)] + data + buffer[Cut(size).PieceEnd(i)..], j, other)
  {
    hide Lengths.PieceStart; hide Lengths.PieceEnd; hide Lengths.PieceLen;
    var l := Cut(size);
    PieceBounds(l, i);
    PieceBounds(l, j);
    if i < j { PieceOrder(l, i, j); } else { PieceOrder(l, j, i); }
    var buffer' := buffer[..l.PieceStart(i)] + data + buffer[l.PieceEnd(i)..];
    assert buffer'[l.PieceStart(j)..l.PieceEnd(j)] == buffer[l.PieceStart(j)..l.PieceEnd(j)];
  }

  lemma {:induction false} BufferHolds(size: nat, ds: seq<Delivery>, sha1: seq<byte> -> Digest, infoHash: Digest)
    requires size <= MAX_METADATA_SIZE
    ensures Holds(size, RecordAll(size, ds, sha1, infoHash), Accepted(size, ds))
  {
    hide Lengths.PieceStart; hide Lengths.PieceEnd; hide Lengths.PieceLen; hide Pieces; hide HoldsAt;
    if |ds| > 0 {
      var before, d := ds[..|ds| - 1], ds[|ds| - 1];
      BufferHolds(size, before, sha1, infoHash);
      var s, t := RecordAll(size, before, sha1, infoHash), RecordAll(size, ds, sha1, infoHash);
      var acc := Accepted(size, before);
      if d.index < Pieces(size) && |d.data| == Cut(size).PieceLen(d.index) && d.index !in acc {
        HoldsNew(size, s.buffer, d);
        forall j | j in acc ensures HoldsAt(size, t.buffer, j, acc[j]) {
          OthersStay(size, s.buffer, d.index, d.data, j, acc[j]);
        }
      }
    }
  }

  lemma HoldsNew(size: nat, buffer: seq<byte>, d: Delivery)
    requires size <= MAX_METADATA_SIZE && |buffer| == size
    requires d.index < Pieces(size) && |d.data| == Cut(size).PieceLen(d.index)
    ensures Cut(size).PieceStart(d.index) <= Cut(size).PieceEnd(d.index) <= size
    ensures var buffer' := buffer[..Cut(size).PieceStart(d.index)] + d.data + buffer[Cut(size).PieceEnd(d.index)..];
            HoldsAt(size, buffer', d.index, d.data)
  {
    PieceInBuffer(size, d.index);
  }

  predicate AllAccepted(size: nat, accepted: map<nat, seq<byte>>) {
    forall i :: 0 <= i < Pieces(size) ==> i in accepted
  }

  /** The first `k` pieces, in order. */
  function Assemble(accepted: map<nat, seq<byte>>, k: nat): seq<byte>
    requires forall i :: 0 <= i < k ==> i in accepted
  {
    if k == 0 then [] else Assemble(accepted, k - 1) + accepted[k - 1]
  }

  lemma {:induction false} BufferIsAssembly(size: nat, s: State, accepted: map<nat, seq<byte>>, k: nat)
    requires Sized(size, s) && Holds(size, s, accepted) && AllAccepted(size, accepted) && 0 < k <= Pieces(size)
    ensures Cut(size).PieceEnd(k - 1) <= size && s.buffer[..Cut(size).PieceEnd(k - 1)] == Assemble(accepted, k)
  {
    hide Lengths.PieceEnd; hide Lengths.PieceLen; hide Lengths.PieceStart; hide Holds;
    var l := Cut(size);
    PieceBounds(l, k - 1);
    HeldPiece(size, s, accepted, k - 1);
    var from, to := l.PieceStart(k - 1), l.PieceEnd(k - 1);
    assert s.buffer[..to] == s.buffer[..from] + s.buffer[from..to];
    if k > 1 {
      BufferIsAssembly(size, s, accepted, k - 1);
      PieceBounds(l, k - 2);
    } else {
      FirstPiece(l);
    }
  }

  lemma HeldPiece(size: nat, s: State, accepted: map<nat, seq<byte>>, i: nat)
    requires Sized(size, s) && Holds(size, s, accepted) && AllAccepted(size, accepted) && i < Pieces(size)
    ensures HoldsAt(size, s.buffer, i, accepted[i])
  {
  }

  /** What the last delivery reports depends only on what was accepted before: it is complete exactly when
      it is the first delivery of the last missing piece and the in-order concatenation of all accepted
      pieces has the expected hash. */
  lemma ReportIsDetermined(size: nat, ds: seq<Delivery>, sha1: seq<byte> -> Digest, infoHash: Digest)
    requires size <= MAX_METADATA_SIZE && |ds| > 0
    ensures var d := ds[|ds| - 1];
            var before, now := Accepted(size, ds[..|ds| - 1]), Accepted(size, ds);
            var (r, s) := Record(size, RecordAll(size, ds[..|ds| - 1], sha1, infoHash), d, sha1, infoHash);
            && (AllAccepted(size, now) && Pieces(size) > 0 ==> s.buffer == Assemble(now, Pieces(size)))
            && r == if d.index >= Pieces(size) then Failure(WrongIndex)
                    else if |d.data| != Cut(size).PieceLen(d.index) then Failure(WrongLength)
                    else if d.index in before then Failure(AlreadyReceived)
                    else if !AllAccepted(size, now) then Success(false)
                    else if sha1(Assemble(now, Pieces(size))) == infoHash then Success(true)
                    else Failure(ChecksumInvalid)
  {
    hide Lengths.PieceLen; hide Pieces; hide HoldsAt;
    BufferHolds(size, ds[..|ds| - 1], sha1, infoHash);
    BufferHolds(size, ds, sha1, infoHash);
    var s, now := RecordAll(size, ds, sha1, infoHash), Accepted(size, ds);
    if AllAccepted(size, now) && Pieces(size) > 0 {
      BufferIsAssembly(size, s, now, Pieces(size));
      WholeBuffer(size, s);
    }
  }

  lemma WholeBuffer(size: nat, s: State)
    requires Sized(size, s) && Pieces(size) > 0
    ensures s.buffer[..Cut(size).PieceEnd(Pieces(size) - 1)] == s.buffer
  {
    PieceBounds(Cut(size), Pieces(size) - 1);
  }
}

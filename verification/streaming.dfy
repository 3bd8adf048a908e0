/** Reading a file of a torrent as a stream while it is being downloaded. */
module Streaming {
  import opened TorrentLengths
  import opened FileInfos
  import opened Wrappers
  import opened FileSpace

  const PER_STREAM_BUF_DEFAULT: nat := 33554432
  const I64_MAX: int := 0x7fff_ffff_ffff_ffff

  type StreamId = nat
  type Waker = nat

  datatype StreamState = StreamState(fileId: nat, fileLen: nat, fileAbsOffset: nat, position: nat, waker: Option<Waker>)

  /** The piece holding a position: its index and how many of its bytes are left from there on. */
  datatype CurrentPiece = CurrentPiece(id: nat, remaining: nat)

  function ComputeCurrentPiece(l: Lengths, position: nat, fileOffset: nat): Option<CurrentPiece>
    requires l.Valid()
  {
    var abs := fileOffset + position;
    if abs >= l.total then None
    else var id := FloorDiv(abs, l.pieceLength); Some(CurrentPiece(id, Max(0, l.PieceEnd(id) - abs)))
  }

  lemma CurrentPieceHolds(l: Lengths, position: nat, fileOffset: nat)
    requires l.Valid() && fileOffset + position < l.total
    ensures ComputeCurrentPiece(l, position, fileOffset).Some?
    ensures var c := ComputeCurrentPiece(l, position, fileOffset).value;
            && c.id < l.TotalPieces() && l.PieceStart(c.id) <= fileOffset + position < l.PieceEnd(c.id)
            && c.remaining == l.PieceEnd(c.id) - (fileOffset + position)
  {
    var abs := fileOffset + position;
    var id := FloorDiv(abs, l.pieceLength);
    DivBounds(abs, l.pieceLength);
    PieceStartIsProduct(l, id);
    PiecesLeft(l, id);
  }

  // ---------- which pieces a stream wants next ----------

  /** The pieces a stream asks for: the window of 32 MiB from its position, cut at the file's end. */
  function Queue(l: Lengths, s: StreamState): seq<nat>
    requires l.Valid()
  {
    var start := s.fileAbsOffset + s.position;
    var end := Min(start + PER_STREAM_BUF_DEFAULT, s.fileAbsOffset + s.fileLen);
    Range(FloorDiv(start, l.pieceLength), Min(CeilDiv(Max(0, end), l.pieceLength), l.TotalPieces()))
  }

  lemma {:induction false} BelowCeil(l: Lengths, p: nat, x: nat)
    requires l.Valid()
    ensures p < CeilDiv(x, l.pieceLength) <==> l.PieceStart(p) < x
  {
    if x > 0 {
      var m := Lengths(x, l.pieceLength);
      SameStart(l, m, p);
      if p < m.TotalPieces() || m.PieceStart(p) <= x {
        PiecesLeft(m, p);
      }
    }
  }

  lemma {:induction false} SameStart(l: Lengths, m: Lengths, p: nat)
    requires l.pieceLength == m.pieceLength
    ensures l.PieceStart(p) == m.PieceStart(p)
  {
    if p > 0 {
      SameStart(l, m, p - 1);
    }
  }

  lemma AboveFloor(l: Lengths, p: nat, x: nat)
    requires l.Valid()
    ensures FloorDiv(x, l.pieceLength) <= p <==> x < l.PieceStart(p) + l.pieceLength
  {
    hide FloorDiv;
    PieceStartIsProduct(l, p);
    DivAtMost(x, l.pieceLength, p);
  }

  /** The queue is increasing and holds exactly the pieces with a byte in the window. At the end of
      the file the window is empty; then the queue still holds the piece in whose middle the file ends. */
  lemma QueueIsWindow(l: Lengths, s: StreamState, p: nat)
    requires l.Valid() && s.position <= s.fileLen && s.fileAbsOffset + s.fileLen <= l.total
    ensures var start := s.fileAbsOffset + s.position;
            var end := Min(start + PER_STREAM_BUF_DEFAULT, s.fileAbsOffset + s.fileLen);
            p in Queue(l, s) <==>
            p < l.TotalPieces() &&
            (Overlap(l.PieceStart(p), l.PieceEnd(p), start, end) > 0 ||
             (start == end && l.PieceStart(p) < start < l.PieceStart(p) + l.pieceLength))
    ensures forall i, j :: 0 <= i < j < |Queue(l, s)| ==> Queue(l, s)[i] < Queue(l, s)[j]
  {
    hide Lengths.TotalPieces; hide Queue; hide Lengths.PieceStart;
    QueueMembers(l, s, p);
    if p < l.TotalPieces() {
      PieceBounds(l, p);
    }
  }

  lemma QueueMembers(l: Lengths, s: StreamState, p: nat)
    requires l.Valid() && s.position <= s.fileLen
    ensures var start := s.fileAbsOffset + s.position;
            var end := Min(start + PER_STREAM_BUF_DEFAULT, s.fileAbsOffset + s.fileLen);
            p in Queue(l, s) <==>
            p < l.TotalPieces() && start < l.PieceStart(p) + l.pieceLength && l.PieceStart(p) < end
    ensures forall i, j :: 0 <= i < j < |Queue(l, s)| ==> Queue(l, s)[i] < Queue(l, s)[j]
  {
    hide Lengths.TotalPieces; hide Range; hide Lengths.PieceStart; hide Queue;
    var from, to := QueueBounds(l, s, p);
    RangeMembers(from, to, p);
    RangeIncreases(from, to);
  }

  lemma QueueBounds(l: Lengths, s: StreamState, p: nat) returns (from: nat, to: nat)
    requires l.Valid() && s.position <= s.fileLen
    ensures var start := s.fileAbsOffset + s.position;
            var end := Min(start + PER_STREAM_BUF_DEFAULT, s.fileAbsOffset + s.fileLen);
            && Queue(l, s) == Range(from, to)
            && (from <= p <==> start < l.PieceStart(p) + l.pieceLength)
            && (p < to <==> p < l.TotalPieces() && l.PieceStart(p) < end)
  {
    hide Lengths.TotalPieces; hide Range; hide Lengths.PieceStart; hide CeilDiv; hide FloorDiv;
    var start := s.fileAbsOffset + s.position;
    var end := Min(start + PER_STREAM_BUF_DEFAULT, s.fileAbsOffset + s.fileLen);
    AboveFloor(l, p, start);
    BelowCeil(l, p, end);
    from, to := FloorDiv(start, l.pieceLength), Min(CeilDiv(end, l.pieceLength), l.TotalPieces());
  }

  lemma RangeMembers(from: nat, to: nat, p: nat)
    ensures p in Range(from, to) <==> from <= p < to
  {
    if from <= p < to {
      assert Range(from, to)[p - from] == p;
    }
  }

  lemma RangeIncreases(from: nat, to: nat)
    ensures forall i, j :: 0 <= i < j < |Range(from, to)| ==> Range(from, to)[i] < Range(from, to)[j]
  {
  }

  // ---------- the registry of streams ----------

  class TorrentStreams {
    var streams: map<StreamId, StreamState>

    constructor ()
      ensures streams == map[]
    {
      streams := map[];
    }

    method RegisterWaker(id: StreamId, waker: Waker)
      modifies this
      ensures streams ==
              if id in old(streams) then old(streams)[id := old(streams)[id].(waker := Some(waker))] else old(streams)
      ensures forall b: FileStream :: old(allocated(b)) && old(b.Valid()) ==> b.Valid()
    {
      if id in streams {
        streams := streams[id := streams[id].(waker := Some(waker))];
      }
    }

    /** Wake the streams that stand in the completed piece. */
    method WakeStreamsOnPieceCompleted(piece: nat, l: Lengths) returns (woken: set<Waker>)
      requires l.Valid()
      modifies this
      ensures streams.Keys == old(streams).Keys
      ensures forall id :: id in streams ==>
                streams[id] ==
                if StandsIn(l, old(streams)[id], piece) then old(streams)[id].(waker := None) else old(streams)[id]
      ensures forall w :: w in woken <==>
                exists id :: id in old(streams) && StandsIn(l, old(streams)[id], piece) &&
                  old(streams)[id].waker == Some(w)
      ensures forall b: FileStream :: old(allocated(b)) && old(b.Valid()) ==> b.Valid()
    {
      woken := {};
      var todo := streams.Keys;
      while todo != {}
        invariant todo <= streams.Keys == old(streams).Keys
        invariant forall id :: id in streams ==>
                    streams[id] == if id !in todo && StandsIn(l, old(streams)[id], piece)
                      then old(streams)[id].(waker := None)
                                   else old(streams)[id]
        invariant forall w :: w in woken <==>
                    exists id :: id in old(streams) && id !in todo && StandsIn(l, old(streams)[id], piece) &&
                      old(streams)[id].waker == Some(w)
        decreases todo
      {
        var id :| id in todo;
        ghost var woken0, todo0 := woken, todo;
        var s := streams[id];
        if StandsIn(l, s, piece) {
          if s.waker.Some? {
            streams := streams[id := s.(waker := None)];
            woken := woken + {s.waker.value};
          }
        }
        todo := todo - {id};
        forall w
          ensures w in woken <==>
                  exists j :: j in old(streams) && j !in todo && StandsIn(l, old(streams)[j], piece) &&
                    old(streams)[j].waker == Some(w)
        {
          if w in woken && w !in woken0 {
            assert id in old(streams) && id !in todo && StandsIn(l, old(streams)[id], piece) &&
                     old(streams)[id].waker == Some(w);
          } else if w in woken0 {
            var j :| j in old(streams) && j !in todo0 && StandsIn(l, old(streams)[j], piece) &&
              old(streams)[j].waker == Some(w);
            assert j !in todo;
          }
        }
      }
    }
  }

  predicate StandsIn(l: Lengths, s: StreamState, piece: nat)
    requires l.Valid()
  {
    var c := ComputeCurrentPiece(l, s.position, s.fileAbsOffset);
    c.Some? && c.value.id == piece
  }

  // ---------- one stream ----------

  datatype Poll = Pending | Ready(bytes: seq<byte>) | Failed

  type I64 = x: int | -I64_MAX - 1 <= x <= I64_MAX

  datatype SeekFrom = Start(s: nat) | End(e: I64) | Current(o: I64)

  /** A sum of 64-bit numbers, wrapped around if it does not fit. */
  function Wrapped(x: int): I64 {
    (x + I64_MAX + 1) % (2 * I64_MAX + 2) - I64_MAX - 1
  }

  /** A sum that does not fit becomes negative, and so is refused as a position. */
  lemma WrapsBelowZero(a: I64, b: I64)
    requires a >= 0
    ensures if a + b <= I64_MAX then Wrapped(a + b) == a + b else Wrapped(a + b) < 0
  {
  }

  /** What a stream has done: where it stands, where it last seeked to, what it delivered since. */
  datatype Progress = Progress(position: nat, base: nat, delivered: seq<byte>)

  class FileStream {
    const streams: TorrentStreams
    const streamId: StreamId
    const fileLen: nat
    const offset: nat
    const lengths: Lengths
    var position: nat
    ghost var base: nat
    ghost var delivered: seq<byte>

    ghost function Log(): Progress
      reads this
    {
      Progress(position, base, delivered)
    }

    /** The position stays inside the file, and the shared state mirrors it. */
    ghost predicate Valid()
      reads this, streams
    {
      && lengths.Valid() && offset + fileLen <= lengths.total
      && position <= fileLen
      && streamId in streams.streams
      && streams.streams[streamId].position == position
      && streams.streams[streamId].fileLen == fileLen
      && streams.streams[streamId].fileAbsOffset == offset
    }

    constructor (streams: TorrentStreams, streamId: StreamId, fileId: nat, fileLen: nat, offset: nat, lengths: Lengths)
      requires lengths.Valid() && offset + fileLen <= lengths.total && streamId !in streams.streams
      modifies streams
      ensures Valid() && Log() == Progress(0, 0, [])
      ensures this.streams == streams && this.streamId == streamId && this.lengths == lengths
      ensures this.fileLen == fileLen && this.offset == offset
      ensures streams.streams == old(streams.streams)[streamId := StreamState(fileId, fileLen, offset, 0, None)]
      ensures forall b: FileStream :: old(allocated(b)) && old(b.Valid()) ==> b.Valid()
    {
      this.streams := streams;
      this.streamId := streamId;
      this.fileLen := fileLen;
      this.offset := offset;
      this.lengths := lengths;
      this.position := 0;
      this.base := 0;
      this.delivered := [];
      new;
      streams.streams := streams.streams[streamId := StreamState(fileId, fileLen, offset, 0, None)];
    }

    /** Another stream: if it shares the registry, it has another entry there. */
    predicate Beside(b: FileStream) {
      b != this && (b.streams == streams ==> b.streamId != streamId)
    }

    method SetPosition(newPos: nat)
      requires Valid() && newPos <= fileLen && this as object != streams
      modifies this`position, streams
      ensures Valid() && position == newPos
      ensures streams.streams == old(streams.streams)[streamId := old(streams.streams[streamId]).(position := newPos)]
      ensures forall b: FileStream :: old(allocated(b)) && Beside(b) && old(b.Valid()) ==> b.Valid()
    {
      position := newPos;
      streams.streams := streams.streams[streamId := streams.streams[streamId].(position := newPos)];
    }

    /** Read at most `room` bytes: up to the end of the current piece, if that piece is had. */
    method PollRead(room: nat, have: seq<bool>, file: Storage, fileId: nat, waker: Waker) returns (r: Poll)
      requires Valid() && lengths.TotalPieces() <= |have| && fileId < |file.files|
      modifies this, streams
      ensures Valid()
      ensures Polled(lengths, offset, fileLen, have, file.files[fileId], room, old(Log()), r, Log())
      ensures streams.streams == match r
              case Pending => old(streams.streams)[streamId := old(streams.streams[streamId]).(waker := Some(waker))]
              case Failed => old(streams.streams)
              case Ready(_) => old(streams.streams)[streamId := old(streams.streams[streamId]).(position := position)]
      ensures forall b: FileStream :: old(allocated(b)) && Beside(b) && old(b.Valid()) ==> b.Valid()
    {
      hide Lengths.TotalPieces; hide Lengths.PieceStart; hide Lengths.PieceEnd; hide ComputeCurrentPiece;
      if position == fileLen {
        assert delivered + [] == delivered;
        return Ready([]);
      }
      CurrentPieceHolds(lengths, position, offset);
      var current := ComputeCurrentPiece(lengths, position, offset).value;
      OnePieceHolds(lengths, have, current.id, offset + position);
      if !have[current.id] {
        streams.RegisterWaker(streamId, waker);
        return Pending;
      }
      var bytesToRead: nat := Min(room, Min(current.remaining, fileLen - position));
      var buf := new byte[bytesToRead];
      var ok := file.PReadExact(fileId, position, buf, 0, bytesToRead);
      if !ok {
        ghost var cells := CellRange(file.files[fileId], position, bytesToRead);
        ghost var i: nat :| i < |cells| && cells[i].None?;
        assert UnreadableAt(lengths, current.id, offset, file.files[fileId], position + i);
        return Failed;
      }
      assert forall i :: 0 <= i < bytesToRead ==>
               CellRange(file.files[fileId], position, bytesToRead)[i] == Some(buf[..][i]);
      delivered := delivered + buf[..];
      SetPosition(position + bytesToRead);
      return Ready(buf[..]);
    }

    /** Positions outside the file are refused, and all of them if the file length does not fit 64 signed bits. */
    method StartSeek(to: SeekFrom) returns (ok: bool)
      requires Valid()
      modifies this, streams
      ensures Valid()
      ensures match to
              case Start(s) =>
                && (ok <==> fileLen <= I64_MAX && s <= fileLen)
                && (ok ==> position == s)
              case End(e) =>
                && (ok <==> fileLen <= I64_MAX && 0 <= fileLen + e <= fileLen)
                && (ok ==> position == fileLen + e)
              case Current(o) =>
                && (ok <==> fileLen <= I64_MAX && 0 <= old(position) + o <= fileLen)
                && (ok ==> position == old(position) + o)
      ensures Log() == if ok then Progress(position, position, []) else old(Log())
      ensures streams.streams ==
              if ok then old(streams.streams)[streamId := old(streams.streams[streamId]).(position := position)]
              else old(streams.streams)
      ensures forall b: FileStream :: old(allocated(b)) && Beside(b) && old(b.Valid()) ==> b.Valid()
    {
      hide Wrapped; hide Lengths.Valid; hide Lengths.TotalPieces;
      if fileLen > I64_MAX || (to.Start? && to.s > I64_MAX) || (to.Current? && position > I64_MAX) {
        return false;
      }
      var newPos: int;
      match to {
        case Start(s) => newPos := s;
        case End(e) =>
          WrapsBelowZero(fileLen, e);
          newPos := Wrapped(fileLen + e);
        case Current(o) =>
          WrapsBelowZero(position, o);
          newPos := Wrapped(position + o);
      }
      if newPos < 0 || newPos > fileLen {
        return false;
      }
      SetPosition(newPos);
      base := position;
      delivered := [];
      return true;
    }
  }

  // ---------- what one poll does ----------

  /** A poll returns nothing at the end of the file, waits while the current piece is missing, and
      otherwise delivers the next bytes of the file, from inside that piece, as many as there is room
      for, or fails. */
  ghost predicate Polled(l: Lengths, offset: nat, fileLen: nat, have: seq<bool>, content: seq<Cell>, room: nat,
                         s: Progress, r: Poll, t: Progress)
    requires l.Valid() && offset + fileLen <= l.total && s.position <= fileLen && l.TotalPieces() <= |have|
  {
    match r
    case Pending => t == s && s.position < fileLen && !HadAt(l, have, offset + s.position)
    case Failed => t == s && s.position < fileLen && HadAt(l, have, offset + s.position) &&
      ReadFails(l, offset, fileLen, content, room, s.position)
    case Ready(bytes) =>
      && t == Progress(s.position + |bytes|, s.base, s.delivered + bytes)
      && t.position <= fileLen && |bytes| <= room
      && (forall i :: 0 <= i < |bytes| ==> CellAt(content, s.position + i) == Some(bytes[i]))
      && (s.position < fileLen ==>
            exists p :: 0 <= p < l.TotalPieces() && have[p] && InPiece(l, p, offset + s.position) &&
                        offset + t.position <= l.PieceEnd(p) &&
                        (|bytes| == room || offset + t.position == l.PieceEnd(p) || t.position == fileLen))
  }

  /** Some byte that the poll would deliver cannot be read. */
  ghost predicate ReadFails(l: Lengths, offset: nat, fileLen: nat, content: seq<Cell>, room: nat, position: nat)
    requires l.Valid()
  {
    exists p, j :: 0 <= p < l.TotalPieces() && position <= j < Min(position + room, fileLen) &&
                   InPiece(l, p, offset + position) && UnreadableAt(l, p, offset, content, j)
  }

  predicate UnreadableAt(l: Lengths, p: nat, offset: nat, content: seq<Cell>, j: nat) {
    InPiece(l, p, offset + j) && CellAt(content, j).None?
  }

  predicate InPiece(l: Lengths, p: nat, at: nat) {
    l.PieceStart(p) <= at < l.PieceEnd(p)
  }

  /** The piece holding position `at` is had. */
  ghost predicate HadAt(l: Lengths, have: seq<bool>, at: nat)
    requires l.Valid() && l.TotalPieces() <= |have|
  {
    exists p :: 0 <= p < l.TotalPieces() && have[p] && InPiece(l, p, at)
  }

  lemma OnePieceHolds(l: Lengths, have: seq<bool>, p: nat, at: nat)
    requires l.Valid() && l.TotalPieces() <= |have| && p < l.TotalPieces() && InPiece(l, p, at)
    ensures HadAt(l, have, at) <==> have[p]
  {
    forall q | 0 <= q < l.TotalPieces() && InPiece(l, q, at) ensures q == p {
      if q < p { PieceOrder(l, q, p); }
      if p < q { PieceOrder(l, p, q); }
    }
  }

  /** Completing a piece wakes exactly the streams whose position lies in it, so a stream that waits
      for a missing piece is woken when that piece is completed. */
  lemma StandsInPiece(l: Lengths, s: StreamState, piece: nat)
    requires l.Valid()
    ensures StandsIn(l, s, piece) <==> piece < l.TotalPieces() && InPiece(l, piece, s.fileAbsOffset + s.position)
  {
    hide Lengths.TotalPieces; hide ComputeCurrentPiece; hide Lengths.PieceStart;
    var at := s.fileAbsOffset + s.position;
    if at < l.total {
      CurrentPieceHolds(l, s.position, s.fileAbsOffset);
      var id := ComputeCurrentPiece(l, s.position, s.fileAbsOffset).value.id;
      if piece < l.TotalPieces() {
        if id < piece { PieceOrder(l, id, piece); }
        if piece < id { PieceOrder(l, piece, id); }
      }
    } else {
      BeyondTheEnd(l, s.position, s.fileAbsOffset);
    }
  }

  lemma BeyondTheEnd(l: Lengths, position: nat, fileOffset: nat)
    requires l.Valid() && fileOffset + position >= l.total
    ensures ComputeCurrentPiece(l, position, fileOffset).None?
  {
  }

  // ---------- runs ----------

  /** The world a stream reads from: which pieces are had, and what the file holds. */
  datatype World = World(have: seq<bool>, content: seq<Cell>)

  /** The download may add pieces and change bytes of missing pieces, but not the readable bytes of had ones. */
  ghost predicate DownloadGoesOn(l: Lengths, offset: nat, fileLen: nat, w: World, w': World)
    requires l.Valid() && l.TotalPieces() <= |w.have| && |w'.have| == |w.have|
  {
    && (forall p :: 0 <= p < l.TotalPieces() && w.have[p] ==> w'.have[p])
    && (forall i :: 0 <= i < fileLen && HadAt(l, w.have, offset + i) && CellAt(w.content, i).Some? ==>
          CellAt(w'.content, i) == CellAt(w.content, i))
  }

  datatype Event = Read(room: nat, result: Poll) | Seek(target: nat) | Download

  ghost predicate StreamStep(l: Lengths, offset: nat, fileLen: nat, w: World, s: Progress, e: Event, w': World,
                             t: Progress)
    requires l.Valid() && offset + fileLen <= l.total
  {
    && l.TotalPieces() <= |w.have| && |w'.have| == |w.have| && s.position <= fileLen
    && match e
       case Read(room, result) => w' == w && Polled(l, offset, fileLen, w.have, w.content, room, s, result, t)
       case Seek(target) => w' == w && target <= fileLen && t == Progress(target, target, [])
       case Download => t == s && DownloadGoesOn(l, offset, fileLen, w, w')
  }

  /** Everything delivered since the last seek is the file from there to the position, and every
      delivered byte lies in a had piece. */
  ghost predicate Faithful(l: Lengths, offset: nat, fileLen: nat, w: World, s: Progress)
    requires l.Valid() && l.TotalPieces() <= |w.have|
  {
    && s.position == s.base + |s.delivered| <= fileLen
    && forall i :: 0 <= i < |s.delivered| ==> FaithfulAt(l, offset, w, s, i)
  }

  ghost predicate FaithfulAt(l: Lengths, offset: nat, w: World, s: Progress, i: nat)
    requires l.Valid() && l.TotalPieces() <= |w.have| && i < |s.delivered|
  {
    CellAt(w.content, s.base + i) == Some(s.delivered[i]) && HadAt(l, w.have, offset + (s.base + i))
  }

  lemma StepKeepsFaithful(l: Lengths, offset: nat, fileLen: nat, w: World, s: Progress, e: Event, w': World,
                          t: Progress)
    requires l.Valid() && offset + fileLen <= l.total && StreamStep(l, offset, fileLen, w, s, e, w', t)
    requires Faithful(l, offset, fileLen, w, s)
    ensures l.TotalPieces() <= |w'.have| && Faithful(l, offset, fileLen, w', t)
  {
    hide Lengths.TotalPieces; hide Lengths.PieceStart; hide Lengths.PieceEnd;
    if e.Read? && e.result.Ready? {
      var bytes := e.result.bytes;
      assert t.delivered == s.delivered + bytes && t.position == s.position + |bytes|;
      forall i | 0 <= i < |t.delivered| ensures FaithfulAt(l, offset, w, t, i) {
        if i < |s.delivered| {
          assert FaithfulAt(l, offset, w, s, i);
        } else {
          assert s.position < fileLen;
          var p :| 0 <= p < l.TotalPieces() && w.have[p] && InPiece(l, p, offset + s.position) &&
            offset + t.position <= l.PieceEnd(p);
          assert InPiece(l, p, offset + (t.base + i));
          assert CellAt(w.content, s.position + (i - |s.delivered|)) == Some(bytes[i - |s.delivered|]);
        }
      }
    } else if e.Download? {
      forall i | 0 <= i < |s.delivered| ensures FaithfulAt(l, offset, w', s, i) {
        assert FaithfulAt(l, offset, w, s, i);
        var p :| 0 <= p < l.TotalPieces() && w.have[p] && InPiece(l, p, offset + (s.base + i));
        assert w'.have[p];
      }
    }
  }

  ghost predicate StreamRun(l: Lengths, offset: nat, fileLen: nat, ws: seq<World>, ss: seq<Progress>, es: seq<Event>)
    requires l.Valid() && offset + fileLen <= l.total
  {
    && |ws| == |ss| == |es| + 1
    && forall i :: 0 <= i < |es| ==> StreamStep(l, offset, fileLen, ws[i], ss[i], es[i], ws[i + 1], ss[i + 1])
  }

  /** Over any run of reads, seeks and download progress, a stream only delivers verified bytes, and
      between seeks its output is the file from the last seek point to its position. */
  lemma {:induction false} StreamsDeliverTheFile(l: Lengths, offset: nat, fileLen: nat, ws: seq<World>,
                                                 ss: seq<Progress>, es: seq<Event>, i: nat)
    requires l.Valid() && offset + fileLen <= l.total && StreamRun(l, offset, fileLen, ws, ss, es) && i < |ss|
    requires l.TotalPieces() <= |ws[0].have| && ss[0] == Progress(0, 0, [])
    ensures l.TotalPieces() <= |ws[i].have| && Faithful(l, offset, fileLen, ws[i], ss[i])
  {
    hide Lengths.TotalPieces; hide StreamStep; hide Faithful;
    if i == 0 {
      StartsFaithful(l, offset, fileLen, ws[0]);
    } else {
      StreamsDeliverTheFile(l, offset, fileLen, ws, ss, es, i - 1);
      StepKeepsFaithful(l, offset, fileLen, ws[i - 1], ss[i - 1], es[i - 1], ws[i], ss[i]);
    }
  }

  lemma StartsFaithful(l: Lengths, offset: nat, fileLen: nat, w: World)
    requires l.Valid() && l.TotalPieces() <= |w.have|
    ensures Faithful(l, offset, fileLen, w, Progress(0, 0, []))
  {
  }
}

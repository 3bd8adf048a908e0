/** A storage that keeps recently written pieces in memory and writes through to another storage. */
module WriteThroughCache {
  import opened TorrentLengths
  import opened FileInfos
  import opened Wrappers
  import opened FileSpace
  import opened Streaming

  datatype CacheError = WrongFile | WrongPiece | BuggedRange | ReadFailed | WriteFailed

  /** A cached piece. */
  datatype Entry = Entry(piece: nat, data: seq<byte>)

  /** Offsets of a cached piece whose last write since it entered the cache reached the files at their place,
      and those whose last write did not, because it failed or ran past the end of its file. */
  datatype Marks = Marks(written: set<nat>, stray: set<nat>)

  /** The cached pieces, most recently used first; their marks; and the files behind. */
  datatype State = State(lru: seq<Entry>, marks: map<nat, Marks>, files: seq<seq<Cell>>)

  datatype Config = Config(lengths: Lengths, fileInfos: seq<FileInfo>, capacity: nat) {
    predicate Valid() {
      lengths.Valid() && capacity > 0
    }
  }

  /** Index of the entry of piece `p`, or the number of entries. */
  function Find(lru: seq<Entry>, p: nat): (i: nat)
    ensures i <= |lru| && (i < |lru| ==> lru[i].piece == p)
    ensures forall j :: 0 <= j < i ==> lru[j].piece != p
  {
    if |lru| == 0 then 0 else if lru[0].piece == p then 0 else
      (var i := Find(lru[1..], p);
       assert forall j :: 1 <= j < i + 1 ==> lru[j] == lru[1..][j - 1];
       i + 1)
  }

  /** Move an entry to the front. */
  function Touch(lru: seq<Entry>, i: nat): seq<Entry>
    requires i < |lru|
  {
    [lru[i]] + lru[..i] + lru[i + 1..]
  }

  /** The entry of piece `p` at the front: a zero-filled one if it was not cached, for which the least
      recently used entry makes room. */
  function Enter(c: Config, s: State, p: nat): State
    requires c.Valid()
  {
    var i := Find(s.lru, p);
    if i < |s.lru| then s.(lru := Touch(s.lru, i))
    else
      var kept := s.lru[..Min(|s.lru|, c.capacity - 1)];
      s.(lru := [Entry(p, seq(c.lengths.PieceLen(p), _ => 0))] + kept,
         marks := (map q | q in s.marks && Find(kept, q) < |kept| :: s.marks[q])[p := Marks({}, {})])
  }

  function PieceAndOffset(c: Config, fileId: nat, offset: nat): Option<(nat, nat)>
    requires c.Valid() && fileId < |c.fileInfos|
  {
    match ComputeCurrentPiece(c.lengths, offset, c.fileInfos[fileId].offset)
    case None => None
    case Some(current) =>
      Some((current.id, Max(0, c.fileInfos[fileId].offset + offset - c.lengths.PieceStart(current.id))))
  }

  function Overwrite(bytes: seq<byte>, start: nat, data: seq<byte>): seq<byte>
    requires start + |data| <= |bytes|
  {
    bytes[..start] + data + bytes[start + |data|..]
  }

  function Offsets(start: nat, n: nat): set<nat> {
    set o | start <= o < start + n && InOffsets(start, n, o)
  }

  predicate InOffsets(start: nat, n: nat, o: nat) {
    start <= o < start + n
  }

  /** How many of the first `done` bytes written at `offset` lie inside the file. */
  function Landed(c: Config, fileId: nat, offset: nat, done: nat): nat
    requires fileId < |c.fileInfos|
  {
    Min(done, Max(0, c.fileInfos[fileId].len - offset))
  }

  /** The marks after overwriting `n` bytes from `start`, of which the first `landed` reached the files. */
  function Marked(m: Marks, start: nat, n: nat, landed: nat): Marks {
    var touched, inside := Offsets(start, n), Offsets(start, landed);
    Marks(m.written - touched + inside, m.stray - touched + (touched - inside))
  }

  /** The result of a write and the state after it, when the files took the first `done` bytes, with success or not. */
  function WriteResult(c: Config, s: State, fileId: nat, offset: nat, data: seq<byte>, ok: bool, done: nat)
    : (Result<(), CacheError>, State)
    requires c.Valid() && |s.files| == |c.fileInfos| && done <= |data|
  {
    if fileId >= |c.fileInfos| then (Failure(WrongFile), s)
    else match PieceAndOffset(c, fileId, offset)
      case None => (Failure(WrongPiece), s)
      case Some((p, start)) =>
        var t := Enter(c, s, p);
        if start + |data| > |t.lru[0].data| then (Failure(BuggedRange), t)
        else
          var m := if p in t.marks then t.marks[p] else Marks({}, {});
          (if ok then Success(()) else Failure(WriteFailed),
           State(t.lru[0 := Entry(p, Overwrite(t.lru[0].data, start, data))],
                 t.marks[p := Marked(m, start, |data|, Landed(c, fileId, offset, done))],
                 t.files[fileId := Written(t.files[fileId], offset, data[..done])]))
  }

  /** The bytes a read returns, or an error, and the state after it. */
  function ReadResult(c: Config, s: State, fileId: nat, offset: nat, n: nat): (Result<seq<byte>, CacheError>, State)
    requires c.Valid() && |s.files| == |c.fileInfos|
  {
    if fileId >= |c.fileInfos| then (Failure(WrongFile), s)
    else match PieceAndOffset(c, fileId, offset)
      case None => (Failure(WrongPiece), s)
      case Some((p, start)) =>
        var i := Find(s.lru, p);
        if i < |s.lru| then
          (if start + n > |s.lru[i].data| then Failure(BuggedRange) else Success(s.lru[i].data[start..start + n]),
           s.(lru := Touch(s.lru, i)))
        else (Underlying(s, fileId, offset, n), s)
  }

  function Underlying(s: State, fileId: nat, offset: nat, n: nat): Result<seq<byte>, CacheError>
    requires fileId < |s.files|
  {
    var cells := CellRange(s.files[fileId], offset, n);
    if AllReadable(cells) then Success(Values(cells)) else Failure(ReadFailed)
  }

  class WriteThroughCacheStorage {
    var lru: seq<Entry>
    ghost var marks: map<nat, Marks>
    const config: Config
    const underlying: Storage

    ghost function Contents(): State
      reads this, underlying
    {
      State(lru, marks, underlying.files)
    }

    ghost predicate Valid()
      reads this, underlying
    {
      config.Valid() && |underlying.files| == |config.fileInfos|
    }

    constructor (config: Config, underlying: Storage)
      requires config.Valid() && |underlying.files| == |config.fileInfos|
      ensures Valid() && this.config == config && this.underlying == underlying
      ensures Contents() == State([], map[], underlying.files)
    {
      this.config := config;
      this.underlying := underlying;
      this.lru := [];
      this.marks := map[];
    }

    method PReadExact(fileId: nat, offset: nat, n: nat) returns (r: Result<seq<byte>, CacheError>)
      requires Valid()
      modifies this
      ensures Valid() && (r, Contents()) == ReadResult(config, old(Contents()), fileId, offset, n)
    {
      if fileId >= |config.fileInfos| {
        return Failure(WrongFile);
      }
      var current := PieceAndOffset(config, fileId, offset);
      if current.None? {
        return Failure(WrongPiece);
      }
      var (p, start) := current.value;
      var i := Find(lru, p);
      if i < |lru| {
        var data := lru[i].data;
        lru := Touch(lru, i);
        if start + n > |data| {
          return Failure(BuggedRange);
        }
        return Success(data[start..start + n]);
      }
      var buf := new byte[n];
      var ok := underlying.PReadExact(fileId, offset, buf, 0, n);
      if !ok {
        return Failure(ReadFailed);
      }
      assert buf[..] == buf[0..0 + n];
      return Success(buf[..]);
    }

    /** `done` bytes reached the files; a write that fails there leaves the cache overwritten all the same. */
    method PWriteAll(fileId: nat, offset: nat, data: seq<byte>) returns (r: Result<(), CacheError>, ghost done: nat)
      requires Valid() && this as object != underlying
      modifies this, underlying
      ensures Valid() && done <= |data| && (r.Success? ==> done == |data|)
      ensures underlying.failures == old(underlying.failures) + if r == Failure(WriteFailed) then 1 else 0
      ensures (r, Contents()) ==
              WriteResult(config, old(Contents()), fileId, offset, data, r != Failure(WriteFailed), done)
    {
      done := 0;
      if fileId >= |config.fileInfos| {
        return Failure(WrongFile), done;
      }
      var current := PieceAndOffset(config, fileId, offset);
      if current.None? {
        return Failure(WrongPiece), done;
      }
      var (p, start) := current.value;
      ghost var t := Enter(config, Contents(), p);
      var i := Find(lru, p);
      if i < |lru| {
        lru := Touch(lru, i);
      } else {
        lru := [Entry(p, seq(config.lengths.PieceLen(p), _ => 0))] + lru[..Min(|lru|, config.capacity - 1)];
      }
      marks := t.marks;
      if start + |data| > |lru[0].data| {
        return Failure(BuggedRange), done;
      }
      lru := lru[0 := Entry(p, Overwrite(lru[0].data, start, data))];
      var ok;
      ok, done := underlying.PWriteAll(fileId, offset, data);
      ghost var m := if p in marks then marks[p] else Marks({}, {});
      marks := marks[p := Marked(m, start, |data|, Landed(config, fileId, offset, done))];
      return if ok then Success(()) else Failure(WriteFailed), done;
    }
  }

  // ---------- coherence ----------

  /** The cached piece `p` agrees with the files at its offset `o`. */
  ghost predicate AgreesAt(c: Config, s: State, e: Entry, o: nat)
    requires |s.files| == |c.fileInfos| && o < |e.data|
  {
    forall f, j {:trigger HoldsByte(c, e.piece, o, f, j)} ::
      0 <= f < |c.fileInfos| && 0 <= j < c.fileInfos[f].len && HoldsByte(c, e.piece, o, f, j) ==>
        CellAt(s.files[f], j) == Some(e.data[o])
  }

  /** Byte `j` of file `f` is byte `o` of piece `p`. */
  predicate HoldsByte(c: Config, p: nat, o: nat, f: nat, j: nat)
    requires f < |c.fileInfos|
  {
    c.fileInfos[f].offset + j == c.lengths.PieceStart(p) + o
  }

  /** An entry is a whole piece; offsets written since it entered agree with the files, and those neither
      written nor stray still hold the zeros it was created with. */
  ghost predicate EntryOk(c: Config, s: State, e: Entry)
    requires c.Valid() && |s.files| == |c.fileInfos|
  {
    && e.piece < c.lengths.TotalPieces() && |e.data| == c.lengths.PieceLen(e.piece) && e.piece in s.marks
    && forall o :: 0 <= o < |e.data| ==>
         if o in s.marks[e.piece].written then AgreesAt(c, s, e, o)
         else o !in s.marks[e.piece].stray ==> e.data[o] == 0
  }

  ghost predicate Coherent(c: Config, s: State)
    requires c.Valid()
  {
    && |s.files| == |c.fileInfos| && |s.lru| <= c.capacity
    && Distinct(s.lru)
    && forall i :: 0 <= i < |s.lru| ==> EntryOk(c, s, s.lru[i])
  }

  /** Files lie one after the other. */
  ghost predicate FilesInOrder(c: Config) {
    forall f, g :: 0 <= f < g < |c.fileInfos| ==> c.fileInfos[f].offset + c.fileInfos[f].len <= c.fileInfos[g].offset
  }

  lemma TouchKeeps(c: Config, s: State, i: nat)
    requires c.Valid() && Coherent(c, s) && i < |s.lru|
    ensures Coherent(c, s.(lru := Touch(s.lru, i)))
  {
    var t := s.(lru := Touch(s.lru, i));
    forall k | 0 <= k < |t.lru| ensures t.lru[k] == s.lru[if k == 0 then i else if k <= i then k - 1 else k] {
    }
    forall k | 0 <= k < |t.lru| ensures EntryOk(c, t, t.lru[k]) {
      EntryOkSame(c, s, t, t.lru[k]);
    }
  }

  lemma EntryOkSame(c: Config, s: State, t: State, e: Entry)
    requires c.Valid() && |s.files| == |c.fileInfos| && EntryOk(c, s, e)
    requires t.files == s.files && e.piece in t.marks && t.marks[e.piece] == s.marks[e.piece]
    ensures EntryOk(c, t, e)
  {
    forall o | 0 <= o < |e.data| && o in t.marks[e.piece].written ensures AgreesAt(c, t, e, o) {
      assert AgreesAt(c, s, e, o);
    }
  }

  lemma EnterKeeps(c: Config, s: State, p: nat)
    requires c.Valid() && Coherent(c, s) && p < c.lengths.TotalPieces()
    ensures Coherent(c, Enter(c, s, p)) && Enter(c, s, p).files == s.files
    ensures var t := Enter(c, s, p);
            |t.lru| > 0 && t.lru[0].piece == p && p in t.marks && |t.lru[0].data| == c.lengths.PieceLen(p)
  {
    hide EntryOk; hide Lengths.TotalPieces; hide Lengths.PieceLen; hide Touch;
    var i := Find(s.lru, p);
    if i < |s.lru| {
      EntryShape(c, s, s.lru[i]);
      TouchKeeps(c, s, i);
      TouchFront(s.lru, i);
    } else {
      EnterNewKeeps(c, s, p);
    }
  }

  lemma TouchFront(lru: seq<Entry>, i: nat)
    requires i < |lru|
    ensures Touch(lru, i)[0] == lru[i] && |Touch(lru, i)| == |lru|
  {
  }

  lemma EnterNewKeeps(c: Config, s: State, p: nat)
    requires c.Valid() && Coherent(c, s) && p < c.lengths.TotalPieces() && Find(s.lru, p) == |s.lru|
    ensures Coherent(c, Enter(c, s, p)) && Enter(c, s, p).files == s.files
    ensures var t := Enter(c, s, p);
            |t.lru| > 0 && t.lru[0].piece == p && p in t.marks && |t.lru[0].data| == c.lengths.PieceLen(p)
  {
    hide EntryOk; hide Lengths.TotalPieces; hide Lengths.PieceLen; hide Find;
    var t, kept := Enter(c, s, p), s.lru[..Min(|s.lru|, c.capacity - 1)];
    EnterNewShape(c, s, p);
    FreshEntry(c, t, t.lru[0]);
    forall k | 0 < k < |t.lru| ensures EntryOk(c, t, t.lru[k]) {
      EnterKeepsOld(c, s, t, kept, k - 1, p);
    }
  }

  lemma EnterNewShape(c: Config, s: State, p: nat)
    requires c.Valid() && Find(s.lru, p) == |s.lru|
    ensures var t, kept := Enter(c, s, p), s.lru[..Min(|s.lru|, c.capacity - 1)];
            && t.files == s.files && |t.lru| == |kept| + 1
            && t.lru[0] == Entry(p, seq(c.lengths.PieceLen(p), _ => 0))
            && (forall k :: 0 < k < |t.lru| ==> t.lru[k] == kept[k - 1] == s.lru[k - 1])
            && t.marks == (map q | q in s.marks && Find(kept, q) < |kept| :: s.marks[q])[p := Marks({}, {})]
  {
    hide Find; hide Lengths.PieceLen;
  }

  lemma EntryShape(c: Config, s: State, e: Entry)
    requires c.Valid() && |s.files| == |c.fileInfos| && EntryOk(c, s, e)
    ensures e.piece in s.marks && |e.data| == c.lengths.PieceLen(e.piece)
  {
  }

  lemma FreshEntry(c: Config, t: State, e: Entry)
    requires c.Valid() && |t.files| == |c.fileInfos| && e.piece < c.lengths.TotalPieces()
    requires e.data == seq(c.lengths.PieceLen(e.piece), _ => 0)
    requires e.piece in t.marks && t.marks[e.piece] == Marks({}, {})
    ensures EntryOk(c, t, e)
  {
  }

  /** Entries that stay when another piece enters. */
  lemma EnterKeepsOld(c: Config, s: State, t: State, kept: seq<Entry>, k: nat, p: nat)
    requires c.Valid() && Coherent(c, s) && k < |kept| <= |s.lru| && kept == s.lru[..|kept|] && s.lru[k].piece != p
    requires t.files == s.files
    requires t.marks == (map q | q in s.marks && Find(kept, q) < |kept| :: s.marks[q])[p := Marks({}, {})]
    ensures EntryOk(c, t, s.lru[k])
  {
    assert EntryOk(c, s, s.lru[k]) && kept[k] == s.lru[k];
    FindKnows(kept, k);
    EntryOkSame(c, s, t, s.lru[k]);
  }

  lemma FindKnows(lru: seq<Entry>, k: nat)
    requires k < |lru|
    ensures Find(lru, lru[k].piece) < |lru|
  {
  }

  /** Where the entry of piece `p` ends up when piece `q` is accessed: an accessed piece comes first, it pushes
      back only pieces used more recently than itself, and only the last of a full cache is dropped. */
  lemma AccessOrder(c: Config, s: State, p: nat, q: nat)
    requires c.Valid() && Coherent(c, s) && Find(s.lru, p) < |s.lru|
    ensures var i, lru := Find(s.lru, p), Enter(c, s, q).lru;
            Find(lru, p) == if q == p then 0
                            else if Find(s.lru, q) < i then i
                            else if i + 1 < c.capacity || Find(s.lru, q) < |s.lru| then i + 1
                            else |lru|
  {
    hide EntryOk; hide Find; hide Touch; hide Lengths.PieceLen;
    var i, j := Find(s.lru, p), Find(s.lru, q);
    if j < |s.lru| {
      TouchOrder(s.lru, j, i);
    } else {
      PushOrder(s.lru, Enter(c, s, q).lru, i);
    }
  }

  predicate Distinct(lru: seq<Entry>) {
    forall i, j :: 0 <= i < j < |lru| ==> lru[i].piece != lru[j].piece
  }

  lemma TouchOrder(lru: seq<Entry>, j: nat, i: nat)
    requires Distinct(lru) && j < |lru| && i < |lru|
    ensures Find(Touch(lru, j), lru[i].piece) == if i == j then 0 else if j < i then i else i + 1
  {
    hide Find;
    var t := Touch(lru, j);
    assert forall k :: 0 <= k < |t| ==> t[k] == lru[if k == 0 then j else if k <= j then k - 1 else k];
    FindIs(t, lru[i].piece, if i == j then 0 else if j < i then i else i + 1);
  }

  /** A new entry in front of the first entries. */
  lemma PushOrder(lru: seq<Entry>, t: seq<Entry>, i: nat)
    requires Distinct(lru) && i < |lru| && 0 < |t| <= |lru| + 1 && t[0].piece != lru[i].piece
    requires forall k :: 0 < k < |t| ==> t[k] == lru[k - 1]
    ensures Find(t, lru[i].piece) == Min(i + 1, |t|)
  {
    FindIs(t, lru[i].piece, Min(i + 1, |t|));
  }

  lemma {:induction false} FindIs(lru: seq<Entry>, p: nat, i: nat)
    requires i <= |lru| && (i < |lru| ==> lru[i].piece == p) && forall k :: 0 <= k < i ==> lru[k].piece != p
    ensures Find(lru, p) == i
  {
  }

  /** The offset of a write lies in its piece, at the byte of the file that is written. */
  lemma PieceAndOffsetHolds(c: Config, fileId: nat, offset: nat)
    requires c.Valid() && fileId < |c.fileInfos| && PieceAndOffset(c, fileId, offset).Some?
    ensures var (p, start) := PieceAndOffset(c, fileId, offset).value;
            && p < c.lengths.TotalPieces() && start < c.lengths.PieceLen(p)
            && c.lengths.PieceStart(p) + start == c.fileInfos[fileId].offset + offset
  {
    hide ComputeCurrentPiece; hide Lengths.TotalPieces; hide Lengths.PieceStart; hide Lengths.PieceEnd;
    var fo := c.fileInfos[fileId].offset;
    if fo + offset < c.lengths.total {
      CurrentPieceHolds(c.lengths, offset, fo);
      PieceBounds(c.lengths, ComputeCurrentPiece(c.lengths, offset, fo).value.id);
    } else {
      BeyondTheEnd(c.lengths, offset, fo);
    }
  }

  /** Writing keeps coherence, whatever part of the data reaches the files. */
  lemma WriteKeeps(c: Config, s: State, fileId: nat, offset: nat, data: seq<byte>, ok: bool, done: nat)
    requires c.Valid() && FilesInOrder(c) && Coherent(c, s) && done <= |data|
    ensures Coherent(c, WriteResult(c, s, fileId, offset, data, ok, done).1)
  {
    hide Enter; hide Find; hide EntryOk; hide PieceAndOffset; hide Written; hide Marked;
    hide Lengths.TotalPieces; hide Lengths.PieceStart; hide Lengths.PieceLen;
    if fileId < |c.fileInfos| && PieceAndOffset(c, fileId, offset).Some? {
      var (p, start) := PieceAndOffset(c, fileId, offset).value;
      PieceAndOffsetHolds(c, fileId, offset);
      EnterKeeps(c, s, p);
      var t, u := Enter(c, s, p), WriteResult(c, s, fileId, offset, data, ok, done).1;
      if start + |data| <= |t.lru[0].data| {
        assert forall k :: 0 <= k < |t.lru| ==> EntryOk(c, t, t.lru[k]);
        WriteFront(c, t, u, fileId, offset, data, done, p, start);
        forall k | 0 < k < |u.lru| ensures EntryOk(c, u, u.lru[k]) {
          WriteOther(c, t, u, fileId, offset, data, done, p, start, t.lru[k]);
        }
      }
    }
  }

  ghost predicate WroteThrough(c: Config, t: State, u: State, fileId: nat, offset: nat, data: seq<byte>, done: nat,
                               p: nat, start: nat)
    requires fileId < |c.fileInfos| == |t.files| && done <= |data|
  {
    && |t.lru| > 0 && t.lru[0].piece == p && p in t.marks && start + |data| <= |t.lru[0].data|
    && c.lengths.PieceStart(p) + start == c.fileInfos[fileId].offset + offset
    && u == State(t.lru[0 := Entry(p, Overwrite(t.lru[0].data, start, data))],
                  t.marks[p := Marked(t.marks[p], start, |data|, Landed(c, fileId, offset, done))],
                  t.files[fileId := Written(t.files[fileId], offset, data[..done])])
  }

  lemma OneFile(c: Config, f: nat, j: nat, g: nat, k: nat)
    requires FilesInOrder(c) && f < |c.fileInfos| && g < |c.fileInfos|
    requires j < c.fileInfos[f].len && k < c.fileInfos[g].len && c.fileInfos[f].offset + j == c.fileInfos[g].offset + k
    ensures f == g && j == k
  {
  }

  lemma MarkedAt(m: Marks, start: nat, n: nat, landed: nat, o: nat)
    requires landed <= n
    ensures o in Marked(m, start, n, landed).written <==>
            start <= o < start + landed || (o in m.written && !(start <= o < start + n))
    ensures o in Marked(m, start, n, landed).stray <==>
            start + landed <= o < start + n || (o in m.stray && !(start <= o < start + n))
  {
    assert o in Offsets(start, n) <==> InOffsets(start, n, o);
    assert o in Offsets(start, landed) <==> InOffsets(start, landed, o);
  }

  lemma WriteFront(c: Config, t: State, u: State, fileId: nat, offset: nat, data: seq<byte>, done: nat, p: nat,
                   start: nat)
    requires c.Valid() && FilesInOrder(c) && Coherent(c, t) && fileId < |c.fileInfos| && done <= |data|
    requires WroteThrough(c, t, u, fileId, offset, data, done, p, start)
    ensures EntryOk(c, u, u.lru[0])
  {
    hide Written; hide Marked; hide Lengths.TotalPieces; hide Lengths.PieceStart; hide Lengths.PieceLen; hide CellAt;
    var e, e' := t.lru[0], u.lru[0];
    assert EntryOk(c, t, e);
    forall o | 0 <= o < |e'.data|
      ensures if o in u.marks[p].written then AgreesAt(c, u, e', o) else o !in u.marks[p].stray ==> e'.data[o] == 0
    {
      MarkedAt(t.marks[p], start, |data|, Landed(c, fileId, offset, done), o);
      if start <= o < start + |data| {
        assert e'.data[o] == data[o - start];
        if o in u.marks[p].written {
          FrontAgrees(c, t, u, fileId, offset, data, done, p, start, o);
        }
      } else {
        assert e'.data[o] == e.data[o];
        if o in t.marks[p].written {
          assert AgreesAt(c, t, e, o);
          WriteLeaves(c, t, u, fileId, offset, data[..done], e, o);
          assert AgreesAt(c, u, e, o);
        }
      }
    }
  }

  /** A byte that reached its file. */
  lemma FrontAgrees(c: Config, t: State, u: State, fileId: nat, offset: nat, data: seq<byte>, done: nat, p: nat,
                    start: nat, o: nat)
    requires FilesInOrder(c) && fileId < |c.fileInfos| == |t.files| && done <= |data|
    requires WroteThrough(c, t, u, fileId, offset, data, done, p, start)
    requires start <= o < start + Landed(c, fileId, offset, done)
    ensures AgreesAt(c, u, u.lru[0], o)
  {
    hide Written; hide Marked; hide Lengths.PieceStart; hide CellAt;
    forall f, j | 0 <= f < |c.fileInfos| && 0 <= j < c.fileInfos[f].len && HoldsByte(c, p, o, f, j)
      ensures CellAt(u.files[f], j) == Some(u.lru[0].data[o])
    {
      OneFile(c, f, j, fileId, offset + (o - start));
      WrittenCell(t.files[fileId], offset, data[..done], j);
    }
  }

  /** A write leaves the bytes it does not cover that agreed with the files. */
  lemma WriteLeaves(c: Config, t: State, u: State, fileId: nat, offset: nat, part: seq<byte>, e: Entry, o: nat)
    requires FilesInOrder(c) && fileId < |c.fileInfos| == |t.files| && o < |e.data| && AgreesAt(c, t, e, o)
    requires u.files == t.files[fileId := Written(t.files[fileId], offset, part)]
    requires forall j :: offset <= j < offset + |part| ==> !HoldsByte(c, e.piece, o, fileId, j)
    ensures AgreesAt(c, u, e, o)
  {
    hide Written; hide CellAt; hide Lengths.PieceStart;
    forall f, j | 0 <= f < |c.fileInfos| && 0 <= j < c.fileInfos[f].len && HoldsByte(c, e.piece, o, f, j)
      ensures CellAt(u.files[f], j) == Some(e.data[o])
    {
      WrittenCell(t.files[fileId], offset, part, j);
      if f == fileId && |t.files[f]| <= j {
        PastTheEnd(t.files[f], j);
      }
    }
  }

  lemma PastTheEnd(content: seq<Cell>, j: nat)
    requires |content| <= j
    ensures CellAt(content, j) == None
  {
  }

  lemma WriteOther(c: Config, t: State, u: State, fileId: nat, offset: nat, data: seq<byte>, done: nat, p: nat,
                   start: nat, e: Entry)
    requires c.Valid() && FilesInOrder(c) && |t.files| == |c.fileInfos| && fileId < |c.fileInfos|
    requires p < c.lengths.TotalPieces() && done <= |data|
    requires WroteThrough(c, t, u, fileId, offset, data, done, p, start) && EntryOk(c, t, e) && e.piece != p
    requires |t.lru[0].data| == c.lengths.PieceLen(p)
    ensures EntryOk(c, u, e)
  {
    hide Written; hide Marked; hide Lengths.TotalPieces; hide Lengths.PieceStart;
    PieceBounds(c.lengths, p);
    PieceBounds(c.lengths, e.piece);
    if p < e.piece { PieceOrder(c.lengths, p, e.piece); } else { PieceOrder(c.lengths, e.piece, p); }
    forall o | 0 <= o < |e.data| && o in u.marks[e.piece].written ensures AgreesAt(c, u, e, o) {
      assert AgreesAt(c, t, e, o);
      WriteLeaves(c, t, u, fileId, offset, data[..done], e, o);
    }
  }

  lemma ReadKeeps(c: Config, s: State, fileId: nat, offset: nat, n: nat)
    requires c.Valid() && Coherent(c, s)
    ensures Coherent(c, ReadResult(c, s, fileId, offset, n).1)
  {
    hide Coherent; hide Touch; hide PieceAndOffset;
    assert |s.files| == |c.fileInfos| by { CoherentFiles(c, s); }
    if fileId < |c.fileInfos| && PieceAndOffset(c, fileId, offset).Some? {
      var i := Find(s.lru, PieceAndOffset(c, fileId, offset).value.0);
      if i < |s.lru| {
        TouchKeeps(c, s, i);
      }
    }
  }

  lemma CoherentFiles(c: Config, s: State)
    requires c.Valid() && Coherent(c, s)
    ensures |s.files| == |c.fileInfos|
  {
  }

  // ---------- runs ----------

  datatype Op =
    | Read(fileId: nat, offset: nat, n: nat)
    | Write(fileId: nat, offset: nat, data: seq<byte>, ok: bool, done: nat)

  /** Of a write, the files take some part of the data, and all of it if it succeeds. */
  predicate Possible(op: Op) {
    op.Write? ==> op.done <= |op.data| && (op.ok ==> op.done == |op.data|)
  }

  function After(c: Config, s: State, op: Op): State
    requires c.Valid() && |s.files| == |c.fileInfos| && Possible(op)
  {
    match op
    case Read(f, o, n) => ReadResult(c, s, f, o, n).1
    case Write(f, o, data, ok, done) => WriteResult(c, s, f, o, data, ok, done).1
  }

  lemma OpKeeps(c: Config, s: State, op: Op)
    requires c.Valid() && FilesInOrder(c) && Coherent(c, s) && Possible(op)
    ensures Coherent(c, After(c, s, op))
  {
    hide Coherent; hide ReadResult; hide WriteResult;
    CoherentFiles(c, s);
    match op
    case Read(f, o, n) => ReadKeeps(c, s, f, o, n);
    case Write(f, o, data, ok, done) => WriteKeeps(c, s, f, o, data, ok, done);
  }

  /** `trace` is a run of reads and writes, of which some may fail, starting with an empty cache. */
  ghost predicate Run(c: Config, trace: seq<State>, ops: seq<Op>)
    requires c.Valid()
  {
    && |trace| == |ops| + 1 && |trace[0].files| == |c.fileInfos| && trace[0].lru == [] && trace[0].marks == map[]
    && forall k :: 0 <= k < |ops| ==>
         Possible(ops[k]) && |trace[k].files| == |c.fileInfos| && trace[k + 1] == After(c, trace[k], ops[k])
  }

  /** The cache is coherent after any sequence of reads and writes, whatever failed or was evicted meanwhile. */
  lemma {:induction false} RunsKeepCoherent(c: Config, trace: seq<State>, ops: seq<Op>, i: nat)
    requires c.Valid() && FilesInOrder(c) && Run(c, trace, ops) && i < |trace|
    ensures Coherent(c, trace[i])
  {
    hide After; hide EntryOk;
    if i > 0 {
      RunsKeepCoherent(c, trace, ops, i - 1);
      OpKeeps(c, trace[i - 1], ops[i - 1]);
    }
  }

  /** A write that succeeds inside its file, as the chunk writer's do. */
  predicate Lands(c: Config, op: Op) {
    op.Write? && op.fileId < |c.fileInfos| ==> op.ok && op.offset + |op.data| <= c.fileInfos[op.fileId].len
  }

  ghost predicate NoStray(s: State) {
    forall p :: p in s.marks ==> s.marks[p].stray == {}
  }

  /** While all writes land, no cached byte is stray. */
  lemma {:induction false} LandingRunsHaveNoStray(c: Config, trace: seq<State>, ops: seq<Op>, i: nat)
    requires c.Valid() && Run(c, trace, ops) && i < |trace|
    requires forall k :: 0 <= k < i ==> Lands(c, ops[k])
    ensures NoStray(trace[i])
  {
    hide After; hide NoStray;
    if i > 0 {
      LandingRunsHaveNoStray(c, trace, ops, i - 1);
      LandingKeepsNoStray(c, trace[i - 1], ops[i - 1]);
    } else {
      NothingMarked(trace[0]);
    }
  }

  lemma NothingMarked(s: State)
    requires s.marks == map[]
    ensures NoStray(s)
  {
  }

  lemma LandingKeepsNoStray(c: Config, s: State, op: Op)
    requires c.Valid() && |s.files| == |c.fileInfos| && Possible(op) && Lands(c, op) && NoStray(s)
    ensures NoStray(After(c, s, op))
  {
    hide PieceAndOffset; hide Find; hide Touch; hide Written; hide Overwrite; hide Lengths.PieceLen;
  }

  // ---------- what reads return ----------

  /** A read served from the cache returns a byte of the files where the byte was written since the piece
      entered the cache; where it is not stray, exactly there and where the file happens to hold a zero. */
  lemma CachedByteIsRight(c: Config, s: State, i: nat, o: nat, f: nat, j: nat)
    requires c.Valid() && FilesInOrder(c) && Coherent(c, s)
    requires i < |s.lru| && o < |s.lru[i].data| && s.lru[i].piece in s.marks
    requires f < |c.fileInfos| && j < c.fileInfos[f].len && HoldsByte(c, s.lru[i].piece, o, f, j)
    ensures var m, right := s.marks[s.lru[i].piece], CellAt(s.files[f], j) == Some(s.lru[i].data[o]);
            && (o in m.written ==> right)
            && (o !in m.stray ==> (right <==> o in m.written || CellAt(s.files[f], j) == Some(0)))
  {
    hide Lengths.TotalPieces; hide Lengths.PieceLen;
    assert EntryOk(c, s, s.lru[i]);
    if o in s.marks[s.lru[i].piece].written {
      assert AgreesAt(c, s, s.lru[i], o);
    }
  }

  /** A write is refused if its file is unknown, its offset lies behind the torrent, or its bytes leave the piece of the
      first one. Only then the files stay as they are. */
  lemma WriteOutcome(c: Config, s: State, fileId: nat, offset: nat, data: seq<byte>, ok: bool, done: nat)
    requires c.Valid() && Coherent(c, s) && |s.files| == |c.fileInfos| && done <= |data|
    ensures var (r, t) := WriteResult(c, s, fileId, offset, data, ok, done);
            if fileId >= |c.fileInfos| then r == Failure(WrongFile) && t == s
            else
              var at := c.fileInfos[fileId].offset + offset;
              if at >= c.lengths.total then r == Failure(WrongPiece) && t == s
              else if InOnePiece(c.lengths, at, |data|)
              then r == (if ok then Success(()) else Failure(WriteFailed)) &&
                   t.files == s.files[fileId := Written(s.files[fileId], offset, data[..done])]
              else r == Failure(BuggedRange) && t.files == s.files
  {
    hide Find; hide Touch; hide Written; hide Overwrite; hide Marked; hide EntryOk; hide Enter;
    hide Lengths.TotalPieces; hide Lengths.PieceStart; hide Lengths.PieceEnd; hide PieceAndOffset; hide InOnePiece;
    if fileId < |c.fileInfos| {
      PieceOfOffset(c, fileId, offset);
      if PieceAndOffset(c, fileId, offset).Some? {
        var (p, start) := PieceAndOffset(c, fileId, offset).value;
        EnterKeeps(c, s, p);
        EntryShape(c, Enter(c, s, p), Enter(c, s, p).lru[0]);
        OnePieceIs(c.lengths, p, c.fileInfos[fileId].offset + offset, |data|);
      }
    }
  }

  /** The bytes [at, at + n) lie in the piece of byte `at`. */
  ghost predicate InOnePiece(l: Lengths, at: nat, n: nat)
    requires l.Valid()
  {
    exists p :: 0 <= p < l.TotalPieces() && InPiece(l, p, at) && at + n <= l.PieceEnd(p)
  }

  lemma OnePieceIs(l: Lengths, p: nat, at: nat, n: nat)
    requires l.Valid() && p < l.TotalPieces() && InPiece(l, p, at)
    ensures InOnePiece(l, at, n) <==> at + n <= l.PieceEnd(p)
  {
    hide Lengths.TotalPieces; hide Lengths.PieceStart; hide Lengths.PieceEnd;
    forall q | 0 <= q < l.TotalPieces() && InPiece(l, q, at) ensures q == p {
      if q < p { PieceOrder(l, q, p); }
      if p < q { PieceOrder(l, p, q); }
    }
  }

  lemma PieceOfOffset(c: Config, fileId: nat, offset: nat)
    requires c.Valid() && fileId < |c.fileInfos|
    ensures var at := c.fileInfos[fileId].offset + offset;
            match PieceAndOffset(c, fileId, offset)
            case None => at >= c.lengths.total
            case Some((p, start)) =>
              && at < c.lengths.total && p < c.lengths.TotalPieces() && InPiece(c.lengths, p, at)
              && start == at - c.lengths.PieceStart(p)
  {
    hide Lengths.TotalPieces; hide Lengths.PieceStart; hide Lengths.PieceEnd; hide ComputeCurrentPiece;
    var fo := c.fileInfos[fileId].offset;
    if fo + offset < c.lengths.total {
      CurrentPieceHolds(c.lengths, offset, fo);
    } else {
      BeyondTheEnd(c.lengths, offset, fo);
    }
  }

  /** A write that is not refused, even one that fails in the files, is what a read of its bytes returns. */
  lemma ReadYourWrites(c: Config, s: State, fileId: nat, offset: nat, data: seq<byte>, ok: bool, done: nat)
    requires c.Valid() && FilesInOrder(c) && Coherent(c, s) && done <= |data| && fileId < |c.fileInfos|
    requires InOnePiece(c.lengths, c.fileInfos[fileId].offset + offset, |data|)
    ensures |s.files| == |c.fileInfos|
    ensures var t := WriteResult(c, s, fileId, offset, data, ok, done).1;
            |t.files| == |c.fileInfos| && ReadResult(c, t, fileId, offset, |data|).0 == Success(data)
  {
    hide Find; hide Touch; hide Written; hide Marked; hide EntryOk; hide Enter;
    hide Lengths.TotalPieces; hide Lengths.PieceStart; hide Lengths.PieceEnd; hide PieceAndOffset;
    var at := c.fileInfos[fileId].offset + offset;
    PieceOfOffset(c, fileId, offset);
    var q :| 0 <= q < c.lengths.TotalPieces() && InPiece(c.lengths, q, at) && at + |data| <= c.lengths.PieceEnd(q);
    PieceBounds(c.lengths, q);
    var (p, start) := PieceAndOffset(c, fileId, offset).value;
    EnterKeeps(c, s, p);
    var t := WriteResult(c, s, fileId, offset, data, ok, done).1;
    EntryShape(c, Enter(c, s, p), Enter(c, s, p).lru[0]);
    OnePieceIs(c.lengths, p, at, |data|);
    FindIs(t.lru, p, 0);
  }

  /** Byte `k` of a read that starts at offset `start` of piece `p` was written since the piece entered
      the cache, or is zero in the file. */
  predicate Fresh(s: State, p: nat, start: nat, fileId: nat, offset: nat, k: nat)
    requires fileId < |s.files| && p in s.marks
  {
    start + k in s.marks[p].written || CellAt(s.files[fileId], offset + k) == Some(0)
  }

  predicate NotStray(s: State, p: nat, start: nat, k: nat)
    requires p in s.marks
  {
    start + k !in s.marks[p].stray
  }

  /** Reading a range inside a file: a piece that is not cached is read from the files; a cached one refuses
      ranges that leave the piece, and otherwise answers with what the files hold if every byte of the range
      was written since the piece entered the cache or, where no byte of the range is stray, if and only if
      every one was written or is zero. */
  lemma ReadAgrees(c: Config, s: State, fileId: nat, offset: nat, n: nat)
    requires c.Valid() && FilesInOrder(c) && Coherent(c, s) && fileId < |c.fileInfos| && |s.files| == |c.fileInfos|
    requires offset + n <= c.fileInfos[fileId].len && PieceAndOffset(c, fileId, offset).Some?
    ensures var (p, start) := PieceAndOffset(c, fileId, offset).value;
            var r := ReadResult(c, s, fileId, offset, n).0;
            if Find(s.lru, p) == |s.lru| then r == Underlying(s, fileId, offset, n)
            else if start + n > c.lengths.PieceLen(p) then r == Failure(BuggedRange)
            else
              && p in s.marks
              && (Offsets(start, n) <= s.marks[p].written ==> r == Underlying(s, fileId, offset, n))
              && ((forall k :: 0 <= k < n ==> NotStray(s, p, start, k)) ==>
                    (r == Underlying(s, fileId, offset, n) <==>
                     forall k :: 0 <= k < n ==> Fresh(s, p, start, fileId, offset, k)))
  {
    hide PieceAndOffset; hide Lengths.PieceStart; hide Lengths.TotalPieces; hide Lengths.PieceLen;
    var (p, start) := PieceAndOffset(c, fileId, offset).value;
    PieceAndOffsetHolds(c, fileId, offset);
    var i := Find(s.lru, p);
    if i < |s.lru| {
      assert EntryOk(c, s, s.lru[i]);
      if start + n <= c.lengths.PieceLen(p) {
        var cells, data := CellRange(s.files[fileId], offset, n), s.lru[i].data[start..start + n];
        forall k | 0 <= k < n
          ensures start + k in s.marks[p].written ==> cells[k] == Some(data[k])
          ensures NotStray(s, p, start, k) ==> (cells[k] == Some(data[k]) <==> Fresh(s, p, start, fileId, offset, k))
          ensures start + k in Offsets(start, n)
        {
          assert InOffsets(start, n, start + k) && HoldsByte(c, p, start + k, fileId, offset + k);
          CachedByteIsRight(c, s, i, start + k, fileId, offset + k);
        }
        CellsAre(cells, data);
      }
    }
  }

  lemma CellsAre(cells: seq<Cell>, data: seq<byte>)
    requires |cells| == |data|
    ensures AllReadable(cells) && Values(cells) == data <==> forall k :: 0 <= k < |cells| ==> cells[k] == Some(data[k])
  {
    if AllReadable(cells) && Values(cells) == data {
      assert forall k :: 0 <= k < |cells| ==> Values(cells)[k] == data[k];
    }
  }
}

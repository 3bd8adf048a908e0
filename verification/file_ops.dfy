/** Reading, writing and checking pieces of a torrent spread over many files. */
module FileOperations {
  import opened TorrentLengths
  import opened FileInfos
  import opened Wrappers
  import opened FileSpace

  datatype FileError = EmptyFileList | BrokenMetadata | ReadError | WriteError | NoHash | NotEnoughCapacity

  /** A chunk of a piece; `offset` is its first byte inside the piece. */
  datatype ChunkInfo = ChunkInfo(piece: nat, offset: nat, size: nat) {
    /** `chunk_absolute_offset` */
    function Position(l: Lengths): nat {
      l.PieceStart(piece) + offset
    }
  }

  const READ_BUFFER: nat := 65536

  // ---------- what the operations compute ----------

  /** The cells of the flat space in [a, b), as far as the files reach. */
  function Slice(flat: seq<Cell>, a: nat, b: nat): seq<Cell> {
    flat[Min(a, |flat|)..Max(Min(a, |flat|), Min(b, |flat|))]
  }

  function PieceCells(l: Lengths, flat: seq<Cell>, p: nat): seq<Cell> {
    Slice(flat, l.PieceStart(p), l.PieceEnd(p))
  }

  /** What checking one piece on its own reports. */
  function CheckResult(l: Lengths, flat: seq<Cell>, sha1: seq<byte> -> Digest, hashes: seq<Digest>, p: nat)
    : Result<bool, FileError>
  {
    var cells := PieceCells(l, flat, p);
    if !AllReadable(cells) then Failure(ReadError)
    else if p >= |hashes| then Failure(NoHash)
    else Success(sha1(Values(cells)) == hashes[p])
  }

  ghost predicate SameFile(lens: seq<nat>, i: nat, j: nat) {
    exists f :: 0 <= f < |lens| && InFile(lens, f, i) && InFile(lens, f, j)
  }

  predicate InFile(lens: seq<nat>, f: nat, i: nat)
    requires f < |lens|
  {
    Offset(lens, f) <= i < Offset(lens, f) + lens[f]
  }

  /** Position `i` belongs to a file that already failed before position `start`. */
  ghost predicate Dropped(lens: seq<nat>, flat: seq<Cell>, start: nat, i: nat) {
    exists j :: 0 <= j < Min(start, |flat|) && flat[j].None? && SameFile(lens, j, i)
  }

  /** The cells in [start, to) that a streaming pass tries to read: those of files that did not
      fail before `start`. */
  ghost function Feed(lens: seq<nat>, flat: seq<Cell>, start: nat, to: nat): seq<Cell>
    requires to <= |flat|
  {
    if to <= start then []
    else Feed(lens, flat, start, to - 1) + if Dropped(lens, flat, start, to - 1) then [] else [flat[to - 1]]
  }

  /** Does the streaming pass mark piece `p` as had? */
  ghost predicate StreamHas(l: Lengths, lens: seq<nat>, flat: seq<Cell>, sha1: seq<byte> -> Digest,
                            hashes: seq<Digest>, p: nat) {
    && FeedReadable(l, lens, flat, p) && p < |hashes|
    && sha1(Values(Feed(lens, flat, l.PieceStart(p), l.PieceEnd(p)))) == hashes[p]
  }

  /** The streaming pass decided the first `k` pieces, found a hash for each it could read, and
      set exactly the bits of those that match. */
  ghost predicate StreamMarks(l: Lengths, lens: seq<nat>, flat: seq<Cell>, sha1: seq<byte> -> Digest,
                              hashes: seq<Digest>, have: seq<bool>, k: nat)
    requires l.Valid()
  {
    && |have| == l.PieceBits()
    && (forall p :: 0 <= p < k ==> l.PieceEnd(p) <= |flat| && (FeedReadable(l, lens, flat, p) ==> p < |hashes|))
    && (forall p :: 0 <= p < |have| ==> (have[p] <==> p < k && StreamHas(l, lens, flat, sha1, hashes, p)))
  }

  /** The streaming pass stops with an error: no files, files too short, or a missing hash. */
  ghost predicate StreamFails(l: Lengths, lens: seq<nat>, flat: seq<Cell>, hashes: seq<Digest>)
    requires l.Valid()
  {
    |lens| == 0 || |flat| < l.total || HashMissing(l, lens, flat, hashes)
  }

  /** Some piece that the pass can read has no hash. */
  ghost predicate HashMissing(l: Lengths, lens: seq<nat>, flat: seq<Cell>, hashes: seq<Digest>)
    requires l.Valid()
  {
    exists p :: 0 <= p < l.TotalPieces() && p >= |hashes| && FeedReadable(l, lens, flat, p)
  }

  /** The error of a pass over some files: a missing hash is found before the end of the files. */
  ghost function StreamError(l: Lengths, lens: seq<nat>, flat: seq<Cell>, hashes: seq<Digest>): FileError
    requires l.Valid()
  {
    if HashMissing(l, lens, flat, hashes) then NoHash else BrokenMetadata
  }

  ghost predicate FeedReadable(l: Lengths, lens: seq<nat>, flat: seq<Cell>, p: nat)
  {
    l.PieceEnd(p) <= |flat| && AllReadable(Feed(lens, flat, l.PieceStart(p), l.PieceEnd(p)))
  }

  /** The front of the buffer holds the cells, the rest is as before. */
  predicate Filled(buf: seq<byte>, cells: seq<Cell>, before: seq<byte>) {
    AllReadable(cells) && |cells| <= |before| && buf == Values(cells) + before[|cells|..]
  }

  /** File `f` after the bytes `data` were written at position `off` of the flat space. */
  function WrittenFile(fis: seq<FileInfo>, f: nat, content: seq<Cell>, off: nat, data: seq<byte>): seq<Cell>
    requires f < |fis|
  {
    WrittenAt(fis[f], Offset(Lens(fis), f), content, off, data)
  }

  /** The same for a file that starts at position `o`. */
  function WrittenAt(fi: FileInfo, o: nat, content: seq<Cell>, off: nat, data: seq<byte>): seq<Cell> {
    var from, to := Max(off, o), Min(off + |data|, o + fi.len);
    if fi.padding || to <= from then content else Written(content, from - o, Part(data, from - off, to - off))
  }

  function Part(data: seq<byte>, from: nat, to: nat): (part: seq<byte>)
    requires from <= to <= |data|
    ensures |part| == to - from
  {
    data[from..to]
  }

  /** The file a streaming pass is reading: how far it got, and whether it failed. */
  datatype CurrentFile = CurrentFile(index: nat, processed: nat, isBroken: bool)

  /** The pass stands at position `pos` of the flat space; its file is marked broken exactly when
      an unreadable cell was met in it. */
  ghost predicate AtPosition(lens: seq<nat>, flat: seq<Cell>, f: CurrentFile, pos: nat)
  {
    && f.index < |lens| && f.processed <= lens[f.index]
    && pos == Offset(lens, f.index) + f.processed <= |flat|
    && (f.isBroken <==> !AllReadable(flat[Offset(lens, f.index)..pos]))
  }

  // ---------- the operations ----------

  class FileOps {
    const hashes: seq<Digest>
    const sha1: seq<byte> -> Digest
    const storage: Storage
    const fileInfos: seq<FileInfo>
    const lengths: Lengths

    constructor (hashes: seq<Digest>, sha1: seq<byte> -> Digest, storage: Storage, fileInfos: seq<FileInfo>,
                 lengths: Lengths)
      ensures this.hashes == hashes && this.sha1 == sha1 && this.storage == storage
      ensures this.fileInfos == fileInfos && this.lengths == lengths
    {
      this.hashes := hashes;
      this.sha1 := sha1;
      this.storage := storage;
      this.fileInfos := fileInfos;
      this.lengths := lengths;
    }

    ghost predicate Valid()
      reads this, storage
    {
      lengths.Valid() && |storage.files| == |fileInfos|
    }

    ghost function FlatSpace(): (flat: seq<Cell>)
      requires Valid()
      reads this, storage
      ensures |flat| == Sum(Lens(fileInfos))
    {
      Space(fileInfos, storage.files)
    }

    /** Feed `bytesToRead` bytes of a file to a hash that has been fed `fed` so far. */
    method UpdateHashFromFile(fileId: nat, pos: nat, fed: seq<byte>, buf: array<byte>, bytesToRead: nat)
      returns (ok: bool, fed': seq<byte>)
      requires Valid() && fileId < |fileInfos| && pos + bytesToRead <= fileInfos[fileId].len
      requires bytesToRead > 0 ==> buf.Length > 0
      modifies buf
      ensures var cells := FileCells(fileInfos[fileId], storage.files[fileId])[pos..pos + bytesToRead];
              (ok <==> AllReadable(cells)) && (ok ==> fed' == fed + Values(cells))
    {
      hide Offset; hide FileCells;
      ghost var cells := FileCells(fileInfos[fileId], storage.files[fileId]);
      fed' := fed;
      assert cells[pos..pos] == [] && fed + Values([]) == fed;
      var read := 0;
      while read < bytesToRead
        invariant read <= bytesToRead
        invariant AllReadable(cells[pos..pos + read]) && fed' == fed + Values(cells[pos..pos + read])
      {
        hide AllReadable; hide Values;
        var chunk: nat := Min(buf.Length, bytesToRead - read);
        ghost var part := cells[pos + read..pos + (read + chunk)];
        FilePart(fileInfos[fileId], storage.files[fileId], pos + read, chunk);
        NextPart(cells, pos, pos + read, pos + (read + chunk), pos + bytesToRead, fed);
        if fileInfos[fileId].padding {
          forall i | 0 <= i < chunk { buf[i] := 0; }
          assert buf[..chunk] == Values(part);
        } else {
          var done := storage.PReadExact(fileId, pos + read, buf, 0, chunk);
          if !done {
            return false, fed';
          }
        }
        fed' := fed' + buf[..chunk];
        read := read + chunk;
      }
      return true, fed';
    }

    /** Hash one piece by walking to it from the first file. */
    method CheckPiece(p: nat) returns (r: Result<bool, FileError>)
      requires Valid() && p < lengths.TotalPieces()
      ensures r == CheckResult(lengths, FlatSpace(), sha1, hashes, p)
    {
      hide Lengths.TotalPieces; hide Space; hide FileCells; hide Offset; hide Values; hide Slice; hide AllReadable;
      hide Lengths.PieceStart; hide Lengths.PieceEnd; hide Lengths.PieceLen; hide Lengths.Valid; hide WalkAt;
      PieceBounds(lengths, p);
      ghost var flat, lens := FlatSpace(), Lens(fileInfos);
      ghost var start, end := lengths.PieceStart(p), lengths.PieceEnd(p);
      var fed: seq<byte> := [];
      var absoluteOffset: nat := lengths.PieceStart(p);
      var buf := new byte[Min(READ_BUFFER, lengths.PieceLen(p))];
      var remaining: nat := lengths.PieceLen(p);
      WalkFirst(lens, start);
      SliceEmpty(flat, start);

      var idx := 0;
      while idx < |fileInfos|
        invariant idx <= |fileInfos| && FlatSpace() == flat && 0 < remaining <= end - start
        invariant WalkAt(lens, idx, start, absoluteOffset, end - start - remaining)
        invariant var cells := Slice(flat, start, end - remaining); AllReadable(cells) && fed == Values(cells)
      {
        var fileLen := fileInfos[idx].len;
        WalkStep(lens, idx, start, absoluteOffset, end - start - remaining);
        if absoluteOffset > fileLen {
          absoluteOffset := absoluteOffset - fileLen;
        } else {
          var toRead: nat := Min(fileLen - absoluteOffset, remaining);
          SpaceSlice(fileInfos, storage.files, idx, absoluteOffset, absoluteOffset + toRead);
          SliceSplit(flat, start, end - remaining, end - remaining + toRead, end);
          var ok;
          ok, fed := UpdateHashFromFile(idx, absoluteOffset, fed, buf, toRead);
          if !ok {
            return Failure(ReadError);
          }
          remaining := remaining - toRead;
          if remaining == 0 {
            break;
          }
          absoluteOffset := 0;
        }
        idx := idx + 1;
      }
      if remaining > 0 {
        WalkLast(lens, start, absoluteOffset, end - start - remaining);
        SliceClipped(flat, start, end - remaining, end);
      }
      if p >= |hashes| {
        return Failure(NoHash);
      }
      return Success(sha1(fed) == hashes[p]);
    }

    /** Hash all pieces in one pass over the files. A file that fails to read is not read again. */
    method InitialCheck() returns (r: Result<seq<bool>, FileError>)
      requires Valid()
      ensures r.Failure? <==> StreamFails(lengths, Lens(fileInfos), FlatSpace(), hashes)
      ensures r.Failure? ==>
                r.error == if |fileInfos| == 0 then EmptyFileList
                           else if HashMissing(lengths, Lens(fileInfos), FlatSpace(), hashes) then NoHash
                           else BrokenMetadata
      ensures r.Success? ==>
                StreamMarks(lengths, Lens(fileInfos), FlatSpace(), sha1, hashes, r.value, lengths.TotalPieces())
    {
      var have := seq(lengths.PieceBits(), _ => false);
      if |fileInfos| == 0 {
        return Failure(EmptyFileList);
      }
      hide Lengths.TotalPieces; hide Lengths.PieceStart; hide Lengths.PieceEnd; hide Lengths.PieceBits; hide Space;
      hide StreamFails; hide Offset; hide AtPosition; hide StreamMarks; hide HashMissing;
      var f := CurrentFile(0, 0, false);
      var buf := new byte[READ_BUFFER];
      ghost var flat, lens := FlatSpace(), Lens(fileInfos);
      StreamStart(lengths, lens, flat);
      NothingMarked(lengths, lens, flat, sha1, hashes);

      for p := 0 to lengths.TotalPieces()
        invariant FlatSpace() == flat
        invariant AtPosition(lens, flat, f, lengths.PieceStart(p)) || p == lengths.TotalPieces()
        invariant StreamMarks(lengths, lens, flat, sha1, hashes, have, p)
      {
        var next;
        next, f := CheckNext(p, f, buf, have);
        if next.Failure? {
          return next;
        }
        have := next.value;
      }
      StreamEnds(lengths, lens, flat, sha1, hashes, have);
      return Success(have);
    }

    /** Check the next piece of the pass and mark it. */
    method CheckNext(p: nat, file: CurrentFile, buf: array<byte>, have: seq<bool>)
      returns (r: Result<seq<bool>, FileError>, f: CurrentFile)
      requires Valid() && p < lengths.TotalPieces() && buf.Length > 0
      requires AtPosition(Lens(fileInfos), FlatSpace(), file, lengths.PieceStart(p))
      requires StreamMarks(lengths, Lens(fileInfos), FlatSpace(), sha1, hashes, have, p)
      modifies buf
      ensures r.Failure? ==> StreamFails(lengths, Lens(fileInfos), FlatSpace(), hashes)
      ensures r.Failure? ==> r.error == StreamError(lengths, Lens(fileInfos), FlatSpace(), hashes)
      ensures r.Success? ==> StreamMarks(lengths, Lens(fileInfos), FlatSpace(), sha1, hashes, r.value, p + 1)
      ensures r.Success? && p + 1 < lengths.TotalPieces() ==>
                AtPosition(Lens(fileInfos), FlatSpace(), f, lengths.PieceStart(p + 1))
    {
      hide Lengths.TotalPieces; hide Lengths.PieceStart; hide Lengths.PieceEnd; hide Space; hide StreamFails;
      hide Offset; hide StreamError;
      hide Feed; hide Values; hide AllReadable; hide AtPosition; hide FeedReadable; hide StreamHas; hide StreamMarks;
      ghost var flat, lens := FlatSpace(), Lens(fileInfos);
      PieceBounds(lengths, p);
      var complete, someFilesBroken, fed;
      complete, someFilesBroken, fed, f := StreamPiece(p, file, buf);
      if !complete {
        StreamStops(lengths, lens, flat, sha1, hashes, have, p);
        return Failure(BrokenMetadata), f;
      }
      StreamDecides(lengths, lens, flat, sha1, hashes, have, p);
      if someFilesBroken {
        return Success(have), f;
      }
      if p >= |hashes| {
        StreamStops(lengths, lens, flat, sha1, hashes, have, p);
        return Failure(NoHash), f;
      }
      return Success(if sha1(fed) == hashes[p] then have[p := true] else have), f;
    }

    /** Move on to the first file that still has bytes, and see how many of them to read. */
    method NextSegment(file: CurrentFile, remaining: nat, ghost pos: nat)
      returns (found: bool, toRead: nat, f: CurrentFile)
      requires Valid() && remaining > 0 && AtPosition(Lens(fileInfos), FlatSpace(), file, pos)
      ensures if found then
                && AtPosition(Lens(fileInfos), FlatSpace(), f, pos)
                && 0 < toRead == Min(fileInfos[f.index].len - f.processed, remaining)
                && (f == file || f.processed == 0)
              else pos == |FlatSpace()|
    {
      hide Flat; hide FileCells; hide Offset; hide AllReadable;
      ghost var flat, lens := FlatSpace(), Lens(fileInfos);
      f := file;
      toRead := Min(fileInfos[f.index].len - f.processed, remaining);
      while toRead == 0
        invariant AtPosition(lens, flat, f, pos) && (f == file || f.processed == 0)
        invariant toRead == Min(fileInfos[f.index].len - f.processed, remaining)
        decreases |fileInfos| - f.index
      {
        OffsetStep(lens, f.index);
        if f.index + 1 == |fileInfos| {
          return false, toRead, f;
        }
        NextFile(lens, flat, f, pos);
        f := CurrentFile(f.index + 1, 0, false);
        toRead := Min(fileInfos[f.index].len, remaining);
      }
      found := true;
    }

    /** One round of `InitialCheck`: feed piece `p` from the current file on. `complete` is false
        when the files end too early. */
    method StreamPiece(p: nat, file: CurrentFile, buf: array<byte>)
      returns (complete: bool, someFilesBroken: bool, fed: seq<byte>, f: CurrentFile)
      requires Valid() && p < lengths.TotalPieces() && buf.Length > 0
      requires AtPosition(Lens(fileInfos), FlatSpace(), file, lengths.PieceStart(p))
      modifies buf
      ensures complete <==> lengths.PieceEnd(p) <= |FlatSpace()|
      ensures complete ==> AtPosition(Lens(fileInfos), FlatSpace(), f, lengths.PieceEnd(p))
      ensures complete ==> (!someFilesBroken <==> FeedReadable(lengths, Lens(fileInfos), FlatSpace(), p))
      ensures complete && !someFilesBroken ==>
                fed == Values(Feed(Lens(fileInfos), FlatSpace(), lengths.PieceStart(p), lengths.PieceEnd(p)))
    {
      hide Lengths.TotalPieces; hide Lengths.PieceStart; hide Lengths.PieceEnd; hide Lengths.PieceLen; hide Space;
      hide FileCells;
      hide Offset; hide Feed; hide Values; hide AllReadable;
      ghost var flat, lens := FlatSpace(), Lens(fileInfos);
      ghost var start, end := lengths.PieceStart(p), lengths.PieceEnd(p);
      PieceBounds(lengths, p);
      FeedEmpty(lens, flat, start);
      fed, f := [], file;
      someFilesBroken := false;
      var remaining: nat := lengths.PieceLen(p);
      while remaining > 0
        invariant FlatSpace() == flat && remaining <= end - start
        invariant AtPosition(lens, flat, f, end - remaining)
        invariant end - remaining == start || f.processed == fileInfos[f.index].len || remaining == 0
        invariant !someFilesBroken <==> AllReadable(Feed(lens, flat, start, end - remaining))
        invariant !someFilesBroken ==> fed == Values(Feed(lens, flat, start, end - remaining))
      {
        var found, toRead, f' := NextSegment(f, remaining, end - remaining);
        if !found {
          return false, someFilesBroken, fed, f';
        }
        f, someFilesBroken, fed := ReadSegment(f', toRead, someFilesBroken, fed, buf, start, end - remaining);
        remaining := remaining - toRead;
      }
      complete := true;
    }

    /** Feed the next `toRead` bytes of the current file, unless it is broken. */
    method ReadSegment(file: CurrentFile, toRead: nat, broken: bool, soFar: seq<byte>, buf: array<byte>,
                       ghost start: nat, ghost a: nat)
      returns (f: CurrentFile, someFilesBroken: bool, fed: seq<byte>)
      requires Valid() && buf.Length > 0 && start <= a
      requires AtPosition(Lens(fileInfos), FlatSpace(), file, a) && (a == start || file.processed == 0)
      requires file.processed + toRead <= fileInfos[file.index].len
      requires !broken <==> AllReadable(Feed(Lens(fileInfos), FlatSpace(), start, a))
      requires !broken ==> soFar == Values(Feed(Lens(fileInfos), FlatSpace(), start, a))
      modifies buf
      ensures f.index == file.index && f.processed == file.processed + toRead
      ensures AtPosition(Lens(fileInfos), FlatSpace(), f, a + toRead)
      ensures !someFilesBroken <==> AllReadable(Feed(Lens(fileInfos), FlatSpace(), start, a + toRead))
      ensures !someFilesBroken ==> fed == Values(Feed(Lens(fileInfos), FlatSpace(), start, a + toRead))
    {
      hide FileCells; hide Offset; hide Feed; hide Values; hide AllReadable; hide Flat;
      var pos := file.processed;
      SpaceSlice(fileInfos, storage.files, file.index, pos, pos + toRead);
      StreamSegment(Lens(fileInfos), FlatSpace(), start, a, a + toRead, file);
      f, someFilesBroken, fed := file.(processed := pos + toRead), broken, soFar;
      if !file.isBroken {
        var ok;
        ok, fed := UpdateHashFromFile(file.index, pos, soFar, buf, toRead);
        if !ok {
          f := f.(isBroken := true);
          someFilesBroken := true;
        }
      }
    }

    /** Extend the filled front of the buffer by `n` bytes of a file; padding reads as zeros. */
    method FillFromFile(fileId: nat, pos: nat, buf: array<byte>, at: nat, n: nat, ghost cells: seq<Cell>,
                        ghost buf0: seq<byte>)
      returns (ok: bool)
      requires Valid() && fileId < |fileInfos| && pos + n <= fileInfos[fileId].len && at + n <= buf.Length
      requires |cells| == at && |buf0| == buf.Length && Filled(buf[..], cells, buf0)
      modifies buf
      ensures var part := FileCells(fileInfos[fileId], storage.files[fileId])[pos..pos + n];
              (ok <==> AllReadable(part)) && (ok ==> Filled(buf[..], cells + part, buf0))
    {
      hide Filled; hide FileCells; hide Values; hide AllReadable;
      ghost var before, part := buf[..], FileCells(fileInfos[fileId], storage.files[fileId])[pos..pos + n];
      FilePart(fileInfos[fileId], storage.files[fileId], pos, n);
      if fileInfos[fileId].padding {
        forall i | at <= i < at + n { buf[i] := 0; }
        assert buf[at..at + n] == seq(n, _ => 0);
      } else {
        var done := storage.PReadExact(fileId, pos, buf, at, n);
        if !done {
          return false;
        }
      }
      FilledMore(before, buf[..], cells, part, buf0);
      return true;
    }

    /** Fill the buffer from the flat space, from the chunk's first byte on. */
    method ReadChunk(chunk: ChunkInfo, buf: array<byte>) returns (r: Result<(), FileError>)
      requires Valid()
      modifies buf
      ensures buf.Length < chunk.size ==> r == Failure(NotEnoughCapacity) && buf[..] == old(buf[..])
      ensures buf.Length >= chunk.size ==>
                var at := chunk.piece * lengths.pieceLength + chunk.offset;
                var cells := Slice(FlatSpace(), at, at + buf.Length);
                if AllReadable(cells)
                then r == Success(()) && |cells| <= buf.Length && buf[..] == Values(cells) + old(buf[..])[|cells|..]
                else r == Failure(ReadError)
    {
      if buf.Length < chunk.size {
        return Failure(NotEnoughCapacity);
      }
      hide Space; hide Slice; hide AllReadable; hide Values; hide Lengths.PieceStart;
      PieceStartIsProduct(lengths, chunk.piece);
      var ok := FillFrom(chunk.Position(lengths), buf);
      return if ok then Success(()) else Failure(ReadError);
    }

    method FillFrom(off: nat, buf: array<byte>) returns (ok: bool)
      requires Valid()
      modifies buf
      ensures ok <==> AllReadable(Slice(FlatSpace(), off, off + buf.Length))
      ensures ok ==> Filled(buf[..], Slice(FlatSpace(), off, off + buf.Length), old(buf[..]))
    {
      hide Space; hide Values; hide Slice; hide AllReadable; hide Offset; hide FileCells; hide Filled; hide WalkAt;
      ghost var flat, lens, buf0 := FlatSpace(), Lens(fileInfos), buf[..];
      var absoluteOffset: nat := off;
      var at: nat := 0;
      WalkFirst(lens, off);
      SliceEmpty(flat, off);
      FilledNothing(buf0);

      var idx := 0;
      while idx < |fileInfos|
        invariant idx <= |fileInfos| && FlatSpace() == flat && at <= buf.Length
        invariant WalkAt(lens, idx, off, absoluteOffset, at)
        invariant |Slice(flat, off, off + at)| == at && AllReadable(Slice(flat, off, off + at))
        invariant Filled(buf[..], Slice(flat, off, off + at), buf0)
      {
        var fileLen := fileInfos[idx].len;
        WalkStep(lens, idx, off, absoluteOffset, at);
        if absoluteOffset > fileLen {
          absoluteOffset := absoluteOffset - fileLen;
        } else {
          var toRead: nat := Min(fileLen - absoluteOffset, buf.Length - at);
          SpaceSlice(fileInfos, storage.files, idx, absoluteOffset, absoluteOffset + toRead);
          SliceSplit(flat, off, off + at, off + at + toRead, off + buf.Length);
          var done := FillFromFile(idx, absoluteOffset, buf, at, toRead, Slice(flat, off, off + at), buf0);
          if !done {
            return false;
          }
          at := at + toRead;
          if at == buf.Length {
            return true;
          }
          absoluteOffset := 0;
        }
        idx := idx + 1;
      }
      WalkLast(lens, off, absoluteOffset, at);
      SliceClipped(flat, off, off + at, off + buf.Length);
      return true;
    }

    /** Write a block into the files it covers, from the chunk's first byte on; padding is not written. A write
        that fails, because a write of the storage did, leaves the first `done` bytes of the block written. */
    method WriteChunk(chunk: ChunkInfo, data: seq<byte>) returns (r: Result<(), FileError>, ghost done: nat)
      requires Valid()
      modifies storage
      ensures Valid()
      ensures done <= |data| && (if r.Success? then done == |data| else r == Failure(WriteError))
      ensures storage.failures == old(storage.failures) + if r.Success? then 0 else 1
      ensures WrittenAll(fileInfos, old(storage.files), storage.files,
                         chunk.piece * lengths.pieceLength + chunk.offset, data[..done])
    {
      PieceStartIsProduct(lengths, chunk.piece);
      hide Offset; hide WrittenFile; hide Lengths.PieceStart; hide WalkAt;
      ghost var files0, lens, off := storage.files, Lens(fileInfos), chunk.Position(lengths);
      done := |data|;
      assert data[..|data|] == data;
      var absoluteOffset: nat := chunk.Position(lengths);
      var at: nat := 0;
      WalkFirst(lens, off);
      var idx := 0;
      while idx < |fileInfos|
        invariant idx <= |fileInfos| && Valid() && at <= |data|
        invariant WalkAt(lens, idx, off, absoluteOffset, at)
        invariant WrittenBefore(fileInfos, idx, files0, storage.files, off, data)
        invariant storage.failures == old(storage.failures)
      {
        hide WrittenBefore;
        var fileLen := fileInfos[idx].len;
        WalkStep(lens, idx, off, absoluteOffset, at);
        if absoluteOffset > fileLen {
          WrittenOneMore(fileInfos, idx, files0, storage.files, storage.files, off, data, absoluteOffset, at);
          absoluteOffset := absoluteOffset - fileLen;
        } else {
          var toWrite: nat := Min(|data| - at, fileLen - absoluteOffset);
          var ok;
          ghost var n;
          ok, n := WritePart(idx, absoluteOffset, data, at, toWrite, files0, off);
          if !ok {
            AllWritten(fileInfos, files0, storage.files, off, data[..n]);
            return Failure(WriteError), n;
          }
          at := at + toWrite;
          if at == |data| {
            RestUntouched(fileInfos, files0, storage.files, idx, off, data);
            AllWritten(fileInfos, files0, storage.files, off, data);
            return Success(()), done;
          }
          absoluteOffset := 0;
        }
        idx := idx + 1;
      }
      return Success(()), done;
    }

    /** Write the next `toWrite` bytes of the block to a file, unless it is padding. */
    method WritePart(fileId: nat, pos: nat, data: seq<byte>, at: nat, toWrite: nat, ghost files0: seq<seq<Cell>>,
                     ghost off: nat)
      returns (ok: bool, ghost done: nat)
      requires Valid() && fileId < |fileInfos| && at <= |data| && pos <= fileInfos[fileId].len
      requires toWrite == Min(|data| - at, fileInfos[fileId].len - pos)
      requires WalkAt(Lens(fileInfos), fileId, off, pos, at)
      requires WrittenBefore(fileInfos, fileId, files0, storage.files, off, data)
      modifies storage
      ensures Valid() && done <= |data|
      ensures storage.failures == old(storage.failures) + if ok then 0 else 1
      ensures ok ==> WrittenBefore(fileInfos, fileId + 1, files0, storage.files, off, data)
      ensures !ok ==> WrittenBefore(fileInfos, |fileInfos|, files0, storage.files, off, data[..done])
    {
      hide Offset; hide WrittenFile; hide WalkAt; hide WrittenBefore; hide Written;
      ok, done := true, at;
      ghost var before := storage.files;
      if !fileInfos[fileId].padding {
        ghost var n;
        ok, n := storage.PWriteAll(fileId, pos, data[at..at + toWrite]);
        assert data[at..at + toWrite][..n] == data[at..at + n];
        done := at + n;
        if !ok {
          WriteStopped(fileInfos, fileId, files0, before, storage.files, off, data, pos, at, n);
          return;
        }
      }
      WrittenOneMore(fileInfos, fileId, files0, before, storage.files, off, data, pos, at);
    }
  }

  /** Every file has received its part of the block. */
  ghost predicate WrittenAll(fis: seq<FileInfo>, before: seq<seq<Cell>>, after: seq<seq<Cell>>, off: nat,
                             data: seq<byte>) {
    |before| == |after| == |fis| && forall f :: 0 <= f < |fis| ==> after[f] == WrittenFile(fis, f, before[f], off, data)
  }

  /** The files before file `idx` have received their part of the block, the others are as before. */
  predicate WrittenBefore(fis: seq<FileInfo>, idx: nat, files0: seq<seq<Cell>>, files: seq<seq<Cell>>, off: nat,
                          data: seq<byte>)
  {
    && |fis| == |files0| == |files|
    && forall f :: 0 <= f < |fis| ==>
         files[f] == if f < idx then WrittenFile(fis, f, files0[f], off, data) else files0[f]
  }

  /** A part of a file: zeros in padding, else what the stored file holds there. */
  lemma FilePart(fi: FileInfo, content: seq<Cell>, pos: nat, n: nat)
    requires pos + n <= fi.len
    ensures var part := FileCells(fi, content)[pos..pos + n];
            if fi.padding then AllReadable(part) && Values(part) == seq(n, _ => 0)
            else part == CellRange(content, pos, n)
  {
  }

  /** Reading `s[j..k]` on after `s[i..j]`, on the way to `m`. */
  lemma NextPart(s: seq<Cell>, i: nat, j: nat, k: nat, m: nat, fed: seq<byte>)
    requires i <= j <= k <= m <= |s|
    requires AllReadable(s[i..j])
    ensures AllReadable(s[i..k]) <==> AllReadable(s[j..k])
    ensures AllReadable(s[i..m]) ==> AllReadable(s[j..k])
    ensures AllReadable(s[j..k]) ==>
              fed + Values(s[i..k]) == (fed + Values(s[i..j])) + Values(s[j..k])
  {
    hide AllReadable; hide Values;
    Joined(s, i, j, k);
    ReadableConcat(s[i..j], s[j..k]);
    Joined(s, i, k, m);
    ReadableConcat(s[i..k], s[k..m]);
  }

  lemma FilledNothing(buf: seq<byte>)
    ensures Filled(buf, [], buf)
  {
  }

  lemma FilledMore(before: seq<byte>, after: seq<byte>, cells: seq<Cell>, part: seq<Cell>, buf0: seq<byte>)
    requires Filled(before, cells, buf0) && |after| == |buf0| && |cells| + |part| <= |buf0| && AllReadable(part)
    requires after[|cells|..|cells| + |part|] == Values(part)
    requires forall i :: 0 <= i < |after| && !(|cells| <= i < |cells| + |part|) ==> after[i] == before[i]
    ensures Filled(after, cells + part, buf0)
  {
    ReadableConcat(cells, part);
    assert after == after[..|cells|] + after[|cells|..|cells| + |part|] + after[|cells| + |part|..];
    assert after[..|cells|] == Values(cells);
    assert after[|cells| + |part|..] == buf0[|cells| + |part|..];
  }

  /** What file `idx` receives when the walk reaches it with `at` bytes already written. */
  lemma WriteStep(fis: seq<FileInfo>, idx: nat, content: seq<Cell>, off: nat, data: seq<byte>, absoluteOffset: nat,
                  at: nat)
    requires idx < |fis| && at <= |data| && WalkAt(Lens(fis), idx, off, absoluteOffset, at)
    ensures WrittenFile(fis, idx, content, off, data) ==
            if fis[idx].padding || absoluteOffset > fis[idx].len then content
            else Written(content, absoluteOffset, data[at..at + Min(|data| - at, fis[idx].len - absoluteOffset)])
  {
    hide Offset; hide Written; hide Part;
    var n := Min(|data| - at, fis[idx].len - absoluteOffset);
    if !fis[idx].padding && absoluteOffset <= fis[idx].len {
      PartIs(data, at, at + n);
      if n == 0 {
        assert Part(data, at, at + n) == [];
        WrittenNothing(content, absoluteOffset);
      }
    }
  }

  lemma PartIs(data: seq<byte>, from: nat, to: nat)
    requires from <= to <= |data|
    ensures Part(data, from, to) == data[from..to]
  {
  }

  lemma WrittenNothing(content: seq<Cell>, offset: nat)
    ensures Written(content, offset, []) == content
  {
  }

  /** A file before file `idx` has received all its bytes of the block once the walk is at file `idx`. */
  lemma WrittenEarlier(fis: seq<FileInfo>, idx: nat, f: nat, content: seq<Cell>, off: nat, data: seq<byte>, m: nat)
    requires f < idx < |fis| && m <= |data| && Offset(Lens(fis), idx) <= off + m
    ensures WrittenFile(fis, f, content, off, data[..m]) == WrittenFile(fis, f, content, off, data)
  {
    hide Written; hide Offset;
    OffsetMonotone(Lens(fis), f, idx);
    var from, to := Max(off, Offset(Lens(fis), f)), Offset(Lens(fis), f) + fis[f].len;
    if from < to {
      assert data[..m][from - off..to - off] == data[from - off..to - off];
    }
  }

  /** A file behind the written bytes is untouched. */
  lemma WrittenLater(fis: seq<FileInfo>, f: nat, content: seq<Cell>, off: nat, data: seq<byte>)
    requires f < |fis| && off + |data| <= Offset(Lens(fis), f)
    ensures WrittenFile(fis, f, content, off, data) == content
  {
  }

  /** A write to file `idx` that stopped after `n` bytes has written the first `at + n` bytes of the block. */
  lemma WriteStopped(fis: seq<FileInfo>, idx: nat, files0: seq<seq<Cell>>, before: seq<seq<Cell>>,
                     after: seq<seq<Cell>>, off: nat, data: seq<byte>, absoluteOffset: nat, at: nat, n: nat)
    requires idx < |fis| && WrittenBefore(fis, idx, files0, before, off, data)
    requires at + n <= |data| && absoluteOffset + n <= fis[idx].len && !fis[idx].padding
    requires WalkAt(Lens(fis), idx, off, absoluteOffset, at)
    requires after == before[idx := Written(before[idx], absoluteOffset, data[at..at + n])]
    ensures WrittenBefore(fis, |fis|, files0, after, off, data[..at + n])
  {
    hide Written; hide Offset; hide WrittenFile;
    var part := data[..at + n];
    forall f | 0 <= f < |fis| ensures after[f] == WrittenFile(fis, f, files0[f], off, part) {
      if f < idx {
        WrittenEarlier(fis, idx, f, files0[f], off, data, at + n);
      } else if f == idx {
        WriteStep(fis, idx, files0[f], off, part, absoluteOffset, at);
        assert part[at..at + n] == data[at..at + n];
      } else {
        OffsetMonotone(Lens(fis), idx, f);
        WrittenLater(fis, f, files0[f], off, part);
      }
    }
  }

  /** Once file `idx` has its part, the files up to and including it have theirs. */
  lemma WrittenOneMore(fis: seq<FileInfo>, idx: nat, files0: seq<seq<Cell>>, before: seq<seq<Cell>>,
                       after: seq<seq<Cell>>, off: nat, data: seq<byte>, absoluteOffset: nat, at: nat)
    requires idx < |fis| && at <= |data| && WrittenBefore(fis, idx, files0, before, off, data)
    requires WalkAt(Lens(fis), idx, off, absoluteOffset, at)
    requires after ==
             if fis[idx].padding || absoluteOffset > fis[idx].len then before
             else
               var n := Min(|data| - at, fis[idx].len - absoluteOffset);
               before[idx := Written(before[idx], absoluteOffset, data[at..at + n])]
    ensures WrittenBefore(fis, idx + 1, files0, after, off, data)
  {
    hide Offset; hide Written; hide WrittenFile; hide WalkAt;
    WriteStep(fis, idx, files0[idx], off, data, absoluteOffset, at);
  }

  /** Files after the one that took the last byte are not written. */
  lemma RestUntouched(fis: seq<FileInfo>, files0: seq<seq<Cell>>, files: seq<seq<Cell>>, idx: nat, off: nat,
                      data: seq<byte>)
    requires idx < |fis| && off + |data| <= Offset(Lens(fis), idx) + fis[idx].len
    requires WrittenBefore(fis, idx + 1, files0, files, off, data)
    ensures WrittenBefore(fis, |fis|, files0, files, off, data)
  {
    hide Offset; hide WrittenFile;
    forall f | idx < f < |fis| ensures WrittenFile(fis, f, files0[f], off, data) == files0[f] {
      OffsetMonotone(Lens(fis), idx, f);
      WrittenLater(fis, f, files0[f], off, data);
    }
  }

  lemma AllWritten(fis: seq<FileInfo>, files0: seq<seq<Cell>>, files: seq<seq<Cell>>, off: nat, data: seq<byte>)
    requires WrittenBefore(fis, |fis|, files0, files, off, data)
    ensures WrittenAll(fis, files0, files, off, data)
  {
  }

  /** The walk over the files that random access makes to reach position `off`: standing before file
      `idx`, it still has `absoluteOffset` bytes to skip and has handled `done` bytes from `off` on. */
  predicate WalkAt(lens: seq<nat>, idx: nat, off: nat, absoluteOffset: nat, done: int)
  {
    && idx <= |lens| && absoluteOffset == Max(0, off - Offset(lens, idx))
    && off + done == Max(off, Offset(lens, idx))
  }

  lemma WalkFirst(lens: seq<nat>, off: nat)
    ensures WalkAt(lens, 0, off, off, 0)
  {
  }

  lemma WalkStep(lens: seq<nat>, idx: nat, off: nat, absoluteOffset: nat, done: int)
    requires idx < |lens| && WalkAt(lens, idx, off, absoluteOffset, done)
    ensures if absoluteOffset > lens[idx] then WalkAt(lens, idx + 1, off, absoluteOffset - lens[idx], done)
            else
              && off + done == Offset(lens, idx) + absoluteOffset
              && WalkAt(lens, idx + 1, off, 0, done + (lens[idx] - absoluteOffset))
  {
    hide Offset;
    OffsetStep(lens, idx);
  }

  lemma WalkLast(lens: seq<nat>, off: nat, absoluteOffset: nat, done: int)
    requires WalkAt(lens, |lens|, off, absoluteOffset, done)
    ensures Sum(lens) <= off + done
  {
  }

  lemma StreamStops(l: Lengths, lens: seq<nat>, flat: seq<Cell>, sha1: seq<byte> -> Digest, hashes: seq<Digest>,
                    have: seq<bool>, p: nat)
    requires l.Valid() && p < l.TotalPieces() && StreamMarks(l, lens, flat, sha1, hashes, have, p)
    requires |flat| < l.PieceEnd(p) || (p >= |hashes| && FeedReadable(l, lens, flat, p))
    ensures StreamFails(l, lens, flat, hashes)
    ensures StreamError(l, lens, flat, hashes) == if |flat| < l.PieceEnd(p) then BrokenMetadata else NoHash
  {
    hide Lengths.TotalPieces; hide Lengths.PieceStart; hide Lengths.PieceEnd; hide Feed;
    PieceBounds(l, p);
    if |flat| < l.PieceEnd(p) {
      forall q | p < q < l.TotalPieces() ensures l.PieceEnd(p) <= l.PieceEnd(q) {
        PieceOrder(l, p, q);
        PieceBounds(l, q);
      }
    }
  }

  lemma StreamDecides(l: Lengths, lens: seq<nat>, flat: seq<Cell>, sha1: seq<byte> -> Digest, hashes: seq<Digest>,
                      have: seq<bool>, p: nat)
    requires l.Valid() && p < l.TotalPieces() && l.PieceEnd(p) <= |flat|
    requires StreamMarks(l, lens, flat, sha1, hashes, have, p)
    ensures p < |have|
    ensures !FeedReadable(l, lens, flat, p) ==> StreamMarks(l, lens, flat, sha1, hashes, have, p + 1)
    ensures FeedReadable(l, lens, flat, p) && p < |hashes| ==>
              && AllReadable(Feed(lens, flat, l.PieceStart(p), l.PieceEnd(p)))
              && var matches := sha1(Values(Feed(lens, flat, l.PieceStart(p), l.PieceEnd(p)))) == hashes[p];
                 StreamMarks(l, lens, flat, sha1, hashes, if matches then have[p := true] else have, p + 1)
  {
    RoundUp(l.TotalPieces(), 8);
  }

  lemma StreamEnds(l: Lengths, lens: seq<nat>, flat: seq<Cell>, sha1: seq<byte> -> Digest, hashes: seq<Digest>,
                   have: seq<bool>)
    requires l.Valid() && |lens| > 0 && StreamMarks(l, lens, flat, sha1, hashes, have, l.TotalPieces())
    ensures !StreamFails(l, lens, flat, hashes)
  {
    FirstPiece(l);
    PieceBounds(l, l.TotalPieces() - 1);
  }

  lemma NothingMarked(l: Lengths, lens: seq<nat>, flat: seq<Cell>, sha1: seq<byte> -> Digest, hashes: seq<Digest>)
    requires l.Valid()
    ensures StreamMarks(l, lens, flat, sha1, hashes, seq(l.PieceBits(), _ => false), 0)
  {
  }

  lemma StreamStart(l: Lengths, lens: seq<nat>, flat: seq<Cell>)
    requires l.Valid() && |lens| > 0 && |flat| == Sum(lens)
    ensures AtPosition(lens, flat, CurrentFile(0, 0, false), l.PieceStart(0))
  {
  }

  lemma FeedEmpty(lens: seq<nat>, flat: seq<Cell>, start: nat)
    requires start <= |flat|
    ensures Feed(lens, flat, start, start) == [] && AllReadable([]) && Values([]) == []
  {
  }

  lemma InOneFile(lens: seq<nat>, f: nat, g: nat, i: nat)
    requires f < |lens| && g < |lens| && InFile(lens, f, i) && InFile(lens, g, i)
    ensures f == g
  {
    if f < g { OffsetMonotone(lens, f, g); }
    if g < f { OffsetMonotone(lens, g, f); }
  }

  /** In the part of a file inside a piece, either every position is dropped or none is. */
  lemma DroppedTogether(lens: seq<nat>, flat: seq<Cell>, start: nat, a: nat, i: nat, f: nat)
    requires f < |lens| && InFile(lens, f, i) && start <= a <= |flat| && a <= i && (a == start || a == Offset(lens, f))
    requires Offset(lens, f) <= a
    ensures Dropped(lens, flat, start, i) <==> !AllReadable(flat[Offset(lens, f)..a])
  {
    hide Offset;
    var o := Offset(lens, f);
    if Dropped(lens, flat, start, i) {
      var j :| 0 <= j < Min(start, |flat|) && flat[j].None? && SameFile(lens, j, i);
      var g :| 0 <= g < |lens| && InFile(lens, g, j) && InFile(lens, g, i);
      InOneFile(lens, f, g, i);
      assert flat[o..a][j - o].None?;
    }
    if !AllReadable(flat[o..a]) {
      var k :| 0 <= k < a - o && flat[o..a][k].None?;
      assert InFile(lens, f, o + k) && flat[o + k].None?;
      assert SameFile(lens, o + k, i);
    }
  }

  /** A part of a file inside a piece is fed whole or not at all. */
  lemma {:induction false} FeedSegment(lens: seq<nat>, flat: seq<Cell>, start: nat, a: nat, b: nat, f: nat)
    requires f < |lens| && start <= a <= b <= |flat| && (a == start || a == Offset(lens, f))
    requires Offset(lens, f) <= a && b <= Offset(lens, f) + lens[f]
    ensures Feed(lens, flat, start, b) ==
            Feed(lens, flat, start, a) + if AllReadable(flat[Offset(lens, f)..a]) then flat[a..b] else []
  {
    hide Offset; hide Dropped; hide AllReadable; hide Feed;
    var before := Feed(lens, flat, start, a);
    if a < b {
      FeedSegment(lens, flat, start, a, b - 1, f);
      DroppedTogether(lens, flat, start, a, b - 1, f);
      FeedStep(lens, flat, start, b);
      OneMore(before, flat, a, b);
    } else {
      assert flat[a..b] == [] && before + [] == before;
    }
  }

  lemma FeedStep(lens: seq<nat>, flat: seq<Cell>, start: nat, to: nat)
    requires start < to <= |flat|
    ensures Feed(lens, flat, start, to) ==
            Feed(lens, flat, start, to - 1) + if Dropped(lens, flat, start, to - 1) then [] else [flat[to - 1]]
  {
  }

  lemma OneMore(before: seq<Cell>, flat: seq<Cell>, a: nat, b: nat)
    requires a < b <= |flat|
    ensures (before + flat[a..b - 1]) + [flat[b - 1]] == before + flat[a..b]
    ensures (before + []) + [] == before + []
  {
    assert flat[a..b] == flat[a..b - 1] + [flat[b - 1]];
  }

  /** What reading [a, b) of the current file does to the feed and to the broken mark. */
  lemma StreamSegment(lens: seq<nat>, flat: seq<Cell>, start: nat, a: nat, b: nat, f: CurrentFile)
    requires AtPosition(lens, flat, f, a) && start <= a <= b <= |flat| && (a == start || f.processed == 0)
    requires b <= Offset(lens, f.index) + lens[f.index]
    ensures Feed(lens, flat, start, b) == Feed(lens, flat, start, a) + if f.isBroken then [] else flat[a..b]
    ensures var feed := Feed(lens, flat, start, a);
            && (AllReadable(feed + flat[a..b]) <==> AllReadable(feed) && AllReadable(flat[a..b]))
            && (AllReadable(feed + flat[a..b]) ==> Values(feed + flat[a..b]) == Values(feed) + Values(flat[a..b]))
    ensures Feed(lens, flat, start, a) + [] == Feed(lens, flat, start, a)
    ensures AtPosition(lens, flat,
                       f.(processed := f.processed + (b - a), isBroken := f.isBroken || !AllReadable(flat[a..b])), b)
  {
    hide Offset; hide Feed; hide Dropped; hide AllReadable;
    var o := Offset(lens, f.index);
    FeedSegment(lens, flat, start, a, b, f.index);
    ReadableConcat(Feed(lens, flat, start, a), flat[a..b]);
    assert flat[o..b] == flat[o..a] + flat[a..b];
    ReadableConcat(flat[o..a], flat[a..b]);
  }

  /** At the end of a file, the pass stands at the start of the next one. */
  lemma NextFile(lens: seq<nat>, flat: seq<Cell>, f: CurrentFile, pos: nat)
    requires AtPosition(lens, flat, f, pos) && f.processed == lens[f.index] && f.index + 1 < |lens|
    ensures AtPosition(lens, flat, CurrentFile(f.index + 1, 0, false), pos)
  {
  }

  lemma SliceEmpty(flat: seq<Cell>, a: nat)
    ensures Slice(flat, a, a) == [] && AllReadable([]) && Values([]) == []
  {
  }

  /** Nothing follows the end of the files. */
  lemma SliceClipped(flat: seq<Cell>, a: nat, m: nat, b: nat)
    requires a <= b && (|flat| <= m <= b || m == b)
    ensures Slice(flat, a, b) == Slice(flat, a, Max(a, m))
  {
  }

  lemma Joined<T>(s: seq<T>, i: nat, j: nat, k: nat)
    requires i <= j <= k <= |s|
    ensures s[i..k] == s[i..j] + s[j..k]
  {
  }

  lemma SliceIs(flat: seq<Cell>, a: nat, b: nat)
    requires a <= |flat|
    ensures Slice(flat, a, b) == flat[a..Max(a, Min(b, |flat|))]
  {
  }

  /** Cutting a slice at `m`, and what follows for reading it. */
  lemma SliceSplit(flat: seq<Cell>, a: nat, m: nat, m': nat, b: nat)
    requires a <= m <= m' <= b && m' <= |flat|
    ensures Slice(flat, a, m') == Slice(flat, a, m) + flat[m..m']
    ensures AllReadable(Slice(flat, a, m')) <==> AllReadable(Slice(flat, a, m)) && AllReadable(flat[m..m'])
    ensures AllReadable(Slice(flat, a, m')) ==>
              Values(Slice(flat, a, m')) == Values(Slice(flat, a, m)) + Values(flat[m..m'])
    ensures !AllReadable(flat[m..m']) ==> !AllReadable(Slice(flat, a, b))
  {
    hide Slice; hide AllReadable; hide Values;
    var end: nat := Min(b, |flat|);
    SliceIs(flat, a, m);
    SliceIs(flat, a, m');
    SliceIs(flat, a, b);
    Joined(flat, a, m, m');
    Joined(flat, a, m', end);
    ReadableConcat(flat[a..m], flat[m..m']);
    ReadableConcat(flat[a..m'], flat[m'..end]);
  }
}

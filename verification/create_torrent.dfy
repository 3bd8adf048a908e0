/** Hashing files into pieces when a torrent is created, and checking them again afterwards. */
module CreateTorrent {
  import opened TorrentLengths
  import opened FileInfos
  import opened Wrappers
  import opened FileSpace
  import opened FileOperations
  import opened FileOpsProperties

  const READ_SIZE: nat := 8192

  /** The first `k` files, one after the other. */
  function Concat(files: seq<seq<byte>>, k: nat): (bytes: seq<byte>)
    requires k <= |files|
    ensures |bytes| == Offset(FileLens(files), k)
  {
    if k == 0 then [] else Concat(files, k - 1) + files[k - 1]
  }

  function FileLens(files: seq<seq<byte>>): (lens: seq<nat>)
    ensures |lens| == |files|
  {
    seq(|files|, i requires 0 <= i < |files| => |files[i]|)
  }

  function Content(files: seq<seq<byte>>): (bytes: seq<byte>)
    ensures |bytes| == Sum(FileLens(files))
  {
    Concat(files, |files|)
  }

  predicate LastFileNonEmpty(files: seq<seq<byte>>) {
    |files| > 0 && |files[|files| - 1]| > 0
  }

  /** `hashes` are the hashes of the full pieces of `bytes`, cut at multiples of `pl`. */
  ghost predicate FullPieces(sha1: seq<byte> -> Digest, pl: nat, bytes: seq<byte>, hashes: seq<Digest>) {
    && Start(pl, |hashes|) <= |bytes| < Start(pl, |hashes|) + pl
    && forall p :: 0 <= p < |hashes| ==> HashOf(sha1, pl, bytes, p, hashes[p])
  }

  ghost predicate HashOf(sha1: seq<byte> -> Digest, pl: nat, bytes: seq<byte>, p: nat, digest: Digest) {
    Start(pl, p) + pl <= |bytes| && digest == sha1(bytes[Start(pl, p)..Start(pl, p) + pl])
  }

  /** First byte of piece `p` for pieces of `pl` bytes. */
  function Start(pl: nat, p: nat): nat {
    Lengths(0, pl).PieceStart(p)
  }

  /** The hashes of the created torrent: all full pieces, and then one more for what is left over
      (possibly nothing) exactly when the last file is not empty. */
  ghost predicate CreatedHashes(sha1: seq<byte> -> Digest, pl: nat, files: seq<seq<byte>>, hashes: seq<Digest>) {
    var bytes := Content(files);
    if pl == 0 then hashes == []
    else if LastFileNonEmpty(files) then
      && |hashes| > 0 && FullPieces(sha1, pl, bytes, hashes[..|hashes| - 1])
      && hashes[|hashes| - 1] == sha1(bytes[Start(pl, |hashes| - 1)..])
    else FullPieces(sha1, pl, bytes, hashes)
  }

  // ---------- the files that are read ----------

  datatype CreateError = CannotOpen | CannotRead

  /** A file to make a torrent from. */
  datatype InputFile = Unopenable | Opened(cells: seq<Cell>)

  function FileBytes(input: InputFile): seq<byte> {
    if input.Opened? && AllReadable(input.cells) then Values(input.cells) else []
  }

  function Contents(inputs: seq<InputFile>): (files: seq<seq<byte>>)
    ensures |files| == |inputs|
  {
    seq(|inputs|, f requires 0 <= f < |inputs| => FileBytes(inputs[f]))
  }

  /** The file opens, and whatever must be read of it can be read. With pieces of length 0 no bytes are used, but
      the buffered reader still asks for the first ones. */
  predicate Hashable(pieceLength: nat, input: InputFile) {
    input.Opened? && if pieceLength > 0 then AllReadable(input.cells) else FirstReadable(input.cells)
  }

  predicate FirstReadable(cells: seq<Cell>) {
    |cells| > 0 ==> cells[0].Some?
  }

  predicate WhollyReadable(input: InputFile) {
    input.Opened? && AllReadable(input.cells)
  }

  /** Read at most `max` bytes through a buffer. How many, at least one unless the file is over or none were asked for,
      is left open; the read fails if its first byte cannot be read, and may fail if another one cannot. */
  method ReadSome(cells: seq<Cell>, pos: nat, max: nat) returns (size: Option<nat>)
    requires pos <= |cells|
    ensures size.None? ==> !AllReadable(cells)
    ensures size.Some? && pos < |cells| ==> cells[pos].Some?
    ensures size.Some? ==>
              && size.value <= max && pos + size.value <= |cells| && AllReadable(cells[pos..pos + size.value])
              && (size.value == 0 ==> max == 0 || pos == |cells|)
  {
    if pos == |cells| {
      return Some(0);
    }
    if cells[pos].None? {
      return None;
    }
    if max == 0 {
      var fails: bool := *;
      return if fails && !AllReadable(cells) then None else Some(0);
    }
    var n: nat := 1;
    while n < max && pos + n < |cells|
      invariant n <= max && pos + n <= |cells| && forall k :: pos <= k < pos + n ==> cells[k].Some?
      decreases |cells| - n
    {
      var stops: bool := *;
      if stops {
        break;
      }
      if cells[pos + n].None? {
        var fails: bool := *;
        if fails {
          return None;
        }
        break;
      }
      n := n + 1;
    }
    return Some(n);
  }

  /** Where the hashing stands: the hashes so far, what the current piece was fed, and what it still lacks. */
  datatype Hasher = Hasher(hashes: seq<Digest>, fed: seq<byte>, remaining: nat)

  /** `h` has hashed the bytes `done`; with pieces of length 0 nothing is ever hashed. */
  ghost predicate Hashed(sha1: seq<byte> -> Digest, pl: nat, done: seq<byte>, h: Hasher) {
    if pl == 0 then h == Hasher([], [], 0) else Hashing(sha1, pl, done, h.hashes, h.fed, h.remaining)
  }

  /** Read one file to its end; its length is what was read. */
  method HashFile(cells: seq<Cell>, pieceLength: nat, sha1: seq<byte> -> Digest, before: Hasher, ghost done: seq<byte>)
    returns (length: Option<nat>, h: Hasher)
    requires Hashed(sha1, pieceLength, done, before)
    ensures length.Some? ==> Hashable(pieceLength, Opened(cells))
    ensures length.None? ==> !WhollyReadable(Opened(cells))
    ensures length.Some? ==> length.value == if pieceLength > 0 then |FileBytes(Opened(cells))| else 0
    ensures length.Some? ==> Hashed(sha1, pieceLength, done + FileBytes(Opened(cells)), h)
  {
    hide Hashing; hide Values; hide AllReadable;
    h := before;
    var n := 0;
    ReadNothing(cells);
    assert done + [] == done;
    while true
      invariant n <= |cells| && AllReadable(cells[..n])
      invariant Hashed(sha1, pieceLength, done + Values(cells[..n]), h) && (pieceLength == 0 ==> n == 0)
      decreases |cells| - n
    {
      StillRoom(sha1, pieceLength, done + Values(cells[..n]), h);
      var size := ReadSome(cells, n, Min(h.remaining, READ_SIZE));
      if size.None? {
        return None, h;
      }
      if size.value == 0 {
        assert pieceLength > 0 ==> cells[..n] == cells;
        return Some(n), h;
      }
      var part := Values(cells[n..n + size.value]);
      ReadMore(cells, n, size.value);
      HashingMore(sha1, pieceLength, done + Values(cells[..n]), h.hashes, h.fed, h.remaining, part);
      assert done + Values(cells[..n]) + part == done + (Values(cells[..n]) + part);
      n := n + size.value;
      h := Hasher(h.hashes, h.fed + part, h.remaining - size.value);
      if h.remaining == 0 {
        h := Hasher(h.hashes + [sha1(h.fed)], [], pieceLength);
      }
    }
  }

  lemma StillRoom(sha1: seq<byte> -> Digest, pl: nat, done: seq<byte>, h: Hasher)
    requires Hashed(sha1, pl, done, h)
    ensures h.remaining > 0 <==> pl > 0
  {
  }

  /** File `f` cannot be opened or not be read whole, and those before it can be hashed. */
  predicate FailsFirst(pieceLength: nat, inputs: seq<InputFile>, f: nat, e: CreateError)
    requires f < |inputs|
  {
    && (forall g :: 0 <= g < f ==> Hashable(pieceLength, inputs[g]))
    && !WhollyReadable(inputs[f]) && (e == CannotOpen <==> inputs[f].Unopenable?)
  }

  lemma FailsHere(pieceLength: nat, inputs: seq<InputFile>, f: nat)
    requires f < |inputs| && forall g :: 0 <= g < f ==> Hashable(pieceLength, inputs[g])
    ensures inputs[f].Unopenable? ==> FailsFirst(pieceLength, inputs, f, CannotOpen)
    ensures inputs[f].Opened? && !WhollyReadable(inputs[f]) ==> FailsFirst(pieceLength, inputs, f, CannotRead)
  {
  }

  /** Read the files in order and hash them piece by piece. */
  method CreatePieceHashes(inputs: seq<InputFile>, pieceLength: nat, sha1: seq<byte> -> Digest)
    returns (r: Result<(seq<Digest>, seq<nat>), CreateError>)
    ensures r.Success? ==> forall f :: 0 <= f < |inputs| ==> Hashable(pieceLength, inputs[f])
    ensures r.Failure? ==> exists f :: 0 <= f < |inputs| && FailsFirst(pieceLength, inputs, f, r.error)
    ensures r.Success? ==> CreatedHashes(sha1, pieceLength, Contents(inputs), r.value.0)
    ensures r.Success? ==> r.value.1 == if pieceLength > 0 then FileLens(Contents(inputs)) else seq(|inputs|, _ => 0)
  {
    hide Hashed; hide CreatedHashes; hide Values; hide AllReadable; hide FileBytes; hide Hashable; hide WhollyReadable;
    hide FailsFirst;
    ghost var files := Contents(inputs);
    var length := 0;
    var h := Hasher([], [], pieceLength);
    var outputLengths: seq<nat> := [];
    NothingHashed(sha1, pieceLength);
    for f := 0 to |inputs|
      invariant forall g :: 0 <= g < f ==> Hashable(pieceLength, inputs[g])
      invariant |outputLengths| == f && (f > 0 ==> length == outputLengths[f - 1]) && (f == 0 ==> length == 0)
      invariant forall g :: 0 <= g < f ==> outputLengths[g] == if pieceLength > 0 then |files[g]| else 0
      invariant Hashed(sha1, pieceLength, Concat(files, f), h)
    {
      if inputs[f].Unopenable? {
        FailsHere(pieceLength, inputs, f);
        return Failure(CannotOpen);
      }
      var size, h' := HashFile(inputs[f].cells, pieceLength, sha1, h, Concat(files, f));
      if size.None? {
        FailsHere(pieceLength, inputs, f);
        return Failure(CannotRead);
      }
      h := h';
      length := size.value;
      outputLengths := outputLengths + [length];
    }
    HashedAll(sha1, pieceLength, files, h, length);
    if h.remaining > 0 && length > 0 {
      return Success((h.hashes + [sha1(h.fed)], outputLengths));
    }
    return Success((h.hashes, outputLengths));
  }

  lemma NothingHashed(sha1: seq<byte> -> Digest, pl: nat)
    ensures Hashed(sha1, pl, [], Hasher([], [], pl))
  {
    NoPieces(sha1, pl);
  }

  /** What the hashes are when all files have been read; `length` is the length of the last one. */
  lemma HashedAll(sha1: seq<byte> -> Digest, pl: nat, files: seq<seq<byte>>, h: Hasher, length: nat)
    requires Hashed(sha1, pl, Content(files), h)
    requires length == if |files| == 0 || pl == 0 then 0 else |files[|files| - 1]|
    ensures CreatedHashes(sha1, pl, files, if h.remaining > 0 && length > 0 then h.hashes + [sha1(h.fed)] else h.hashes)
  {
    hide Content; hide Start; hide FullPieces;
    assert (h.hashes + [sha1(h.fed)])[..|h.hashes|] == h.hashes;
  }

  lemma ReadNothing(cells: seq<Cell>)
    ensures AllReadable(cells[..0]) && Values(cells[..0]) == []
  {
  }

  lemma ReadMore(cells: seq<Cell>, length: nat, size: nat)
    requires length + size <= |cells| && AllReadable(cells[..length]) && AllReadable(cells[length..length + size])
    ensures AllReadable(cells[..length + size])
    ensures Values(cells[..length + size]) == Values(cells[..length]) + Values(cells[length..length + size])
    ensures |Values(cells[length..length + size])| == size
  {
    assert cells[..length + size] == cells[..length] + cells[length..length + size];
    ReadableConcat(cells[..length], cells[length..length + size]);
  }

  ghost predicate Hashing(sha1: seq<byte> -> Digest, pl: nat, done: seq<byte>, hashes: seq<Digest>, fed: seq<byte>,
                          remaining: nat) {
    && FullPieces(sha1, pl, done, hashes)
    && Start(pl, |hashes|) <= |done| && fed == done[Start(pl, |hashes|)..] && remaining == pl - |fed| > 0
  }

  lemma NoPieces(sha1: seq<byte> -> Digest, pl: nat)
    ensures pl > 0 ==> Hashing(sha1, pl, [], [], [], pl)
  {
  }

  lemma HashingMore(sha1: seq<byte> -> Digest, pl: nat, done: seq<byte>, hashes: seq<Digest>, fed: seq<byte>,
                    remaining: nat, part: seq<byte>)
    requires pl > 0 && Hashing(sha1, pl, done, hashes, fed, remaining) && |part| <= remaining
    ensures if |part| < remaining then Hashing(sha1, pl, done + part, hashes, fed + part, remaining - |part|)
            else Hashing(sha1, pl, done + part, hashes + [sha1(fed + part)], [], pl)
  {
    var bytes, k := done + part, |hashes|;
    forall p | 0 <= p < k ensures HashOf(sha1, pl, bytes, p, hashes[p]) {
      assert HashOf(sha1, pl, done, p, hashes[p]);
      assert bytes[Start(pl, p)..Start(pl, p) + pl] == done[Start(pl, p)..Start(pl, p) + pl];
    }
    assert bytes[Start(pl, k)..] == fed + part;
    if |part| == remaining {
      assert bytes[Start(pl, k)..Start(pl, k) + pl] == fed + part;
    }
  }

  // ---------- checking what was created ----------

  /** The files as a torrent made from them sees them: no padding, stored readable. */
  ghost predicate SameFiles(fis: seq<FileInfo>, stored: seq<seq<Cell>>, files: seq<seq<byte>>) {
    && |fis| == |stored| == |files|
    && forall f :: 0 <= f < |files| ==> fis[f].len == |files[f]| && !fis[f].padding && stored[f] == Stored(files[f])
  }

  lemma {:induction false} SpaceIsContent(fis: seq<FileInfo>, stored: seq<seq<Cell>>, files: seq<seq<byte>>, k: nat)
    requires SameFiles(fis, stored, files) && k <= |files|
    ensures Flat(fis, stored, k) == Stored(Concat(files, k))
  {
    if k > 0 {
      SpaceIsContent(fis, stored, files, k - 1);
      assert FileCells(fis[k - 1], stored[k - 1]) == Stored(files[k - 1]);
    }
  }

  /** How many pieces there are when `k` full pieces fit. */
  lemma CountPieces(l: Lengths, k: nat)
    requires l.Valid() && Start(l.pieceLength, k) <= l.total < Start(l.pieceLength, k) + l.pieceLength
    ensures l.TotalPieces() == if l.total == Start(l.pieceLength, k) then k else k + 1
  {
    StartIsPieceStart(l, k);
    PiecesLeft(l, k);
  }

  lemma {:induction false} StartIsPieceStart(l: Lengths, p: nat)
    ensures l.PieceStart(p) == Start(l.pieceLength, p)
  {
    if p > 0 {
      StartIsPieceStart(l, p - 1);
    }
  }

  /** The number of hashes fits the number of pieces exactly when a partial last piece goes together
      with a non-empty last file. */
  lemma HashCountFits(sha1: seq<byte> -> Digest, l: Lengths, files: seq<seq<byte>>, hashes: seq<Digest>)
    requires l.Valid() && l.total == |Content(files)| && CreatedHashes(sha1, l.pieceLength, files, hashes)
    ensures |hashes| == l.TotalPieces() <==> (LastFileNonEmpty(files) <==> l.total % l.pieceLength != 0)
    ensures |hashes| < l.TotalPieces() <==> !LastFileNonEmpty(files) && l.total % l.pieceLength != 0
  {
    hide Content;
    var k := if LastFileNonEmpty(files) then |hashes| - 1 else |hashes|;
    CountPieces(l, k);
    StartIsPieceStart(l, k);
    PieceStartIsProduct(l, k);
    Remainder(l.total, l.pieceLength, k);
  }

  lemma Remainder(x: nat, b: nat, k: nat)
    requires b > 0 && k * b <= x < k * b + b
    ensures x % b == 0 <==> x == k * b
  {
    QuotientUnique(x, b, k);
    assert x == (x / b) * b + x % b;
  }

  /** Every piece of the content that has a hash matches it. */
  lemma CreatedPieceMatches(sha1: seq<byte> -> Digest, l: Lengths, files: seq<seq<byte>>, hashes: seq<Digest>, p: nat)
    requires l.Valid() && l.total == |Content(files)| && CreatedHashes(sha1, l.pieceLength, files, hashes)
    requires p < l.TotalPieces() && p < |hashes|
    ensures l.PieceStart(p) <= l.PieceEnd(p) <= l.total
    ensures hashes[p] == sha1(Content(files)[l.PieceStart(p)..l.PieceEnd(p)])
  {
    hide Content; hide Start;
    PieceBounds(l, p);
    var bytes, k := Content(files), if LastFileNonEmpty(files) then |hashes| - 1 else |hashes|;
    CountPieces(l, k);
    StartIsPieceStart(l, p);
    if p < k {
      assert HashOf(sha1, l.pieceLength, bytes, p, hashes[..k][p]);
    } else {
      assert l.PieceEnd(p) == l.total;
      assert bytes[l.PieceStart(p)..] == bytes[l.PieceStart(p)..l.total];
    }
  }

  /** Checking the files of a freshly created torrent marks every piece as had, except when the last
      file is empty and the content does not end at a piece boundary: then the hash of the last piece is
      missing and the check stops with an error. */
  lemma CreatedThenChecked(sha1: seq<byte> -> Digest, l: Lengths, fis: seq<FileInfo>, stored: seq<seq<Cell>>,
                           files: seq<seq<byte>>, hashes: seq<Digest>)
    requires l.Valid() && l.total == |Content(files)| && CreatedHashes(sha1, l.pieceLength, files, hashes)
    requires SameFiles(fis, stored, files)
    ensures StreamFails(l, Lens(fis), Space(fis, stored), hashes) <==>
            !LastFileNonEmpty(files) && l.total % l.pieceLength != 0
    ensures forall have :: StreamMarks(l, Lens(fis), Space(fis, stored), sha1, hashes, have, l.TotalPieces()) ==>
              forall p :: 0 <= p < l.TotalPieces() ==> p < |have| && have[p]
  {
    hide Feed; hide CreatedHashes; hide Content; hide Flat; hide Dropped; hide Values; hide AllReadable;
    var flat, lens, n := Space(fis, stored), Lens(fis), l.TotalPieces();
    SpaceAllReadable(fis, stored, files);
    HashCountFits(sha1, l, files, hashes);
    FirstPiece(l);
    forall p | 0 <= p < n
      ensures FeedReadable(l, lens, flat, p)
      ensures p < |hashes| ==> StreamHas(l, lens, flat, sha1, hashes, p)
    {
      PieceOfContent(l, fis, stored, files, p);
      if p < |hashes| {
        CreatedPieceMatches(sha1, l, files, hashes, p);
      }
    }
    RoundUp(n, 8);
    if |hashes| < n {
      assert FeedReadable(l, lens, flat, n - 1);
    }
    forall have | StreamMarks(l, lens, flat, sha1, hashes, have, n)
      ensures forall p :: 0 <= p < n ==> p < |have| && have[p]
    {
    }
  }

  lemma SpaceAllReadable(fis: seq<FileInfo>, stored: seq<seq<Cell>>, files: seq<seq<byte>>)
    requires SameFiles(fis, stored, files)
    ensures Space(fis, stored) == Stored(Content(files)) && |Space(fis, stored)| == |Content(files)|
    ensures |Content(files)| > 0 ==> |fis| > 0
  {
    SpaceIsContent(fis, stored, files, |files|);
  }

  lemma PieceOfContent(l: Lengths, fis: seq<FileInfo>, stored: seq<seq<Cell>>, files: seq<seq<byte>>, p: nat)
    requires l.Valid() && l.total == |Content(files)| && SameFiles(fis, stored, files) && p < l.TotalPieces()
    ensures FeedReadable(l, Lens(fis), Space(fis, stored), p)
    ensures l.PieceStart(p) <= l.PieceEnd(p) <= l.total
    ensures Values(Feed(Lens(fis), Space(fis, stored), l.PieceStart(p), l.PieceEnd(p))) ==
            Content(files)[l.PieceStart(p)..l.PieceEnd(p)]
  {
    hide Feed; hide Content; hide Flat;
    var flat := Space(fis, stored);
    PieceBounds(l, p);
    SpaceAllReadable(fis, stored, files);
    assert NothingDropped(Lens(fis), flat, l.PieceStart(p), l.PieceEnd(p));
    FeedIsSlice(Lens(fis), flat, l.PieceStart(p), l.PieceEnd(p));
  }
}

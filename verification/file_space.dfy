/** The files of a torrent as one flat space of bytes. */
module FileSpace {
  import opened TorrentLengths
  import opened FileInfos
  import opened Wrappers

  /** A stored byte, or `None` where reading fails. */
  type Cell = Option<byte>

  predicate AllReadable(cells: seq<Cell>) {
    forall i :: 0 <= i < |cells| ==> cells[i].Some?
  }

  function Values(cells: seq<Cell>): (bytes: seq<byte>)
    requires AllReadable(cells)
    ensures |bytes| == |cells|
  {
    seq(|cells|, i requires 0 <= i < |cells| => cells[i].value)
  }

  lemma ReadableConcat(a: seq<Cell>, b: seq<Cell>)
    ensures AllReadable(a + b) <==> AllReadable(a) && AllReadable(b)
    ensures AllReadable(a + b) ==> Values(a + b) == Values(a) + Values(b)
  {
    if AllReadable(a + b) {
      assert forall i :: 0 <= i < |a| ==> (a + b)[i] == a[i];
      assert forall i :: 0 <= i < |b| ==> (a + b)[|a| + i] == b[i];
    }
  }

  function Stored(bytes: seq<byte>): (cells: seq<Cell>)
    ensures |cells| == |bytes| && AllReadable(cells) && Values(cells) == bytes
  {
    seq(|bytes|, i requires 0 <= i < |bytes| => Some(bytes[i]))
  }

  /** Cell `i` of a stored file; reading past its end fails. */
  function CellAt(content: seq<Cell>, i: nat): Cell {
    if i < |content| then content[i] else None
  }

  function CellRange(content: seq<Cell>, offset: nat, n: nat): (cells: seq<Cell>)
    ensures |cells| == n
  {
    seq(n, i requires i >= 0 => CellAt(content, offset + i))
  }

  /** The file as the torrent sees it: exactly `len` cells, zeros if it is padding. */
  function FileCells(fi: FileInfo, content: seq<Cell>): (cells: seq<Cell>)
    ensures |cells| == fi.len
  {
    seq(fi.len, i requires i >= 0 => if fi.padding then Some(0) else CellAt(content, i))
  }

  /** The first `k` files, one after the other. */
  function Flat(fis: seq<FileInfo>, files: seq<seq<Cell>>, k: nat): (flat: seq<Cell>)
    requires k <= |fis| == |files|
    ensures |flat| == Offset(Lens(fis), k)
  {
    if k == 0 then [] else Flat(fis, files, k - 1) + FileCells(fis[k - 1], files[k - 1])
  }

  /** The whole flat space. */
  function Space(fis: seq<FileInfo>, files: seq<seq<Cell>>): (flat: seq<Cell>)
    requires |fis| == |files|
    ensures |flat| == Sum(Lens(fis))
  {
    Flat(fis, files, |fis|)
  }

  lemma {:induction false} FlatAt(fis: seq<FileInfo>, files: seq<seq<Cell>>, k: nat, f: nat)
    requires f < k <= |fis| == |files|
    ensures Offset(Lens(fis), f) + fis[f].len <= Offset(Lens(fis), k)
    ensures forall i :: 0 <= i < fis[f].len ==>
              Flat(fis, files, k)[Offset(Lens(fis), f) + i] == FileCells(fis[f], files[f])[i]
  {
    if f < k - 1 {
      FlatAt(fis, files, k - 1, f);
    }
  }

  /** A slice of the flat space inside one file is that slice of the file. */
  lemma SpaceSlice(fis: seq<FileInfo>, files: seq<seq<Cell>>, f: nat, from: nat, to: nat)
    requires f < |fis| == |files| && from <= to <= fis[f].len
    ensures Offset(Lens(fis), f) + to <= |Space(fis, files)|
    ensures var o := Offset(Lens(fis), f);
            Space(fis, files)[o + from..o + to] == FileCells(fis[f], files[f])[from..to]
  {
    hide Flat; hide FileCells; hide Offset;
    FlatAt(fis, files, |fis|, f);
    var o, s := Offset(Lens(fis), f), Space(fis, files);
    assert |s| == Offset(Lens(fis), |fis|);
    assert forall i :: from <= i < to ==> s[o + i] == FileCells(fis[f], files[f])[i];
    forall i | 0 <= i < to - from ensures s[o + from..o + to][i] == FileCells(fis[f], files[f])[from..to][i] {
      assert s[o + (from + i)] == FileCells(fis[f], files[f])[from + i];
    }
  }

  /** Every position of the flat space lies in exactly one file. */
  lemma {:induction false} OwnerExists(lens: seq<nat>, k: nat, i: nat) returns (f: nat)
    requires k <= |lens| && i < Offset(lens, k)
    ensures f < k && Offset(lens, f) <= i < Offset(lens, f) + lens[f]
  {
    if i < Offset(lens, k - 1) {
      f := OwnerExists(lens, k - 1, i);
    } else {
      f := k - 1;
    }
  }

  /** The stored files behind the torrent. Reads of unreadable cells fail, writes may extend a file. */
  class Storage {
    var files: seq<seq<Cell>>
    /** How many writes have failed. */
    ghost var failures: nat

    constructor (files: seq<seq<Cell>>)
      ensures this.files == files && failures == 0
    {
      this.files := files;
      this.failures := 0;
    }

    /** Fill `buf[start..start + n]` from the file, or fail. */
    method PReadExact(fileId: nat, offset: nat, buf: array<byte>, start: nat, n: nat) returns (ok: bool)
      requires fileId < |files| && start + n <= buf.Length
      modifies buf
      ensures ok <==> AllReadable(CellRange(files[fileId], offset, n))
      ensures ok ==> buf[start..start + n] == Values(CellRange(files[fileId], offset, n))
      ensures forall i :: 0 <= i < buf.Length && !(start <= i < start + n) ==> buf[i] == old(buf[i])
    {
      ghost var cells := CellRange(files[fileId], offset, n);
      for i := 0 to n
        invariant forall j :: 0 <= j < i ==> cells[j].Some?
        invariant forall j :: start <= j < start + i ==> Some(buf[j]) == cells[j - start]
        invariant forall j :: 0 <= j < buf.Length && !(start <= j < start + n) ==> buf[j] == old(buf[j])
      {
        var cell := CellAt(files[fileId], offset + i);
        if cell.None? {
          assert cells[i].None?;
          return false;
        }
        buf[start + i] := cell.value;
      }
      return true;
    }

    /** Write the bytes to the file, or fail after the first `done` of them. */
    method PWriteAll(fileId: nat, offset: nat, data: seq<byte>) returns (ok: bool, ghost done: nat)
      requires fileId < |files|
      modifies this
      ensures done <= |data| && (ok ==> done == |data|)
      ensures failures == old(failures) + if ok then 0 else 1
      ensures files == old(files)[fileId := Written(old(files)[fileId], offset, data[..done])]
    {
      var n: nat :| n <= |data|;
      var fails: bool := *;
      files := files[fileId := Written(files[fileId], offset, data[..n])];
      ok := n == |data| && !fails;
      failures := failures + if ok then 0 else 1;
      done := n;
    }
  }

  /** A file after writing `data` at `offset`; a gap before it is filled with zeros. */
  function Written(content: seq<Cell>, offset: nat, data: seq<byte>): seq<Cell> {
    if |data| == 0 then content else
    seq(Max(|content|, offset + |data|), i requires i >= 0 =>
      (if offset <= i < offset + |data| then Some(data[i - offset])
       else if i < |content| then content[i]
       else Some(0)))
  }

  /** Which cells a write changes: those it covers, and the zeros that fill a gap before it. */
  lemma WrittenCell(content: seq<Cell>, offset: nat, data: seq<byte>, j: nat)
    ensures CellAt(Written(content, offset, data), j) ==
            if offset <= j < offset + |data| then Some(data[j - offset])
            else if |data| > 0 && |content| <= j < offset then Some(0)
            else CellAt(content, j)
    ensures |Written(content, offset, data)| >= |content|
  {
  }
}

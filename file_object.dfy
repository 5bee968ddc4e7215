/** A binary file opened for writing and reading ("wb+" or an anonymous
    temporary file): its bytes and a position, moved by `write`, `read` and
    `seek`. */
module FileIo {
  import opened Bytes
  import opened Wrappers

  function Min(a: int, b: int): int { if a <= b then a else b }
  function Max(a: int, b: int): int { if a <= b then b else a }

  /** The contents after writing `chunk` at `pos`: the chunk replaces what was
      there, the rest is kept, and a gap left by a position past the end reads
      as zero bytes. */
  function Overwrite(data: seq<byte>, pos: nat, chunk: seq<byte>): (r: seq<byte>)
    ensures |r| == Max(|data|, pos + |chunk|)
    ensures r[pos..pos + |chunk|] == chunk
    ensures forall i :: 0 <= i < |r| && !(pos <= i < pos + |chunk|) ==>
              r[i] == if i < |data| then data[i] else 0
  {
    var padded := if pos <= |data| then data else data + seq(pos - |data|, _ => 0 as byte);
    var r := padded[..pos] + chunk + (if pos + |chunk| < |padded| then padded[pos + |chunk|..] else []);
    assert r[pos..pos + |chunk|] == chunk;
    r
  }

  /** Writing at the end of the file appends. */
  lemma OverwriteAtEnd(data: seq<byte>, chunk: seq<byte>)
    ensures Overwrite(data, |data|, chunk) == data + chunk
  {
    var r := Overwrite(data, |data|, chunk);
    assert |r| == |data + chunk|;
    forall i | 0 <= i < |r| ensures r[i] == (data + chunk)[i] {
      if i >= |data| {
        assert r[i] == r[|data|..|data| + |chunk|][i - |data|];
      }
    }
  }

  /** What `read(n)` returns at `pos`: at most `n` bytes starting at `pos`,
      fewer near the end, none past it. */
  function Window(data: seq<byte>, pos: nat, n: nat): (w: seq<byte>)
    ensures |w| == if pos >= |data| then 0 else Min(n, |data| - pos)
    ensures pos < |data| ==> w == data[pos..pos + |w|]
  {
    if pos >= |data| then [] else data[pos..Min(pos + n, |data|)]
  }

  class FileObject {
    /** The path it was opened at, or None for an anonymous temporary file. */
    const name: Option<string>
    var data: seq<byte>
    var pos: nat

    /** `open(path, 'wb+')` truncates; `TemporaryFile()` starts empty. */
    constructor Open(path: Option<string>)
      ensures name == path && data == [] && pos == 0
    {
      name := path;
      data := [];
      pos := 0;
    }

    method Write(chunk: seq<byte>)
      modifies this
      ensures data == Overwrite(old(data), old(pos), chunk)
      ensures pos == old(pos) + |chunk|
    {
      data := Overwrite(data, pos, chunk);
      pos := pos + |chunk|;
    }

    /** `seek(offset)` from the start of the file; the bytes are untouched. */
    method Seek(offset: nat)
      modifies this
      ensures data == old(data) && pos == offset
    {
      pos := offset;
    }

    method Read(n: nat) returns (bs: seq<byte>)
      modifies this
      ensures bs == Window(old(data), old(pos), n)
      ensures data == old(data) && pos == old(pos) + |bs|
    {
      bs := Window(data, pos, n);
      pos := pos + |bs|;
    }
  }
}

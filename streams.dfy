/** A positioned byte stream (.NET `FileStream` / `MemoryStream`) and the
    `BinaryWriter` / `BinaryReader` calls the serializers make on it. */
module Streams {
  import opened Bytes
  import opened Errors

  function Max(a: int, b: int): int { if a < b then b else a }

  /** The stream contents after writing `w` at position `pos`: the bytes of
      `w` replace `[pos, pos + |w|)`, a gap past the old end reads as zeros,
      the stream grows only as far as the write reaches, and every other byte
      stays as it was. */
  function Overwrite(s: seq<byte>, pos: nat, w: seq<byte>): (r: seq<byte>)
    ensures |r| == Max(|s|, pos + |w|)
    ensures forall i :: 0 <= i < |r| ==>
      r[i] == (if pos <= i < pos + |w| then w[i - pos] else if i < |s| then s[i] else 0)
  {
    var before := if pos <= |s| then s[..pos] else s + Zeros(pos - |s|);
    var after := if pos + |w| < |s| then s[pos + |w|..] else [];
    before + w + after
  }

  /** Writing at the end appends. */
  lemma OverwriteAtEnd(s: seq<byte>, w: seq<byte>)
    ensures Overwrite(s, |s|, w) == s + w
  {
    var r := Overwrite(s, |s|, w);
    assert forall i :: 0 <= i < |r| ==> r[i] == (s + w)[i];
  }

  /** Two consecutive writes are one write of their concatenation. */
  lemma OverwriteTwice(s: seq<byte>, pos: nat, x: seq<byte>, y: seq<byte>)
    ensures Overwrite(Overwrite(s, pos, x), pos + |x|, y) == Overwrite(s, pos, x + y)
  {
    var a := Overwrite(Overwrite(s, pos, x), pos + |x|, y);
    var b := Overwrite(s, pos, x + y);
    assert |a| == |b|;
    forall i | 0 <= i < |a| ensures a[i] == b[i] {
      if pos <= i < pos + |x| {
        assert (x + y)[i - pos] == x[i - pos];
      } else if pos + |x| <= i < pos + |x| + |y| {
        assert (x + y)[i - pos] == y[i - pos - |x|];
      }
    }
  }

  /** Writing `z` at 0 over a prefix of the same length replaces that prefix. */
  lemma OverwritePrefix(x: seq<byte>, y: seq<byte>, z: seq<byte>)
    requires |z| == |x|
    ensures Overwrite(x + y, 0, z) == z + y
  {
    var r := Overwrite(x + y, 0, z);
    assert forall i :: 0 <= i < |r| ==> r[i] == (z + y)[i];
  }

  /** The bytes one `Read(buffer, 0, n)` call delivers at `pos`: `n` of them,
      or as many as remain before the end. */
  function Available(s: seq<byte>, pos: nat, n: nat): (r: seq<byte>)
    ensures |r| == if pos >= |s| then 0 else if pos + n <= |s| then n else |s| - pos
  {
    if pos >= |s| then [] else if pos + n <= |s| then s[pos..pos + n] else s[pos..]
  }

  class Stream {
    var content: seq<byte>
    var position: nat

    /** `File.Create` / `new MemoryStream()`: an empty stream. */
    constructor Create()
      ensures content == [] && position == 0
    {
      content, position := [], 0;
    }

    /** `new FileStream(path, FileMode.Open)` / `new MemoryStream(data)`. */
    constructor Open(data: seq<byte>)
      ensures content == data && position == 0
    {
      content, position := data, 0;
    }

    /** `Write(buffer, 0, count)`. */
    method Write(w: seq<byte>)
      modifies this
      ensures content == Overwrite(old(content), old(position), w)
      ensures position == old(position) + |w|
    {
      content := Overwrite(content, position, w);
      position := position + |w|;
    }

    /** `Read(buffer, 0, count)`: returns the bytes actually read. */
    method Read(count: nat) returns (got: seq<byte>)
      modifies this
      ensures got == Available(old(content), old(position), count)
      ensures content == old(content) && position == old(position) + |got|
    {
      got := Available(content, position, count);
      position := position + |got|;
    }

    /** The `Position` setter: a negative position is rejected. */
    method SetPosition(p: int64) returns (r: Outcome)
      modifies this
      ensures r == if p < 0 then Fail(ArgumentOutOfRange) else Pass
      ensures content == old(content)
      ensures position == if p < 0 then old(position) else p
    {
      if p < 0 {
        return Fail(ArgumentOutOfRange);
      }
      position := p;
      r := Pass;
    }
  }

  /** `BinaryWriter.Write(int)`. */
  method WriteInt32(s: Stream, v: int32)
    modifies s
    ensures s.content == Overwrite(old(s.content), old(s.position), EncodeInt32(v))
    ensures s.position == old(s.position) + 4
  {
    s.Write(EncodeInt32(v));
  }

  /** `BinaryWriter.Write(long)`. */
  method WriteInt64(s: Stream, v: int64)
    modifies s
    ensures s.content == Overwrite(old(s.content), old(s.position), EncodeInt64(v))
    ensures s.position == old(s.position) + 8
  {
    s.Write(EncodeInt64(v));
  }

  /** `BinaryReader.ReadInt32()` at `pos`: fewer than 4 remaining bytes end the stream. */
  function Int32At(s: seq<byte>, pos: nat): (r: Result<int32>)
    ensures r.Success? <==> pos + 4 <= |s|
    ensures r.Failure? ==> r.error == EndOfStream
  {
    if pos + 4 <= |s| then Success(DecodeInt32(s[pos..pos + 4])) else Failure(EndOfStream)
  }

  /** `BinaryReader.ReadInt64()` at `pos`. */
  function Int64At(s: seq<byte>, pos: nat): (r: Result<int64>)
    ensures r.Success? <==> pos + 8 <= |s|
    ensures r.Failure? ==> r.error == EndOfStream
  {
    if pos + 8 <= |s| then Success(DecodeInt64(s[pos..pos + 8])) else Failure(EndOfStream)
  }

  method ReadInt32(s: Stream) returns (r: Result<int32>)
    modifies s
    ensures r == Int32At(old(s.content), old(s.position))
    ensures s.content == old(s.content)
    ensures r.Success? ==> s.position == old(s.position) + 4
  {
    var got := s.Read(4);
    if |got| < 4 {
      return Failure(EndOfStream);
    }
    r := Success(DecodeInt32(got));
  }

  method ReadInt64(s: Stream) returns (r: Result<int64>)
    modifies s
    ensures r == Int64At(old(s.content), old(s.position))
    ensures s.content == old(s.content)
    ensures r.Success? ==> s.position == old(s.position) + 8
  {
    var got := s.Read(8);
    if |got| < 8 {
      return Failure(EndOfStream);
    }
    r := Success(DecodeInt64(got));
  }

  /** `BinaryReader.ReadBytes(count)`: a negative count is rejected; otherwise
      up to `count` bytes, fewer when the stream ends first. */
  method ReadBytes(s: Stream, count: int32) returns (r: Result<seq<byte>>)
    modifies s
    ensures r == if count < 0 then Failure(ArgumentOutOfRange)
                 else Success(Available(old(s.content), old(s.position), count))
    ensures s.content == old(s.content)
  {
    if count < 0 {
      return Failure(ArgumentOutOfRange);
    }
    var got := s.Read(count);
    r := Success(got);
  }
}

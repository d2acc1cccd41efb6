/** Byte layout of the archive header (Archiver.Core/Serializers/ArchiveHeaderSerializer.cs):
    `BlocksCount` as a 4-byte int, then every offset as an 8-byte long. There
    is no magic number or other format marker. */
module ArchiveHeaderSerializer {
  import opened Bytes
  import opened Errors
  import opened ArchiveHeaders
  import opened Streams

  /** The offsets, 8 bytes each, in index order. */
  function OffsetsBytes(offsets: seq<int64>): (r: seq<byte>)
    ensures |r| == 8 * |offsets|
  {
    if offsets == [] then []
    else OffsetsBytes(offsets[..|offsets| - 1]) + EncodeInt64(offsets[|offsets| - 1])
  }

  /** Offset `i` sits in bytes `[8i, 8i + 8)`. */
  lemma {:induction false} OffsetsBytesAt(offsets: seq<int64>, i: nat)
    requires i < |offsets|
    ensures OffsetsBytes(offsets)[8 * i..8 * i + 8] == EncodeInt64(offsets[i])
  {
    var n := |offsets| - 1;
    if i < n {
      OffsetsBytesAt(offsets[..n], i);
      assert offsets[..n][i] == offsets[i];
      assert OffsetsBytes(offsets)[8 * i..8 * i + 8] == OffsetsBytes(offsets[..n])[8 * i..8 * i + 8];
    }
  }

  /** The header bytes. Their length depends on the count alone. */
  function HeaderBytes(h: ArchiveHeader): (r: seq<byte>)
    requires h.Valid()
    ensures |r| == 4 + 8 * h.blocksCount
  {
    EncodeInt32(h.blocksCount) + OffsetsBytes(h.blockOffsets)
  }

  /** The offsets `Deserialize` reads after the count. */
  function DecodeOffsets(data: seq<byte>, count: nat): (offsets: seq<int64>)
    requires 4 + 8 * count <= |data|
    ensures |offsets| == count
    ensures forall i :: 0 <= i < count ==> offsets[i] == DecodeInt64(data[4 + 8 * i..12 + 8 * i])
  {
    seq(count, i requires 0 <= i < count => DecodeInt64(data[4 + 8 * i..12 + 8 * i]))
  }

  /** What `Deserialize` returns: a negative count fails when the offsets
      array is allocated, too few bytes fail while reading. */
  function DecodeHeader(data: seq<byte>): (r: Result<ArchiveHeader>)
    ensures r.Success? <==>
      4 <= |data| && DecodeInt32(data[..4]) >= 0 && 4 + 8 * DecodeInt32(data[..4]) <= |data|
    ensures |data| >= 4 && DecodeInt32(data[..4]) < 0 ==> r == Failure(Overflow)
    ensures r.Failure? && r.error != Overflow ==> r.error == EndOfStream
    ensures r.Success? ==> r.value.Valid() && r.value.blocksCount == DecodeInt32(data[..4])
  {
    if |data| < 4 then Failure(EndOfStream)
    else
      var count := DecodeInt32(data[..4]);
      if count < 0 then Failure(Overflow)
      else if |data| < 4 + 8 * count then Failure(EndOfStream)
      else Success(NewHeader(DecodeOffsets(data, count)))
  }

  /** `Serialize`: the count, then a `foreach` over the offsets, into a
      `MemoryStream`, which refuses to grow past `int.MaxValue` bytes. */
  method Serialize(header: ArchiveHeader) returns (r: Result<seq<byte>>)
    requires header.Valid()
    ensures r.Success? <==> 4 + 8 * header.blocksCount <= INT32_MAX
    ensures r.Failure? ==> r.error == StreamTooLong
    ensures r.Success? ==> r.value == HeaderBytes(header)
  {
    var offsets := header.blockOffsets;
    var stream := new Stream.Create();
    WriteInt32(stream, header.blocksCount);
    OverwriteAtEnd([], EncodeInt32(header.blocksCount));
    for i := 0 to |offsets|
      invariant stream.content == EncodeInt32(header.blocksCount) + OffsetsBytes(offsets[..i])
      invariant stream.position == |stream.content|
      invariant 4 + 8 * i <= INT32_MAX
    {
      if |stream.content| + 8 > INT32_MAX {
        return Failure(StreamTooLong);
      }
      assert offsets[..i + 1][..i] == offsets[..i];
      ghost var head := EncodeInt32(header.blocksCount);
      ghost var body := OffsetsBytes(offsets[..i]);
      ghost var next := EncodeInt64(offsets[i]);
      assert OffsetsBytes(offsets[..i + 1]) == body + next;
      assert head + body + next == head + (body + next);
      OverwriteAtEnd(stream.content, next);
      WriteInt64(stream, offsets[i]);
    }
    assert offsets[..|offsets|] == offsets;
    r := Success(stream.content);
  }

  /** `Deserialize`: the count, a `long[count]`, and a `for` loop reading each offset. */
  method Deserialize(data: seq<byte>) returns (r: Result<ArchiveHeader>)
    ensures r == DecodeHeader(data)
  {
    var stream := new Stream.Open(data);
    var count := ReadInt32(stream);
    if count.Failure? {
      return Failure(count.error);
    }
    if count.value < 0 {
      return Failure(Overflow);
    }
    var offsets := new int64[count.value];
    for i := 0 to count.value
      invariant stream.content == data && stream.position == 4 + 8 * i <= |data|
      invariant forall k :: 0 <= k < i ==> offsets[k] == DecodeInt64(data[4 + 8 * k..12 + 8 * k])
    {
      var offset := ReadInt64(stream);
      if offset.Failure? {
        return Failure(offset.error);
      }
      offsets[i] := offset.value;
    }
    assert offsets[..] == DecodeOffsets(data, count.value);
    r := Success(NewHeader(offsets[..]));
  }

  /** Decoding a serialized header gives the header back; bytes after the
      last offset are ignored. */
  lemma DecodeHeaderBytes(h: ArchiveHeader, rest: seq<byte>)
    requires h.Valid()
    ensures DecodeHeader(HeaderBytes(h) + rest) == Success(h)
  {
    var data := HeaderBytes(h) + rest;
    var n := h.blocksCount;
    assert data[..4] == EncodeInt32(n);
    DecodeEncodeInt32(n);
    var offsets := DecodeOffsets(data, n);
    forall i | 0 <= i < n ensures offsets[i] == h.blockOffsets[i] {
      DecodedOffsetAt(h, rest, i);
    }
    assert offsets == h.blockOffsets;
  }

  lemma DecodedOffsetAt(h: ArchiveHeader, rest: seq<byte>, i: nat)
    requires h.Valid() && i < h.blocksCount
    ensures var data := HeaderBytes(h) + rest;
      DecodeInt64(data[4 + 8 * i..12 + 8 * i]) == h.blockOffsets[i]
  {
    var body := OffsetsBytes(h.blockOffsets);
    var data := HeaderBytes(h) + rest;
    assert data == EncodeInt32(h.blocksCount) + body + rest;
    assert data[4 + 8 * i..12 + 8 * i] == body[8 * i..8 * i + 8];
    OffsetsBytesAt(h.blockOffsets, i);
    DecodeEncodeInt64(h.blockOffsets[i]);
  }

  /** Without a format marker, any bytes that open with a zero count are an
      empty header. */
  lemma ZeroCountIsEmptyHeader(data: seq<byte>)
    requires 4 <= |data| && data[..4] == Zeros(4)
    ensures DecodeHeader(data) == Success(NewHeader([]))
  {
    DecodeZerosInt32();
  }
}

/** Byte layout of one block record (Archiver.Core/Serializers/FileBlockSerializer.cs):
    `Index` as a 4-byte int, `Size` as a 4-byte int, then the payload. */
module FileBlockSerializer {
  import opened Bytes
  import opened Errors
  import opened FileBlocks
  import opened Streams

  /** The record bytes of a block. */
  function BlockBytes(b: FileBlock): (r: seq<byte>)
    requires b.Valid()
    ensures |r| == 8 + b.size
  {
    EncodeInt32(b.index) + EncodeInt32(b.size) + b.data
  }

  /** What `Deserialize` returns: index, declared length, then at most that
      many payload bytes; the block's `Size` is the number actually read. */
  function DecodeBlock(data: seq<byte>): (r: Result<FileBlock>)
    ensures |data| < 8 ==> r == Failure(EndOfStream)
    ensures r.Failure? ==> r.error == EndOfStream || r.error == ArgumentOutOfRange
    ensures r.Success? <==> 8 <= |data| && DecodeInt32(data[4..8]) >= 0
    ensures r.Success? ==> r.value.Valid() && r.value.index == DecodeInt32(data[..4])
  {
    if |data| < 8 then Failure(EndOfStream)
    else
      var length := DecodeInt32(data[4..8]);
      if length < 0 then Failure(ArgumentOutOfRange)
      else Success(NewBlock(DecodeInt32(data[..4]), Available(data, 8, length)))
  }

  /** `Serialize`: successive `BinaryWriter` writes into a fresh `MemoryStream`. */
  method Serialize(block: FileBlock) returns (bytes: seq<byte>)
    requires block.Valid()
    ensures bytes == BlockBytes(block)
  {
    var stream := new Stream.Create();
    WriteInt32(stream, block.index);
    OverwriteAtEnd([], EncodeInt32(block.index));
    WriteInt32(stream, block.size);
    OverwriteAtEnd(EncodeInt32(block.index), EncodeInt32(block.size));
    stream.Write(block.data);
    OverwriteAtEnd(EncodeInt32(block.index) + EncodeInt32(block.size), block.data);
    bytes := stream.content;
  }

  /** `Deserialize`: `ReadInt32`, `ReadInt32`, `ReadBytes` over a `MemoryStream`. */
  method Deserialize(data: seq<byte>) returns (r: Result<FileBlock>)
    ensures r == DecodeBlock(data)
  {
    var stream := new Stream.Open(data);
    var index := ReadInt32(stream);
    if index.Failure? {
      return Failure(index.error);
    }
    var length := ReadInt32(stream);
    if length.Failure? {
      return Failure(length.error);
    }
    var payload := ReadBytes(stream, length.value);
    if payload.Failure? {
      return Failure(payload.error);
    }
    r := Success(NewBlock(index.value, payload.value));
  }

  /** Decoding a serialized block gives the block back, whatever follows it. */
  lemma DecodeBlockBytes(b: FileBlock, rest: seq<byte>)
    requires b.Valid()
    ensures DecodeBlock(BlockBytes(b) + rest) == Success(b)
  {
    var data := BlockBytes(b) + rest;
    assert data[..4] == EncodeInt32(b.index) && data[4..8] == EncodeInt32(b.size);
    DecodeEncodeInt32(b.index);
    DecodeEncodeInt32(b.size);
    assert Available(data, 8, b.size) == b.data;
  }

  /** A record whose payload is cut short decodes to a block holding only the
      bytes that are there: its `Size` is the actual, not the declared, length. */
  lemma DecodeTruncatedBlock(data: seq<byte>)
    requires 8 <= |data| && |data| - 8 < DecodeInt32(data[4..8])
    ensures DecodeBlock(data).Success?
    ensures DecodeBlock(data).value.data == data[8..]
    ensures DecodeBlock(data).value.size == |data| - 8 < DecodeInt32(data[4..8])
  {
  }
}

/** The compress side (Archiver.Core/Compressors/GZipActionCompressor.cs):
    the reader that cuts the source into blocks, the per-block transform,
    and the writer that lays the archive out as a placeholder header, the
    framed block records in arrival order, and the header rewritten in place. */
module ActionCompressor {
  import opened Bytes
  import opened Errors
  import opened Arith
  import opened FileBlocks
  import opened ArchiveHeaders
  import opened Streams
  import opened SyncContext
  import opened FileStreamExtensions
  import FileBlockSerializer
  import ArchiveHeaderSerializer

  // ---------------------------------------------------------------------------
  // Archive layout

  /** The number of blocks the writer reserves header room for. */
  function BlocksCount(sourceLength: nat, blockSize: int32): nat
    requires blockSize > 0
  {
    CeilDiv(sourceLength, blockSize)
  }

  /** A block as the writer receives it: its payload is a .NET array, so at
      most `Array.MaxLength` bytes, and its framed record fits an `int` length. */
  predicate Writable(b: FileBlock) {
    b.Valid() && b.size <= ARRAY_MAX_LENGTH
  }

  predicate AllWritable(blocks: seq<FileBlock>) {
    forall i :: 0 <= i < |blocks| ==> Writable(blocks[i])
  }

  predicate AllInRange(blocks: seq<FileBlock>, n: int) {
    forall i :: 0 <= i < |blocks| ==> 0 <= blocks[i].index < n
  }

  /** The framed record of one block, as the writer appends it. */
  function Record(b: FileBlock): (r: seq<byte>)
    requires Writable(b)
    ensures |r| == 12 + b.size
  {
    Frame(FileBlockSerializer.BlockBytes(b))
  }

  /** The records of `blocks`, in the order they were dequeued. */
  function Records(blocks: seq<FileBlock>): (r: seq<byte>)
    requires AllWritable(blocks)
  {
    if blocks == [] then []
    else Records(blocks[..|blocks| - 1]) + Record(blocks[|blocks| - 1])
  }

  /** The header the writer reserves before any block: `n` zero offsets. */
  function Placeholder(n: nat): (h: ArchiveHeader)
    requires n <= INT32_MAX
    ensures h.Valid() && h.blocksCount == n
    ensures forall i :: 0 <= i < n ==> h.blockOffsets[i] == 0
  {
    NewHeader(seq(n, _ => 0))
  }

  /** The framed header; its length is `4 + 4 + 8n` whatever the offsets. */
  function HeaderFrame(h: ArchiveHeader): (r: seq<byte>)
    requires h.Valid() && 4 + 8 * h.blocksCount <= INT32_MAX
    ensures |r| == 8 + 8 * h.blocksCount
  {
    Frame(ArchiveHeaderSerializer.HeaderBytes(h))
  }

  /** The offsets the writer records: starting from zeros, block `k` sets
      `offsets[blocks[k].index]` to the position of its length prefix. */
  function Offsets(blocks: seq<FileBlock>, n: nat, base: nat): (offsets: seq<int64>)
    requires AllWritable(blocks) && AllInRange(blocks, n)
    requires base + |Records(blocks)| <= INT64_MAX
    ensures |offsets| == n
    ensures forall i :: 0 <= i < n && (forall j :: 0 <= j < |blocks| ==> blocks[j].index != i) ==>
      offsets[i] == 0
  {
    if blocks == [] then seq(n, _ => 0)
    else
      var init := blocks[..|blocks| - 1];
      Offsets(init, n, base)[blocks[|blocks| - 1].index := base + |Records(init)|]
  }

  /** A header of `n` offsets that `CreateEmpty` can allocate and whose
      bytes fit the `MemoryStream` they are serialized into. */
  predicate HeaderFits(n: int) {
    0 <= n && 4 + 8 * n <= INT32_MAX
  }

  /** The archive's size is a valid `long` file position. */
  predicate ArchiveFits(blocks: seq<FileBlock>, n: nat)
    requires AllWritable(blocks)
  {
    4 + 8 * n <= INT32_MAX && 8 + 8 * n + |Records(blocks)| <= INT64_MAX
  }

  /** The whole archive after a successful `Write`. */
  function Archive(blocks: seq<FileBlock>, n: nat): (r: seq<byte>)
    requires AllWritable(blocks) && AllInRange(blocks, n) && ArchiveFits(blocks, n)
    ensures |r| == 8 + 8 * n + |Records(blocks)|
  {
    HeaderFrame(NewHeader(Offsets(blocks, n, 8 + 8 * n))) + Records(blocks)
  }

  /** The position of the first dequeued block whose index has no slot in `blockOffsets`. */
  function FirstOutOfRange(blocks: seq<FileBlock>, n: int): (k: nat)
    ensures k <= |blocks|
    ensures forall j :: 0 <= j < k ==> 0 <= blocks[j].index < n
    ensures k < |blocks| ==> !(0 <= blocks[k].index < n)
  {
    if blocks == [] then 0
    else if !(0 <= blocks[0].index < n) then 0
    else 1 + FirstOutOfRange(blocks[1..], n)
  }

  lemma RecordsSnoc(s: seq<FileBlock>, last: FileBlock)
    requires AllWritable(s) && Writable(last)
    ensures AllWritable(s + [last])
    ensures Records(s + [last]) == Records(s) + Record(last)
  {
    assert (s + [last])[..|s|] == s;
  }

  /** The records of a concatenation are the concatenation of the records. */
  lemma {:induction false} RecordsAppend(a: seq<FileBlock>, b: seq<FileBlock>)
    requires AllWritable(a) && AllWritable(b)
    ensures AllWritable(a + b)
    ensures Records(a + b) == Records(a) + Records(b)
  {
    if b == [] {
      assert a + b == a;
    } else {
      var init, last := b[..|b| - 1], b[|b| - 1];
      assert b == init + [last];
      assert a + b == (a + init) + [last];
      RecordsAppend(a, init);
      RecordsAppendStep(a + b, a, b, init, last);
    }
  }

  lemma Associative(x: seq<byte>, y: seq<byte>, z: seq<byte>)
    ensures (x + y) + z == x + (y + z)
  {
  }

  lemma RecordsAppendStep(ab: seq<FileBlock>, a: seq<FileBlock>, b: seq<FileBlock>,
                          init: seq<FileBlock>, last: FileBlock)
    requires AllWritable(a) && AllWritable(init) && Writable(last)
    requires b == init + [last] && ab == (a + init) + [last]
    requires AllWritable(a + init) && Records(a + init) == Records(a) + Records(init)
    ensures AllWritable(ab) && AllWritable(b)
    ensures Records(ab) == Records(a) + Records(b)
  {
    RecordsSnoc(a + init, last);
    RecordsSnoc(init, last);
    Associative(Records(a), Records(init), Record(last));
  }

  lemma RecordsPrefixShorter(blocks: seq<FileBlock>, i: nat)
    requires AllWritable(blocks) && i <= |blocks|
    ensures AllWritable(blocks[..i])
    ensures |Records(blocks[..i])| <= |Records(blocks)|
  {
    assert blocks == blocks[..i] + blocks[i..];
    RecordsAppend(blocks[..i], blocks[i..]);
  }

  lemma RecordsStep(blocks: seq<FileBlock>, i: nat)
    requires AllWritable(blocks) && i < |blocks|
    ensures AllWritable(blocks[..i]) && AllWritable(blocks[..i + 1])
    ensures Records(blocks[..i + 1]) == Records(blocks[..i]) + Record(blocks[i])
  {
    assert blocks[..i + 1] == blocks[..i] + [blocks[i]];
    RecordsSnoc(blocks[..i], blocks[i]);
  }

  /** What one turn of the writer's loop does to the offsets. */
  lemma OffsetsStep(blocks: seq<FileBlock>, i: nat, n: nat, base: nat)
    requires AllWritable(blocks) && i < |blocks|
    requires AllWritable(blocks[..i + 1]) && AllInRange(blocks[..i + 1], n)
    requires base + |Records(blocks[..i + 1])| <= INT64_MAX
    requires Records(blocks[..i + 1]) == Records(blocks[..i]) + Record(blocks[i])
    ensures AllWritable(blocks[..i]) && AllInRange(blocks[..i], n)
    ensures Offsets(blocks[..i + 1], n, base)
         == Offsets(blocks[..i], n, base)[blocks[i].index := base + |Records(blocks[..i])|]
  {
    var p := blocks[..i + 1];
    assert p[..i] == blocks[..i] && p[i] == blocks[i];
  }

  /** One turn of the writer's loop: the records grow by the block's record
      and its slot in the offsets is set to where that record starts. */
  lemma WriteStep(blocks: seq<FileBlock>, i: nat, n: nat, base: nat)
    requires AllWritable(blocks) && i < |blocks| && base + |Records(blocks)| <= INT64_MAX
    requires AllInRange(blocks[..i], n) && 0 <= blocks[i].index < n
    ensures AllWritable(blocks[..i]) && AllWritable(blocks[..i + 1])
    ensures AllInRange(blocks[..i + 1], n)
    ensures Records(blocks[..i + 1]) == Records(blocks[..i]) + Record(blocks[i])
    ensures |Records(blocks[..i + 1])| <= |Records(blocks)|
    ensures Offsets(blocks[..i + 1], n, base)
         == Offsets(blocks[..i], n, base)[blocks[i].index := base + |Records(blocks[..i])|]
  {
    RecordsStep(blocks, i);
    RecordsPrefixShorter(blocks, i + 1);
    assert blocks[..i + 1] == blocks[..i] + [blocks[i]];
    OffsetsStep(blocks, i, n, base);
  }

  lemma FirstOutOfRangeAt(blocks: seq<FileBlock>, n: int, i: nat)
    requires i < |blocks| && AllInRange(blocks[..i], n) && !(0 <= blocks[i].index < n)
    ensures FirstOutOfRange(blocks, n) == i
  {
  }

  lemma FirstOutOfRangeNone(blocks: seq<FileBlock>, n: int)
    requires AllInRange(blocks, n)
    ensures FirstOutOfRange(blocks, n) == |blocks|
  {
  }

  // ---------------------------------------------------------------------------
  // Writer

  /** The opening of `Write`: `CreateEmpty(blocksCount)`, serialized and framed
      at the start of the empty target stream. A negative count fails in
      `new long[blocksCount]`, a header past `int.MaxValue` bytes in its
      `MemoryStream`; either way nothing reaches the target stream. */
  method WritePlaceholder(stream: Stream, blocksCount: int32) returns (r: Result<seq<byte>>)
    requires stream.content == [] && stream.position == 0
    modifies stream
    ensures r.Success? <==> HeaderFits(blocksCount)
    ensures r.Failure? ==> r.error == (if blocksCount < 0 then Overflow else StreamTooLong)
    ensures r.Failure? ==> stream.content == [] && stream.position == 0
    ensures r.Success? ==>
      && r.value == ArchiveHeaderSerializer.HeaderBytes(Placeholder(blocksCount))
      && stream.content == HeaderFrame(Placeholder(blocksCount))
      && stream.position == 8 + 8 * blocksCount
  {
    var emptyArchiveHeader := CreateEmpty(blocksCount);
    if emptyArchiveHeader.Failure? {
      return Failure(emptyArchiveHeader.error);
    }
    assert emptyArchiveHeader.value == Placeholder(blocksCount);
    r := ArchiveHeaderSerializer.Serialize(emptyArchiveHeader.value);
    if r.Failure? {
      return;
    }
    OverwriteAtEnd([], Frame(r.value));
    WriteArray(stream, r.value);
  }

  /** One turn of the loop of `Write`: serialize the block, note the stream
      position in `blockOffsets[block.Index]`, append the framed record, and
      report the write. */
  method WriteBlock(stream: Stream, block: FileBlock, context: CompressorSyncContext,
                    blockOffsets: array<int64>)
    requires Writable(block) && 0 <= block.index < blockOffsets.Length
    requires stream.position == |stream.content|
    requires |stream.content| + |Record(block)| <= INT64_MAX
    modifies stream, context, blockOffsets
    ensures stream.content == old(stream.content) + Record(block)
    ensures stream.position == |stream.content|
    ensures blockOffsets[..] == old(blockOffsets[..])[block.index := |old(stream.content)|]
    ensures context.readCount == old(context.readCount)
    ensures context.writeCount == old(context.writeCount) + 1
  {
    var serializedData := FileBlockSerializer.Serialize(block);
    blockOffsets[block.index] := stream.position;
    OverwriteAtEnd(stream.content, Frame(serializedData));
    WriteArray(stream, serializedData);
    context.IncrementWriteCount();
  }

  /** The writer after `i` blocks: the stream holds `prefix` and the records
      of `blocks[..i]`, and `offsets` their offsets. */
  predicate WrittenSoFar(content: seq<byte>, offsets: seq<int64>, prefix: seq<byte>,
                         blocks: seq<FileBlock>, i: nat, n: nat)
  {
    && i <= |blocks| && AllWritable(blocks) && AllInRange(blocks[..i], n)
    && |prefix| + |Records(blocks)| <= INT64_MAX
    && (RecordsPrefixShorter(blocks, i);
        content == prefix + Records(blocks[..i]) && offsets == Offsets(blocks[..i], n, |prefix|))
  }

  lemma WrittenSoFarStart(content: seq<byte>, offsets: seq<int64>, blocks: seq<FileBlock>, n: nat)
    requires AllWritable(blocks) && |content| + |Records(blocks)| <= INT64_MAX
    requires offsets == seq(n, _ => 0)
    ensures WrittenSoFar(content, offsets, content, blocks, 0, n)
  {
    assert blocks[..0] == [];
    assert content + [] == content;
  }

  lemma WrittenSoFarStep(content: seq<byte>, offsets: seq<int64>, prefix: seq<byte>,
                         blocks: seq<FileBlock>, i: nat, n: nat)
    requires WrittenSoFar(content, offsets, prefix, blocks, i, n)
    requires i < |blocks| && 0 <= blocks[i].index < n
    ensures Writable(blocks[i]) && |content| + |Record(blocks[i])| <= INT64_MAX
    ensures |offsets| == n
    ensures WrittenSoFar(content + Record(blocks[i]), offsets[blocks[i].index := |content|],
                         prefix, blocks, i + 1, n)
  {
    WriteStep(blocks, i, n, |prefix|);
    Associative(prefix, Records(blocks[..i]), Record(blocks[i]));
  }

  lemma WrittenSoFarEnd(content: seq<byte>, offsets: seq<int64>, prefix: seq<byte>,
                        blocks: seq<FileBlock>, n: nat)
    requires WrittenSoFar(content, offsets, prefix, blocks, |blocks|, n)
    ensures AllInRange(blocks, n)
    ensures content == prefix + Records(blocks) && offsets == Offsets(blocks, n, |prefix|)
  {
    assert blocks[..|blocks|] == blocks;
  }

  lemma WrittenSoFarPrefix(content: seq<byte>, offsets: seq<int64>, prefix: seq<byte>,
                          blocks: seq<FileBlock>, i: nat, n: nat)
    requires WrittenSoFar(content, offsets, prefix, blocks, i, n)
    ensures AllWritable(blocks[..i]) && content == prefix + Records(blocks[..i])
  {
  }

  /** The loop of `Write`: each dequeued block's record is appended and its
      offset noted in `blockOffsets[block.Index]`; a block with no slot there
      stops the loop with `IndexOutOfRange`. */
  method WriteBlocks(stream: Stream, targetBlocks: seq<FileBlock>, context: CompressorSyncContext,
                     blockOffsets: array<int64>)
    returns (r: Outcome, ghost k: nat)
    requires AllWritable(targetBlocks)
    requires blockOffsets[..] == seq(blockOffsets.Length, _ => 0)
    requires stream.position == |stream.content|
    requires |stream.content| + |Records(targetBlocks)| <= INT64_MAX
    modifies stream, context, blockOffsets
    ensures k == FirstOutOfRange(targetBlocks, blockOffsets.Length)
    ensures WrittenSoFar(stream.content, blockOffsets[..], old(stream.content), targetBlocks, k,
                         blockOffsets.Length)
    ensures stream.position == |stream.content|
    ensures context.readCount == old(context.readCount)
    ensures context.writeCount == old(context.writeCount) + k
    ensures r == if k < |targetBlocks| then Fail(IndexOutOfRange) else Pass
  {
    ghost var prefix := stream.content;
    ghost var n := blockOffsets.Length;
    WrittenSoFarStart(prefix, blockOffsets[..], targetBlocks, n);
    var i := 0;
    while i < |targetBlocks|
      invariant WrittenSoFar(stream.content, blockOffsets[..], prefix, targetBlocks, i, n)
      invariant stream.position == |stream.content|
      invariant context.readCount == old(context.readCount)
      invariant context.writeCount == old(context.writeCount) + i
    {
      var block := targetBlocks[i];
      if !(0 <= block.index < blockOffsets.Length) {
        FirstOutOfRangeAt(targetBlocks, n, i);
        return Fail(IndexOutOfRange), i;
      }
      WrittenSoFarStep(stream.content, blockOffsets[..], prefix, targetBlocks, i, n);
      WriteBlock(stream, block, context, blockOffsets);
      i := i + 1;
    }
    WrittenSoFarEnd(stream.content, blockOffsets[..], prefix, targetBlocks, n);
    FirstOutOfRangeNone(targetBlocks, n);
    r, k := Pass, i;
  }

  /** `(int)Math.Ceiling(...)` on the block count: C#'s unchecked cast,
      which on x64 turns every value past `int.MaxValue` into `int.MinValue`. */
  function CastBlocksCount(n: nat): (r: int32)
    ensures r >= 0 <==> n <= INT32_MAX
    ensures r >= 0 ==> r == n
  {
    if n <= INT32_MAX then n else INT32_MIN
  }

  /** `Write`: `blocksCount` is `⌈sourceFileBytesCount / BlockSizeBytes⌉`
      cast to `int`; the rest is `WriteArchive`. A count past `int.MaxValue`
      fails in `new long[blocksCount]`, one whose header passes
      `int.MaxValue` bytes when the header is serialized. */
  method Write(stream: Stream, targetBlocks: seq<FileBlock>, context: CompressorSyncContext,
               sourceFileBytesCount: nat, blockSize: int32)
    returns (r: Outcome)
    requires blockSize > 0
    requires stream.content == [] && stream.position == 0
    requires AllWritable(targetBlocks)
    requires HeaderFits(BlocksCount(sourceFileBytesCount, blockSize)) ==>
      ArchiveFits(targetBlocks, BlocksCount(sourceFileBytesCount, blockSize))
    modifies stream, context
    ensures context.readCount == old(context.readCount)
    ensures r == Pass <==>
      var n := BlocksCount(sourceFileBytesCount, blockSize);
      HeaderFits(n) && AllInRange(targetBlocks, n)
    ensures r.Fail? ==>
      var n := BlocksCount(sourceFileBytesCount, blockSize);
      r.error == if n > INT32_MAX then Overflow else if !HeaderFits(n) then StreamTooLong else IndexOutOfRange
    ensures !HeaderFits(BlocksCount(sourceFileBytesCount, blockSize)) ==>
      stream.content == [] && context.writeCount == old(context.writeCount)
    ensures HeaderFits(BlocksCount(sourceFileBytesCount, blockSize)) ==>
      var n := BlocksCount(sourceFileBytesCount, blockSize);
      var k := FirstOutOfRange(targetBlocks, n);
      && context.writeCount == old(context.writeCount) + k
      && AllWritable(targetBlocks[..k])
      && (r.Fail? ==> stream.content == HeaderFrame(Placeholder(n)) + Records(targetBlocks[..k]))
    ensures r == Pass ==>
      var n := BlocksCount(sourceFileBytesCount, blockSize);
      ArchiveFits(targetBlocks, n) && stream.content == Archive(targetBlocks, n)
  {
    var blocksCount := CastBlocksCount(BlocksCount(sourceFileBytesCount, blockSize));
    r := WriteArchive(stream, targetBlocks, context, blocksCount);
  }

  /** The body of `Write` for a given `blocksCount`: reserve the placeholder
      header, append each dequeued block's record while noting its offset,
      then rewrite the header at position 0. A block whose index has no slot
      stops the writer with `IndexOutOfRange` before anything of it is written. */
  method WriteArchive(stream: Stream, targetBlocks: seq<FileBlock>, context: CompressorSyncContext,
                      blocksCount: int32)
    returns (r: Outcome)
    requires stream.content == [] && stream.position == 0
    requires AllWritable(targetBlocks)
    requires HeaderFits(blocksCount) ==> ArchiveFits(targetBlocks, blocksCount)
    modifies stream, context
    ensures context.readCount == old(context.readCount)
    ensures r == Pass <==> HeaderFits(blocksCount) && AllInRange(targetBlocks, blocksCount)
    ensures r.Fail? ==>
      r.error == if blocksCount < 0 then Overflow else if !HeaderFits(blocksCount) then StreamTooLong
                 else IndexOutOfRange
    ensures !HeaderFits(blocksCount) ==>
      stream.content == [] && context.writeCount == old(context.writeCount)
    ensures HeaderFits(blocksCount) ==>
      var k := FirstOutOfRange(targetBlocks, blocksCount);
      && context.writeCount == old(context.writeCount) + k
      && AllWritable(targetBlocks[..k])
      && (r.Fail? ==> stream.content == HeaderFrame(Placeholder(blocksCount)) + Records(targetBlocks[..k]))
    ensures r == Pass ==>
      ArchiveFits(targetBlocks, blocksCount) && stream.content == Archive(targetBlocks, blocksCount)
  {
    var emptyHeaderBytes := WritePlaceholder(stream, blocksCount);
    if emptyHeaderBytes.Failure? {
      return Fail(emptyHeaderBytes.error);
    }
    ghost var placeholder := stream.content;

    var blockOffsets := new int64[blocksCount](_ => 0);
    ghost var k;
    r, k := WriteBlocks(stream, targetBlocks, context, blockOffsets);
    WrittenSoFarPrefix(stream.content, blockOffsets[..], placeholder, targetBlocks, k, blocksCount);
    if r.Fail? {
      return;
    }
    WrittenSoFarEnd(stream.content, blockOffsets[..], placeholder, targetBlocks, blocksCount);
    ArchiveOfOffsets(targetBlocks, blocksCount, blockOffsets[..], |placeholder|);
    RewriteHeader(stream, blockOffsets, emptyHeaderBytes.value, Records(targetBlocks));
  }

  /** The archive is the header holding the offsets the writer noted, then the records. */
  lemma ArchiveOfOffsets(blocks: seq<FileBlock>, n: nat, offsets: seq<int64>, base: nat)
    requires AllWritable(blocks) && AllInRange(blocks, n) && ArchiveFits(blocks, n)
    requires base == 8 + 8 * n && offsets == Offsets(blocks, n, base)
    ensures Archive(blocks, n) == HeaderFrame(NewHeader(offsets)) + Records(blocks)
  {
  }

  /** The end of `Write`: the header built from `blockOffsets` is serialized,
      checked to be as long as the placeholder, and written over it at
      position 0; the records after it are untouched. */
  method RewriteHeader(stream: Stream, blockOffsets: array<int64>, emptyHeaderBytes: seq<byte>,
                       ghost records: seq<byte>)
    requires 4 + 8 * blockOffsets.Length <= INT32_MAX
    requires |emptyHeaderBytes| == 4 + 8 * blockOffsets.Length
    requires stream.content == Frame(emptyHeaderBytes) + records
    modifies stream
    ensures stream.content == HeaderFrame(NewHeader(blockOffsets[..])) + records
  {
    var newHeader := NewHeader(blockOffsets[..]);
    var serialized := ArchiveHeaderSerializer.Serialize(newHeader);
    var newHeaderBytes := serialized.value;
    // The InvalidOperationException guard: the two headers always have the same length.
    assert |newHeaderBytes| == |emptyHeaderBytes|;
    var _ := stream.SetPosition(0);
    OverwritePrefix(Frame(emptyHeaderBytes), records, Frame(newHeaderBytes));
    WriteArray(stream, newHeaderBytes);
  }

  // ---------------------------------------------------------------------------
  // Reader

  /** The blocks `Read` cuts `data` into, numbered from `index` by an
      unchecked `index++`: full blocks while a read fills the buffer, then
      one block with whatever the last read returned, even when that is nothing. */
  function Chunks(data: seq<byte>, blockSize: int32, index: int32): (blocks: seq<FileBlock>)
    requires blockSize > 0
    decreases |data|
  {
    if |data| < blockSize then [NewBlock(index, data)]
    else [NewBlock(index, data[..blockSize])] + Chunks(data[blockSize..], blockSize, Next(index))
  }

  /** The reader as intended: the same blocks, without an empty one at the end. */
  function ChunksFixed(data: seq<byte>, blockSize: int32, index: int32): (blocks: seq<FileBlock>)
    requires blockSize > 0
    decreases |data|
  {
    if |data| == 0 then []
    else if |data| < blockSize then [NewBlock(index, data)]
    else [NewBlock(index, data[..blockSize])] + ChunksFixed(data[blockSize..], blockSize, Next(index))
  }

  /** A read that fills the buffer: a block of `blockSize` bytes, then the
      blocks of the rest. */
  lemma FullRead(data: seq<byte>, pos: nat, blockSize: int32, index: int32, got: seq<byte>)
    requires blockSize > 0 && pos <= |data|
    requires got == Available(data, pos, blockSize) && |got| == blockSize
    ensures pos + blockSize <= |data|
    ensures Chunks(data[pos..], blockSize, index)
         == [NewBlock(index, got)] + Chunks(data[pos + blockSize..], blockSize, Next(index))
    ensures ChunksFixed(data[pos..], blockSize, index)
         == [NewBlock(index, got)] + ChunksFixed(data[pos + blockSize..], blockSize, Next(index))
  {
    var rest := data[pos..];
    assert got == rest[..blockSize] && rest[blockSize..] == data[pos + blockSize..];
  }

  /** A short read: what it returns is the rest of the stream, the last block. */
  lemma ShortRead(data: seq<byte>, pos: nat, blockSize: int32, index: int32, got: seq<byte>)
    requires blockSize > 0 && pos <= |data|
    requires got == Available(data, pos, blockSize) && |got| < blockSize
    ensures got == data[pos..]
    ensures Chunks(data[pos..], blockSize, index) == [NewBlock(index, got)]
    ensures ChunksFixed(data[pos..], blockSize, index) == if got == [] then [] else [NewBlock(index, got)]
  {
  }

  /** `Read`'s loop invariant after a full read. */
  lemma FullReadStep(data: seq<byte>, pos: nat, blockSize: int32, index: int32, got: seq<byte>,
                     sourceBlocks: seq<FileBlock>)
    requires blockSize > 0 && pos <= |data|
    requires got == Available(data, pos, blockSize) && |got| == blockSize
    requires sourceBlocks + Chunks(data[pos..], blockSize, index) == Chunks(data, blockSize, 0)
    ensures pos + blockSize <= |data|
    ensures (sourceBlocks + [NewBlock(index, got)]) + Chunks(data[pos + blockSize..], blockSize, Next(index))
         == Chunks(data, blockSize, 0)
  {
    FullRead(data, pos, blockSize, index, got);
    var later := Chunks(data[pos + blockSize..], blockSize, Next(index));
    assert (sourceBlocks + [NewBlock(index, got)]) + later == sourceBlocks + ([NewBlock(index, got)] + later);
  }

  /** `ReadFixed`'s loop invariant after a full read. */
  lemma FullReadFixedStep(data: seq<byte>, pos: nat, blockSize: int32, index: int32, got: seq<byte>,
                          sourceBlocks: seq<FileBlock>)
    requires blockSize > 0 && pos <= |data|
    requires got == Available(data, pos, blockSize) && |got| == blockSize
    requires sourceBlocks + ChunksFixed(data[pos..], blockSize, index) == ChunksFixed(data, blockSize, 0)
    ensures pos + blockSize <= |data|
    ensures (sourceBlocks + [NewBlock(index, got)]) + ChunksFixed(data[pos + blockSize..], blockSize, Next(index))
         == ChunksFixed(data, blockSize, 0)
  {
    FullRead(data, pos, blockSize, index, got);
    var later := ChunksFixed(data[pos + blockSize..], blockSize, Next(index));
    assert (sourceBlocks + [NewBlock(index, got)]) + later == sourceBlocks + ([NewBlock(index, got)] + later);
  }

  /** `Read`: `BlockSizeBytes`-sized reads into one buffer, a dense block
      index, and a stop after the first short read. */
  method Read(stream: Stream, context: CompressorSyncContext, blockSize: int32)
    returns (sourceBlocks: seq<FileBlock>)
    requires blockSize > 0 && stream.position == 0
    modifies stream, context
    ensures sourceBlocks == Chunks(old(stream.content), blockSize, 0)
    ensures context.readCount == old(context.readCount) + |sourceBlocks|
    ensures context.writeCount == old(context.writeCount)
    ensures stream.content == old(stream.content)
  {
    ghost var data := stream.content;
    var index: int32 := 0;
    sourceBlocks := [];
    assert data[0..] == data;
    while true
      invariant stream.content == data && stream.position <= |data|
      invariant sourceBlocks + Chunks(data[stream.position..], blockSize, index)
             == Chunks(data, blockSize, 0)
      invariant context.readCount == old(context.readCount) + |sourceBlocks|
      invariant context.writeCount == old(context.writeCount)
      decreases |data| - stream.position
    {
      ghost var pos := stream.position;
      context.IncrementReadCount();
      var readBytes := stream.Read(blockSize);
      if |readBytes| < blockSize {
        ShortRead(data, pos, blockSize, index, readBytes);
        sourceBlocks := sourceBlocks + [NewBlock(index, readBytes)];
        break;
      }
      FullReadStep(data, pos, blockSize, index, readBytes, sourceBlocks);
      sourceBlocks := sourceBlocks + [NewBlock(index, readBytes)];
      index := Next(index);
    }
  }

  /** The reader with the empty trailing block dropped. */
  method ReadFixed(stream: Stream, context: CompressorSyncContext, blockSize: int32)
    returns (sourceBlocks: seq<FileBlock>)
    requires blockSize > 0 && stream.position == 0
    modifies stream, context
    ensures sourceBlocks == ChunksFixed(old(stream.content), blockSize, 0)
    ensures context.readCount == old(context.readCount) + |sourceBlocks|
         || context.readCount == old(context.readCount) + |sourceBlocks| + 1
    ensures context.writeCount == old(context.writeCount)
    ensures stream.content == old(stream.content)
  {
    ghost var data := stream.content;
    var index: int32 := 0;
    sourceBlocks := [];
    assert data[0..] == data;
    while true
      invariant stream.content == data && stream.position <= |data|
      invariant sourceBlocks + ChunksFixed(data[stream.position..], blockSize, index)
             == ChunksFixed(data, blockSize, 0)
      invariant context.readCount == old(context.readCount) + |sourceBlocks|
      invariant context.writeCount == old(context.writeCount)
      decreases |data| - stream.position
    {
      ghost var pos := stream.position;
      context.IncrementReadCount();
      var readBytes := stream.Read(blockSize);
      if |readBytes| < blockSize {
        ShortRead(data, pos, blockSize, index, readBytes);
        if |readBytes| > 0 {
          sourceBlocks := sourceBlocks + [NewBlock(index, readBytes)];
        } else {
          assert sourceBlocks + [] == sourceBlocks;
        }
        break;
      }
      FullReadFixedStep(data, pos, blockSize, index, readBytes, sourceBlocks);
      sourceBlocks := sourceBlocks + [NewBlock(index, readBytes)];
      index := Next(index);
    }
  }

  /** Numbering the first block `index` and the rest from `Next(index)`
      numbers block `i` with `index + i`, wrapped. */
  lemma IndicesFrom(c: seq<FileBlock>, index: int32)
    requires |c| > 0 && c[0].index == index
    requires forall i :: 0 <= i < |c[1..]| ==> c[1..][i].index == Wrap32(Next(index) + i)
    ensures forall i :: 0 <= i < |c| ==> c[i].index == Wrap32(index + i)
  {
    NextIsWrap32(index);
    forall i | 0 < i < |c| ensures c[i].index == Wrap32(index + i) {
      assert c[1..][i - 1] == c[i];
      Wrap32Add(index + 1, i - 1);
    }
  }

  /** `Read`'s blocks: indices `index, index + 1, …` without gaps (wrapping
      past `int.MaxValue`), every block but the last full, the last holding
      the remainder (possibly nothing), and their payloads together are
      exactly the source. */
  lemma {:induction false} ChunksLayout(data: seq<byte>, blockSize: int32, index: int32)
    requires blockSize > 0
    ensures |Chunks(data, blockSize, index)| == |data| / blockSize + 1
    ensures forall i :: 0 <= i < |Chunks(data, blockSize, index)| ==>
      Chunks(data, blockSize, index)[i].Valid() && Chunks(data, blockSize, index)[i].index == Wrap32(index + i)
    ensures forall i :: 0 <= i < |Chunks(data, blockSize, index)| - 1 ==>
      Chunks(data, blockSize, index)[i].size == blockSize
    ensures Chunks(data, blockSize, index)[|data| / blockSize].size == |data| % blockSize
    ensures Payloads(Chunks(data, blockSize, index)) == data
  {
    ChunksIndices(data, blockSize, index);
    ChunksSizes(data, blockSize, index);
  }

  lemma {:induction false} ChunksSizes(data: seq<byte>, blockSize: int32, index: int32)
    requires blockSize > 0
    ensures |Chunks(data, blockSize, index)| == |data| / blockSize + 1
    ensures forall i :: 0 <= i < |Chunks(data, blockSize, index)| - 1 ==>
      Chunks(data, blockSize, index)[i].size == blockSize
    ensures Chunks(data, blockSize, index)[|data| / blockSize].size == |data| % blockSize
    ensures Payloads(Chunks(data, blockSize, index)) == data
  {
    var c := Chunks(data, blockSize, index);
    if |data| < blockSize {
      DivUnique(|data|, blockSize, 0, |data|);
      assert c[1..] == [];
    } else {
      DivStep(|data|, blockSize);
      var rest := Chunks(data[blockSize..], blockSize, Next(index));
      ChunksSizes(data[blockSize..], blockSize, Next(index));
      assert c[1..] == rest;
      assert data[..blockSize] + data[blockSize..] == data;
    }
  }

  lemma {:induction false} ChunksIndices(data: seq<byte>, blockSize: int32, index: int32)
    requires blockSize > 0
    ensures forall i :: 0 <= i < |Chunks(data, blockSize, index)| ==>
      Chunks(data, blockSize, index)[i].Valid() && Chunks(data, blockSize, index)[i].index == Wrap32(index + i)
  {
    var c := Chunks(data, blockSize, index);
    if |data| >= blockSize {
      ChunksIndices(data[blockSize..], blockSize, Next(index));
      assert c[1..] == Chunks(data[blockSize..], blockSize, Next(index));
      IndicesFrom(c, index);
    }
  }

  /** The corrected reader: `⌈|data| / blockSize⌉` blocks with indices
      `index, index + 1, …` (wrapping past `int.MaxValue`), none of them
      empty, none over `blockSize`, and their payloads together are exactly
      the source. */
  lemma {:induction false} ChunksFixedLayout(data: seq<byte>, blockSize: int32, index: int32)
    requires blockSize > 0
    ensures |ChunksFixed(data, blockSize, index)| == CeilDiv(|data|, blockSize)
    ensures forall i :: 0 <= i < |ChunksFixed(data, blockSize, index)| ==>
      ChunksFixed(data, blockSize, index)[i].Valid()
      && ChunksFixed(data, blockSize, index)[i].index == Wrap32(index + i)
    ensures forall i :: 0 <= i < |ChunksFixed(data, blockSize, index)| ==>
      0 < ChunksFixed(data, blockSize, index)[i].size <= blockSize
    ensures Payloads(ChunksFixed(data, blockSize, index)) == data
  {
    ChunksFixedIndices(data, blockSize, index);
    ChunksFixedSizes(data, blockSize, index);
  }

  lemma {:induction false} ChunksFixedSizes(data: seq<byte>, blockSize: int32, index: int32)
    requires blockSize > 0
    ensures |ChunksFixed(data, blockSize, index)| == CeilDiv(|data|, blockSize)
    ensures forall i :: 0 <= i < |ChunksFixed(data, blockSize, index)| ==>
      0 < ChunksFixed(data, blockSize, index)[i].size <= blockSize
    ensures Payloads(ChunksFixed(data, blockSize, index)) == data
  {
    var c := ChunksFixed(data, blockSize, index);
    CeilDivFloor(|data|, blockSize);
    if |data| == 0 {
      DivUnique(0, blockSize, 0, 0);
    } else if |data| < blockSize {
      DivUnique(|data|, blockSize, 0, |data|);
      assert c[1..] == [];
    } else {
      DivStep(|data|, blockSize);
      CeilDivFloor(|data| - blockSize, blockSize);
      var rest := ChunksFixed(data[blockSize..], blockSize, Next(index));
      ChunksFixedSizes(data[blockSize..], blockSize, Next(index));
      assert c[1..] == rest;
      assert data[..blockSize] + data[blockSize..] == data;
    }
  }

  lemma {:induction false} ChunksFixedIndices(data: seq<byte>, blockSize: int32, index: int32)
    requires blockSize > 0
    ensures forall i :: 0 <= i < |ChunksFixed(data, blockSize, index)| ==>
      ChunksFixed(data, blockSize, index)[i].Valid()
      && ChunksFixed(data, blockSize, index)[i].index == Wrap32(index + i)
  {
    var c := ChunksFixed(data, blockSize, index);
    if |data| >= blockSize {
      ChunksFixedIndices(data[blockSize..], blockSize, Next(index));
      assert c[1..] == ChunksFixed(data[blockSize..], blockSize, Next(index));
      IndicesFrom(c, index);
    }
  }

  /** Off an exact multiple the two readers agree. */
  lemma {:induction false} ChunksAgree(data: seq<byte>, blockSize: int32, index: int32)
    requires blockSize > 0
    requires |data| % blockSize != 0
    ensures Chunks(data, blockSize, index) == ChunksFixed(data, blockSize, index)
  {
    if |data| >= blockSize {
      DivStep(|data|, blockSize);
      ChunksAgree(data[blockSize..], blockSize, Next(index));
    }
  }

  /** On an exact multiple (the empty source included) `Read` ends with an
      empty block whose index is the `blocksCount` that `Write` reserves:
      the writer has no slot for it, and everything before it fits. */
  lemma ExactMultipleExtraBlock(data: seq<byte>, blockSize: int32)
    requires blockSize > 0 && |data| / blockSize <= INT32_MAX
    requires |data| % blockSize == 0
    ensures var c := Chunks(data, blockSize, 0);
      && c[|c| - 1].size == 0 && c[|c| - 1].index == BlocksCount(|data|, blockSize)
      && AllInRange(c[..|c| - 1], BlocksCount(|data|, blockSize))
      && !AllInRange(c, BlocksCount(|data|, blockSize))
  {
    var c := Chunks(data, blockSize, 0);
    var n := BlocksCount(|data|, blockSize);
    ChunksLayout(data, blockSize, 0);
    CeilDivFloor(|data|, blockSize);
    assert |c| == n + 1;
    forall i | 0 <= i < n ensures 0 <= c[..n][i].index < n {
      assert c[..n][i] == c[i];
    }
    assert c[n].index == n;
  }

  // ---------------------------------------------------------------------------
  // Transform

  /** `ApplyCompression`: the GZip body is the parameter `gzip`; the index is kept. */
  function ApplyCompression(block: FileBlock, gzip: seq<byte> -> seq<byte>): (r: FileBlock)
    requires block.Valid() && |gzip(block.data)| <= INT32_MAX
    ensures r.Valid() && r.index == block.index && r.data == gzip(block.data)
  {
    NewBlock(block.index, gzip(block.data))
  }
}

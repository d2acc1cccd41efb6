/** The older single-class archiver (Archiver.Core/GZipCompressor.cs): the
    same reader, transform and writer as the two action classes, selected by
    a `switch` on the action type, with an
    `UnknownCompressorActionTypeException` for any other value. */
module GZipCompressor {
  import opened Bytes
  import opened Errors
  import opened FileBlocks
  import opened Streams
  import opened SyncContext
  import opened FileStreamExtensions
  import opened CompressorActionTypes
  import ArchiveHeaderSerializer
  import ActionCompressor
  import ActionDecompressor
  import ActionBase

  /** Compressed blocks the writer stores in full: `ActionCompressor.Write`'s
      input condition, with a block count whose header fits. */
  predicate CompressWritable(targetBlocks: seq<FileBlock>, sourceFileBytesCount: nat, blockSize: int32) {
    && blockSize > 0
    && ActionCompressor.AllWritable(targetBlocks)
    && ActionCompressor.BlocksCount(sourceFileBytesCount, blockSize) <= INT32_MAX
    && ActionCompressor.ArchiveFits(targetBlocks, ActionCompressor.BlocksCount(sourceFileBytesCount, blockSize))
  }

  /** `DoWriteWork`: the target file is created first, then the branch for
      the action type runs; an unknown action type leaves the new file empty. */
  method DoWriteWork(targetBlocks: seq<FileBlock>, context: CompressorSyncContext,
                     actionType: CompressorActionType, sourceFileBytesCount: nat, blockSize: int32)
    returns (targetStream: Stream, r: Outcome)
    requires actionType.Compress? ==>
      && blockSize > 0 && ActionCompressor.AllWritable(targetBlocks)
      && var n := ActionCompressor.BlocksCount(sourceFileBytesCount, blockSize);
         ActionCompressor.HeaderFits(n) ==> ActionCompressor.ArchiveFits(targetBlocks, n)
    modifies context
    ensures fresh(targetStream)
    ensures context.readCount == old(context.readCount)
    ensures actionType.Unknown? ==>
      r == Fail(UnknownActionType) && targetStream.content == [] && context.writeCount == old(context.writeCount)
    ensures actionType.Compress? ==>
      var n := ActionCompressor.BlocksCount(sourceFileBytesCount, blockSize);
      && (r == Pass <==> ActionCompressor.HeaderFits(n) && ActionCompressor.AllInRange(targetBlocks, n))
      && (r.Fail? ==>
            r.error == if n > INT32_MAX then Overflow
                       else if !ActionCompressor.HeaderFits(n) then StreamTooLong
                       else IndexOutOfRange)
      && (r == Pass ==> targetStream.content == ActionCompressor.Archive(targetBlocks, n))
      && context.writeCount == old(context.writeCount)
           + (if ActionCompressor.HeaderFits(n) then ActionCompressor.FirstOutOfRange(targetBlocks, n) else 0)
    ensures actionType.Decompress? ==>
      var run := ActionDecompressor.Run(ActionDecompressor.Start, targetBlocks);
      && r == run.1
      && targetStream.content == Payloads(run.0.emitted)
      && context.writeCount == old(context.writeCount) + |run.0.emitted|
  {
    targetStream := new Stream.Create();
    match actionType
    case Compress =>
      r := ActionCompressor.Write(targetStream, targetBlocks, context, sourceFileBytesCount, blockSize);
    case Decompress =>
      r := ActionDecompressor.Write(targetStream, targetBlocks, context);
    case Unknown =>
      r := Fail(UnknownActionType);
  }

  /** `DoReadWork`: the source file is opened first, then the branch for the
      action type runs. The decompress branch has no `catch` around the
      header read; since nothing there raises a `SerializationException`,
      it hands on the same blocks as `ActionDecompressor.Read`. */
  method DoReadWork(source: seq<byte>, context: CompressorSyncContext,
                    actionType: CompressorActionType, blockSize: int32)
    returns (sourceBlocks: seq<FileBlock>, r: Outcome)
    requires actionType.Compress? ==> blockSize > 0
    modifies context
    ensures context.writeCount == old(context.writeCount)
    ensures actionType.Unknown? ==>
      sourceBlocks == [] && r == Fail(UnknownActionType) && context.readCount == old(context.readCount)
    ensures actionType.Compress? ==>
      && r == Pass
      && sourceBlocks == ActionCompressor.Chunks(source, blockSize, 0)
      && context.readCount == old(context.readCount) + |sourceBlocks|
    ensures actionType.Decompress? ==>
      && (sourceBlocks, r) == ActionDecompressor.ArchiveBlocks(source)
      && context.readCount == old(context.readCount) + ActionDecompressor.ReadsReported(source)
  {
    var sourceStream := new Stream.Open(source);
    match actionType
    case Compress =>
      sourceBlocks := ActionCompressor.Read(sourceStream, context, blockSize);
      r := Pass;
    case Decompress =>
      var headerBytes := ReadArray(sourceStream);
      if headerBytes.Failure? {
        return [], Fail(headerBytes.error);
      }
      var header := ArchiveHeaderSerializer.Deserialize(headerBytes.value);
      if header.Failure? {
        return [], Fail(header.error);
      }
      ActionDecompressor.CatchNeverFires(source);
      sourceBlocks, r := ActionDecompressor.ReadBlocks(sourceStream, context, header.value.blockOffsets);
    case Unknown =>
      sourceBlocks, r := [], Fail(UnknownActionType);
  }

  /** `ApplyCompressAction`: the GZip bodies are the parameters `gzip` and
      `gunzip`; either way the index is kept. */
  function ApplyCompressAction(block: FileBlock, actionType: CompressorActionType,
                               gzip: seq<byte> -> seq<byte>, gunzip: seq<byte> -> seq<byte>): (r: Result<FileBlock>)
    requires block.Valid()
    requires actionType.Compress? ==> |gzip(block.data)| <= INT32_MAX
    requires actionType.Decompress? ==> |gunzip(block.data)| <= INT32_MAX
    ensures r.Failure? <==> actionType.Unknown?
    ensures r.Failure? ==> r.error == UnknownActionType
    ensures r.Success? ==> r.value.Valid() && r.value.index == block.index
    ensures actionType.Compress? ==> r.Success? && r.value.data == gzip(block.data)
    ensures actionType.Decompress? ==> r.Success? && r.value.data == gunzip(block.data)
  {
    match actionType
    case Compress => Success(ActionCompressor.ApplyCompression(block, gzip))
    case Decompress => Success(ActionDecompressor.ApplyDecompression(block, gunzip))
    case Unknown => Failure(UnknownActionType)
  }

  /** With `gunzip` undoing `gzip`, decompressing a compressed block gives
      the block back. */
  lemma CompressActionRoundTrip(block: FileBlock, gzip: seq<byte> -> seq<byte>, gunzip: seq<byte> -> seq<byte>)
    requires block.Valid() && |gzip(block.data)| <= INT32_MAX
    requires gunzip(gzip(block.data)) == block.data
    ensures var c := ApplyCompressAction(block, Compress, gzip, gunzip);
      c.Success? && ApplyCompressAction(c.value, Decompress, gzip, gunzip) == Success(block)
  {
  }

  /** `DoCompressWork` for a single worker: each dequeued block goes through
      `ApplyCompressAction`, so the worker is `ActionBase.DoCompressWork`
      with the transform the action type selects, and an unknown action
      type ends it at the first block. */
  method DoCompressWork(sourceBlocks: seq<FileBlock>, actionType: CompressorActionType,
                        gzip: seq<byte> -> seq<byte>, gunzip: seq<byte> -> seq<byte>)
    returns (targetBlocks: seq<FileBlock>, r: Outcome)
    requires actionType.Compress? ==> ActionBase.Transformable(sourceBlocks, gzip)
    requires actionType.Decompress? ==> ActionBase.Transformable(sourceBlocks, gunzip)
    ensures actionType.Compress? ==> r == Pass && targetBlocks == ActionBase.Transformed(sourceBlocks, gzip)
    ensures actionType.Decompress? ==> r == Pass && targetBlocks == ActionBase.Transformed(sourceBlocks, gunzip)
    ensures actionType.Unknown? ==>
      && targetBlocks == []
      && (r == Pass <==> sourceBlocks == [])
      && (r.Fail? ==> r == Fail(UnknownActionType))
  {
    match actionType
    case Compress =>
      targetBlocks := ActionBase.DoCompressWork(sourceBlocks, gzip);
      r := Pass;
    case Decompress =>
      targetBlocks := ActionBase.DoCompressWork(sourceBlocks, gunzip);
      r := Pass;
    case Unknown =>
      targetBlocks := [];
      r := if sourceBlocks == [] then Pass else Fail(UnknownActionType);
  }

  /** Each block of the worker's output is what `ApplyCompressAction` makes
      of the block at the same position. */
  lemma TransformedByAction(sourceBlocks: seq<FileBlock>, actionType: CompressorActionType,
                            gzip: seq<byte> -> seq<byte>, gunzip: seq<byte> -> seq<byte>, i: nat)
    requires actionType != Unknown && i < |sourceBlocks| && sourceBlocks[i].Valid()
    requires actionType.Compress? ==> ActionBase.Transformable(sourceBlocks, gzip)
    requires actionType.Decompress? ==> ActionBase.Transformable(sourceBlocks, gunzip)
    ensures var f := if actionType.Compress? then gzip else gunzip;
      Success(ActionBase.Transformed(sourceBlocks, f)[i])
        == ApplyCompressAction(sourceBlocks[i], actionType, gzip, gunzip)
  {
  }
}

# GZip block archiver — a verified Dafny model

The archiver compresses a file block by block. A reader thread cuts the
source into fixed-size blocks numbered 0, 1, 2, …; worker threads GZip each
block and keep its index; a writer thread stores the compressed blocks in
whatever order they arrive. The archive starts with a framed header (a
length prefix, the block count, one 64-bit offset per block), written first
as an all-zero placeholder and rewritten in place once every block is down.
Each block follows as a framed record (a length prefix, the index, the
payload size, the payload). Decompression reads the header, seeks to every
offset in header order, un-GZips each block, and a writer puts the blocks
back in index order through a sorted reorder buffer before appending their
payloads to the target file. A small command-line layer builds and validates
the parameters (source path, target path, action).

The model follows the program file by file:

| Dafny file | module | C# file |
|---|---|---|
| bytes.dfy | `Bytes` | the `int`/`long` byte encoding of `BinaryWriter`/`BinaryReader`/`BitConverter`, and unchecked `int` arithmetic |
| errors.dfy | `Errors` | the exceptions the code raises, as `Result`/`Outcome` values |
| streams.dfy | `Streams` | `FileStream`/`MemoryStream` as a class over `seq<byte>` and a position |
| file_block.dfy | `FileBlocks` | Archiver.Core/Common/FileBlock.cs |
| archive_header.dfy | `ArchiveHeaders` | Archiver.Core/Common/ArchiveHeader.cs |
| file_block_serializer.dfy | `FileBlockSerializer` | Archiver.Core/Serializers/FileBlockSerializer.cs |
| archive_header_serializer.dfy | `ArchiveHeaderSerializer` | Archiver.Core/Serializers/ArchiveHeaderSerializer.cs |
| file_stream_extensions.dfy | `FileStreamExtensions` | Archiver.Core/Extensions/FileStreamExtensions.cs |
| sync_context.dfy | `SyncContext` | Archiver.Core/CompressorSyncContext.cs (counters only) |
| compressor.dfy | `ActionCompressor` | Archiver.Core/Compressors/GZipActionCompressor.cs |
| decompressor.dfy | `ActionDecompressor` | Archiver.Core/Compressors/GZipActionDecompressor.cs |
| action_base.dfy | `ActionBase` | Archiver.Core/Compressors/GZipActionBase.cs |
| gzip_compressor.dfy | `GZipCompressor` | Archiver.Core/GZipCompressor.cs |
| compressor_action_type.dfy | `CompressorActionTypes` | the `CompressorActionType` enum |
| application_parameters.dfy | `AppParameters` | Archiver.App/ApplicationParameters.cs |
| application_parameters_helper.dfy | `ApplicationParametersHelper` | Archiver.App/ApplicationParametersHelper.cs |
| arith.dfy | `Arith` | integer ceiling division |
| round_trip.dfy | `RoundTrip` | the end-to-end properties: archive written, read back, reordered |

Modelling choices:

- `int` and `long` are the subset types `int32` and `int64`. The byte
  encoding is two's complement, little-endian: fixed for `BinaryWriter`
  and `BinaryReader`, the host's order for `BitConverter`. An unchecked
  `index++` wraps (`Wrap32`, `Next`).
- A thread-safe queue becomes the sequence of blocks its `TryDequeue` yields
  in one run. The writer then takes that sequence in any order: the
  end-to-end lemmas quantify over every permutation.
- The GZip transforms are function parameters `gzip` and `gunzip`.
- The `SortedList<int, FileBlock>` reorder buffer is a strictly sorted
  sequence of blocks. `SortedList.Add` throwing on a duplicate key becomes
  `Failure(DuplicateKey)`.
- An exception becomes an `Error` value and ends the operation. The error
  kinds are out of range, end of stream, overflow (a negative array length),
  a `MemoryStream` grown past `int.MaxValue` bytes, duplicate key, business
  logic and unknown action type.
- `Math.Ceiling` on `double` becomes the integer ceiling division `CeilDiv`.
  The two agree for every length below 2^53 bytes.

The main results:

- **Byte formats.** Every serializer and deserializer pair is proved a round trip:
  - `FileBlockSerializer.DecodeBlockBytes`;
  - `ArchiveHeaderSerializer.DecodeHeaderBytes`;
  - `FileStreamExtensions.ReadArrayAfterWriteArray`.

  Their documented corner cases are proved as well. A short record keeps
  its real length. A short framed array is zero-filled. Any data whose first
  int32 is 0 decodes as an empty header.
- **Compressed writer.** `ActionCompressor.Write` loops over the arriving
  blocks and fills `blockOffsets` (an `array<int64>`). It then rewrites the
  header in place. Its result is stated exactly:
  - a block count past `int.MaxValue` fails with overflow, and a header
    past `int.MaxValue` bytes fails in its `MemoryStream`; the file is then
    empty;
  - otherwise success holds if and only if every index lies in `[0, blocksCount)`;
  - on success the file equals `Archive(blocks, n)`;
  - on failure the file holds the records written before the first index
    out of range.
- **Decompressed writer.** `ActionDecompressor.Write` nests a `do`/`while`
  loop inside a `while` loop. It equals the reorder function `Run`. For any
  arrival order of the blocks 0..n-1, `Run` writes every block exactly
  once, in index order (`ReorderRestoresOrder`, `ReorderAnyArrival`). For
  any arrivals at all (gaps, stale indices, repeats) the blocks it writes
  carry the indices 0, 1, 2, … in that order (`AnyArrivalInOrder`).
- **End to end.** Compress a file, then decompress it. The archive written
  from blocks in any arrival order reads back as the compressed blocks in
  index order. Un-GZipping them gives the source blocks, and reordering them
  in any arrival order writes the source file back
  (`RoundTrip.CompressThenDecompress`).

## Model

| member | source | states |
|---|---|---|
| Bytes.LEToUIntOfUIntToLE | Archiver.Core/Serializers/FileBlockSerializer.cs:13-14 | decoding the n-byte little-endian form of any u < 256^n gives u back |
| Bytes.UIntToLEOfLEToUInt | Archiver.Core/Serializers/FileBlockSerializer.cs:25-26 | encoding a decoded byte string at its own width gives the same bytes: the encoding is a bijection |
| Bytes.EncodeInt32 | Archiver.Core/Serializers/FileBlockSerializer.cs:25 | a 32-bit integer is written as exactly 4 bytes |
| Bytes.EncodeInt64 | Archiver.Core/Serializers/ArchiveHeaderSerializer.cs:28 | a 64-bit offset is written as exactly 8 bytes |
| Bytes.DecodeEncodeInt32 | Archiver.Core/Extensions/FileStreamExtensions.cs:15-29 | `BitConverter.ToInt32` undoes `BitConverter.GetBytes` for every int, negatives included |
| Bytes.EncodeDecodeInt32 | Archiver.Core/Extensions/FileStreamExtensions.cs:29 | every 4-byte string is the encoding of the int32 it decodes to |
| Bytes.DecodeEncodeInt64 | Archiver.Core/Serializers/ArchiveHeaderSerializer.cs:16-28 | `ReadInt64` undoes `Write(long)` for every long |
| Bytes.Zeros | Archiver.Core/Extensions/FileStreamExtensions.cs:27 | a freshly allocated byte array has the requested length and holds only zeros |
| Bytes.DecodeZerosInt32 | Archiver.Core/Extensions/FileStreamExtensions.cs:27-29 | four zero bytes decode as the length 0 |
| Bytes.Wrap32 | Archiver.Core/Compressors/GZipActionCompressor.cs:66 | unchecked `int` arithmetic: the result is an int, equal to the exact value when that fits, and always differing from it by a multiple of 2^32 |
| Bytes.NextIsWrap32 | Archiver.Core/Compressors/GZipActionCompressor.cs:66 | `index++` is the 32-bit wrap of adding one |
| Bytes.Wrap32Add | Archiver.Core/Compressors/GZipActionCompressor.cs:50-68 | counting on from a wrapped value gives the wrapped sum, so the k-th block read from index i carries Wrap32(i + k) |
| Streams.Overwrite | Archiver.Core/Extensions/FileStreamExtensions.cs:16-17 | a write replaces exactly the bytes `[pos, pos + len)`, zero-fills a gap past the end, extends the stream only as far as the write reaches, and leaves every other byte unchanged |
| Streams.OverwriteAtEnd | Archiver.Core/Compressors/GZipActionCompressor.cs:31 | writing at the end of the stream appends |
| Streams.OverwriteTwice | Archiver.Core/Extensions/FileStreamExtensions.cs:16-17 | two consecutive writes equal one write of their concatenation |
| Streams.OverwritePrefix | Archiver.Core/Compressors/GZipActionCompressor.cs:41-42 | rewriting a prefix of the same length at position 0 keeps everything after it |
| Streams.Available | Archiver.Core/Extensions/FileStreamExtensions.cs:28-31 | a read returns `count` bytes, or fewer when the stream ends first, or none past the end |
| Streams.Stream.Create | Archiver.Core/GZipCompressor.cs:50 | `File.Create` yields an empty stream at position 0 |
| Streams.Stream.Open | Archiver.Core/GZipCompressor.cs:120 | opening a file yields its bytes at position 0 |
| Streams.Stream.Write | Archiver.Core/Extensions/FileStreamExtensions.cs:16-17 | the new content is the overwrite at the old position, and the position advances by the length written |
| Streams.Stream.Read | Archiver.Core/Extensions/FileStreamExtensions.cs:28-31 | returns the available bytes, leaves the content unchanged, and advances the position by the count returned |
| Streams.Stream.SetPosition | Archiver.Core/Compressors/GZipActionDecompressor.cs:60 | a negative position fails with out of range and changes nothing; otherwise the position is set and the content is kept |
| Streams.WriteInt32 | Archiver.Core/Serializers/FileBlockSerializer.cs:25-26 | `BinaryWriter.Write(int)` overwrites 4 little-endian bytes and advances by 4 |
| Streams.WriteInt64 | Archiver.Core/Serializers/ArchiveHeaderSerializer.cs:28 | `BinaryWriter.Write(long)` overwrites 8 little-endian bytes and advances by 8 |
| Streams.Int32At | Archiver.Core/Serializers/FileBlockSerializer.cs:13-14 | an int32 decodes if and only if 4 bytes remain; otherwise end of stream |
| Streams.Int64At | Archiver.Core/Serializers/ArchiveHeaderSerializer.cs:16 | an int64 decodes if and only if 8 bytes remain; otherwise end of stream |
| Streams.ReadInt32 | Archiver.Core/Serializers/FileBlockSerializer.cs:13-14 | `ReadInt32` returns the int32 at the position, keeps the content, and advances by 4 on success |
| Streams.ReadInt64 | Archiver.Core/Serializers/ArchiveHeaderSerializer.cs:16 | `ReadInt64` returns the int64 at the position, keeps the content, and advances by 8 on success |
| Streams.ReadBytes | Archiver.Core/Serializers/FileBlockSerializer.cs:15 | `ReadBytes` rejects a negative count and otherwise returns at most `count` available bytes |
| FileBlocks.NewBlock | Archiver.Core/Common/FileBlock.cs:22-27 | the block keeps the index as passed and the data as given, and its size equals the data length |
| FileBlocks.PayloadsAppend | Archiver.Core/Compressors/GZipActionDecompressor.cs:37 | the bytes written for two runs of blocks are the bytes of the first followed by those of the second |
| FileBlocks.NatToDecimal | Archiver.Core/Common/FileBlock.cs:29 | the decimal form of a number is a non-empty string of digits with no leading zero |
| FileBlocks.DecimalValueOfNatToDecimal | Archiver.Core/Common/FileBlock.cs:29 | the decimal digits printed for n read back as n |
| FileBlocks.IntToDecimal | Archiver.Core/Common/FileBlock.cs:29 | an integer prints with a leading '-' exactly when it is negative |
| FileBlocks.ToString | Archiver.Core/Common/FileBlock.cs:29 | the text is `{Block \| Index: ` + index + `; Size: ` + size + `}`, piece by piece |
| ArchiveHeaders.NewHeader | Archiver.Core/Common/ArchiveHeader.cs:22-26 | the header keeps the offsets, and its block count equals their number |
| ArchiveHeaders.CreateEmpty | Archiver.Core/Common/ArchiveHeader.cs:28 | for n >= 0, a header with n offsets that are all zero; a negative n fails as array creation does |
| FileBlockSerializer.BlockBytes | Archiver.Core/Serializers/FileBlockSerializer.cs:25-29 | a serialized block is exactly 8 + size bytes long |
| FileBlockSerializer.DecodeBlock | Archiver.Core/Serializers/FileBlockSerializer.cs:13-17 | fewer than 8 bytes fail with end of stream; a negative declared length fails; otherwise a valid block with the stored index |
| FileBlockSerializer.Serialize | Archiver.Core/Serializers/FileBlockSerializer.cs:20-30 | the `BinaryWriter` run writes the index, the size and the data, in that order |
| FileBlockSerializer.Deserialize | Archiver.Core/Serializers/FileBlockSerializer.cs:8-18 | the `BinaryReader` run agrees with `DecodeBlock` on every input, the error cases included |
| FileBlockSerializer.DecodeBlockBytes | Archiver.Tests/SerializationTests.cs:11-21 | deserializing a serialized block, with any trailing bytes, gives the same index, size and data |
| FileBlockSerializer.DecodeTruncatedBlock | Archiver.Core/Serializers/FileBlockSerializer.cs:15-17 | when fewer bytes remain than declared, the block holds the remainder and its size is the real length, below the declared one |
| ArchiveHeaderSerializer.OffsetsBytesAt | Archiver.Core/Serializers/ArchiveHeaderSerializer.cs:27-28 | offset i sits at bytes [8i, 8i + 8) of the offset area, in index order |
| ArchiveHeaderSerializer.OffsetsBytes | Archiver.Core/Serializers/ArchiveHeaderSerializer.cs:27-28 | the offsets take 8 bytes each |
| ArchiveHeaderSerializer.HeaderBytes | Archiver.Core/Serializers/ArchiveHeaderSerializer.cs:26-30 | a serialized header is 4 + 8 * count bytes, whatever the offset values |
| ArchiveHeaderSerializer.DecodeOffsets | Archiver.Core/Serializers/ArchiveHeaderSerializer.cs:14-16 | offset i is the int64 at bytes 4 + 8i |
| ArchiveHeaderSerializer.DecodeHeader | Archiver.Core/Serializers/ArchiveHeaderSerializer.cs:13-18 | decoding succeeds if and only if the count is present, not negative, and 4 + 8 * count bytes are there; a negative count overflows; otherwise end of stream |
| ArchiveHeaderSerializer.Serialize | Archiver.Core/Serializers/ArchiveHeaderSerializer.cs:21-31 | the writer loop produces the count followed by every offset in order; it fails with stream too long exactly when 4 + 8·count bytes pass int.MaxValue |
| ArchiveHeaderSerializer.Deserialize | Archiver.Core/Serializers/ArchiveHeaderSerializer.cs:8-19 | the reader loop that fills `blockOffsets` agrees with `DecodeHeader` on every input |
| ArchiveHeaderSerializer.DecodeHeaderBytes | Archiver.Tests/SerializationTests.cs:24-33 | deserializing a serialized header, with any trailing bytes, gives the same count and offsets |
| ArchiveHeaderSerializer.DecodedOffsetAt | Archiver.Core/Serializers/ArchiveHeaderSerializer.cs:16 | in a serialized header, the 8 bytes read for offset i decode as offset i |
| ArchiveHeaderSerializer.ZeroCountIsEmptyHeader | Archiver.Core/Serializers/ArchiveHeaderSerializer.cs:13-18 | there is no format marker: any data starting with four zero bytes decodes as the empty header |
| FileStreamExtensions.Frame | Archiver.Core/Extensions/FileStreamExtensions.cs:15-17 | a framed array is 4 + length bytes |
| FileStreamExtensions.WriteArray | Archiver.Core/Extensions/FileStreamExtensions.cs:11-18 | overwrites the length prefix and the bytes at the position, and advances by 4 + length |
| FileStreamExtensions.ArrayAt | Archiver.Core/Extensions/FileStreamExtensions.cs:27-32 | the array read has the declared length whatever `Read` returned; a negative length overflows |
| FileStreamExtensions.ReadArray | Archiver.Core/Extensions/FileStreamExtensions.cs:23-33 | the two reads agree with `ArrayAt` and leave the content unchanged |
| FileStreamExtensions.ArrayAtFrame | Archiver.Core/Extensions/FileStreamExtensions.cs:27-31 | where a framed array is stored, reading gives that array and the position after it |
| FileStreamExtensions.ReadArrayAfterWriteArray | Archiver.Core/Extensions/FileStreamExtensions.cs:11-32 | reading at p after writing a framed array at p gives the array back, whatever the stream held before |
| FileStreamExtensions.ArrayAtTruncated | Archiver.Core/Extensions/FileStreamExtensions.cs:28-31 | on a short stream the array still has the declared length, with a zero-filled tail |
| SyncContext.CompressorSyncContext.constructor | Archiver.Core/CompressorSyncContext.cs:21-30 | requires maxCountDelta > 0 and starts both counters at 0 |
| SyncContext.CompressorSyncContext.IncrementReadCount | Archiver.Core/CompressorSyncContext.cs:32-44 | the read count goes up by one and the write count is kept |
| SyncContext.CompressorSyncContext.IncrementWriteCount | Archiver.Core/CompressorSyncContext.cs:46-53 | the write count goes up by one and the read count is kept |
| ActionBase.Transformed | Archiver.Core/Compressors/GZipActionBase.cs:41-45 | each output block keeps the index of its input block and carries the transformed data |
| ActionBase.DoCompressWork | Archiver.Core/Compressors/GZipActionBase.cs:37-46 | the worker loop transforms every dequeued block in turn |
| ActionBase.TransformedInverse | Archiver.Core/Compressors/GZipActionBase.cs:43 | un-transforming the transformed blocks gives the original blocks back when the transforms are inverse |
| ActionBase.CheckSource | Archiver.Core/Compressors/GZipActionBase.cs:76-77 | an action proceeds if and only if the source is non-empty; otherwise a business-logic error |
| ActionCompressor.Record | Archiver.Core/Compressors/GZipActionCompressor.cs:28-31 | a block record is 4 + 8 + size bytes |
| ActionCompressor.Placeholder | Archiver.Core/Compressors/GZipActionCompressor.cs:20 | the placeholder header has blocksCount offsets, all zero |
| ActionCompressor.HeaderFrame | Archiver.Core/Compressors/GZipActionCompressor.cs:21-22 | the framed header is 4 + 4 + 8 * blocksCount bytes |
| ActionCompressor.Offsets | Archiver.Core/Compressors/GZipActionCompressor.cs:25-29 | the offset table has one entry per block slot, and a slot no block carries keeps 0 |
| ActionCompressor.Archive | Archiver.Core/Compressors/GZipActionCompressor.cs:16-43 | the archive is the framed header followed by the records, 8 + 8n + the record bytes long |
| ActionCompressor.FirstOutOfRange | Archiver.Core/Compressors/GZipActionCompressor.cs:29 | the position of the first block whose index lies outside [0, n), or the number of blocks when there is none |
| ActionCompressor.RecordsAppend | Archiver.Core/Compressors/GZipActionCompressor.cs:26-33 | the records of two runs of blocks are the records of the first followed by those of the second |
| ActionCompressor.WriteStep | Archiver.Core/Compressors/GZipActionCompressor.cs:28-31 | one more block adds its record at the end and sets its offset to the position of that record |
| ActionCompressor.WritePlaceholder | Archiver.Core/Compressors/GZipActionCompressor.cs:19-22 | succeeds exactly when the header fits: a negative count fails with overflow (`new long[n]`), a header past int.MaxValue bytes with stream too long, and the file stays empty; otherwise the file starts with the framed all-zero header and the position is right after it |
| ActionCompressor.WriteBlock | Archiver.Core/Compressors/GZipActionCompressor.cs:28-32 | `blockOffsets[index]` becomes the old end of the stream, the record is appended, and the write count goes up by one |
| ActionCompressor.WrittenSoFarStep | Archiver.Core/Compressors/GZipActionCompressor.cs:26-33 | the loop invariant (content = prefix + records written so far, offsets as computed) survives one more in-range block |
| ActionCompressor.WriteBlocks | Archiver.Core/Compressors/GZipActionCompressor.cs:25-33 | the loop stops at the first out-of-range index (failing with out of range) or writes all blocks; offsets of slots never filled stay 0 |
| ActionCompressor.Write | Archiver.Core/Compressors/GZipActionCompressor.cs:16-43 | a block count past int.MaxValue fails with overflow, a header past int.MaxValue bytes with stream too long, both leaving the file empty; otherwise success if and only if every index lies in [0, blocksCount); on success the file is exactly the archive; on failure it holds the placeholder and the records written before the bad block |
| ActionCompressor.WriteArchive | Archiver.Core/Compressors/GZipActionCompressor.cs:20-42 | the same as `Write`, for a block count already cast to `int`: a negative count fails with overflow, a header too long with stream too long |
| ActionCompressor.CastBlocksCount | Archiver.Core/Compressors/GZipActionCompressor.cs:19 | the `(int)` cast keeps a count up to int.MaxValue and makes every larger count negative |
| ActionCompressor.ArchiveOfOffsets | Archiver.Core/Compressors/GZipActionCompressor.cs:36-42 | rewriting the header with the recorded offsets gives the archive |
| ActionCompressor.RewriteHeader | Archiver.Core/Compressors/GZipActionCompressor.cs:36-42 | the new header has the same length as the placeholder, so the length comparison never throws, and the rewrite at 0 leaves every record untouched |
| ActionCompressor.FullRead | Archiver.Core/Compressors/GZipActionCompressor.cs:66-67 | a full read emits a block of exactly the bytes read, and reading continues after them with the next index, wrapped |
| ActionCompressor.ShortRead | Archiver.Core/Compressors/GZipActionCompressor.cs:57-63 | a short read returns the rest of the source, and the as-written reader emits it as the last block even when it is empty |
| ActionCompressor.Read | Archiver.Core/Compressors/GZipActionCompressor.cs:45-69 | the reader loop emits `Chunks(source)`, for a source of any length, and counts one read per block |
| ActionCompressor.ReadFixed | Archiver.Core/Compressors/GZipActionCompressor.cs:45-69 | the corrected reader emits `ChunksFixed(source)`, for a source of any length, which has no empty trailing block |
| ActionCompressor.ChunksLayout | Archiver.Core/Compressors/GZipActionCompressor.cs:51-68 | as written: \|source\| / blockSize + 1 blocks, indices 0, 1, 2, … (wrapping past int.MaxValue), every block but the last is full, the last holds the remainder, and the payloads concatenate to the source |
| ActionCompressor.ChunksFixedLayout | Archiver.Core/Compressors/GZipActionCompressor.cs:19 | corrected: exactly ceil(\|source\| / blockSize) blocks, the count the writer expects; dense indices (wrapping past int.MaxValue); non-empty blocks of at most blockSize bytes; payloads concatenating to the source |
| ActionCompressor.ChunksAgree | Archiver.Core/Compressors/GZipActionCompressor.cs:57-66 | when the length is not a multiple of the block size, the as-written and the corrected reader emit the same blocks |
| ActionCompressor.ExactMultipleExtraBlock | Archiver.Core/Compressors/GZipActionCompressor.cs:19-29 | on an exact multiple the last block is empty, its index equals blocksCount, and only that block is out of range for the writer |
| ActionCompressor.ApplyCompression | Archiver.Core/Compressors/GZipActionCompressor.cs:71-79 | the compressed block keeps its index and carries the GZipped data |
| ActionDecompressor.Insert | Archiver.Core/Compressors/GZipActionDecompressor.cs:26 | `SortedList.Add` fails if and only if the key is present; otherwise the buffer stays sorted and gains exactly the new block |
| Bytes.Next | Archiver.Core/Compressors/GZipActionDecompressor.cs:38 | `index++` adds one, wrapping from int.MaxValue to int.MinValue |
| ActionDecompressor.Drain | Archiver.Core/Compressors/GZipActionDecompressor.cs:28-40 | after draining, the buffer is empty or its smallest key is not the expected index |
| ActionDecompressor.DrainShape | Archiver.Core/Compressors/GZipActionDecompressor.cs:31-38 | draining writes a prefix of the buffer, in buffer order, and keeps the rest |
| ActionDecompressor.DrainConsecutive | Archiver.Core/Compressors/GZipActionDecompressor.cs:31-38 | the blocks drained carry the consecutive indices index, index + 1, …, and the expected index advances by their number |
| ActionDecompressor.Accept | Archiver.Core/Compressors/GZipActionDecompressor.cs:26-40 | one dequeued block: fails if and only if its index is buffered; otherwise the buffer stays sorted, its head is not the expected index, and the blocks written so far are only extended |
| ActionDecompressor.Run | Archiver.Core/Compressors/GZipActionDecompressor.cs:24-41 | over all dequeued blocks the buffer stays sorted, the output only grows, and the only failure is a duplicate key |
| ActionDecompressor.WriteReady | Archiver.Core/Compressors/GZipActionDecompressor.cs:28-40 | the `do`/`while` loop writes exactly what `Drain` releases and counts one write per block |
| ActionDecompressor.Write | Archiver.Core/Compressors/GZipActionDecompressor.cs:20-42 | the nested loops append the payloads that `Run` emits, with one write count per block, and fail as `Run` does |
| ActionDecompressor.RunInOrder | Archiver.Core/Compressors/GZipActionDecompressor.cs:24-41 | for a permutation of 0..n-1, every suffix of the arrivals is accepted and the in-order invariant holds at the end |
| ActionDecompressor.DrainOrdered | Archiver.Core/Compressors/GZipActionDecompressor.cs:28-40 | the inner loop keeps the written blocks numbered 0, 1, … in writing order with the awaited index equal to their number, and moves blocks from the buffer to the output without losing any |
| ActionDecompressor.RunOrdered | Archiver.Core/Compressors/GZipActionDecompressor.cs:24-41 | for any arrivals (gaps, stale indices, repeats), below int.MaxValue blocks, the written blocks stay numbered 0, 1, … in writing order |
| ActionDecompressor.AnyArrivalInOrder | Archiver.Core/Compressors/GZipActionDecompressor.cs:24-41 | from the start, the k-th block written carries index k, whatever arrives |
| ActionDecompressor.ReorderRestoresOrder | Archiver.Core/Compressors/GZipActionDecompressor.cs:22-41 | for arrivals that are a permutation of 0..n-1: no failure, the buffer ends empty, index = n, and block k is the k-th written, each exactly once |
| ActionDecompressor.StaleAccept | Archiver.Core/Compressors/GZipActionDecompressor.cs:31-33 | once the head key is below the expected index, accepting a block writes nothing more |
| ActionDecompressor.StaleHeadStalls | Archiver.Core/Compressors/GZipActionDecompressor.cs:28-40 | a stale head key blocks all further output |
| ActionDecompressor.RepeatedIndexStalls | Archiver.Core/Compressors/GZipActionDecompressor.cs:26-33 | indices 0, 0, 1 raise no duplicate error: only the first block 0 is written and the rest stays buffered |
| ActionDecompressor.HeaderAt | Archiver.Core/Compressors/GZipActionDecompressor.cs:49-50 | reading the framed header fails only with overflow or end of stream, and otherwise yields a valid header |
| ActionDecompressor.CatchNeverFires | Archiver.Core/Compressors/GZipActionDecompressor.cs:47-55 | the `SerializationException` handler never fires: header errors pass through unchanged and never become a business-logic error |
| ActionDecompressor.BlockAt | Archiver.Core/Compressors/GZipActionDecompressor.cs:60-62 | seeking to a negative offset fails; any failure is out of range, overflow or end of stream; a success is a valid block |
| ActionDecompressor.RecordsAt | Archiver.Core/Compressors/GZipActionDecompressor.cs:57-65 | one block read per header offset, in header order |
| ActionDecompressor.Collect | Archiver.Core/Compressors/GZipActionDecompressor.cs:57-65 | the loop passes if and only if every offset yields a block, and stops at the first failure |
| ActionDecompressor.CollectReadsEach | Archiver.Core/Compressors/GZipActionDecompressor.cs:57-65 | the j-th block enqueued is the block at the j-th offset, and a failure reports the error of the first bad offset |
| ActionDecompressor.ReadBlockAt | Archiver.Core/Compressors/GZipActionDecompressor.cs:59-62 | seek, read the framed record and decode it, as `BlockAt` says, with the content unchanged |
| ActionDecompressor.ReadBlocks | Archiver.Core/Compressors/GZipActionDecompressor.cs:57-65 | the `foreach` loop over the offsets agrees with `Collect` and counts one read per offset visited |
| ActionDecompressor.Read | Archiver.Core/Compressors/GZipActionDecompressor.cs:44-66 | the reader agrees with `ArchiveBlocks` (header first, then one block per offset) and leaves the archive unchanged |
| ActionDecompressor.ApplyDecompression | Archiver.Core/Compressors/GZipActionDecompressor.cs:68-77 | the decompressed block keeps its index and carries the un-GZipped data |
| GZipCompressor.DoWriteWork | Archiver.Core/GZipCompressor.cs:44-110 | Compress fails with overflow or stream too long when the block count or its header is past int.MaxValue, and otherwise writes the archive exactly when every index is in range; Decompress writes the reordered payloads; any other action fails with unknown action type |
| GZipCompressor.DoReadWork | Archiver.Core/GZipCompressor.cs:115-169 | Compress emits the chunks of a source of any length with a short last block (the as-written reader); Decompress reads the header and one block per offset; any other action fails |
| GZipCompressor.ApplyCompressAction | Archiver.Core/GZipCompressor.cs:174-207 | fails if and only if the action is unknown; otherwise keeps the index and GZips or un-GZips the data |
| GZipCompressor.CompressActionRoundTrip | Archiver.Core/GZipCompressor.cs:179-202 | decompressing a compressed block gives the block back |
| GZipCompressor.DoCompressWork | Archiver.Core/GZipCompressor.cs:29-39 | the worker transforms every block for a known action; for an unknown action it fails on the first block |
| GZipCompressor.TransformedByAction | Archiver.Core/GZipCompressor.cs:36 | each worker output block is `ApplyCompressAction` of the matching input block |
| AppParameters.Builder.constructor | Archiver.App/ApplicationParameters.cs:24-27 | a fresh builder has no paths and the action Unknown |
| AppParameters.Builder.SetSourceFilePath | Archiver.App/ApplicationParameters.cs:29-33 | stores the source path, keeps the other two fields, and returns the same builder |
| AppParameters.Builder.SetTargetFilePath | Archiver.App/ApplicationParameters.cs:35-39 | stores the target path, keeps the other two fields, and returns the same builder |
| AppParameters.Builder.SetCompressorActionType | Archiver.App/ApplicationParameters.cs:41-45 | stores the action, keeps the two paths, and returns the same builder |
| AppParameters.Builder.Build | Archiver.App/ApplicationParameters.cs:47-52 | the parameters hold the builder's three current values |
| AppParameters.RebuildAfterSet | Archiver.App/ApplicationParameters.cs:29-52 | parameters built earlier are not changed by a later setter call, and a second build sees the new path with the other fields kept |
| ApplicationParametersHelper.ParseArguments | Archiver.App/ApplicationParametersHelper.cs:11-23 | the arguments are ignored: source `harry potter 4.mp4`, target `harry potter 4.mp4.vzip`, action Compress |
| ApplicationParametersHelper.AnyContained | Archiver.App/ApplicationParametersHelper.cs:30-33 | true if and only if some listed character occurs in the path |
| ApplicationParametersHelper.IsPathValid | Archiver.App/ApplicationParametersHelper.cs:25-37 | true if and only if no character of the path is an invalid file-name or path character |
| ApplicationParametersHelper.IsValid | Archiver.App/ApplicationParametersHelper.cs:39-58 | the list built step by step is the validation error list, and the result is true if and only if that list is empty |
| ApplicationParametersHelper.ValidIff | Archiver.App/ApplicationParametersHelper.cs:43-57 | no errors if and only if both paths are present, non-blank and valid and the action is known |
| ApplicationParametersHelper.ErrorsReported | Archiver.App/ApplicationParametersHelper.cs:43-54 | each of the five messages appears exactly when its condition holds; a blank path skips the path validation |
| ApplicationParametersHelper.ErrorsOrdered | Archiver.App/ApplicationParametersHelper.cs:41-56 | at most three errors, in the order source, target, action |
| ApplicationParametersHelper.DefaultParametersValid | Archiver.App/ApplicationParametersHelper.cs:14-22 | the fixed parameters pass validation when their characters are all allowed |
| RoundTrip.OffsetsAt | Archiver.Core/Compressors/GZipActionCompressor.cs:29 | with distinct indices, the offset stored for a block is the position of its record |
| RoundTrip.HeaderAtFront | Archiver.Core/Compressors/GZipActionDecompressor.cs:49-50 | the framed header at the front of a file reads back as that header |
| RoundTrip.BlockAtHeld | Archiver.Core/Compressors/GZipActionDecompressor.cs:60-62 | where a block's record is stored, seeking to it and reading gives the block |
| RoundTrip.ReadsBack | Archiver.Core/Compressors/GZipActionDecompressor.cs:44-66 | when the header holds n offsets and each one points at a stored record, the reader yields those n blocks in header order |
| RoundTrip.ArchiveReadsBack | Archiver.Core/Compressors/GZipActionDecompressor.cs:44-66 | an archive written from any arrival order of blocks 0..n-1 reads back as those blocks in index order |
| RoundTrip.ArchiveLayout | Archiver.Core/Compressors/GZipActionCompressor.cs:36-42 | an archive is its 8 + 8n byte framed final header followed by the records |
| RoundTrip.ArrivalOrder | Archiver.Core/Compressors/GZipActionDecompressor.cs:24-26 | any rearrangement of blocks indexed 0..n-1 is a permutation of the indices, and each arriving block is the block of its index |
| RoundTrip.ReorderAnyArrival | Archiver.Core/Compressors/GZipActionDecompressor.cs:20-42 | for any rearrangement of blocks 0..n-1, the reorder buffer writes exactly those blocks in index order |
| RoundTrip.CompressedReadsBack | Archiver.Core/GZipCompressor.cs:53-82 | the archive written from the compressed chunks, in any arrival order, reads back as the compressed chunks in index order |
| RoundTrip.CompressThenDecompress | Archiver.Core/GZipCompressor.cs:44-169 | compress then decompress, with any arrival order at both writers: every step passes, and the file written is the source |
| RoundTrip.CompressThenDecompressAsWritten | Archiver.Core/GZipCompressor.cs:124-148 | the as-written pipeline also round-trips whenever the source length is not a multiple of the block size |
| RoundTrip.ExactMultipleWriteFails | Archiver.Core/GZipCompressor.cs:56-66 | as written, a source whose length is a multiple of the block size always makes the writer fail, in every arrival order |

## Left out

- Threads, `SyncAwaitQueue` and the blocking in `CompressorSyncContext`
  (`ManualResetEvent`, locks) are left out, because they are concurrency
  primitives. The queues become the sequence of blocks in dequeue order,
  and the sync context becomes two counters. `maxCountDelta` appears only
  as the constructor's precondition.
- Thread orchestration is left out. This covers `GZipActionBase.ApplyCompressorAction`,
  its `DoWriteWork`/`DoReadWork` wrappers, and `GZipCompressor.ExecuteCompressorAction`,
  `Compress` and `Decompress`. Only the empty-source guard is kept (`ActionBase.CheckSource`).
- The GZip transforms (System.IO.Compression) are foreign code. They are
  function parameters `gzip`/`gunzip`, and the index is kept around them.
- `Math.Ceiling` over `double` is replaced by integer ceiling division.
  The floating-point rounding of lengths above 2^53 is not modelled.
- A little-endian host is assumed: `BitConverter.GetBytes`/`ToInt32`
  (Archiver.Core/Extensions/FileStreamExtensions.cs:15, 29) use the host's
  byte order, and the model gives them the little-endian one.
- Streams.Stream.Read and ActionCompressor.Read: a read returns all the
  requested bytes that remain. A .NET `Stream.Read` may return fewer before
  the end; the reader would then cut the source short at that read, and
  `ReadArray` would keep zeros. That case is not modelled.
- ActionCompressor.CastBlocksCount: the cast of a count past int.MaxValue
  gives int.MinValue, as x64 .NET before version 9 does; .NET 9 saturates to
  int.MaxValue, whose header then fails with stream too long instead.
  Either way `Write` fails and the file stays empty.
- Memory exhaustion is not modelled. An `OutOfMemoryException` from
  `new long[n]` or a `MemoryStream` beyond `Array.MaxLength` (0x7FFFFFC7)
  elements is reported as the stream-too-long failure, or not at all.
- ActionCompressor.Write, ActionCompressor.WriteArchive and
  GZipCompressor.DoWriteWork: the archive must stay below 2^63 bytes
  (`ArchiveFits`), since a `long` position cannot go further. The blocks must
  be `Writable`: each payload is a .NET array, so at most `Array.MaxLength`
  bytes.
- Real file handles, `Flush` and `Dispose` are I/O. A stream is a
  `seq<byte>` with a position.
- The read `buffer` is shared by every full block
  (Archiver.Core/Compressors/GZipActionCompressor.cs:66, Archiver.Core/GZipCompressor.cs:144).
  A worker may see bytes of a later read, which is a data race between threads.
  Each payload is modelled as a snapshot taken at enqueue, so the race is not modelled.
- The model does not capture aliasing of block data or header offsets.
  `FileBlock` does not copy `Data`, and `ArchiveHeader` copies its
  offsets; in the model both are immutable values.
- Null arguments (`ArgumentNullException` in `FileBlock`, `ArchiveHeader`
  and `FileStreamExtensions`) cannot occur with Dafny values and are not
  modelled.
- Program.cs, `ConsoleLogger`/`ILogger`, `ThreadShell`, the exception
  classes and `GZipCompressorConfiguration` are left out. Block size and
  `maxCountDelta` become positive parameters.
- The `CompressorActionType` source file is not part of this model. The enum is
  taken to be Unknown, Compress and Decompress.
- `Path.GetInvalidFileNameChars`/`GetInvalidPathChars` depend on the
  platform. They are parameters of `IsPathValid` and `IsValid`.
- ActionCompressor.ReadFixed: the read count is stated as |blocks| or
  |blocks| + 1 rather than one exact value. The final empty read is
  counted only when the source length is a multiple of the block size.
- ActionDecompressor.DrainConsecutive: excludes index int.MaxValue, so the
  wrap-around of `index++` is not followed.
- ActionDecompressor.RunInOrder: covers at most int.MaxValue blocks and so
  excludes the wrap-around of `Next`.
- ActionDecompressor.ReorderRestoresOrder: covers at most int.MaxValue
  blocks and so excludes the wrap-around of `Next`.
- RoundTrip.CompressThenDecompress: assumes `gunzip(gzip(x)) == x`.
  It also assumes the compressed blocks fit the writer's 32- and 64-bit
  lengths and offsets (`CompressWritable`), because the GZip library gives
  no such bound.

## Findings

| source | as written | input that shows it | evidently intended | confidence | as-written member | corrected member |
|---|---|---|---|---|---|---|
| Archiver.Core/Compressors/GZipActionCompressor.cs:57-63 (and Archiver.Core/GZipCompressor.cs:135-141) | after the last full block the final read returns 0 bytes, and that empty read is still enqueued as a block with index \|source\| / blockSize. The writer sizes its offset table to ceil(\|source\| / blockSize) (line 19, GZipCompressor.cs:56), so `blockOffsets[block.Index]` (line 29) is out of range | a source of exactly blockSize bytes: Read emits blocks 0 and 1 (empty), and Write allocates 1 offset | emit no empty trailing block, so the block count matches the header | not executed | ActionCompressor.ExactMultipleExtraBlock, RoundTrip.ExactMultipleWriteFails | ActionCompressor.ChunksFixedLayout, RoundTrip.CompressThenDecompress |

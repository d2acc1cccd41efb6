/** The whole pipeline on one thread: what the decompressor reads back from
    an archive the compressor wrote, and the round trip from a source file
    to an archive and back. The blocks may reach either writer in any order
    (the workers run concurrently); the GZip bodies are parameters `gzip`
    and `gunzip`, with `gunzip` undoing `gzip`. */
module RoundTrip {
  import opened Bytes
  import opened Errors
  import opened FileBlocks
  import opened ArchiveHeaders
  import opened FileStreamExtensions
  import C = ActionCompressor
  import D = ActionDecompressor
  import ActionBase
  import ArchiveHeaderSerializer
  import FileBlockSerializer
  import GZipCompressor

  // ---------------------------------------------------------------------------
  // Reading back what the writer wrote

  predicate DistinctIndices(blocks: seq<FileBlock>) {
    forall j, j' :: 0 <= j < j' < |blocks| ==> blocks[j].index != blocks[j'].index
  }

  /** With distinct indices, the slot of block `j` holds the position of its
      record once all of `blocks` is written: no later block overwrites it. */
  lemma {:induction false} OffsetsAt(blocks: seq<FileBlock>, n: nat, base: nat, j: nat)
    requires C.AllWritable(blocks) && C.AllInRange(blocks, n) && base + |C.Records(blocks)| <= INT64_MAX
    requires DistinctIndices(blocks) && j < |blocks|
    ensures C.AllWritable(blocks[..j])
    ensures C.Offsets(blocks, n, base)[blocks[j].index] == base + |C.Records(blocks[..j])|
    decreases |blocks|
  {
    var init := blocks[..|blocks| - 1];
    assert C.Records(blocks) == C.Records(init) + C.Record(blocks[|blocks| - 1]);
    if j < |blocks| - 1 {
      assert init[..j] == blocks[..j];
      assert init[j] == blocks[j];
      OffsetsAt(init, n, base, j);
    }
  }

  /** The records of `blocks` are those of its first `k` blocks, then those of the rest. */
  lemma RecordsSplit(blocks: seq<FileBlock>, k: nat)
    requires C.AllWritable(blocks) && k <= |blocks|
    ensures C.AllWritable(blocks[..k]) && C.AllWritable(blocks[k..])
    ensures C.Records(blocks) == C.Records(blocks[..k]) + C.Records(blocks[k..])
  {
    WritableAfter(blocks, k);
    RecordsOfJoin(blocks, blocks[..k], blocks[k..]);
  }

  lemma WritableAfter(blocks: seq<FileBlock>, k: nat)
    requires C.AllWritable(blocks) && k <= |blocks|
    ensures C.AllWritable(blocks[k..]) && blocks == blocks[..k] + blocks[k..]
  {
    assert forall i | 0 <= i < |blocks| - k :: blocks[k..][i] == blocks[k + i];
  }

  lemma RecordsOfJoin(ab: seq<FileBlock>, a: seq<FileBlock>, b: seq<FileBlock>)
    requires C.AllWritable(a) && C.AllWritable(b) && ab == a + b
    ensures C.AllWritable(ab) && C.Records(ab) == C.Records(a) + C.Records(b)
  {
    C.RecordsAppend(a, b);
  }

  /** The records split around block `j`: those before it, its own, those after it. */
  lemma RecordsAround(blocks: seq<FileBlock>, j: nat)
    requires C.AllWritable(blocks) && j < |blocks|
    ensures C.AllWritable(blocks[..j]) && C.AllWritable(blocks[j + 1..])
    ensures C.Records(blocks) == C.Records(blocks[..j]) + C.Record(blocks[j]) + C.Records(blocks[j + 1..])
  {
    RecordsSplit(blocks, j + 1);
    C.RecordsStep(blocks, j);
  }

  /** Whatever follows it, the framed header decodes back to the header. */
  lemma HeaderAtFront(data: seq<byte>, h: ArchiveHeader, records: seq<byte>)
    requires h.Valid() && 4 + 8 * h.blocksCount <= INT32_MAX
    requires data == C.HeaderFrame(h) + records
    ensures D.HeaderAt(data) == Success(h)
  {
    var bytes := ArchiveHeaderSerializer.HeaderBytes(h);
    assert data[0..4 + |bytes|] == Frame(bytes);
    ArrayAtFrame(data, 0, bytes);
    ArchiveHeaderSerializer.DecodeHeaderBytes(h, []);
    assert bytes + [] == bytes;
  }

  /** `data` holds the framed record of `b` at `pos`. */
  predicate RecordHeld(data: seq<byte>, pos: int, b: FileBlock) {
    && C.Writable(b) && 0 <= pos && pos + |C.Record(b)| <= |data|
    && data[pos..pos + |C.Record(b)|] == C.Record(b)
  }

  /** Wherever a block's framed record lies, reading a block there gives it back. */
  lemma BlockAtHeld(data: seq<byte>, pos: int64, b: FileBlock)
    requires RecordHeld(data, pos, b)
    ensures D.BlockAt(data, pos) == Success(b)
  {
    var bytes := FileBlockSerializer.BlockBytes(b);
    ArrayAtFrame(data, pos, bytes);
    FileBlockSerializer.DecodeBlockBytes(b, []);
    assert bytes + [] == bytes;
  }

  lemma SliceOfJoin(x: seq<byte>, r: seq<byte>, y: seq<byte>)
    ensures (x + r + y)[|x|..|x| + |r|] == r
  {
  }

  /** Whatever precedes the records, they hold the record of block `j` right
      after the records of the blocks before it. */
  lemma HeldInRecords(header: seq<byte>, blocks: seq<FileBlock>, j: nat, pos: int, b: FileBlock)
    requires C.AllWritable(blocks) && j < |blocks| && b == blocks[j]
    requires C.AllWritable(blocks[..j]) && pos == |header| + |C.Records(blocks[..j])|
    ensures RecordHeld(header + C.Records(blocks), pos, b)
  {
    RecordsAround(blocks, j);
    var front, record, back := C.Records(blocks[..j]), C.Record(blocks[j]), C.Records(blocks[j + 1..]);
    Regroup(header, C.Records(blocks), front, record, back);
    SliceOfJoin(header + front, record, back);
  }

  lemma Regroup(header: seq<byte>, records: seq<byte>, front: seq<byte>, record: seq<byte>, back: seq<byte>)
    requires records == front + record + back
    ensures header + records == (header + front) + record + back
  {
  }

  /** When every record from `i` on reads, the loop hands on all of them. */
  lemma {:induction false} CollectAll(results: seq<Result<FileBlock>>, out: seq<FileBlock>, i: nat)
    requires |out| == |results| && i <= |results|
    requires forall k :: i <= k < |results| ==> results[k] == Success(out[k])
    ensures D.Collect(results, i) == (out[i..], Pass)
    decreases |results| - i
  {
    if i < |results| {
      CollectAll(results, out, i + 1);
      assert D.Collect(results, i) == ([out[i]] + D.Collect(results, i + 1).0, D.Collect(results, i + 1).1);
      assert out[i..] == [out[i]] + out[i + 1..];
    }
  }

  /** Whatever the bytes, if the header at their start holds `offsets` and
      the record of block `k` lies at `offsets[k]` for every `k`, the
      decompressor's reader hands on exactly those blocks, in index order. */
  lemma ReadsBack(data: seq<byte>, offsets: seq<int64>, c: seq<FileBlock>)
    requires |offsets| == |c| <= INT32_MAX
    requires D.HeaderAt(data) == Success(NewHeader(offsets))
    requires forall k :: 0 <= k < |c| ==> RecordHeld(data, offsets[k], c[k])
    ensures D.ArchiveBlocks(data) == (c, Pass)
  {
    var results := D.RecordsAt(data, offsets);
    forall k | 0 <= k < |c| ensures results[k] == Success(c[k]) {
      BlockAtHeld(data, offsets[k], c[k]);
    }
    CollectAll(results, c, 0);
    assert c[0..] == c;
  }

  /** The offset the writer noted for index `k` is where the record of block `k` lies. */
  lemma HeldAt(header: seq<byte>, arrived: seq<FileBlock>, c: seq<FileBlock>, k: nat)
    requires D.IndexPermutation(arrived)
    requires C.AllWritable(arrived) && |header| + |C.Records(arrived)| <= INT64_MAX
    requires |c| == |arrived| && forall j :: 0 <= j < |arrived| ==> arrived[j] == c[arrived[j].index]
    requires k < |arrived|
    ensures C.AllInRange(arrived, |arrived|)
    ensures RecordHeld(header + C.Records(arrived), C.Offsets(arrived, |arrived|, |header|)[k], c[k])
  {
    assert D.Present(arrived, k);
    var j :| 0 <= j < |arrived| && arrived[j].index == k;
    OffsetsAt(arrived, |arrived|, |header|, j);
    HeldInRecords(header, arrived, j, C.Offsets(arrived, |arrived|, |header|)[k], c[k]);
  }

  /** Whatever precedes the records, if the header there decodes to the
      offsets the writer noted, the reader hands on the blocks of `c` in
      index order. */
  lemma ReadsBackRecords(data: seq<byte>, header: seq<byte>, arrived: seq<FileBlock>, c: seq<FileBlock>)
    requires D.IndexPermutation(arrived)
    requires C.AllWritable(arrived) && |header| + |C.Records(arrived)| <= INT64_MAX
    requires |c| == |arrived| && forall j :: 0 <= j < |arrived| ==> arrived[j] == c[arrived[j].index]
    requires C.AllInRange(arrived, |arrived|)
    requires data == header + C.Records(arrived)
    requires D.HeaderAt(data) == Success(NewHeader(C.Offsets(arrived, |arrived|, |header|)))
    ensures D.ArchiveBlocks(data) == (c, Pass)
  {
    var offsets := C.Offsets(arrived, |arrived|, |header|);
    forall k | 0 <= k < |c| ensures RecordHeld(data, offsets[k], c[k]) {
      HeldAt(header, arrived, c, k);
    }
    ReadsBack(data, offsets, c);
  }

  /** Whatever order the blocks of `c` (indices `0 .. |c| - 1`) reached the
      writer in, the decompressor's reader hands them on in index order,
      and the writer had a slot for each. */
  lemma ArchiveReadsBack(arrived: seq<FileBlock>, c: seq<FileBlock>)
    requires D.IndexPermutation(arrived)
    requires C.AllWritable(arrived) && C.ArchiveFits(arrived, |arrived|)
    requires |c| == |arrived| && forall j :: 0 <= j < |arrived| ==> arrived[j] == c[arrived[j].index]
    ensures C.AllInRange(arrived, |arrived|)
    ensures D.ArchiveBlocks(C.Archive(arrived, |arrived|)) == (c, Pass)
  {
    var n := |arrived|;
    PermutationInRange(arrived);
    var header := ArchiveParts(arrived, n);
    ReadsBackRecords(C.Archive(arrived, n), header, arrived, c);
  }

  /** A permutation of `0 .. n - 1` has every index in range. */
  lemma PermutationInRange(arrived: seq<FileBlock>)
    requires D.IndexPermutation(arrived)
    ensures C.AllInRange(arrived, |arrived|)
  {
  }

  /** The archive is the framed header, which reads back as the offsets the
      writer noted, then the records. */
  lemma ArchiveParts(blocks: seq<FileBlock>, n: nat) returns (header: seq<byte>)
    requires C.AllWritable(blocks) && C.AllInRange(blocks, n) && C.ArchiveFits(blocks, n)
    ensures C.Archive(blocks, n) == header + C.Records(blocks)
    ensures |header| + |C.Records(blocks)| <= INT64_MAX
    ensures D.HeaderAt(C.Archive(blocks, n)) == Success(NewHeader(C.Offsets(blocks, n, |header|)))
  {
    header := ArchiveLayout(blocks, n);
    HeaderAtFront(C.Archive(blocks, n), NewHeader(C.Offsets(blocks, n, |header|)), C.Records(blocks));
  }

  /** The archive is the framed header, `8 + 8 * n` bytes long, then the records. */
  lemma ArchiveLayout(blocks: seq<FileBlock>, n: nat) returns (header: seq<byte>)
    requires C.AllWritable(blocks) && C.AllInRange(blocks, n) && C.ArchiveFits(blocks, n)
    ensures |header| == 8 + 8 * n && |header| + |C.Records(blocks)| <= INT64_MAX
    ensures header == C.HeaderFrame(NewHeader(C.Offsets(blocks, n, |header|)))
    ensures C.Archive(blocks, n) == header + C.Records(blocks)
  {
    header := C.HeaderFrame(NewHeader(C.Offsets(blocks, n, 8 + 8 * n)));
  }

  // ---------------------------------------------------------------------------
  // Arrival in any order

  /** Blocks numbered `0 .. |c| - 1`, block `i` at position `i`. */
  predicate Dense(c: seq<FileBlock>) {
    |c| <= INT32_MAX && forall i :: 0 <= i < |c| ==> c[i].index == i
  }

  /** No block occurs twice among numbered blocks. */
  lemma {:induction false} OccursOnce(c: seq<FileBlock>, x: FileBlock)
    requires Dense(c)
    ensures multiset(c)[x] <= 1
  {
    if c != [] {
      var init := c[..|c| - 1];
      assert c == init + [c[|c| - 1]];
      assert Dense(init);
      OccursOnce(init, x);
      if x == c[|c| - 1] {
        assert x !in init;
      }
    }
  }

  /** A block at two positions is counted twice. */
  lemma CountedTwice(s: seq<FileBlock>, j: nat, j': nat)
    requires j < j' < |s| && s[j] == s[j']
    ensures multiset(s)[s[j]] >= 2
  {
    assert s == s[..j'] + [s[j']] + s[j' + 1..];
    assert s[..j'][j] == s[j];
  }

  /** The numbered blocks `c`, reaching a writer in any order: the indices
      that arrive are `0 .. |c| - 1`, each once, and each carries its block. */
  lemma ArrivalOrder(arrived: seq<FileBlock>, c: seq<FileBlock>)
    requires Dense(c) && multiset(arrived) == multiset(c)
    ensures D.IndexPermutation(arrived)
    ensures |arrived| == |c| && forall j :: 0 <= j < |arrived| ==> arrived[j] == c[arrived[j].index]
  {
    assert |arrived| == |multiset(arrived)| == |multiset(c)| == |c|;
    forall j | 0 <= j < |arrived|
      ensures 0 <= arrived[j].index < |arrived| && arrived[j] == c[arrived[j].index]
    {
      assert arrived[j] in multiset(c);
      var i :| 0 <= i < |c| && c[i] == arrived[j];
    }
    forall j, j' | 0 <= j < j' < |arrived| ensures arrived[j].index != arrived[j'].index {
      if arrived[j].index == arrived[j'].index {
        CountedTwice(arrived, j, j');
        OccursOnce(c, arrived[j]);
      }
    }
    forall k | 0 <= k < |arrived| ensures D.Present(arrived, k) {
      assert c[k] in multiset(arrived);
      var j :| 0 <= j < |arrived| && arrived[j] == c[k];
    }
  }

  /** Whatever order the numbered blocks `c` arrive in, the decompressor's
      writer writes each of them once, in index order, and nothing else. */
  lemma ReorderAnyArrival(arrived: seq<FileBlock>, c: seq<FileBlock>)
    requires Dense(c) && multiset(arrived) == multiset(c)
    ensures D.Run(D.Start, arrived).1 == Pass
    ensures D.Run(D.Start, arrived).0.emitted == c
  {
    ArrivalOrder(arrived, c);
    D.ReorderRestoresOrder(arrived);
    var emitted := D.Run(D.Start, arrived).0.emitted;
    forall k | 0 <= k < |c| ensures emitted[k] == c[k] {
      assert D.Present(arrived, k);
    }
  }

  // ---------------------------------------------------------------------------
  // From a source file to an archive and back

  /** The corrected reader's blocks of `data`, compressed by `gzip`, arrive at
      the compress writer in the order `arrived`: the archive it writes reads
      back as those compressed blocks, in index order. */
  lemma CompressedReadsBack(data: seq<byte>, blockSize: int32, gzip: seq<byte> -> seq<byte>,
                            arrived: seq<FileBlock>)
    requires blockSize > 0 && |data| / blockSize <= INT32_MAX
    requires ActionBase.Transformable(C.ChunksFixed(data, blockSize, 0), gzip)
    requires multiset(arrived) == multiset(ActionBase.Transformed(C.ChunksFixed(data, blockSize, 0), gzip))
    requires GZipCompressor.CompressWritable(arrived, |data|, blockSize)
    ensures C.AllInRange(arrived, C.BlocksCount(|data|, blockSize))
    ensures D.ArchiveBlocks(C.Archive(arrived, C.BlocksCount(|data|, blockSize)))
      == (ActionBase.Transformed(C.ChunksFixed(data, blockSize, 0), gzip), Pass)
  {
    var z := ActionBase.Transformed(C.ChunksFixed(data, blockSize, 0), gzip);
    C.ChunksFixedLayout(data, blockSize, 0);
    assert Dense(z);
    ArrivalOrder(arrived, z);
    ArchiveReadsBack(arrived, z);
  }

  /** The whole round trip: the source is cut by the corrected reader,
      compressed, written in any arrival order, read back, decompressed, and
      written again in any arrival order; the file that comes out is the
      source. */
  lemma CompressThenDecompress(data: seq<byte>, blockSize: int32,
                               gzip: seq<byte> -> seq<byte>, gunzip: seq<byte> -> seq<byte>,
                               arrived: seq<FileBlock>, arrived2: seq<FileBlock>)
    requires blockSize > 0 && |data| / blockSize <= INT32_MAX
    requires forall x :: gunzip(gzip(x)) == x
    requires ActionBase.Transformable(C.ChunksFixed(data, blockSize, 0), gzip)
    requires multiset(arrived) == multiset(ActionBase.Transformed(C.ChunksFixed(data, blockSize, 0), gzip))
    requires GZipCompressor.CompressWritable(arrived, |data|, blockSize)
    requires multiset(arrived2) == multiset(C.ChunksFixed(data, blockSize, 0))
    ensures C.AllInRange(arrived, C.BlocksCount(|data|, blockSize))
    ensures D.ArchiveBlocks(C.Archive(arrived, C.BlocksCount(|data|, blockSize))).1 == Pass
    ensures var read := D.ArchiveBlocks(C.Archive(arrived, C.BlocksCount(|data|, blockSize))).0;
      && ActionBase.Transformable(read, gunzip)
      && ActionBase.Transformed(read, gunzip) == C.ChunksFixed(data, blockSize, 0)
    ensures D.Run(D.Start, arrived2).1 == Pass
    ensures Payloads(D.Run(D.Start, arrived2).0.emitted) == data
  {
    var c := C.ChunksFixed(data, blockSize, 0);
    CompressedReadsBack(data, blockSize, gzip, arrived);
    C.ChunksFixedLayout(data, blockSize, 0);
    ActionBase.TransformedInverse(c, gzip, gunzip);
    ReorderAnyArrival(arrived2, c);
  }

  /** Off an exact multiple of the block size, the reader as written cuts the
      same blocks as the corrected one, so the round trip holds for it too. */
  lemma CompressThenDecompressAsWritten(data: seq<byte>, blockSize: int32,
                                        gzip: seq<byte> -> seq<byte>, gunzip: seq<byte> -> seq<byte>,
                                        arrived: seq<FileBlock>, arrived2: seq<FileBlock>)
    requires blockSize > 0 && |data| / blockSize <= INT32_MAX && |data| % blockSize != 0
    requires forall x :: gunzip(gzip(x)) == x
    requires ActionBase.Transformable(C.Chunks(data, blockSize, 0), gzip)
    requires multiset(arrived) == multiset(ActionBase.Transformed(C.Chunks(data, blockSize, 0), gzip))
    requires GZipCompressor.CompressWritable(arrived, |data|, blockSize)
    requires multiset(arrived2) == multiset(C.Chunks(data, blockSize, 0))
    ensures C.AllInRange(arrived, C.BlocksCount(|data|, blockSize))
    ensures D.ArchiveBlocks(C.Archive(arrived, C.BlocksCount(|data|, blockSize))).1 == Pass
    ensures D.Run(D.Start, arrived2).1 == Pass
    ensures Payloads(D.Run(D.Start, arrived2).0.emitted) == data
  {
    C.ChunksAgree(data, blockSize, 0);
    CompressThenDecompress(data, blockSize, gzip, gunzip, arrived, arrived2);
  }

  /** On an exact multiple of the block size (the empty source included),
      whatever order the compressed blocks of the reader as written arrive
      in, one of them has no slot in the header, so `Write` fails with
      `IndexOutOfRange` and no archive is completed. */
  lemma ExactMultipleWriteFails(data: seq<byte>, blockSize: int32, gzip: seq<byte> -> seq<byte>,
                                arrived: seq<FileBlock>)
    requires blockSize > 0 && |data| / blockSize <= INT32_MAX && |data| % blockSize == 0
    requires ActionBase.Transformable(C.Chunks(data, blockSize, 0), gzip)
    requires multiset(arrived) == multiset(ActionBase.Transformed(C.Chunks(data, blockSize, 0), gzip))
    ensures !C.AllInRange(arrived, C.BlocksCount(|data|, blockSize))
  {
    var c := C.Chunks(data, blockSize, 0);
    var z := ActionBase.Transformed(c, gzip);
    C.ExactMultipleExtraBlock(data, blockSize);
    var last := z[|z| - 1];
    assert last.index == C.BlocksCount(|data|, blockSize);
    assert last in multiset(arrived);
    var j :| 0 <= j < |arrived| && arrived[j] == last;
  }
}

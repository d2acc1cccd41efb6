/** What the shared base of the two action classes adds around their
    reader, transform and writer (Archiver.Core/Compressors/GZipActionBase.cs):
    the transform worker and the refusal of an empty source. Starting and
    joining the threads is not modelled. */
module ActionBase {
  import opened Bytes
  import opened Errors
  import opened FileBlocks

  /** Every block that can be transformed: the new payload's length still fits an `int`. */
  predicate Transformable(blocks: seq<FileBlock>, f: seq<byte> -> seq<byte>) {
    forall i :: 0 <= i < |blocks| ==> |f(blocks[i].data)| <= INT32_MAX
  }

  /** The blocks a worker enqueues for the blocks it dequeues: the same
      number, each with its index kept and its payload transformed. */
  function Transformed(blocks: seq<FileBlock>, f: seq<byte> -> seq<byte>): (r: seq<FileBlock>)
    requires Transformable(blocks, f)
    ensures |r| == |blocks|
    ensures forall i :: 0 <= i < |r| ==>
      r[i].Valid() && r[i].index == blocks[i].index && r[i].data == f(blocks[i].data)
  {
    seq(|blocks|, i requires 0 <= i < |blocks| => NewBlock(blocks[i].index, f(blocks[i].data)))
  }

  /** `DoCompressWork` for a single worker: dequeue, `ApplyCompression`,
      enqueue, until the source queue is exhausted. */
  method DoCompressWork(sourceBlocks: seq<FileBlock>, f: seq<byte> -> seq<byte>)
    returns (targetBlocks: seq<FileBlock>)
    requires Transformable(sourceBlocks, f)
    ensures targetBlocks == Transformed(sourceBlocks, f)
  {
    targetBlocks := [];
    var i := 0;
    while i < |sourceBlocks|
      invariant 0 <= i <= |sourceBlocks|
      invariant targetBlocks == Transformed(sourceBlocks, f)[..i]
    {
      var block := sourceBlocks[i];
      targetBlocks := targetBlocks + [NewBlock(block.index, f(block.data))];
      i := i + 1;
    }
  }

  /** A transform undone by its inverse gives back the blocks it started
      from: indices are kept, and the sizes follow the payloads. */
  lemma {:induction false} TransformedInverse(blocks: seq<FileBlock>, f: seq<byte> -> seq<byte>,
                                               g: seq<byte> -> seq<byte>)
    requires Transformable(blocks, f)
    requires forall i :: 0 <= i < |blocks| ==> |g(f(blocks[i].data))| <= INT32_MAX
    requires forall i :: 0 <= i < |blocks| ==> blocks[i].Valid() && g(f(blocks[i].data)) == blocks[i].data
    ensures Transformable(Transformed(blocks, f), g)
    ensures Transformed(Transformed(blocks, f), g) == blocks
  {
    var once := Transformed(blocks, f);
    var twice := Transformed(once, g);
    forall i | 0 <= i < |blocks| ensures twice[i] == blocks[i] {
      assert once[i].data == f(blocks[i].data);
    }
  }

  /** `ApplyCompressorAction` refuses an empty source with a
      `BusinessLogicException` before any thread starts. */
  function CheckSource(sourceLength: nat): (r: Outcome)
    ensures r == Pass <==> sourceLength > 0
    ensures r.Fail? ==> r.error == BusinessLogic
  {
    if sourceLength == 0 then Fail(BusinessLogic) else Pass
  }
}

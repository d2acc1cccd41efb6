/** `ArchiveHeader`: the block count and per-block offsets (Archiver.Core/Common/ArchiveHeader.cs). */
module ArchiveHeaders {
  import opened Bytes
  import opened Errors

  datatype ArchiveHeader = ArchiveHeader(blocksCount: int32, blockOffsets: seq<int64>) {
    /** What the constructor establishes: `BlocksCount` is the number of offsets. */
    predicate Valid() {
      blocksCount == |blockOffsets|
    }
  }

  /** The constructor `ArchiveHeader(long[])`; the offsets are copied, so the
      header is a value that later writes to the caller's array cannot reach. */
  function NewHeader(offsets: seq<int64>): (h: ArchiveHeader)
    requires |offsets| <= INT32_MAX
    ensures h.Valid() && h.blockOffsets == offsets
  {
    ArchiveHeader(|offsets|, offsets)
  }

  /** `CreateEmpty(n)`: `n` zero offsets; `new long[n]` rejects a negative `n`. */
  function CreateEmpty(n: int32): (r: Result<ArchiveHeader>)
    ensures r.Success? <==> n >= 0
    ensures r.Failure? ==> r.error == Overflow
    ensures r.Success? ==> r.value.Valid() && r.value.blocksCount == n
    ensures r.Success? ==> forall i :: 0 <= i < n ==> r.value.blockOffsets[i] == 0
  {
    if n < 0 then Failure(Overflow) else Success(NewHeader(seq(n, _ => 0)))
  }
}

/** The read/write counters of `CompressorSyncContext`
    (Archiver.Core/CompressorSyncContext.cs). Blocking the reader while it is
    `maxCountDelta` blocks ahead is concurrency and is not modelled; what is
    kept is how often each side reports a block. */
module SyncContext {

  class CompressorSyncContext {
    const maxCountDelta: int
    var readCount: nat
    var writeCount: nat

    constructor (maxCountDelta: int)
      requires maxCountDelta > 0
      ensures this.maxCountDelta == maxCountDelta
      ensures readCount == 0 && writeCount == 0
    {
      this.maxCountDelta := maxCountDelta;
      readCount, writeCount := 0, 0;
    }

    method IncrementReadCount()
      modifies this
      ensures readCount == old(readCount) + 1 && writeCount == old(writeCount)
    {
      readCount := readCount + 1;
    }

    method IncrementWriteCount()
      modifies this
      ensures writeCount == old(writeCount) + 1 && readCount == old(readCount)
    {
      writeCount := writeCount + 1;
    }
  }
}

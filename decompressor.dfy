/** The decompress side (Archiver.Core/Compressors/GZipActionDecompressor.cs):
    the reader that follows the header's offsets to each framed record, and
    the writer that restores index order with a sorted buffer and a counter
    of the next index to write. */
module ActionDecompressor {
  import opened Bytes
  import opened Errors
  import opened FileBlocks
  import opened ArchiveHeaders
  import opened Streams
  import opened SyncContext
  import opened FileStreamExtensions
  import FileBlockSerializer
  import ArchiveHeaderSerializer

  // ---------------------------------------------------------------------------
  // The reorder buffer (`SortedList<int, FileBlock>` keyed by `Index`)

  /** The keys of a `SortedList` are strictly increasing. */
  predicate Sorted(buffer: seq<FileBlock>) {
    forall a, b :: 0 <= a < b < |buffer| ==> buffer[a].index < buffer[b].index
  }

  predicate HasKey(buffer: seq<FileBlock>, key: int) {
    exists t :: 0 <= t < |buffer| && buffer[t].index == key
  }

  /** `SortedList.Add(block.Index, block)`: an `ArgumentException` when the
      key is already there, otherwise the block goes in at its sorted place. */
  function Insert(buffer: seq<FileBlock>, b: FileBlock): (r: Result<seq<FileBlock>>)
    requires Sorted(buffer)
    ensures r.Failure? <==> HasKey(buffer, b.index)
    ensures r.Failure? ==> r.error == DuplicateKey
    ensures r.Success? ==> Sorted(r.value) && multiset(r.value) == multiset(buffer) + multiset{b}
  {
    if buffer == [] then Success([b])
    else if buffer[0].index == b.index then Failure(DuplicateKey)
    else if b.index < buffer[0].index then Success([b] + buffer)
    else
      match Insert(buffer[1..], b)
      case Failure(e) =>
        assert HasKey(buffer, b.index) by {
          var t :| 0 <= t < |buffer[1..]| && buffer[1..][t].index == b.index;
          assert buffer[t + 1].index == b.index;
        }
        Failure(e)
      case Success(rest) =>
        InsertSorted(buffer, b, rest);
        Success([buffer[0]] + rest)
  }

  lemma InsertSorted(buffer: seq<FileBlock>, b: FileBlock, rest: seq<FileBlock>)
    requires Sorted(buffer) && buffer != [] && buffer[0].index < b.index
    requires !HasKey(buffer[1..], b.index)
    requires Sorted(rest) && multiset(rest) == multiset(buffer[1..]) + multiset{b}
    ensures Sorted([buffer[0]] + rest)
    ensures multiset([buffer[0]] + rest) == multiset(buffer) + multiset{b}
    ensures !HasKey(buffer, b.index)
  {
    forall t | 0 <= t < |rest| ensures buffer[0].index < rest[t].index {
      assert rest[t] in multiset(rest);
      if rest[t] != b {
        assert rest[t] in multiset(buffer[1..]);
        var u :| 0 <= u < |buffer[1..]| && buffer[1..][u] == rest[t];
        assert buffer[u + 1] == rest[t];
      }
    }
    assert buffer == [buffer[0]] + buffer[1..];
    forall t | 0 < t < |buffer| ensures buffer[t].index != b.index {
      assert buffer[1..][t - 1] == buffer[t];
    }
  }

  /** The writer's state between two dequeues: the buffered blocks, the
      index it waits for, and the blocks already written, in writing order. */
  datatype Reordering = Reordering(buffer: seq<FileBlock>, index: int32, emitted: seq<FileBlock>)

  /** The state before the first dequeue. */
  const Start: Reordering := Reordering([], 0, [])

  /** The inner `do … while`: write and remove the first buffered block as
      long as it carries the awaited index. Afterwards the buffer is empty
      or its smallest key is not the awaited index. */
  function Drain(s: Reordering): (r: Reordering)
    ensures r.buffer == [] || r.buffer[0].index != r.index
    ensures |r.buffer| <= |s.buffer|
    decreases |s.buffer|
  {
    if s.buffer != [] && s.buffer[0].index == s.index then
      Drain(Reordering(s.buffer[1..], Next(s.index), s.emitted + [s.buffer[0]]))
    else s
  }

  /** What `Drain` writes is a prefix of the buffer, and what it keeps is the
      rest of the buffer. */
  lemma {:induction false} DrainShape(s: Reordering)
    ensures var r := Drain(s); var m := |s.buffer| - |r.buffer|;
      r.buffer == s.buffer[m..] && r.emitted == s.emitted + s.buffer[..m]
    decreases |s.buffer|
  {
    if s.buffer != [] && s.buffer[0].index == s.index {
      var tail := s.buffer[1..];
      var next := Reordering(tail, Next(s.index), s.emitted + [s.buffer[0]]);
      DrainShape(next);
      var m := |tail| - |Drain(next).buffer|;
      assert tail[m..] == s.buffer[m + 1..];
      assert [s.buffer[0]] + tail[..m] == s.buffer[..m + 1];
    }
  }

  /** One dequeued block: `Add`, then the inner loop. */
  function Accept(s: Reordering, b: FileBlock): (r: Result<Reordering>)
    requires Sorted(s.buffer)
    ensures r.Failure? <==> HasKey(s.buffer, b.index)
    ensures r.Failure? ==> r.error == DuplicateKey
    ensures r.Success? ==> Sorted(r.value.buffer)
    ensures r.Success? ==> r.value.buffer == [] || r.value.buffer[0].index != r.value.index
    ensures r.Success? ==> |s.emitted| <= |r.value.emitted| && r.value.emitted[..|s.emitted|] == s.emitted
  {
    match Insert(s.buffer, b)
    case Failure(e) => Failure(e)
    case Success(buffer) =>
      var r := Drain(Reordering(buffer, s.index, s.emitted));
      DrainShape(Reordering(buffer, s.index, s.emitted));
      SortedSuffix(buffer, |buffer| - |r.buffer|);
      assert r.emitted[..|s.emitted|] == s.emitted;
      Success(r)
  }

  lemma SortedSuffix(buffer: seq<FileBlock>, k: nat)
    requires Sorted(buffer) && k <= |buffer|
    ensures Sorted(buffer[k..])
  {
  }

  /** The outer loop over the dequeued blocks. A duplicate key ends it with
      the exception and the state reached before that block. Blocks once
      written stay written: the emitted sequence only grows. */
  function Run(s: Reordering, blocks: seq<FileBlock>): (r: (Reordering, Outcome))
    requires Sorted(s.buffer)
    ensures Sorted(r.0.buffer)
    ensures (s.buffer == [] || s.buffer[0].index != s.index) ==>
      r.0.buffer == [] || r.0.buffer[0].index != r.0.index
    ensures r.1.Fail? ==> r.1 == Fail(DuplicateKey)
    ensures |s.emitted| <= |r.0.emitted| && r.0.emitted[..|s.emitted|] == s.emitted
    decreases |blocks|
  {
    if blocks == [] then (s, Pass)
    else
      match Accept(s, blocks[0])
      case Failure(e) => (s, Fail(e))
      case Success(next) =>
        var r := Run(next, blocks[1..]);
        assert r.0.emitted[..|s.emitted|] == r.0.emitted[..|next.emitted|][..|s.emitted|];
        r
  }

  lemma PayloadsSnoc(blocks: seq<FileBlock>, b: FileBlock)
    ensures Payloads(blocks + [b]) == Payloads(blocks) + b.data
  {
    PayloadsAppend(blocks, [b]);
    assert Payloads([b]) == b.data + Payloads([]);
  }

  /** `Run` after one more accepted block. */
  lemma RunStep(s: Reordering, blocks: seq<FileBlock>, i: nat, next: Reordering)
    requires Sorted(s.buffer) && i < |blocks|
    requires Accept(s, blocks[i]) == Success(next)
    ensures Run(s, blocks[i..]) == Run(next, blocks[i + 1..])
  {
    assert blocks[i..][0] == blocks[i] && blocks[i..][1..] == blocks[i + 1..];
  }

  /** The inner `do … while` of `Write`: write and remove the first
      buffered block while it carries the awaited index. */
  method WriteReady(stream: Stream, context: CompressorSyncContext, sortedBlocks: seq<FileBlock>,
                    index: int32, ghost emitted: seq<FileBlock>, ghost prefix: seq<byte>)
    returns (rest: seq<FileBlock>, next: int32, ghost written: seq<FileBlock>)
    requires sortedBlocks != []
    requires stream.content == prefix + Payloads(emitted) && stream.position == |stream.content|
    modifies stream, context
    ensures Reordering(rest, next, written) == Drain(Reordering(sortedBlocks, index, emitted))
    ensures stream.content == prefix + Payloads(written) && stream.position == |stream.content|
    ensures context.writeCount + |emitted| == old(context.writeCount) + |written|
    ensures context.readCount == old(context.readCount)
  {
    rest, next, written := sortedBlocks, index, emitted;
    while true
      invariant rest != []
      invariant Drain(Reordering(sortedBlocks, index, emitted)) == Drain(Reordering(rest, next, written))
      invariant stream.content == prefix + Payloads(written) && stream.position == |stream.content|
      invariant context.writeCount + |emitted| == old(context.writeCount) + |written|
      invariant context.readCount == old(context.readCount)
      decreases |rest|
    {
      var firstElement := rest[0];
      if firstElement.index != next {
        return;
      }
      rest := rest[1..];
      PayloadsSnoc(written, firstElement);
      OverwriteAtEnd(stream.content, firstElement.data);
      stream.Write(firstElement.data);
      next := Next(next);
      written := written + [firstElement];
      context.IncrementWriteCount();
      if |rest| == 0 {
        return;
      }
    }
  }

  /** `Write`: for each dequeued block, `Add` it to the sorted buffer, then
      write out the buffered blocks from the front for as long as the first
      one carries the awaited `index`. The bytes written are the payloads of
      `Run`'s emitted blocks, one write reported per block. */
  method Write(stream: Stream, targetBlocks: seq<FileBlock>, context: CompressorSyncContext)
    returns (r: Outcome)
    requires stream.position == |stream.content|
    modifies stream, context
    ensures r == Run(Start, targetBlocks).1
    ensures stream.content == old(stream.content) + Payloads(Run(Start, targetBlocks).0.emitted)
    ensures context.writeCount == old(context.writeCount) + |Run(Start, targetBlocks).0.emitted|
    ensures context.readCount == old(context.readCount)
  {
    var index: int32 := 0;
    var sortedBlocks: seq<FileBlock> := [];
    ghost var emitted: seq<FileBlock> := [];
    ghost var prefix := stream.content;
    var i := 0;
    assert targetBlocks[0..] == targetBlocks;
    while i < |targetBlocks|
      invariant 0 <= i <= |targetBlocks|
      invariant Sorted(sortedBlocks)
      invariant Run(Start, targetBlocks) == Run(Reordering(sortedBlocks, index, emitted), targetBlocks[i..])
      invariant stream.content == prefix + Payloads(emitted) && stream.position == |stream.content|
      invariant context.writeCount == old(context.writeCount) + |emitted|
      invariant context.readCount == old(context.readCount)
    {
      var block := targetBlocks[i];
      ghost var before := Reordering(sortedBlocks, index, emitted);
      assert targetBlocks[i..][0] == block;
      var added := Insert(sortedBlocks, block);
      if added.Failure? {
        return Fail(added.error);
      }
      ghost var accepted := Accept(before, block).value;
      sortedBlocks, index, emitted := WriteReady(stream, context, added.value, index, emitted, prefix);
      assert Reordering(sortedBlocks, index, emitted) == accepted;
      RunStep(before, targetBlocks, i, accepted);
      i := i + 1;
    }
    r := Pass;
  }

  // ---------------------------------------------------------------------------
  // Properties of the reorder buffer

  /** The writer has written blocks `0, 1, …` in that order and waits for
      the next one. */
  predicate InOrder(s: Reordering) {
    && s.index == |s.emitted|
    && forall k :: 0 <= k < |s.emitted| ==> s.emitted[k].index == k
  }

  /** The inner loop keeps the written blocks consecutive: it only writes
      the block carrying the awaited index, then awaits the next one. */
  lemma {:induction false} DrainOrdered(s: Reordering)
    requires InOrder(s) && |s.emitted| + |s.buffer| <= INT32_MAX
    ensures InOrder(Drain(s))
    ensures |Drain(s).emitted| + |Drain(s).buffer| == |s.emitted| + |s.buffer|
    decreases |s.buffer|
  {
    if s.buffer != [] && s.buffer[0].index == s.index {
      var next := Reordering(s.buffer[1..], Next(s.index), s.emitted + [s.buffer[0]]);
      assert Next(s.index) == s.index + 1;
      assert forall k :: 0 <= k < |next.emitted| ==> next.emitted[k].index == k by {
        forall k | 0 <= k < |next.emitted| ensures next.emitted[k].index == k {
          if k < |s.emitted| {
            assert next.emitted[k] == s.emitted[k];
          }
        }
      }
      DrainOrdered(next);
    }
  }

  /** Whatever arrives (gaps, stale indices or repeats included), the writer
      writes blocks `0, 1, 2, …` consecutively: a block is written only when
      its key is the awaited index, which then moves on by one. */
  lemma {:induction false} RunOrdered(s: Reordering, blocks: seq<FileBlock>)
    requires Sorted(s.buffer) && InOrder(s)
    requires |s.emitted| + |s.buffer| + |blocks| <= INT32_MAX
    ensures InOrder(Run(s, blocks).0)
    ensures |Run(s, blocks).0.emitted| + |Run(s, blocks).0.buffer| <= |s.emitted| + |s.buffer| + |blocks|
    decreases |blocks|
  {
    if blocks != [] {
      match Insert(s.buffer, blocks[0])
      case Failure(_) =>
      case Success(buffer) =>
        assert |buffer| == |s.buffer| + 1 by {
          assert |multiset(buffer)| == |multiset(s.buffer)| + 1;
        }
        var next := Drain(Reordering(buffer, s.index, s.emitted));
        DrainOrdered(Reordering(buffer, s.index, s.emitted));
        assert Accept(s, blocks[0]) == Success(next);
        RunOrdered(next, blocks[1..]);
    }
  }

  /** From the start, for any sequence of arrivals the `k`-th block written
      carries index `k`. */
  lemma AnyArrivalInOrder(blocks: seq<FileBlock>)
    requires |blocks| <= INT32_MAX
    ensures forall k :: 0 <= k < |Run(Start, blocks).0.emitted| ==> Run(Start, blocks).0.emitted[k].index == k
  {
    RunOrdered(Start, blocks);
  }

  /** Every arrival carries an index below the number of arrivals. */
  predicate IndicesInRange(blocks: seq<FileBlock>) {
    && |blocks| <= INT32_MAX
    && (forall j :: 0 <= j < |blocks| ==> 0 <= blocks[j].index < |blocks|)
  }

  /** The dequeued indices are `0 .. |blocks| - 1`, each exactly once. */
  predicate IndexPermutation(blocks: seq<FileBlock>) {
    && |blocks| <= INT32_MAX
    && (forall j :: 0 <= j < |blocks| ==> 0 <= blocks[j].index < |blocks|)
    && (forall j, j' :: 0 <= j < j' < |blocks| ==> blocks[j].index != blocks[j'].index)
    && (forall k :: 0 <= k < |blocks| ==> Present(blocks, k))
  }

  predicate Present(blocks: seq<FileBlock>, k: int) {
    exists j :: 0 <= j < |blocks| && blocks[j].index == k
  }

  /** The writer's state after the first `i` dequeues of a permutation:
      blocks `0 .. index - 1` have been written, in index order, and every
      other block seen so far waits in the buffer. */
  predicate InOrderSoFar(s: Reordering, blocks: seq<FileBlock>, i: nat)
    requires i <= |blocks|
  {
    && Sorted(s.buffer)
    && (s.buffer == [] || s.buffer[0].index != s.index)
    && s.index == |s.emitted| <= |blocks|
    && EmittedFrom(s.emitted, blocks, i)
    && BufferedFrom(s.buffer, s.index, blocks, i)
    && Placed(s.emitted, s.buffer, blocks, i)
  }

  /** The `k`-th written block has index `k` and is one of the first `i` arrivals. */
  predicate EmittedFrom(emitted: seq<FileBlock>, blocks: seq<FileBlock>, i: nat)
    requires i <= |blocks|
  {
    forall k :: 0 <= k < |emitted| ==> emitted[k].index == k && emitted[k] in blocks[..i]
  }

  /** Every buffered block is at or above the awaited index and is one of the first `i` arrivals. */
  predicate BufferedFrom(buffer: seq<FileBlock>, index: int, blocks: seq<FileBlock>, i: nat)
    requires i <= |blocks|
  {
    forall t :: 0 <= t < |buffer| ==> index <= buffer[t].index && buffer[t] in blocks[..i]
  }

  /** Each of the first `i` arrivals has been written at its own index or is buffered. */
  predicate Placed(emitted: seq<FileBlock>, buffer: seq<FileBlock>, blocks: seq<FileBlock>, i: nat)
    requires i <= |blocks|
  {
    forall j :: 0 <= j < i ==>
      if 0 <= blocks[j].index < |emitted| then emitted[blocks[j].index] == blocks[j]
      else blocks[j] in buffer
  }

  /** Without wrap-around, `Drain` writes blocks with consecutive indices
      starting at the awaited one, and awaits the index after the last. */
  lemma {:induction false} DrainConsecutive(s: Reordering)
    requires Sorted(s.buffer)
    requires forall t :: 0 <= t < |s.buffer| ==> s.index <= s.buffer[t].index < INT32_MAX
    ensures var m := |s.buffer| - |Drain(s).buffer|;
      && Drain(s).index == s.index + m
      && forall t :: 0 <= t < m ==> s.buffer[t].index == s.index + t
    decreases |s.buffer|
  {
    if s.buffer != [] && s.buffer[0].index == s.index {
      var tail := s.buffer[1..];
      var next := Reordering(tail, Next(s.index), s.emitted + [s.buffer[0]]);
      assert Next(s.index) == s.index + 1;
      SortedSuffix(s.buffer, 1);
      forall t | 0 <= t < |tail| ensures next.index <= tail[t].index < INT32_MAX {
        assert tail[t] == s.buffer[t + 1];
      }
      DrainConsecutive(next);
      var m := |s.buffer| - |Drain(s).buffer|;
      forall t | 0 < t < m ensures s.buffer[t].index == s.index + t {
        assert s.buffer[t] == tail[t - 1];
      }
    }
  }

  /** The next dequeued block of a permutation is no duplicate and is not
      below the awaited index. */
  lemma NextIsFresh(s: Reordering, blocks: seq<FileBlock>, i: nat)
    requires IndexPermutation(blocks) && i < |blocks| && InOrderSoFar(s, blocks, i)
    ensures !HasKey(s.buffer, blocks[i].index)
    ensures s.index <= blocks[i].index
  {
    forall t | 0 <= t < |s.buffer| ensures s.buffer[t].index != blocks[i].index {
      var j :| 0 <= j < i && blocks[..i][j] == s.buffer[t];
      assert blocks[..i][j] == blocks[j];
    }
    if |s.emitted| > 0 {
      var k := if blocks[i].index < |s.emitted| then blocks[i].index else 0;
      assert s.emitted[k] in blocks[..i];
      forall j | 0 <= j < i ensures blocks[..i][j] == blocks[j] && blocks[j].index != blocks[i].index {
      }
    }
  }

  /** Where a block sits in a sorted buffer whose first `m` entries carry
      `lo, lo + 1, …`: below `lo + m` only within those `m`. */
  lemma PositionInDrained(buffer: seq<FileBlock>, lo: int, m: nat, t: nat)
    requires Sorted(buffer) && m <= |buffer| && t < |buffer|
    requires forall u :: 0 <= u < m ==> buffer[u].index == lo + u
    requires lo <= buffer[t].index
    ensures buffer[t].index < lo + m <==> t < m
    ensures t < m ==> t == buffer[t].index - lo
  {
    if t >= m && m > 0 {
      assert buffer[m - 1].index < buffer[t].index;
    }
  }

  /** What `Insert` put in the buffer: the old entries and the new block. */
  lemma InsertedMembers(buffer: seq<FileBlock>, b: FileBlock, buf1: seq<FileBlock>)
    requires Sorted(buffer) && Insert(buffer, b) == Success(buf1)
    ensures b in buf1
    ensures forall x :: x in buffer ==> x in buf1
    ensures forall t :: 0 <= t < |buf1| ==> buf1[t] == b || buf1[t] in buffer
  {
    assert b in multiset(buf1);
    forall x | x in buffer ensures x in buf1 {
      assert x in multiset(buffer);
      assert x in multiset(buf1);
    }
    forall t | 0 <= t < |buf1| ensures buf1[t] == b || buf1[t] in buffer {
      assert buf1[t] in multiset(buf1);
      if buf1[t] != b {
        assert buf1[t] in multiset(buffer);
      }
    }
  }

  /** One dequeue of a permutation keeps `InOrderSoFar`. */
  lemma AcceptStep(s: Reordering, blocks: seq<FileBlock>, i: nat)
    requires IndexPermutation(blocks) && i < |blocks| && InOrderSoFar(s, blocks, i)
    ensures Accept(s, blocks[i]).Success?
    ensures InOrderSoFar(Accept(s, blocks[i]).value, blocks, i + 1)
  {
    var b := blocks[i];
    NextIsFresh(s, blocks, i);
    var buf1 := Insert(s.buffer, b).value;
    InsertedMembers(s.buffer, b, buf1);
    InsertedInPrefix(s, blocks, i, buf1);
    assert IndicesInRange(blocks);
    assert Accept(s, b) == Success(Drain(Reordering(buf1, s.index, s.emitted)));
    DrainedState(s, blocks, i, buf1);
  }

  /** After inserting the `i`-th arrival, the buffer holds exactly the
      arrivals so far that have not been written yet. */
  lemma InsertedInPrefix(s: Reordering, blocks: seq<FileBlock>, i: nat, buf1: seq<FileBlock>)
    requires IndexPermutation(blocks) && i < |blocks| && InOrderSoFar(s, blocks, i)
    requires s.index <= blocks[i].index && blocks[i] in buf1
    requires forall t :: 0 <= t < |buf1| ==> buf1[t] == blocks[i] || buf1[t] in s.buffer
    requires forall x :: x in s.buffer ==> x in buf1
    ensures forall t :: 0 <= t < |buf1| ==>
      s.index <= buf1[t].index < |blocks| && buf1[t] in blocks[..i + 1]
    ensures forall j :: 0 <= j < i + 1 && s.index <= blocks[j].index ==> blocks[j] in buf1
  {
    assert blocks[..i + 1] == blocks[..i] + [blocks[i]];
    forall t | 0 <= t < |buf1| ensures s.index <= buf1[t].index < |blocks| && buf1[t] in blocks[..i + 1] {
    }
    forall j | 0 <= j < i + 1 && s.index <= blocks[j].index ensures blocks[j] in buf1 {
      if j < i {
        assert blocks[j] in s.buffer;
      }
    }
  }

  /** Draining the buffer `buf1` that `Insert` returned restores the
      invariant one arrival further on. */
  lemma DrainedState(s: Reordering, blocks: seq<FileBlock>, i: nat, buf1: seq<FileBlock>)
    requires IndicesInRange(blocks) && i < |blocks| && InOrderSoFar(s, blocks, i)
    requires s.index <= blocks[i].index && Sorted(buf1)
    requires forall t :: 0 <= t < |buf1| ==>
      s.index <= buf1[t].index < |blocks| && buf1[t] in blocks[..i + 1]
    requires forall j :: 0 <= j < i + 1 && s.index <= blocks[j].index ==> blocks[j] in buf1
    ensures InOrderSoFar(Drain(Reordering(buf1, s.index, s.emitted)), blocks, i + 1)
  {
    var mid := Reordering(buf1, s.index, s.emitted);
    var r := Drain(mid);
    DrainShape(mid);
    DrainConsecutive(mid);
    var m := |buf1| - |r.buffer|;
    SortedSuffix(buf1, m);
    if m > 0 {
      assert buf1[m - 1].index == s.index + m - 1 < |blocks|;
    }
    BufferAfterDrain(s.index, blocks, i, buf1, m, r);
    EmittedAfterDrain(s.emitted, blocks, i, buf1, m, r.emitted);
    PlacedAfterDrain(s, blocks, i, buf1, m, r);
  }

  lemma BufferAfterDrain(index: int, blocks: seq<FileBlock>, i: nat, buf1: seq<FileBlock>, m: nat,
                         r: Reordering)
    requires i < |blocks| && Sorted(buf1) && m <= |buf1|
    requires r.buffer == buf1[m..] && r.index == index + m
    requires forall u :: 0 <= u < m ==> buf1[u].index == index + u
    requires forall t :: 0 <= t < |buf1| ==> index <= buf1[t].index && buf1[t] in blocks[..i + 1]
    ensures BufferedFrom(r.buffer, r.index, blocks, i + 1)
  {
    forall t | 0 <= t < |r.buffer| ensures r.index <= r.buffer[t].index && r.buffer[t] in blocks[..i + 1] {
      assert r.buffer[t] == buf1[m + t];
      PositionInDrained(buf1, index, m, m + t);
    }
  }

  lemma EmittedAfterDrain(emitted: seq<FileBlock>, blocks: seq<FileBlock>, i: nat, buf1: seq<FileBlock>,
                          m: nat, emitted': seq<FileBlock>)
    requires i < |blocks| && m <= |buf1|
    requires emitted' == emitted + buf1[..m]
    requires EmittedFrom(emitted, blocks, i)
    requires forall u :: 0 <= u < m ==> buf1[u].index == |emitted| + u && buf1[u] in blocks[..i + 1]
    ensures EmittedFrom(emitted', blocks, i + 1)
  {
    assert blocks[..i + 1] == blocks[..i] + [blocks[i]];
    forall k | 0 <= k < |emitted'| ensures emitted'[k].index == k && emitted'[k] in blocks[..i + 1] {
      if k >= |emitted| {
        assert emitted'[k] == buf1[k - |emitted|];
      } else {
        assert emitted'[k] == emitted[k];
      }
    }
  }

  lemma PlacedAfterDrain(s: Reordering, blocks: seq<FileBlock>, i: nat, buf1: seq<FileBlock>, m: nat,
                         r: Reordering)
    requires IndicesInRange(blocks) && i < |blocks| && s.index == |s.emitted|
    requires Placed(s.emitted, s.buffer, blocks, i)
    requires s.index <= blocks[i].index
    requires Sorted(buf1) && m <= |buf1|
    requires r.buffer == buf1[m..] && r.emitted == s.emitted + buf1[..m]
    requires forall u :: 0 <= u < m ==> buf1[u].index == s.index + u
    requires forall t :: 0 <= t < |buf1| ==> s.index <= buf1[t].index
    requires forall j :: 0 <= j < i + 1 && s.index <= blocks[j].index ==> blocks[j] in buf1
    ensures Placed(r.emitted, r.buffer, blocks, i + 1)
  {
    forall j | 0 <= j < i + 1
      ensures if 0 <= blocks[j].index < |r.emitted| then r.emitted[blocks[j].index] == blocks[j]
              else blocks[j] in r.buffer
    {
      if blocks[j].index < s.index {
        assert j < i;
        assert r.emitted[blocks[j].index] == s.emitted[blocks[j].index];
      } else {
        var t :| 0 <= t < |buf1| && buf1[t] == blocks[j];
        PositionInDrained(buf1, s.index, m, t);
        if t < m {
          assert r.emitted[|s.emitted| + t] == buf1[t];
        } else {
          assert r.buffer[t - m] == buf1[t];
        }
      }
    }
  }


  lemma {:induction false} RunInOrder(s: Reordering, blocks: seq<FileBlock>, i: nat)
    requires IndexPermutation(blocks) && i <= |blocks| && InOrderSoFar(s, blocks, i)
    ensures Run(s, blocks[i..]).1 == Pass
    ensures InOrderSoFar(Run(s, blocks[i..]).0, blocks, |blocks|)
    decreases |blocks| - i
  {
    if i < |blocks| {
      AcceptStep(s, blocks, i);
      var next := Accept(s, blocks[i]).value;
      RunStep(s, blocks, i, next);
      RunInOrder(next, blocks, i + 1);
    }
  }

  /** Whatever order a permutation of `0 .. n - 1` arrives in, the writer
      ends with an empty buffer awaiting `n`, having written every block
      exactly once, block `k` as the `k`-th write. */
  lemma ReorderRestoresOrder(blocks: seq<FileBlock>)
    requires IndexPermutation(blocks)
    ensures Run(Start, blocks).1 == Pass
    ensures Run(Start, blocks).0.buffer == []
    ensures Run(Start, blocks).0.index == |blocks| == |Run(Start, blocks).0.emitted|
    ensures forall k :: 0 <= k < |blocks| ==> Run(Start, blocks).0.emitted[k].index == k
    ensures forall j :: 0 <= j < |blocks| ==> Run(Start, blocks).0.emitted[blocks[j].index] == blocks[j]
  {
    assert blocks[0..] == blocks;
    RunInOrder(Start, blocks, 0);
    var t := Run(Start, blocks).0;
    assert blocks[..|blocks|] == blocks;
    assert t.index < |blocks| ==> Present(blocks, t.index);
    assert t.index == |blocks|;
    assert t.buffer == [];
  }

  // ---------------------------------------------------------------------------
  // A block index that comes back after it was written

  /** Once the head of the buffer holds an index below the awaited one,
      an accepted block leaves it there and nothing is written. */
  lemma StaleAccept(s: Reordering, b: FileBlock)
    requires Sorted(s.buffer) && s.buffer != [] && s.buffer[0].index < s.index
    ensures Accept(s, b).Success? ==>
      var next := Accept(s, b).value;
      && next.emitted == s.emitted && next.index == s.index
      && next.buffer != [] && next.buffer[0].index < next.index
  {
    if Insert(s.buffer, b).Success? {
      var buf1 := Insert(s.buffer, b).value;
      assert s.buffer[0] in multiset(buf1);
      var t :| 0 <= t < |buf1| && buf1[t] == s.buffer[0];
      assert buf1[0].index <= buf1[t].index;
    }
  }

  /** `SortedList.Add` only rejects a key that is still buffered: a block
      whose index was already written is accepted, stays in front of the
      buffer, and from then on nothing more is written, whatever arrives. */
  lemma {:induction false} StaleHeadStalls(s: Reordering, blocks: seq<FileBlock>)
    requires Sorted(s.buffer) && s.buffer != [] && s.buffer[0].index < s.index
    ensures Run(s, blocks).0.emitted == s.emitted
    decreases |blocks|
  {
    if blocks != [] {
      StaleAccept(s, blocks[0]);
      if Accept(s, blocks[0]).Success? {
        StaleHeadStalls(Accept(s, blocks[0]).value, blocks[1..]);
      }
    }
  }

  /** Two records with index 0 followed by index 1: no `ArgumentException`,
      the second copy of 0 blocks block 1, and `Write` ends normally with
      only the first block written. */
  lemma RepeatedIndexStalls(x: seq<byte>, y: seq<byte>, z: seq<byte>)
    requires |x| <= INT32_MAX && |y| <= INT32_MAX && |z| <= INT32_MAX
    ensures var blocks := [NewBlock(0, x), NewBlock(0, y), NewBlock(1, z)];
      Run(Start, blocks) == (Reordering([NewBlock(0, y), NewBlock(1, z)], 1, [NewBlock(0, x)]), Pass)
  {
    var b0, b1, b2 := NewBlock(0, x), NewBlock(0, y), NewBlock(1, z);
    var blocks := [b0, b1, b2];
    var s1 := Reordering([], 1, [b0]);
    var s2 := Reordering([b1], 1, [b0]);
    var s3 := Reordering([b1, b2], 1, [b0]);
    AcceptFirst(b0);
    RunStep(Start, blocks, 0, s1);
    AcceptStale(b0, b1);
    RunStep(s1, blocks, 1, s2);
    AcceptBehindStale(b0, b1, b2);
    RunStep(s2, blocks, 2, s3);
    assert blocks[3..] == [];
  }

  lemma AcceptFirst(b0: FileBlock)
    requires b0.index == 0
    ensures Accept(Start, b0) == Success(Reordering([], 1, [b0]))
  {
    assert Insert([], b0) == Success([b0]);
    assert [b0][1..] == [];
    assert Drain(Reordering([b0], 0, [])) == Drain(Reordering([], 1, [b0]));
  }

  lemma AcceptStale(b0: FileBlock, b1: FileBlock)
    requires b1.index == 0
    ensures Accept(Reordering([], 1, [b0]), b1) == Success(Reordering([b1], 1, [b0]))
  {
    assert Insert([], b1) == Success([b1]);
  }

  lemma AcceptBehindStale(b0: FileBlock, b1: FileBlock, b2: FileBlock)
    requires b1.index == 0 && b2.index == 1
    ensures Accept(Reordering([b1], 1, [b0]), b2) == Success(Reordering([b1, b2], 1, [b0]))
  {
    assert [b1][1..] == [];
    assert Insert([], b2) == Success([b2]);
    assert Insert([b1], b2) == Success([b1] + [b2]);
    assert [b1] + [b2] == [b1, b2];
  }

  // ---------------------------------------------------------------------------
  // The reader

  /** The archive header at the start of the file: `ReadArray`, then
      `ArchiveHeaderSerializer.Deserialize` on the bytes it returned. */
  function HeaderAt(data: seq<byte>): (r: Result<ArchiveHeader>)
    ensures r.Failure? ==> r.error == Overflow || r.error == EndOfStream
    ensures r.Success? ==> r.value.Valid()
  {
    match ArrayAt(data, 0).0
    case Failure(e) => Failure(e)
    case Success(bytes) => ArchiveHeaderSerializer.DecodeHeader(bytes)
  }

  /** The `catch (SerializationException)` around the header read, which
      turns that exception into a `BusinessLogicException`. */
  function CatchSerialization(r: Result<ArchiveHeader>): Result<ArchiveHeader> {
    if r.Failure? && r.error == Serialization then Failure(BusinessLogic) else r
  }

  /** Nothing in the header read raises a `SerializationException`, so the
      catch never fires: reading the header gives the same result with or
      without it. */
  lemma CatchNeverFires(data: seq<byte>)
    ensures CatchSerialization(HeaderAt(data)) == HeaderAt(data)
    ensures HeaderAt(data).Failure? ==> HeaderAt(data).error != BusinessLogic
  {
  }

  /** One record: set `Position` to the offset (a negative one is rejected),
      `ReadArray`, then `FileBlockSerializer.Deserialize`. */
  function BlockAt(data: seq<byte>, offset: int64): (r: Result<FileBlock>)
    ensures offset < 0 ==> r == Failure(ArgumentOutOfRange)
    ensures r.Failure? ==> r.error == ArgumentOutOfRange || r.error == Overflow || r.error == EndOfStream
    ensures r.Success? ==> r.value.Valid()
  {
    if offset < 0 then Failure(ArgumentOutOfRange)
    else
      match ArrayAt(data, offset).0
      case Failure(e) => Failure(e)
      case Success(bytes) => FileBlockSerializer.DecodeBlock(bytes)
  }

  /** The result of reading the record at each offset, in offset order. */
  function RecordsAt(data: seq<byte>, offsets: seq<int64>): (r: seq<Result<FileBlock>>)
    ensures |r| == |offsets|
  {
    seq(|offsets|, j requires 0 <= j < |offsets| => BlockAt(data, offsets[j]))
  }

  /** The `foreach` from position `i` on, stopping at the first record that
      cannot be read: the blocks handed on before it, and how the loop ended. */
  function Collect(results: seq<Result<FileBlock>>, i: nat): (r: (seq<FileBlock>, Outcome))
    requires i <= |results|
    ensures |r.0| <= |results| - i
    ensures r.1 == Pass <==> |r.0| == |results| - i
    decreases |results| - i
  {
    if i == |results| then ([], Pass)
    else
      match results[i]
      case Failure(e) => ([], Fail(e))
      case Success(b) =>
        var rest := Collect(results, i + 1);
        ([b] + rest.0, rest.1)
  }

  /** Each block handed on is the record read at the same position, and the
      loop stops at the first record that cannot be read. */
  lemma {:induction false} CollectReadsEach(results: seq<Result<FileBlock>>, i: nat)
    requires i <= |results|
    ensures var r := Collect(results, i);
      && (forall j :: 0 <= j < |r.0| ==> results[i + j] == Success(r.0[j]))
      && (r.1.Fail? ==> results[i + |r.0|] == Failure(r.1.error))
    decreases |results| - i
  {
    if i < |results| && results[i].Success? {
      CollectReadsEach(results, i + 1);
      var r := Collect(results, i);
      var rest := Collect(results, i + 1);
      forall j | 0 <= j < |r.0| ensures results[i + j] == Success(r.0[j]) {
        if j > 0 {
          assert r.0[j] == rest.0[j - 1];
          assert i + j == (i + 1) + (j - 1);
        }
      }
    }
  }

  /** What the reader hands on for an archive file: the header's failure, or
      the blocks at its offsets. */
  function ArchiveBlocks(data: seq<byte>): (seq<FileBlock>, Outcome) {
    match CatchSerialization(HeaderAt(data))
    case Failure(e) => ([], Fail(e))
    case Success(header) => Collect(RecordsAt(data, header.blockOffsets), 0)
  }

  /** The number of records the reader reports to the sync context: one per
      offset it starts on, including the one that fails. */
  function ReadsReported(data: seq<byte>): nat {
    var r := ArchiveBlocks(data);
    if HeaderAt(data).Success? && r.1.Fail? then |r.0| + 1 else |r.0|
  }


  /** One pass of the `foreach`: move to the offset, `ReadArray`,
      `FileBlockSerializer.Deserialize`. */
  method ReadBlockAt(stream: Stream, offset: int64) returns (r: Result<FileBlock>)
    modifies stream
    ensures r == BlockAt(old(stream.content), offset)
    ensures stream.content == old(stream.content)
  {
    var moved := stream.SetPosition(offset);
    if moved.Fail? {
      return Failure(moved.error);
    }
    var blockBytes := ReadArray(stream);
    if blockBytes.Failure? {
      return Failure(blockBytes.error);
    }
    r := FileBlockSerializer.Deserialize(blockBytes.value);
  }


  /** One more offset of the `foreach`: a record that cannot be read ends
      the loop, a readable one is handed on before the rest. */
  lemma CollectStep(results: seq<Result<FileBlock>>, i: nat)
    requires i < |results|
    ensures results[i].Failure? ==> Collect(results, i) == ([], Fail(results[i].error))
    ensures results[i].Success? ==>
      Collect(results, i) == ([results[i].value] + Collect(results, i + 1).0, Collect(results, i + 1).1)
  {
  }

  lemma AppendAssociates(a: seq<FileBlock>, b: seq<FileBlock>, c: seq<FileBlock>)
    ensures a + (b + c) == (a + b) + c
  {
  }

  /** The `foreach` over the header's offsets. */
  method ReadBlocks(stream: Stream, context: CompressorSyncContext, offsets: seq<int64>)
    returns (sourceBlocks: seq<FileBlock>, r: Outcome)
    modifies stream, context
    ensures (sourceBlocks, r) == Collect(RecordsAt(old(stream.content), offsets), 0)
    ensures context.readCount == old(context.readCount) + |sourceBlocks| + (if r.Fail? then 1 else 0)
    ensures context.writeCount == old(context.writeCount)
    ensures stream.content == old(stream.content)
  {
    ghost var data := stream.content;
    ghost var results := RecordsAt(data, offsets);
    ghost var all := Collect(results, 0);
    sourceBlocks := [];
    var i := 0;
    assert sourceBlocks + all.0 == all.0;
    while i < |offsets|
      invariant 0 <= i <= |offsets| && |sourceBlocks| == i
      invariant stream.content == data
      invariant all.0 == sourceBlocks + Collect(results, i).0
      invariant all.1 == Collect(results, i).1
      invariant context.readCount == old(context.readCount) + i
      invariant context.writeCount == old(context.writeCount)
    {
      context.IncrementReadCount();
      var block := ReadBlockAt(stream, offsets[i]);
      assert block == results[i];
      CollectStep(results, i);
      if block.Failure? {
        assert sourceBlocks + [] == sourceBlocks;
        return sourceBlocks, Fail(block.error);
      }
      AppendAssociates(sourceBlocks, [block.value], Collect(results, i + 1).0);
      sourceBlocks := sourceBlocks + [block.value];
      i := i + 1;
    }
    assert sourceBlocks + [] == sourceBlocks;
    r := Pass;
  }

  /** `GZipActionDecompressor.Read`. */
  method Read(stream: Stream, context: CompressorSyncContext)
    returns (sourceBlocks: seq<FileBlock>, r: Outcome)
    requires stream.position == 0
    modifies stream, context
    ensures (sourceBlocks, r) == ArchiveBlocks(old(stream.content))
    ensures context.readCount == old(context.readCount) + ReadsReported(old(stream.content))
    ensures context.writeCount == old(context.writeCount)
    ensures stream.content == old(stream.content)
  {
    var headerBytes := ReadArray(stream);
    var header: Result<ArchiveHeader>;
    if headerBytes.Success? {
      header := ArchiveHeaderSerializer.Deserialize(headerBytes.value);
    } else {
      header := Failure(headerBytes.error);
    }
    header := CatchSerialization(header);
    if header.Failure? {
      return [], Fail(header.error);
    }
    sourceBlocks, r := ReadBlocks(stream, context, header.value.blockOffsets);
  }

  // ---------------------------------------------------------------------------
  // Transform

  /** `ApplyCompression` on the decompress side: the GZip body is the
      parameter `gunzip`; the index is kept. */
  function ApplyDecompression(block: FileBlock, gunzip: seq<byte> -> seq<byte>): (r: FileBlock)
    requires |gunzip(block.data)| <= INT32_MAX
    ensures r.Valid() && r.index == block.index && r.data == gunzip(block.data)
  {
    NewBlock(block.index, gunzip(block.data))
  }
}

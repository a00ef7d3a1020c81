/**
 Applying a key's operands in chunks (lines 105-108 of the example describe
 processing chunks of 100 through a `merge_batch` call): the operands are cut
 into consecutive runs, and the runs are applied oldest first, each seeded
 with the running value.
 */
module ChunkedMerge {
  import opened Wrappers
  import opened LittleEndian
  import opened CounterMerge
  import opened MergeFold

  /** The concatenation of the chunks, in order. */
  function Flatten<T>(chunks: seq<seq<T>>): seq<T>
  {
    if |chunks| == 0 then [] else chunks[0] + Flatten(chunks[1..])
  }

  /**
   Consecutive runs of `size` items, the last one possibly shorter, as the
   planned change at line 106 describes; `size` must be positive.
   */
  function Chunks<T>(items: seq<T>, size: nat): (cs: seq<seq<T>>)
    requires size > 0
    ensures Flatten(cs) == items
    ensures forall i :: 0 <= i < |cs| ==> 0 < |cs[i]| <= size
    ensures forall i :: 0 <= i < |cs| - 1 ==> |cs[i]| == size
    ensures |cs| == (|items| + size - 1) / size
    decreases |items|
  {
    if |items| == 0 then
      []
    else if |items| <= size then
      DivUnique(|items| + size - 1, size, 1, |items| - 1);
      [items]
    else
      var rest := Chunks(items[size..], size);
      DivUnique(|items| + size - 1, size, |rest| + 1, (|items| - size + size - 1) % size);
      assert ([items[..size]] + rest)[1..] == rest;
      assert items[..size] + items[size..] == items;
      [items[..size]] + rest
  }

  /** How one chunk is applied: a `merge_batch` that folds `merge` pairwise over the chunk (line 69), or one that adds all increments at once (line 108). */
  datatype BatchStrategy = PairwiseFold | SumAtOnce

  /**
   A `merge_batch` that adds every increment in one step (line 108): it
   decodes the seed, then every operand, then adds them all.
   */
  function SumBatch(existing: Option<Bytes>, operands: seq<Bytes>): Result<Option<Bytes>, Panic>
  {
    if |operands| == 0 then
      Success(existing)
    else if !WellFormedExisting(existing) then
      Failure(ExistingNotEightBytes)
    else if !AllCounters(operands) then
      Failure(OperandNotEightBytes)
    else if CounterOf(existing) + Sum(operands) < U64_LIMIT then
      Success(Some(ToLeBytes(CounterOf(existing) + Sum(operands))))
    else
      Failure(AddOverflow)
  }

  function MergeBatch(strategy: BatchStrategy, existing: Option<Bytes>, operands: seq<Bytes>): Result<Option<Bytes>, Panic>
  {
    match strategy
    case PairwiseFold => FoldMerge(existing, operands)
    case SumAtOnce => SumBatch(existing, operands)
  }

  /**
   The one-step sum is observably the pairwise fold: it succeeds on the same
   inputs and then yields the same value (only the panic reported on a bad
   input may differ, since it checks every length before adding).
   */
  lemma SumBatchMatchesFold(existing: Option<Bytes>, operands: seq<Bytes>)
    ensures SumBatch(existing, operands).Success? <==> FoldMerge(existing, operands).Success?
    ensures SumBatch(existing, operands).Success? ==> SumBatch(existing, operands) == FoldMerge(existing, operands)
  {
    if |operands| > 0 {
      FoldSucceedsIff(existing, operands);
      if FoldMerge(existing, operands).Success? {
        FoldComputesSum(existing, operands);
      }
    }
  }

  /** Chunks applied one after another, each seeded with the value the previous ones produced. */
  function ApplyChunks(strategy: BatchStrategy, existing: Option<Bytes>, chunks: seq<seq<Bytes>>): Result<Option<Bytes>, Panic>
    decreases |chunks|
  {
    if |chunks| == 0 then
      Success(existing)
    else
      var next :- MergeBatch(strategy, existing, chunks[0]);
      ApplyChunks(strategy, next, chunks[1..])
  }

  /** With the pairwise-folding `merge_batch`, chunk boundaries are invisible: same value, same panic. */
  lemma {:induction false} PairwiseChunksAreSequential(existing: Option<Bytes>, chunks: seq<seq<Bytes>>)
    ensures ApplyChunks(PairwiseFold, existing, chunks) == FoldMerge(existing, Flatten(chunks))
    decreases |chunks|
  {
    if |chunks| > 0 {
      FoldAppend(existing, chunks[0], Flatten(chunks[1..]));
      var first := FoldMerge(existing, chunks[0]);
      if first.Success? {
        PairwiseChunksAreSequential(first.value, chunks[1..]);
      }
    }
  }

  /** Applying chunks with the one-step sum succeeds exactly when the pairwise application does, with the same value. */
  lemma {:induction false} SumChunksMatchPairwise(existing: Option<Bytes>, chunks: seq<seq<Bytes>>)
    ensures ApplyChunks(SumAtOnce, existing, chunks).Success? <==> ApplyChunks(PairwiseFold, existing, chunks).Success?
    ensures ApplyChunks(SumAtOnce, existing, chunks).Success? ==>
      ApplyChunks(SumAtOnce, existing, chunks) == ApplyChunks(PairwiseFold, existing, chunks)
    decreases |chunks|
  {
    if |chunks| > 0 {
      SumBatchMatchesFold(existing, chunks[0]);
      var first := FoldMerge(existing, chunks[0]);
      if first.Success? {
        SumChunksMatchPairwise(first.value, chunks[1..]);
      }
    }
  }

  /**
   For any positive chunk size, applying the operands chunk by chunk gives
   the value of one sequential fold; the pairwise strategy even panics
   identically.
   */
  lemma ChunkingPreservesResult(strategy: BatchStrategy, existing: Option<Bytes>, operands: seq<Bytes>, size: nat)
    requires size > 0
    ensures ApplyChunks(strategy, existing, Chunks(operands, size)).Success? <==> FoldMerge(existing, operands).Success?
    ensures ApplyChunks(strategy, existing, Chunks(operands, size)).Success? ==>
      ApplyChunks(strategy, existing, Chunks(operands, size)) == FoldMerge(existing, operands)
    ensures strategy == PairwiseFold ==> ApplyChunks(strategy, existing, Chunks(operands, size)) == FoldMerge(existing, operands)
  {
    var cs := Chunks(operands, size);
    PairwiseChunksAreSequential(existing, cs);
    SumChunksMatchPairwise(existing, cs);
  }

  /**
   The chunked apply phase as a loop: cut off the next run of at most
   `chunkSize` operands, apply it to the running value, stop at the first
   panic. A chunk size of 0 is reported as `ZeroChunkSize`, the model's choice
   for a case the source does not describe.
   */
  method MergeInChunks(strategy: BatchStrategy, existing: Option<Bytes>, operands: seq<Bytes>, chunkSize: nat)
    returns (r: Result<Option<Bytes>, Panic>)
    ensures chunkSize == 0 ==> r == Failure(ZeroChunkSize)
    ensures chunkSize > 0 ==> (r.Success? <==> FoldMerge(existing, operands).Success?)
    ensures chunkSize > 0 && r.Success? ==> r == FoldMerge(existing, operands)
    ensures chunkSize > 0 && strategy == PairwiseFold ==> r == FoldMerge(existing, operands)
  {
    if chunkSize == 0 {
      return Failure(ZeroChunkSize);
    }
    ChunkingPreservesResult(strategy, existing, operands, chunkSize);
    ghost var whole := ApplyChunks(strategy, existing, Chunks(operands, chunkSize));
    var acc := existing;
    var i := 0;
    while i < |operands|
      invariant 0 <= i <= |operands|
      invariant ApplyChunks(strategy, acc, Chunks(operands[i..], chunkSize)) == whole
      decreases |operands| - i
    {
      var end := if |operands| - i <= chunkSize then |operands| else i + chunkSize;
      assert operands[i..][..end - i] == operands[i..end];
      assert operands[i..][end - i..] == operands[end..];
      var step := MergeBatch(strategy, acc, operands[i..end]);
      if step.Failure? {
        return Failure(step.error);
      }
      acc := step.value;
      i := end;
    }
    r := Success(acc);
  }

  /**
   The example's check (line 81) and its planned chunking (line 106): 10,000
   unit operands cut into 100 chunks of 100 resolve, whichever strategy applies
   the chunks, to the counter 10,000.
   */
  lemma TenThousandOnesInChunksOfHundred(strategy: BatchStrategy)
    ensures |Chunks(Ones(10000), 100)| == 100
    ensures ApplyChunks(strategy, None, Chunks(Ones(10000), 100)) == Success(Some(ToLeBytes(10000)))
    ensures ReadCounter(ToLeBytes(10000)) == Success(10000)
  {
    CountsOnes(10000);
    ChunkingPreservesResult(strategy, None, Ones(10000), 100);
  }
}

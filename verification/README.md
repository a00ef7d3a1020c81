# Counter merge operator of the slatedb merge-memory example

This project models the counter merge operator that `examples/test_merge_memory.rs`
registers with a slatedb database, and the two claims that example rests on:

- reading a key after 10,000 merge operands of `1u64.to_le_bytes()` returns the
  counter 10,000;
- applying the operands in chunks of 100 (the planned `merge_batch` path) gives
  the same value as applying them one by one.

Modules, one per concern:

- `Wrappers` (`wrappers.dfy`): `Option` and `Result`.
- `LittleEndian` (`little_endian.dfy`): bytes (`u8`), `u64`, and the
  `to_le_bytes` / `from_le_bytes` codec with both round trips and the per-byte
  digit characterisation.
- `CounterMerge` (`counter_merge.dfy`): `CounterMergeOperator::merge` and the
  reader's decode of the resolved value.
- `MergeFold` (`merge_fold.dfy`): the pairwise left fold of `merge` over a key's
  operands, oldest to newest, and what it computes.
- `ChunkedMerge` (`chunked_merge.dfy`): cutting operands into consecutive
  runs of a given size, as the planned change at line 106 describes; a
  `merge_batch` that folds `merge` pairwise over the chunk (line 69) and one
  that adds all increments at once (line 108); applying chunks in order; and
  the chunked loop.

The Rust operator does not return errors; it panics. `try_into().unwrap()`
panics on a slice that is not eight bytes, and `u64` `+` panics on overflow in a
debug build. The model returns each of these as a `Failure(Panic)` value
rather than excluding the input by a precondition. The panic reported is the
one of the first failing step in source order: existing value, then operand,
then the addition.

`merge` is declared at line 14 as returning `Result<Bytes, MergeOperatorError>`,
but the operator never returns `Err`: every failure is one of the panics at
lines 16, 18 and 19, and the model follows the code.

The example never chunks anything; chunking appears only as the plan printed at
lines 104-108. A chunk size of 0 has no behaviour in the source. The model
chooses to report it as a separate failure, `ZeroChunkSize`, rather than exclude
it.

## Model

| member | source | states |
|---|---|---|
| LittleEndian.ToLeBytesDigits | examples/test_merge_memory.rs:20 | `to_le_bytes` yields eight bytes, and byte i is digit i of the number in base 256 (least significant first) |
| LittleEndian.FromLeBytesDigits | examples/test_merge_memory.rs:18 | `from_le_bytes` on eight bytes returns the number whose base-256 digit i is byte i |
| LittleEndian.U64RoundTrip | examples/test_merge_memory.rs:76 | decoding the little-endian encoding of any `u64` gives it back, so the reader sees the number the operator stored |
| LittleEndian.BytesRoundTrip | examples/test_merge_memory.rs:16 | re-encoding the number decoded from any eight bytes gives the same eight bytes |
| LittleEndian.ToLeBytesInjective | examples/test_merge_memory.rs:20 | two counters have the same encoding exactly when they are equal |
| LittleEndian.OneEncoding | examples/test_merge_memory.rs:53 | the unit operand `1u64.to_le_bytes()` is the byte 1 followed by seven zero bytes |
| LittleEndian.LeDecodeBound | examples/test_merge_memory.rs:16 | a little-endian number of n bytes is below 256^n, so eight bytes always fit a `u64` |
| LittleEndian.LeDecodeEncode | examples/test_merge_memory.rs:20 | encoding a number below 256^n in n bytes loses nothing |
| LittleEndian.LeEncodeDecode | examples/test_merge_memory.rs:18 | re-encoding a decoded byte string at its own width gives the same bytes |
| LittleEndian.LeEncodeDigit | examples/test_merge_memory.rs:20 | byte i of the n-byte encoding of x is (x / 256^i) mod 256 |
| CounterMerge.DecodeU64 | examples/test_merge_memory.rs:18 | `u64::from_le_bytes(b.try_into().unwrap())` succeeds exactly on eight-byte input, with the number encoded by those bytes, and otherwise panics |
| CounterMerge.ExistingCounter | examples/test_merge_memory.rs:15-17 | an absent existing value counts as 0, a present one is decoded, and one that is not eight bytes panics |
| CounterMerge.Merge | examples/test_merge_memory.rs:10-21 | merge succeeds exactly when both inputs decode and the sum fits in a `u64`; it then returns eight bytes decoding to existing + increment; otherwise it names the first failing step |
| CounterMerge.MergeEncodesSum | examples/test_merge_memory.rs:19-20 | a successful merge returns exactly `(existing + increment).to_le_bytes()` |
| CounterMerge.MergeIntoAbsent | examples/test_merge_memory.rs:15-17 | merging into an absent value returns the operand's bytes unchanged, or panics if the operand is not eight bytes |
| CounterMerge.ReadCounter | examples/test_merge_memory.rs:76 | the reader decodes a resolved value only when it is eight bytes, and gets the number those bytes encode |
| CounterMerge.ReadAfterMerge | examples/test_merge_memory.rs:75-77 | the reader decodes a merged value back to existing + increment |
| MergeFold.FoldMerge | examples/test_merge_memory.rs:63-72 | with no operands a read returns the seed (absent: key not found); after at least one successful merge it returns an eight-byte value |
| MergeFold.FoldComputesSum | examples/test_merge_memory.rs:15-20 | folding well-formed operands whose total fits returns the encoding of the seed's counter plus the sum of all increments |
| MergeFold.FoldSucceedsIff | examples/test_merge_memory.rs:19 | the fold succeeds exactly when the seed and every operand are eight bytes and the final total fits in a `u64` |
| MergeFold.SumOfOnes | examples/test_merge_memory.rs:52-54 | n copies of the unit operand are well-formed and sum to n |
| MergeFold.CountsOnes | examples/test_merge_memory.rs:75-85 | folding n unit operands from an absent value yields the encoding of n, which the reader decodes to n; with none the key is not found |
| MergeFold.FoldAppend | examples/test_merge_memory.rs:69 | folding a + b is folding a, then folding b from that result, and a panic in a stops everything |
| ChunkedMerge.Chunks | examples/test_merge_memory.rs:106 | cutting into chunks of a positive size keeps every operand in order, every chunk is non-empty and at most the size, all but the last are full, and there are ceil(n / size) chunks |
| ChunkedMerge.SumBatchMatchesFold | examples/test_merge_memory.rs:108 | adding all increments in one step succeeds exactly when the pairwise fold does, and then gives the same value |
| ChunkedMerge.PairwiseChunksAreSequential | examples/test_merge_memory.rs:105-106 | applying chunks one after another with a `merge_batch` that folds `merge` pairwise over each chunk equals one fold over their concatenation, panics included |
| ChunkedMerge.SumChunksMatchPairwise | examples/test_merge_memory.rs:107-108 | applying chunks with the one-step sum succeeds exactly when applying them pairwise does, with the same value |
| ChunkedMerge.ChunkingPreservesResult | examples/test_merge_memory.rs:104-108 | for every positive chunk size and either strategy, chunked application gives the value of the sequential fold |
| ChunkedMerge.MergeInChunks | examples/test_merge_memory.rs:106-107 | the chunk loop reports `ZeroChunkSize` on size 0 (a modelling choice); for a positive size it succeeds exactly when the sequential fold does, with the same result |
| ChunkedMerge.TenThousandOnesInChunksOfHundred | examples/test_merge_memory.rs:49-81 | 10,000 unit operands form 100 chunks of 100, and applying them resolves to a value the reader decodes to 10,000 |

## Left out

- Everything in `main` except the operands it writes and the check it makes is left out: the Tokio runtime, temporary-directory setup and cleanup, `Db::open_with_opts`, `db.merge`, `db.get`, `db.close`, `Instant` timing and `println!` output. These are I/O or calls into library code.
- `examples/src/seed_seq_tracker.rs` only reads arguments, opens an object store, writes keys with sleeps and creates a checkpoint. It has no logic to model.
- The library's merge resolver is not part of this model. That covers newest-first scanning, masking by values and tombstones, expiry, sequence and timestamp aggregation, and the library's own `merge_batch` default. A read of the example's key is modelled as a fold of the operands, oldest to newest, from an absent value. That is the only case the example exercises, since it writes operands only.
- CounterMerge.Merge: does not model the release-build wrap-around of `u64` `+`. The sum is a panic (`AddOverflow`), as in a debug build with overflow checks.
- ChunkedMerge.SumBatchMatchesFold: equivalence covers success and the value, not which panic is reported. On a bad input, the one-step sum checks every operand's length before adding, so it may name a different panic than the pairwise fold.
- The chunk size of 0: the example only describes a size of 100, so the model's `ZeroChunkSize` failure is a modelling choice, not behaviour of the source.
- Performance and memory observations (O(N) collection, number of calls) are not functional properties. Only the number of chunks (100 for 10,000 operands) is stated.

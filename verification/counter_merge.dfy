/**
 The example's `CounterMergeOperator`: an existing value and a merge operand
 each hold a `u64` counter as eight little-endian bytes; merging adds them.

 The Rust code panics instead of returning an error in three places, and the
 model returns each panic as a `Failure` so that no input is excluded:
 `try_into().unwrap()` on a slice that is not eight bytes long, and `+` on two
 `u64`s whose sum does not fit (the debug-build behaviour).
 */
module CounterMerge {
  import opened Wrappers
  import opened LittleEndian

  /**
   Why a run aborts. The first four are the panics the example's code can
   raise; `ZeroChunkSize` is the model's own failure for a chunk size of 0 in
   the planned chunked apply phase, which the example only describes.
   */
  datatype Panic =
    | ExistingNotEightBytes   // `try_into().unwrap()` on the existing value
    | OperandNotEightBytes    // `try_into().unwrap()` on the merge operand
    | ReadValueNotEightBytes  // `try_into().unwrap()` on the value read back
    | AddOverflow             // `existing + increment` exceeds `u64::MAX`
    | ZeroChunkSize           // chunked apply asked for chunks of size 0

  /** An existing value the operator can decode: absent, or eight bytes. */
  predicate WellFormedExisting(existing: Option<Bytes>)
  {
    existing.None? || |existing.value| == 8
  }

  /** The counter an existing value stands for; absence counts as zero. */
  function CounterOf(existing: Option<Bytes>): u64
    requires WellFormedExisting(existing)
  {
    match existing
    case None => 0
    case Some(v) => FromLeBytes(v)
  }

  /** `u64::from_le_bytes(b.try_into().unwrap())`, panicking with `onBadLength`. */
  function DecodeU64(b: Bytes, onBadLength: Panic): (r: Result<u64, Panic>)
    ensures r.Success? <==> |b| == 8
    ensures r.Success? ==> ToLeBytes(r.value) == b
    ensures r.Failure? ==> r.error == onBadLength
  {
    if |b| == 8 then
      BytesRoundTrip(b);
      Success(FromLeBytes(b))
    else
      Failure(onBadLength)
  }

  /** Lines 15-17: decode the existing value, or take 0 when there is none. */
  function ExistingCounter(existing: Option<Bytes>): (r: Result<u64, Panic>)
    ensures r.Success? <==> WellFormedExisting(existing)
    ensures r.Success? ==> r.value == CounterOf(existing)
    ensures r.Failure? ==> r.error == ExistingNotEightBytes
  {
    match existing
    case None => Success(0)
    case Some(v) => DecodeU64(v, ExistingNotEightBytes)
  }

  /** `a + b` on `u64`, which panics on overflow in a debug build. */
  function AddU64(a: u64, b: u64): Result<u64, Panic>
  {
    if a + b < U64_LIMIT then Success(a + b) else Failure(AddOverflow)
  }

  /** The inputs on which `merge` returns rather than panics. */
  predicate Mergeable(existing: Option<Bytes>, value: Bytes)
  {
    && WellFormedExisting(existing)
    && |value| == 8
    && CounterOf(existing) + FromLeBytes(value) < U64_LIMIT
  }

  /**
   `CounterMergeOperator::merge`: the eight-byte encoding of the existing
   counter plus the operand's increment. The panic reported is that of the
   first failing step in source order: existing value, operand, addition.
   */
  function Merge(existing: Option<Bytes>, value: Bytes): (r: Result<Bytes, Panic>)
    ensures r.Success? <==> Mergeable(existing, value)
    ensures r.Success? ==> |r.value| == 8 && FromLeBytes(r.value) == CounterOf(existing) + FromLeBytes(value)
    ensures !WellFormedExisting(existing) ==> r == Failure(ExistingNotEightBytes)
    ensures WellFormedExisting(existing) && |value| != 8 ==> r == Failure(OperandNotEightBytes)
    ensures WellFormedExisting(existing) && |value| == 8 && !Mergeable(existing, value) ==> r == Failure(AddOverflow)
  {
    var existingCounter :- ExistingCounter(existing);
    var increment :- DecodeU64(value, OperandNotEightBytes);
    var result :- AddU64(existingCounter, increment);
    U64RoundTrip(result);
    Success(ToLeBytes(result))
  }

  /** A successful merge yields exactly the encoding of the summed counter. */
  lemma MergeEncodesSum(existing: Option<Bytes>, value: Bytes)
    requires Mergeable(existing, value)
    ensures Merge(existing, value) == Success(ToLeBytes(CounterOf(existing) + FromLeBytes(value)))
  {
    BytesRoundTrip(Merge(existing, value).value);
  }

  /** Merging into an absent value returns the operand itself: the counter starts at 0. */
  lemma MergeIntoAbsent(value: Bytes)
    ensures Merge(None, value) == if |value| == 8 then Success(value) else Failure(OperandNotEightBytes)
  {
    if |value| == 8 {
      MergeEncodesSum(None, value);
      BytesRoundTrip(value);
    }
  }

  /** The reader's decode of the resolved value (line 76). */
  function ReadCounter(value: Bytes): (r: Result<u64, Panic>)
    ensures r.Success? <==> |value| == 8
    ensures r.Success? ==> ToLeBytes(r.value) == value
    ensures r.Failure? ==> r.error == ReadValueNotEightBytes
  {
    DecodeU64(value, ReadValueNotEightBytes)
  }

  /** The reader decodes a merged value back to the sum the operator computed. */
  lemma ReadAfterMerge(existing: Option<Bytes>, value: Bytes)
    requires Mergeable(existing, value)
    ensures ReadCounter(Merge(existing, value).value) == Success(CounterOf(existing) + FromLeBytes(value))
  {
    var sum := CounterOf(existing) + FromLeBytes(value);
    MergeEncodesSum(existing, value);
    U64RoundTrip(sum);
  }
}

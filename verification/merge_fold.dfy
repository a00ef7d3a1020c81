/**
 Pairwise application of the counter operator to a key's merge operands,
 oldest to newest, as a read of the example's key performs it, and what that
 fold computes.
 */
module MergeFold {
  import opened Wrappers
  import opened LittleEndian
  import opened CounterMerge

  /**
   Left fold of `Merge` over `operands`, seeded with `existing`. `Success(None)`
   means the key has no value (nothing to seed with and no operand); the first
   panic aborts the whole fold.
   */
  function FoldMerge(existing: Option<Bytes>, operands: seq<Bytes>): (r: Result<Option<Bytes>, Panic>)
    ensures |operands| == 0 ==> r == Success(existing)
    ensures r.Success? && |operands| > 0 ==> r.value.Some? && |r.value.value| == 8
    decreases |operands|
  {
    if |operands| == 0 then
      Success(existing)
    else
      var next :- Merge(existing, operands[0]);
      FoldMerge(Some(next), operands[1..])
  }

  /** Every operand is an eight-byte counter. */
  predicate AllCounters(operands: seq<Bytes>)
  {
    forall i :: 0 <= i < |operands| ==> |operands[i]| == 8
  }

  /** The sum of the operands' counters, in unbounded arithmetic. */
  function Sum(operands: seq<Bytes>): nat
    requires AllCounters(operands)
  {
    if |operands| == 0 then 0 else FromLeBytes(operands[0]) + Sum(operands[1..])
  }

  /** The fold from a decodable seed ends with the encoding of the seed's counter plus all increments. */
  lemma {:induction false} FoldComputesSum(existing: Option<Bytes>, operands: seq<Bytes>)
    requires WellFormedExisting(existing) && AllCounters(operands)
    requires CounterOf(existing) + Sum(operands) < U64_LIMIT
    requires |operands| > 0
    ensures FoldMerge(existing, operands) == Success(Some(ToLeBytes(CounterOf(existing) + Sum(operands))))
    decreases |operands|
  {
    var step := CounterOf(existing) + FromLeBytes(operands[0]);
    var rest := operands[1..];
    assert AllCounters(rest) by {
      assert forall i :: 0 <= i < |rest| ==> rest[i] == operands[i + 1];
    }
    assert Sum(operands) == FromLeBytes(operands[0]) + Sum(rest);
    MergeEncodesSum(existing, operands[0]);
    var next := Some(ToLeBytes(step));
    assert FoldMerge(existing, operands) == FoldMerge(next, rest);
    U64RoundTrip(step);
    assert CounterOf(next) == step;
    if |rest| > 0 {
      FoldComputesSum(next, rest);
    }
  }

  /**
   The fold panics exactly when some operand or the seed is malformed or a
   running total overflows; the totals only grow, so that is when the final
   total overflows.
   */
  lemma {:induction false} FoldSucceedsIff(existing: Option<Bytes>, operands: seq<Bytes>)
    requires |operands| > 0
    ensures FoldMerge(existing, operands).Success? <==>
      && WellFormedExisting(existing)
      && AllCounters(operands)
      && CounterOf(existing) + Sum(operands) < U64_LIMIT
    decreases |operands|
  {
    var first := Merge(existing, operands[0]);
    if first.Success? {
      var next := Some(first.value);
      assert CounterOf(next) == CounterOf(existing) + FromLeBytes(operands[0]);
      if |operands| > 1 {
        FoldSucceedsIff(next, operands[1..]);
        if AllCounters(operands[1..]) && |operands[0]| == 8 {
          assert AllCounters(operands) by {
            assert forall i :: 1 <= i < |operands| ==> operands[i] == operands[1..][i - 1];
          }
        }
      }
    }
  }

  /** `n` copies of `1u64.to_le_bytes()`, the operands the example writes. */
  function Ones(n: nat): (ops: seq<Bytes>)
    ensures |ops| == n && forall i :: 0 <= i < n ==> ops[i] == ToLeBytes(1)
  {
    seq(n, _ => ToLeBytes(1))
  }

  lemma {:induction false} SumOfOnes(n: nat)
    ensures AllCounters(Ones(n)) && Sum(Ones(n)) == n
  {
    if n > 0 {
      assert Ones(n)[1..] == Ones(n - 1);
      SumOfOnes(n - 1);
      U64RoundTrip(1);
    }
  }

  /**
   Folding `n` unit operands from an absent value yields the encoding of `n`,
   which the reader decodes back to `n`; with no operand the key is not found.
   */
  lemma CountsOnes(n: nat)
    requires n < U64_LIMIT
    ensures n == 0 ==> FoldMerge(None, Ones(n)) == Success(None)
    ensures n > 0 ==> FoldMerge(None, Ones(n)) == Success(Some(ToLeBytes(n)))
    ensures n > 0 ==> ReadCounter(ToLeBytes(n)) == Success(n)
  {
    SumOfOnes(n);
    if n > 0 {
      FoldComputesSum(None, Ones(n));
      U64RoundTrip(n);
    }
  }

  /** Folding the concatenation of two runs is folding the first, then the second from its result. */
  lemma {:induction false} FoldAppend(existing: Option<Bytes>, a: seq<Bytes>, b: seq<Bytes>)
    ensures FoldMerge(existing, a + b) ==
      match FoldMerge(existing, a)
      case Failure(p) => Failure(p)
      case Success(acc) => FoldMerge(acc, b)
    decreases |a|
  {
    if |a| > 0 {
      assert (a + b)[0] == a[0];
      assert (a + b)[1..] == a[1..] + b;
      var first := Merge(existing, a[0]);
      if first.Success? {
        FoldAppend(Some(first.value), a[1..], b);
      }
    } else {
      assert a + b == b;
    }
  }
}

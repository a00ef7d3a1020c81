/**
 Little-endian byte encoding of unsigned integers, as Rust's
 `u64::to_le_bytes` and `u64::from_le_bytes` perform it: byte `i` of the
 encoding holds the base-256 digit of weight 256^i.
 */
module LittleEndian {

  /** Rust's `u8`. */
  newtype u8 = x: int | 0 <= x < 256

  /** The contents of a `Bytes` buffer or a `&[u8]` slice. */
  type Bytes = seq<u8>

  /** 2^64, one more than `u64::MAX`. */
  const U64_LIMIT: nat := 0x1_0000_0000_0000_0000

  /** Rust's `u64`. */
  type u64 = x: nat | x < U64_LIMIT

  function Pow256(n: nat): (p: nat)
    ensures p > 0
  {
    if n == 0 then 1 else 256 * Pow256(n - 1)
  }

  /** The number whose little-endian digits are `b`, for any width. */
  function LeDecode(b: Bytes): nat
  {
    if |b| == 0 then 0 else b[0] as nat + 256 * LeDecode(b[1..])
  }

  /** The lowest `width` little-endian digits of `x`. */
  function LeEncode(x: nat, width: nat): (r: Bytes)
    ensures |r| == width
  {
    if width == 0 then [] else [(x % 256) as u8] + LeEncode(x / 256, width - 1)
  }

  lemma U64LimitIsPow256()
    ensures Pow256(8) == U64_LIMIT
  {
  }

  /** A `width`-byte little-endian number is below 256^width. */
  lemma {:induction false} LeDecodeBound(b: Bytes)
    ensures LeDecode(b) < Pow256(|b|)
  {
    if |b| > 0 {
      LeDecodeBound(b[1..]);
    }
  }

  /** Encoding a number that fits in `width` bytes loses nothing. */
  lemma {:induction false} LeDecodeEncode(x: nat, width: nat)
    requires x < Pow256(width)
    ensures LeDecode(LeEncode(x, width)) == x
  {
    if width > 0 {
      LeDecodeEncode(x / 256, width - 1);
      assert LeEncode(x, width)[1..] == LeEncode(x / 256, width - 1);
    }
  }

  /** Re-encoding a decoded byte string at its own width gives it back. */
  lemma {:induction false} LeEncodeDecode(b: Bytes)
    ensures LeEncode(LeDecode(b), |b|) == b
  {
    if |b| > 0 {
      var x := LeDecode(b);
      assert x % 256 == b[0] as nat && x / 256 == LeDecode(b[1..]) by {
        DivUnique(x, 256, LeDecode(b[1..]), b[0] as nat);
      }
      LeEncodeDecode(b[1..]);
    }
  }

  /** Byte `i` of the encoding is `(x >> 8*i) & 0xff`. */
  lemma {:induction false} LeEncodeDigit(x: nat, width: nat, i: nat)
    requires i < width
    ensures LeEncode(x, width)[i] as nat == (x / Pow256(i)) % 256
  {
    if i > 0 {
      LeEncodeDigit(x / 256, width - 1, i - 1);
      DivDiv(x, 256, Pow256(i - 1));
    }
  }

  /** The quotient is determined by any remainder in range. */
  lemma DivUnique(x: int, d: int, q: int, r: int)
    requires d > 0 && 0 <= r < d && x == d * q + r
    ensures x / d == q && x % d == r
  {
    var q', r' := x / d, x % d;
    MulDistributes(d, q, q');
    if q' < q {
      MulAtLeastOne(d, q - q');
    } else if q < q' {
      MulAtLeastOne(d, q' - q);
    }
  }

  lemma MulDistributes(d: int, q: int, q': int)
    ensures d * q - d * q' == d * (q - q')
  {
  }

  lemma MulAtLeastOne(d: nat, k: int)
    requires k >= 1
    ensures d * k >= d
  {
  }

  lemma MulBelow(a: nat, r2: nat, b: nat)
    requires r2 < b
    ensures a * r2 <= a * b - a
  {
    MulAtLeastOne(a, b - r2);
    MulDistributes(a, b, r2);
  }

  lemma DivDiv(x: nat, a: nat, b: nat)
    requires a > 0 && b > 0
    ensures (x / a) / b == x / (a * b)
  {
    var q, r := x / a, x % a;
    var q2, r2 := q / b, q % b;
    assert a * q == (a * b) * q2 + a * r2 by {
      assert q == b * q2 + r2;
      Regroup(a, b, q2, r2);
    }
    MulBelow(a, r2, b);
    DivUnique(x, a * b, q2, a * r2 + r);
  }

  lemma Regroup(a: int, b: int, q2: int, r2: int)
    ensures a * (b * q2 + r2) == (a * b) * q2 + a * r2
  {
  }

  /** `x.to_le_bytes()` for a `u64`. */
  function ToLeBytes(x: u64): (r: Bytes)
    ensures |r| == 8
  {
    LeEncode(x, 8)
  }

  /** `u64::from_le_bytes(b)` for an eight-byte array `b`. */
  function FromLeBytes(b: Bytes): u64
    requires |b| == 8
  {
    LeDecodeBound(b);
    U64LimitIsPow256();
    LeDecode(b)
  }

  /** Byte `i` of `x.to_le_bytes()` is `(x >> 8*i) & 0xff`. */
  lemma ToLeBytesDigits(x: u64)
    ensures forall i :: 0 <= i < 8 ==> ToLeBytes(x)[i] as nat == (x / Pow256(i)) % 256
  {
    forall i | 0 <= i < 8
      ensures ToLeBytes(x)[i] as nat == (x / Pow256(i)) % 256
    {
      LeEncodeDigit(x, 8, i);
    }
  }

  /** `u64::from_le_bytes(b)` is the number whose byte `i` is `b[i]`, i.e. `(x >> 8*i) & 0xff == b[i]`. */
  lemma FromLeBytesDigits(b: Bytes)
    requires |b| == 8
    ensures forall i :: 0 <= i < 8 ==> b[i] as nat == (FromLeBytes(b) / Pow256(i)) % 256
  {
    LeEncodeDecode(b);
    forall i | 0 <= i < 8
      ensures b[i] as nat == (FromLeBytes(b) / Pow256(i)) % 256
    {
      LeEncodeDigit(FromLeBytes(b), 8, i);
    }
  }

  /** Decoding the encoding of a `u64` gives it back. */
  lemma U64RoundTrip(x: u64)
    ensures FromLeBytes(ToLeBytes(x)) == x
  {
    U64LimitIsPow256();
    LeDecodeEncode(x, 8);
  }

  /** Encoding the decoding of eight bytes gives them back. */
  lemma BytesRoundTrip(b: Bytes)
    requires |b| == 8
    ensures ToLeBytes(FromLeBytes(b)) == b
  {
    LeEncodeDecode(b);
  }

  /** Distinct counters have distinct encodings. */
  lemma ToLeBytesInjective(x: u64, y: u64)
    ensures ToLeBytes(x) == ToLeBytes(y) <==> x == y
  {
    if ToLeBytes(x) == ToLeBytes(y) {
      U64RoundTrip(x);
      U64RoundTrip(y);
    }
  }

  /** `1u64.to_le_bytes()`, the operand the example writes. */
  lemma OneEncoding()
    ensures ToLeBytes(1) == [1, 0, 0, 0, 0, 0, 0, 0]
  {
  }
}

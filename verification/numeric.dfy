/** Numeric helpers shared by the tensor encoder, the tensor decoder and the
    mask compositor: bytes, the exceptions the transforms can raise,
    `Math.Clamp` to the unit interval, and the byte conversion
    `Convert.ToByte` performs on a floating-point value. */
module Numeric {

  /** One byte of a pixel buffer. */
  type byte = x: int | 0 <= x < 256

  /** The runtime exceptions the transcoding code can raise. */
  datatype Exception = OverflowException | IndexOutOfRangeException

  /** The outcome of a transform: a value, or the exception it throws. */
  datatype Result<T> = Ok(value: T) | Throw(exception: Exception)

  /** `n` is a nearest integer to `x`, and the even one when `x` lies
      exactly half-way between two integers (banker's rounding). */
  predicate IsHalfEvenRounding(x: real, n: int) {
    && (n as real) - 0.5 <= x <= (n as real) + 0.5
    && (x == (n as real) - 0.5 || x == (n as real) + 0.5 ==> n % 2 == 0)
  }

  /** Round to the nearest integer, ties to even, as `Convert.ToInt32`
      does with a floating-point argument. */
  function RoundHalfEven(x: real): (n: int)
    ensures IsHalfEvenRounding(x, n)
  {
    var f := x.Floor;
    var d := x - f as real;
    if d < 0.5 then f
    else if d > 0.5 then f + 1
    else if f % 2 == 0 then f
    else f + 1
  }

  /** Half-even rounding is a function: no other integer satisfies it. */
  lemma HalfEvenRoundingIsUnique(x: real, n: int)
    requires IsHalfEvenRounding(x, n)
    ensures n == RoundHalfEven(x)
  {
  }

  /** Rounding never reverses the order of its arguments. */
  lemma RoundHalfEvenMonotone(x: real, y: real)
    requires x <= y
    ensures RoundHalfEven(x) <= RoundHalfEven(y)
  {
  }

  /** Rounding an integral value gives that integer back. */
  lemma RoundHalfEvenOfInteger(n: int)
    ensures RoundHalfEven(n as real) == n
  {
    HalfEvenRoundingIsUnique(n as real, n);
  }

  /** The arguments `Convert.ToByte` accepts: those that round to 0..255. */
  predicate InByteRange(x: real) {
    -0.5 <= x < 255.5
  }

  /** `Convert.ToByte` on a floating-point value: round half to even, then
      throw `OverflowException` unless the rounded value is a byte. */
  function ConvertToByte(x: real): (r: Result<byte>)
    ensures r.Ok? <==> InByteRange(x)
    ensures r.Ok? ==> IsHalfEvenRounding(x, r.value)
    ensures r.Throw? ==> r.exception == OverflowException
  {
    var n := RoundHalfEven(x);
    if 0 <= n <= 255 then Ok(n) else Throw(OverflowException)
  }

  /** The byte `Convert.ToByte` returns for an argument it accepts. */
  function RoundToByte(x: real): (b: byte)
    requires InByteRange(x)
    ensures IsHalfEvenRounding(x, b)
  {
    ConvertToByte(x).value
  }

  /** `RoundToByte` is monotone, so it preserves `<=` between its arguments. */
  lemma RoundToByteMonotone(x: real, y: real)
    requires InByteRange(x) && InByteRange(y) && x <= y
    ensures RoundToByte(x) <= RoundToByte(y)
  {
    HalfEvenRoundingIsUnique(x, RoundToByte(x));
    HalfEvenRoundingIsUnique(y, RoundToByte(y));
    RoundHalfEvenMonotone(x, y);
  }

  /** A byte converted to floating point and back is unchanged. */
  lemma RoundToByteOfByte(b: byte)
    ensures InByteRange(b as real)
    ensures RoundToByte(b as real) == b
  {
    HalfEvenRoundingIsUnique(b as real, RoundToByte(b as real));
    RoundHalfEvenOfInteger(b);
  }

  /** `Math.Clamp(x, 0, 1)`. */
  function Clamp01(x: real): (r: real)
    ensures 0.0 <= r <= 1.0
    ensures 0.0 <= x <= 1.0 ==> r == x
    ensures x < 0.0 ==> r == 0.0
    ensures x > 1.0 ==> r == 1.0
  {
    if x < 0.0 then 0.0 else if x > 1.0 then 1.0 else x
  }

  /** Clamping is idempotent. */
  lemma Clamp01Idempotent(x: real)
    ensures Clamp01(Clamp01(x)) == Clamp01(x)
  {
  }
}

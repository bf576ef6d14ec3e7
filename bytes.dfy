/** Byte-level vocabulary shared by every part of the converter: the C `uint8_t`,
    saturation into it, an RGB888 pixel, and the status codes. */
module Bytes {

  /** An unsigned 8-bit value, C's `uint8_t`. */
  type byte = x: int | 0 <= x < 256

  /** A positive integer, used for divisors. */
  type pos = x: int | x > 0 witness 1

  /** `EXIT_SUCCESS` and `EXIT_FAILURE`, the status codes the routines return. */
  const ExitSuccess: int := 0
  const ExitFailure: int := 1

  /** A pixel of three 8-bit channels, stored R, G, B in the image buffer. */
  datatype Rgb = Rgb(r: byte, g: byte, b: byte)

  /** Saturation into [0, 255]: `fmin(255, fmax(0, v))` and the ternary
      chains the converters use before storing a value into a byte. */
  function Clamp(v: int): (c: byte)
    ensures v <= 0 ==> c == 0
    ensures v >= 255 ==> c == 255
    ensures 0 <= v <= 255 ==> c == v
  {
    if v > 255 then 255 else if v < 0 then 0 else v
  }

  /** C's `/` on `int`: the quotient truncated toward zero. Dafny's own `/`
      is Euclidean, so for a negative dividend the two differ. */
  function CDiv(a: int, d: int): (q: int)
    requires d > 0
    ensures a >= 0 ==> q * d <= a < q * d + d
    ensures a < 0 ==> q * d - d < a <= q * d
  {
    if a >= 0 then a / d else -((-a) / d)
  }

  /** Dafny's `/` by a positive divisor is the floor, and the floor lands on the
      side of 0 and of 255 that the dividend lands on. */
  lemma FloorDivision(n: int, d: pos)
    ensures n / d * d <= n < n / d * d + d
    ensures n < 0 ==> n / d < 0
    ensures n >= 255 * d ==> n / d >= 255
    ensures 0 <= n < 255 * d ==> 0 <= n / d < 255
  {
    var q, r := n / d, n % d;
    assert n == q * d + r && 0 <= r < d;
    if q >= 0 {
      MulMonotone(0, q, d);
    }
    if q < 255 {
      MulMonotone(q + 1, 255, d);
      MulDifference(q + 1, q, d);
    }
    if q >= 255 {
      MulMonotone(255, q, d);
    }
  }

  lemma MulMonotone(a: int, b: int, d: pos)
    requires a <= b
    ensures a * d <= b * d
  {
    MulDifference(b, a, d);
  }

  lemma MulAtLeast(k: int, d: pos)
    requires k >= 1
    ensures k * d >= d
  {}

  lemma MulDifference(a: int, b: int, d: int)
    ensures a * d - b * d == (a - b) * d
  {}

  /** Quotient and remainder are unique: q and r are `n / d` and `n % d` whenever
      n == q * d + r with 0 <= r < d. */
  lemma DivUnique(n: int, d: pos, q: int, r: int)
    requires 0 <= r < d && n == q * d + r
    ensures n / d == q && n % d == r
  {
    var q0, r0 := n / d, n % d;
    assert n == q0 * d + r0;
    MulDifference(q, q0, d);
    if q > q0 {
      MulAtLeast(q - q0, d);
    } else if q < q0 {
      MulDifference(q0, q, d);
      MulAtLeast(q0 - q, d);
    }
  }
}

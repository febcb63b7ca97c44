/**
 * The integer types and the two pieces of Go integer arithmetic that the
 * filter relies on: the narrowing conversion `uint8(v)` of an `int` and the
 * truncating integer division `a / b`.
 */
module Pixels {

  /** An 8-bit gray level, the `Y` field of Go's `color.Gray`. */
  type Gray = v: int | 0 <= v < 256

  /** A kernel weight, a Go `uint32`. */
  type Weight = w: int | 0 <= w < 0x1_0000_0000

  function Abs(v: int): (r: nat)
    ensures r == v || r == -v
  {
    if v < 0 then -v else v
  }

  /**
   * Go's conversion `uint8(v)`: it keeps the low eight bits of the two's
   * complement representation, so the result is the gray level congruent to
   * `v` modulo 256, and a value already in range is kept.
   */
  function ToUint8(v: int): (g: Gray)
    ensures (v - g) % 256 == 0
    ensures 0 <= v < 256 ==> g == v
  {
    v % 256
  }

  /**
   * Go's integer division `a / b`, which truncates toward zero: the quotient's
   * magnitude is the floor of `|a| / |b|`, and it is negative only when `a`
   * and `b` have opposite signs. For a non-negative dividend and a positive
   * divisor it agrees with Dafny's (Euclidean) division.
   */
  function TruncDiv(a: int, b: int): (q: int)
    requires b != 0
    ensures Abs(q) == Abs(a) / Abs(b)
    ensures q > 0 ==> (a > 0 <==> b > 0)
    ensures q < 0 ==> (a > 0 <==> b < 0)
    ensures a >= 0 && b > 0 ==> q == a / b
  {
    var m := Abs(a) / Abs(b);
    ZeroDividend(Abs(a), Abs(b));
    if (a >= 0) == (b > 0) then m else -m
  }

  lemma ZeroDividend(n: nat, d: nat)
    requires d > 0
    ensures n / d >= 0
    ensures n == 0 ==> n / d == 0
  {
  }
}

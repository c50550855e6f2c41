/**
 * Fixed-width integer arithmetic of the wheel: `uint32` tick counters and
 * `int64` nanosecond durations (Go's `time.Duration`), with the wrap-around
 * and the truncating division that Go applies to them, and the conversion of
 * a wall-clock deadline into a tick index (`nextTimeout`).
 */
module Ticks {

  const TwoTo32: int := 0x1_0000_0000
  const TwoTo63: int := 0x8000_0000_0000_0000
  const TwoTo64: int := 0x1_0000_0000_0000_0000

  /** A Go `uint32`. */
  type U32 = x: int | 0 <= x < 0x1_0000_0000

  /** A Go `int64`, the representation of `time.Duration` and of `UnixNano()`. */
  type Int64 = x: int | -0x8000_0000_0000_0000 <= x < 0x8000_0000_0000_0000

  /** Go's conversion `uint32(x)`: keeps the low 32 bits of the two's complement value. */
  function ToU32(x: int): (r: U32)
    ensures (r - x) % TwoTo32 == 0
    ensures 0 <= x < TwoTo32 ==> r == x
  {
    x % TwoTo32
  }

  /** The result of `int64` addition in Go: the exact sum wrapped into the signed 64-bit range. */
  function Wrap64(x: int): (r: Int64)
    ensures (r - x) % TwoTo64 == 0
    ensures -TwoTo63 <= x < TwoTo63 ==> r == x
  {
    (x + TwoTo63) % TwoTo64 - TwoTo63
  }

  /** Go's integer division for a positive divisor: the quotient is truncated toward zero. */
  function TruncDiv(a: int, b: int): (r: int)
    requires b > 0
    ensures a >= 0 ==> 0 <= r * b <= a < r * b + b
    ensures a < 0 ==> r * b - b < a <= r * b <= 0
  {
    if a >= 0 then
      DivBounds(a, b);
      a / b
    else
      DivBounds(-a, b);
      -((-a) / b)
  }

  lemma DivBounds(a: int, b: int)
    requires a >= 0 && b > 0
    ensures 0 <= (a / b) * b <= a < (a / b) * b + b
  {
    assert a == (a / b) * b + a % b;
  }

  /** `uint32` subtraction `a - b`, which wraps modulo 2^32. */
  function Sub32(a: U32, b: U32): (r: U32)
    ensures (b + r) % TwoTo32 == a
    ensures b <= a ==> r == a - b
  {
    (a - b) % TwoTo32
  }

  /** `uint32` increment `a++`, which wraps modulo 2^32. */
  function Inc32(a: U32): (r: U32)
    ensures a < TwoTo32 - 1 ==> r == a + 1
    ensures a == TwoTo32 - 1 ==> r == 0
  {
    (a + 1) % TwoTo32
  }

  /** The tick index of an instant: `uint32(nano / int64(granularity))` (wheel.go:65, 215). */
  function TickOf(nano: Int64, granularity: Int64): U32
    requires granularity > 0
  {
    ToU32(TruncDiv(nano, granularity))
  }

  /**
   * `nextTimeout` (wheel.go:116-118): the deadline tick for a timeout measured
   * from `nowNano`. Every addition is an `int64` addition (so it wraps), the
   * division truncates, and the result is cut to `uint32`.
   */
  function NextTimeout(nowNano: Int64, timeout: Int64, granularity: Int64): (r: U32)
    requires granularity > 0
  {
    ToU32(TruncDiv(Wrap64(nowNano + timeout + granularity - 1), granularity))
  }

  /**
   * When the sum does not overflow and is not negative, `nextTimeout` is a
   * ceiling division: before the cut to 32 bits its value `R` is the least
   * integer with `R * granularity >= nowNano + timeout`.
   */
  lemma NextTimeoutIsCeiling(nowNano: Int64, timeout: Int64, granularity: Int64) returns (R: int)
    requires granularity > 0
    requires 0 <= nowNano + timeout
    requires nowNano + timeout + granularity - 1 < TwoTo63
    ensures NextTimeout(nowNano, timeout, granularity) == ToU32(R)
    ensures R * granularity >= nowNano + timeout
    ensures (R - 1) * granularity < nowNano + timeout
  {
    var n := nowNano + timeout;
    var sum := n + granularity - 1;
    assert Wrap64(sum) == sum;
    R := sum / granularity;
    var rem := sum % granularity;
    assert sum == R * granularity + rem && 0 <= rem < granularity;
    assert TruncDiv(sum, granularity) == R;
    calc {
      (R - 1) * granularity;
      R * granularity - granularity;
      sum - rem - granularity;
    }
  }

  /**
   * The deadline tick is never before the tick of `nowNano` when the timeout
   * is not negative and nothing overflows: `TickOf(now) <= R` before the cut.
   */
  lemma NextTimeoutNotBeforeNow(nowNano: Int64, timeout: Int64, granularity: Int64) returns (R: int)
    requires granularity > 0
    requires 0 <= nowNano && 0 <= timeout
    requires nowNano + timeout + granularity - 1 < TwoTo63
    ensures NextTimeout(nowNano, timeout, granularity) == ToU32(R)
    ensures nowNano / granularity <= R
  {
    R := NextTimeoutIsCeiling(nowNano, timeout, granularity);
    var q := nowNano / granularity;
    DivBounds(nowNano, granularity);
    MulCancel(q, R, granularity);
  }

  /** Multiplying by a positive factor keeps the order of the factors. */
  lemma MulCancel(a: int, b: int, g: int)
    requires g > 0 && a * g <= b * g
    ensures a <= b
  {
    assert (b - a) * g == b * g - a * g;
    NonNegFactor(b - a, g);
  }

  lemma NonNegFactor(x: int, g: int)
    requires g > 0 && x * g >= 0
    ensures x >= 0
  {
  }
}

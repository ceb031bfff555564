/**
 * Go's fixed-width signed integers: two's-complement wrap-around of int64
 * and division truncated toward zero.
 */
module GoInt {
  const TwoTo64: int := 0x1_0000_0000_0000_0000
  const MinInt64: int := -0x8000_0000_0000_0000
  const MaxInt64: int := 0x7FFF_FFFF_FFFF_FFFF

  predicate IsInt64(x: int)
  {
    MinInt64 <= x <= MaxInt64
  }

  /** The int64 that two's-complement arithmetic leaves for the exact value `x`. */
  function Wrap64(x: int): (r: int)
    ensures IsInt64(r)
    ensures (x - r) % TwoTo64 == 0
    ensures IsInt64(x) ==> r == x
  {
    var m := (x - MinInt64) % TwoTo64;
    assert x - MinInt64 == TwoTo64 * ((x - MinInt64) / TwoTo64) + m;
    m + MinInt64
  }

  /** The int64 nearest to `x`: what time.Time.Sub returns when the exact difference does not fit. */
  function Saturate64(x: int): (r: int)
    ensures IsInt64(r)
    ensures IsInt64(x) ==> r == x
    ensures x > MaxInt64 ==> r == MaxInt64
    ensures x < MinInt64 ==> r == MinInt64
  {
    if x > MaxInt64 then MaxInt64 else if x < MinInt64 then MinInt64 else x
  }

  /** Go's `a / b` for a positive divisor: the quotient truncated toward zero. */
  function Quot(a: int, b: int): (q: int)
    requires b > 0
    ensures a >= 0 ==> q == a / b
    ensures a < 0 ==> q == -((-a) / b)
  {
    if a >= 0 then a / b else -((-a) / b)
  }

  /** Go's `a % b` for a positive divisor: the remainder has the sign of `a`. */
  function Rem(a: int, b: int): (r: int)
    requires b > 0
    ensures a == Quot(a, b) * b + r
    ensures a >= 0 ==> 0 <= r < b
    ensures a < 0 ==> -b < r <= 0
  {
    a - Quot(a, b) * b
  }
}

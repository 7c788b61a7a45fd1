/** Small vocabulary shared by every module: optional values, results, and the
    arithmetic of Go's int64 (wrap-around, truncated division, powers of ten). */
module Prelude {

  datatype Option<+T> = None | Some(value: T)

  datatype Result<+T, +E> = Ok(value: T) | Err(error: E)

  const MIN_INT64: int := -0x8000_0000_0000_0000
  const MAX_INT64: int := 0x7fff_ffff_ffff_ffff
  const TWO_64: int := 0x1_0000_0000_0000_0000

  /** A millisecond, in nanoseconds. */
  const MS: int := 1_000_000

  predicate InInt64(x: int) {
    MIN_INT64 <= x <= MAX_INT64
  }

  /** Two's complement: the int64 congruent to x modulo 2^64. */
  function Wrap64(x: int): (w: int)
    ensures InInt64(w)
    ensures InInt64(x) ==> w == x
    ensures MAX_INT64 < x <= MAX_INT64 + TWO_64 ==> w == x - TWO_64
    ensures MIN_INT64 - TWO_64 <= x < MIN_INT64 ==> w == x + TWO_64
  {
    (x - MIN_INT64) % TWO_64 + MIN_INT64
  }

  function Abs(x: int): nat {
    if x < 0 then -x else x
  }

  /** Go's `/` on integers: truncation toward zero. */
  function TruncDiv(a: int, d: int): int
    requires d > 0
  {
    if a >= 0 then a / d else -((-a) / d)
  }

  /** Go's `%` on integers: the remainder takes the sign of the dividend. */
  function TruncMod(a: int, d: int): int
    requires d > 0
  {
    if a >= 0 then a % d else -((-a) % d)
  }

  function Pow10(k: nat): (p: int)
    ensures p >= 1
    ensures k >= 1 ==> p >= 10 && p % 2 == 0
  {
    if k == 0 then 1 else 10 * Pow10(k - 1)
  }

  lemma {:induction false} Pow10Add(j: nat, k: nat)
    ensures Pow10(j + k) == Pow10(j) * Pow10(k)
  {
    if j > 0 {
      Pow10Add(j - 1, k);
      MulAssociative(10, Pow10(j - 1), Pow10(k));
    }
  }

  lemma MulAssociative(a: int, b: int, c: int)
    ensures a * (b * c) == (a * b) * c
  {
  }

  function Pow2(k: nat): (p: int)
    ensures p >= 1
  {
    if k == 0 then 1 else 2 * Pow2(k - 1)
  }

  function Max(a: int, b: int): int {
    if a >= b then a else b
  }

  function Min(a: int, b: int): int {
    if a <= b then a else b
  }
}

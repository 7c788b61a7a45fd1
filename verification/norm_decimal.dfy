/** Scaled decimals: half-up rescaling of big integers, int64 multiplication with rounding, and
    the conversion of a price. */
module NormDecimal {
  import opened Prelude

  datatype ScaledDecimal = ScaledDecimal(scaled: int, scale: int)

  datatype DecimalError = InvalidFirstOperand | InvalidSecondOperand | InvalidTargetScale | NotANumber | InfinitePrice

  // ---- RoundHalfUp ----

  /** Euclidean quotient, bumped when the remainder reaches half the divisor (rounded down). */
  function HalfUp(v: int, d: int): int
    requires d > 0
  {
    v / d + if v % d >= d / 2 then 1 else 0
  }

  function RoundHalfUp(v: int, fromScale: int, toScale: int): int {
    if fromScale == toScale then v
    else if fromScale < toScale then v * Pow10(toScale - fromScale)
    else HalfUp(v, Pow10(fromScale - toScale))
  }

  /** r is the multiple of d nearest to v, the upper one at a tie. */
  ghost predicate Nearest(v: int, d: int, r: int) {
    -d < 2 * (d * r - v) <= d
  }

  lemma HalfUpIsNearest(v: int, d: int)
    requires d > 0 && d % 2 == 0
    ensures Nearest(v, d, HalfUp(v, d))
  {
    var q, r := v / d, v % d;
    assert v == d * q + r;
    MulDistributes(d, q, 1);
  }

  lemma MulDistributes(a: int, b: int, c: int)
    ensures a * (b + c) == a * b + a * c
  {
  }

  /** A smaller value has no larger nearest multiple; so the nearest multiple is unique. */
  lemma NearestMonotone(v: int, w: int, d: int, r: int, s: int)
    requires d > 0 && v <= w && Nearest(v, d, r) && Nearest(w, d, s)
    ensures r <= s
  {
    if r > s {
      MulMonotone(d, s + 1, r);
      MulDistributes(d, s, 1);
      assert false;
    }
  }

  lemma MulMonotone(a: int, b: int, c: int)
    requires a >= 0 && b <= c
    ensures a * b <= a * c
  {
  }

  /** Rounding down to fewer places lands within half a unit, exact ties going up. */
  lemma RoundHalfUpWithinHalf(v: int, fromScale: int, toScale: int)
    requires fromScale > toScale
    ensures Nearest(v, Pow10(fromScale - toScale), RoundHalfUp(v, fromScale, toScale))
  {
    HalfUpIsNearest(v, Pow10(fromScale - toScale));
  }

  lemma RoundHalfUpMonotone(v: int, w: int, fromScale: int, toScale: int)
    requires v <= w
    ensures RoundHalfUp(v, fromScale, toScale) <= RoundHalfUp(w, fromScale, toScale)
  {
    if fromScale < toScale {
      MulMonotone(Pow10(toScale - fromScale), v, w);
    } else if fromScale > toScale {
      RoundHalfUpWithinHalf(v, fromScale, toScale);
      RoundHalfUpWithinHalf(w, fromScale, toScale);
      NearestMonotone(v, w, Pow10(fromScale - toScale), RoundHalfUp(v, fromScale, toScale), RoundHalfUp(w, fromScale, toScale));
    }
  }

  /** Scaling up and back is the identity, negatives included. */
  lemma ScaleUpAndBack(v: int, scale: int, finer: int)
    requires scale <= finer
    ensures RoundHalfUp(RoundHalfUp(v, scale, finer), finer, scale) == v
  {
    if scale < finer {
      var d := Pow10(finer - scale);
      var up := v * d;
      RoundHalfUpWithinHalf(up, finer, scale);
      assert d * v == up;
      NearestMonotone(up, up, d, v, RoundHalfUp(up, finer, scale));
      NearestMonotone(up, up, d, RoundHalfUp(up, finer, scale), v);
    }
  }

  /** Nearest through an intermediate unit: d1 * d2 is the coarse unit, d1 the intermediate one. */
  lemma TwoRoundings(v: int, d1: int, d2: int, x: int, y: int, z: int)
    requires d1 > 0 && d1 % 2 == 0 && d2 > 0 && d2 % 2 == 0
    requires Nearest(v, d1, x) && Nearest(x, d2, y) && Nearest(v, d1 * d2, z)
    ensures z <= y <= z + 1
    ensures y == z + 1 <==> 2 * v + d1 >= 2 * (d1 * d2) * (z + 1) - d1 * d2
  {
    var d := d1 * d2;
    ProductAtLeast(d1, d2);
    InFinestUnits(d1, d2, x, y);
    StepsApart(d, y, z);
    TwiceTimes(d, z + 1);
    MulDistributes(d, z, 1);
    LinearPart(v, d, d1, d1 * x, d * y, d * z, y, z);
  }

  /** The second rounding, in units of the value first rounded; d2 being even, its lower side is strict. */
  lemma InFinestUnits(d1: int, d2: int, x: int, y: int)
    requires d1 > 0 && d2 > 0 && d2 % 2 == 0 && Nearest(x, d2, y)
    ensures 2 * (d1 * x) - d1 * d2 + 2 * d1 <= 2 * (d1 * d2 * y) <= 2 * (d1 * x) + d1 * d2
  {
    var h := d2 / 2;
    var t := d2 * y - x;
    assert 1 - h <= t <= h;
    MulMonotone(d1, 1 - h, t);
    MulMonotone(d1, t, h);
    MulDistributes(d1, 1, -h);
    MulDistributes(d1, h, h);
    MulNegates(d1, h);
    MulDistributes(d1, x, t);
    MulAssociative(d1, d2, y);
    assert d1 * (x + t) == d1 * d2 * y;
  }

  lemma MulNegates(a: int, b: int)
    ensures a * -b == -(a * b)
  {
  }

  lemma StepsApart(d: int, y: int, z: int)
    requires d > 0
    ensures y > z + 1 ==> d * y >= d * z + 2 * d
    ensures y < z ==> d * y <= d * z - d
    ensures y == z + 1 ==> d * y == d * z + d
  {
    MulDistributes(d, z, y - z);
    if y > z + 1 {
      MulMonotone(d, 2, y - z);
    } else if y < z {
      MulMonotone(d, y - z, -1);
    }
  }

  /** What is left once every product has a name: v1 and v2 are the roundings y and z in units of v. */
  lemma LinearPart(v: int, d: int, d1: int, mid: int, v1: int, v2: int, y: int, z: int)
    requires d1 > 0 && d >= 2 * d1
    requires -d1 < 2 * (mid - v) <= d1
    requires 2 * mid - d + 2 * d1 <= 2 * v1 <= 2 * mid + d
    requires -d < 2 * (v2 - v) <= d
    requires (y > z + 1 ==> v1 >= v2 + 2 * d) && (y < z ==> v1 <= v2 - d) && (y == z + 1 ==> v1 == v2 + d)
    requires y == z ==> v1 == v2
    ensures z <= y <= z + 1
    ensures y == z + 1 <==> 2 * v + d1 >= 2 * (v2 + d) - d
  {
  }

  lemma TwiceTimes(d: int, k: int)
    ensures 2 * d * k == 2 * (d * k)
  {
  }

  lemma ProductAtLeast(d1: int, d2: int)
    requires d1 > 0 && d2 >= 2
    ensures d1 * d2 >= 2 * d1
  {
    MulMonotone(d1, 2, d2);
  }

  /** Rounding in two steps never gives less than rounding once, and gives exactly one more when
      the value sits within half an intermediate unit below the point where the single rounding
      steps up; otherwise the two agree. */
  lemma TwoStepRounding(v: int, fromScale: int, midScale: int, toScale: int)
    requires fromScale >= midScale >= toScale
    ensures var once, twice := RoundHalfUp(v, fromScale, toScale),
                               RoundHalfUp(RoundHalfUp(v, fromScale, midScale), midScale, toScale);
      && once <= twice <= once + 1
      && (fromScale > midScale > toScale ==>
            var d, d1 := Pow10(fromScale - toScale), Pow10(fromScale - midScale);
            twice == once + 1 <==> (v + d / 2) % d >= d - d1 / 2)
      && (fromScale == midScale || midScale == toScale ==> once == twice)
  {
    if fromScale > midScale > toScale {
      var d1, d2 := Pow10(fromScale - midScale), Pow10(midScale - toScale);
      Pow10Add(fromScale - midScale, midScale - toScale);
      assert Pow10(fromScale - toScale) == d1 * d2;
      var x := RoundHalfUp(v, fromScale, midScale);
      var y, z := RoundHalfUp(x, midScale, toScale), RoundHalfUp(v, fromScale, toScale);
      RoundHalfUpWithinHalf(v, fromScale, midScale);
      RoundHalfUpWithinHalf(x, midScale, toScale);
      RoundHalfUpWithinHalf(v, fromScale, toScale);
      TwoRoundings(v, d1, d2, x, y, z);
      DistanceToStep(v, d1 * d2, d1, z);
    }
  }

  /** How far v is below the next step of the single rounding, read off a remainder. */
  lemma DistanceToStep(v: int, d: int, d1: int, z: int)
    requires d > 0 && d % 2 == 0 && d1 % 2 == 0 && Nearest(v, d, z)
    ensures 2 * v + d1 >= 2 * d * (z + 1) - d <==> (v + d / 2) % d >= d - d1 / 2
  {
    var t := v + d / 2;
    var m := t - d * z;
    assert 0 <= m < d;
    RemainderIs(t, d, z, m);
    MulDistributes(d, z, 1);
    TwiceTimes(d, z + 1);
  }

  lemma RemainderIs(t: int, d: int, q: int, m: int)
    requires d > 0 && t == d * q + m && 0 <= m < d
    ensures t % d == m && t / d == q
  {
    var q', m' := t / d, t % d;
    assert t == d * q' + m';
    assert d * (q - q') == m' - m by { MulDistributes(d, q, -q'); assert d * -q' == -(d * q'); }
    if q > q' {
      MulMonotone(d, 1, q - q');
    } else if q < q' {
      MulMonotone(d, q - q', -1);
    }
  }

  /** The big.Int routine: powers of ten by repeated multiplication, then Div and Mod. */
  method RoundHalfUpBig(value: int, fromScale: int, toScale: int) returns (r: int)
    ensures r == RoundHalfUp(value, fromScale, toScale)
    ensures fromScale > toScale ==> Nearest(value, Pow10(fromScale - toScale), r)
    ensures fromScale <= toScale ==> r == value * Pow10(toScale - fromScale)
  {
    if fromScale == toScale {
      return value;
    }
    if fromScale < toScale {
      var multiplier := PowerByLoop(toScale - fromScale);
      return value * multiplier;
    }
    var divisor := PowerByLoop(fromScale - toScale);
    var quotient, remainder, half := value / divisor, value % divisor, divisor / 2;
    if remainder >= half {
      quotient := quotient + 1;
    }
    RoundHalfUpWithinHalf(value, fromScale, toScale);
    return quotient;
  }

  method PowerByLoop(n: nat) returns (p: int)
    ensures p == Pow10(n)
  {
    p := 1;
    var i := 0;
    while i < n
      invariant 0 <= i <= n && p == Pow10(i)
    {
      p := p * 10;
      i := i + 1;
    }
  }

  // ---- MultiplyAndRound ----

  predicate ValidScale(scale: int) {
    0 <= scale <= 8
  }

  /** MultiplyAndRound on int64s: the product, and the product times a power, wrap around. */
  function MultiplyAndRound(a: ScaledDecimal, b: ScaledDecimal, targetScale: int): Result<ScaledDecimal, DecimalError> {
    if !ValidScale(a.scale) then Err(InvalidFirstOperand)
    else if !ValidScale(b.scale) then Err(InvalidSecondOperand)
    else if !ValidScale(targetScale) then Err(InvalidTargetScale)
    else
      var scaleDiff := a.scale + b.scale - targetScale;
      var product := Wrap64(a.scaled * b.scaled);
      if scaleDiff < 0 then Ok(ScaledDecimal(Wrap64(product * Pow10(-scaleDiff)), targetScale))
      else if scaleDiff > 0 then
        var divisor := Pow10(scaleDiff);
        Ok(ScaledDecimal(TruncDiv(product, divisor) + if TruncMod(product, divisor) >= divisor / 2 then 1 else 0, targetScale))
      else Ok(ScaledDecimal(product, targetScale))
  }

  /** The refusals, in the order of the checks. */
  lemma MultiplyAndRoundRefuses(a: ScaledDecimal, b: ScaledDecimal, targetScale: int)
    ensures var r := MultiplyAndRound(a, b, targetScale);
      && (r == Err(InvalidFirstOperand) <==> a.scale < 0 || a.scale > 8)
      && (r == Err(InvalidSecondOperand) <==> 0 <= a.scale <= 8 && (b.scale < 0 || b.scale > 8))
      && (r == Err(InvalidTargetScale) <==> 0 <= a.scale <= 8 && 0 <= b.scale <= 8 && (targetScale < 0 || targetScale > 8))
      && (r.Ok? <==> 0 <= a.scale <= 8 && 0 <= b.scale <= 8 && 0 <= targetScale <= 8)
  {
  }

  /** No intermediate result leaves int64. */
  predicate NoOverflow(a: ScaledDecimal, b: ScaledDecimal, targetScale: int) {
    var product, total := a.scaled * b.scaled, a.scale + b.scale;
    InInt64(product) && (total < targetScale ==> InInt64(product * Pow10(targetScale - total)))
  }

  /** Within int64, MultiplyAndRound is half-up rounding of the exact product if and only if the
      product is non-negative, or is not scaled down, or is at most half a unit past a multiple (in
      magnitude); a negative product that is scaled down is truncated toward zero. */
  lemma MultiplyAndRoundMeetsHalfUp(a: ScaledDecimal, b: ScaledDecimal, targetScale: int)
    requires ValidScale(a.scale) && ValidScale(b.scale) && ValidScale(targetScale)
    requires NoOverflow(a, b, targetScale)
    ensures var r, p, total := MultiplyAndRound(a, b, targetScale), a.scaled * b.scaled, a.scale + b.scale;
      && r.Ok? && r.value.scale == targetScale
      && (r.value.scaled == RoundHalfUp(p, total, targetScale) <==>
            p >= 0 || total <= targetScale || (-p) % Pow10(total - targetScale) <= Pow10(total - targetScale) / 2)
      && (p < 0 && total > targetScale ==> r.value.scaled == TruncDiv(p, Pow10(total - targetScale)))
  {
    var p, scaleDiff := a.scaled * b.scaled, a.scale + b.scale - targetScale;
    if scaleDiff > 0 && p < 0 {
      NegativeHalfUp(-p, Pow10(scaleDiff));
    }
  }

  /** Half-up rounding of -m: the quotient of m, negated, less one when the remainder passes the half. */
  lemma NegativeHalfUp(m: int, d: int)
    requires m >= 0 && d > 0 && d % 2 == 0
    ensures HalfUp(-m, d) == -(m / d) - if m % d > d / 2 then 1 else 0
  {
    var q, r := m / d, m % d;
    assert m == d * q + r;
    assert d * -q == -(d * q);
    MulDistributes(d, -q, -1);
    if r == 0 {
      RemainderIs(-m, d, -q, 0);
    } else {
      RemainderIs(-m, d, -q - 1, d - r);
    }
  }

  // ---- ToScaledDecimal ----

  /** A float64 price, its finite values as reals. */
  datatype Price = Finite(value: real) | NaN | Infinite

  /** math.Round: to the nearest integer, halves away from zero. */
  function Round(x: real): int {
    if x >= 0.0 then (x + 0.5).Floor else -((0.5 - x).Floor)
  }

  function Shift(x: real, scale: nat): real {
    x * Pow10(scale) as real
  }

  /** The conversion of an integral float64 to int64; out of range it gives the least int64 (as amd64 does). */
  function AsInt64(n: int): (w: int)
    ensures InInt64(w)
  {
    if InInt64(n) then n else MIN_INT64
  }

  function ToScaledDecimal(price: Price, scale: nat): Result<ScaledDecimal, DecimalError> {
    match price
    case NaN => Err(NotANumber)
    case Infinite => Err(InfinitePrice)
    case Finite(x) => Ok(ScaledDecimal(AsInt64(Round(Shift(x, scale))), scale))
  }

  /** The scaled price fits int64. */
  predicate InRange(x: real, scale: nat) {
    InInt64(Round(Shift(x, scale)))
  }

  lemma RoundFacts(x: real, y: real)
    ensures x <= y ==> Round(x) <= Round(y)
    ensures x >= 0.0 ==> Round(x) >= 0
    ensures -0.5 <= Round(x) as real - x <= 0.5
  {
  }

  /** A price halfway between two units goes to the one further from zero; only a price that is not a
      number, or infinite, is refused. */
  lemma ConversionTiesAway(n: nat, price: Price)
    ensures n + 1 <= MAX_INT64 ==> ToScaledDecimal(Finite(n as real + 0.5), 0) == Ok(ScaledDecimal(n + 1, 0))
    ensures n + 1 <= MAX_INT64 ==> ToScaledDecimal(Finite(-(n as real + 0.5)), 0) == Ok(ScaledDecimal(-(n + 1), 0))
    ensures forall scale: nat :: ToScaledDecimal(price, scale).Ok? <==> price.Finite?
  {
    assert Pow10(0) == 1;
    hide Pow10;
    assert Round(n as real + 0.5) == n + 1 && Round(-(n as real + 0.5)) == -(n + 1);
  }

  /** Conversion errs by at most half a unit for a price that fits, and of non-negative prices only for those. */
  lemma ConversionWithinHalf(x: real, scale: nat)
    ensures var error := ToScaledDecimal(Finite(x), scale).value.scaled as real - Shift(x, scale);
      && (InRange(x, scale) ==> -0.5 <= error <= 0.5)
      && (x >= 0.0 ==> (-0.5 <= error <= 0.5 <==> InRange(x, scale)))
  {
    hide Round, Shift;
    RoundFacts(Shift(x, scale), Shift(x, scale));
    if x >= 0.0 {
      ShiftFacts(0.0, x, scale);
      RoundFacts(Shift(0.0, scale), Shift(x, scale));
    }
  }

  /** Conversion keeps the order of non-negative prices if and only if the larger one fits int64 or
      neither does. */
  lemma ConversionKeepsOrder(x: real, y: real, scale: nat)
    requires 0.0 <= x <= y
    ensures ToScaledDecimal(Finite(x), scale).value.scaled <= ToScaledDecimal(Finite(y), scale).value.scaled
       <==> InRange(y, scale) || !InRange(x, scale)
    ensures InRange(y, scale) ==> InRange(x, scale)
  {
    hide Round, Shift;
    ShiftFacts(0.0, x, scale);
    ShiftFacts(x, y, scale);
    RoundFacts(Shift(0.0, scale), Shift(x, scale));
    RoundFacts(Shift(x, scale), Shift(y, scale));
  }

  lemma ShiftFacts(x: real, y: real, scale: nat)
    ensures x <= y ==> Shift(x, scale) <= Shift(y, scale)
    ensures Shift(0.0, scale) == 0.0
  {
    var p := Pow10(scale) as real;
    if x <= y {
      RealScale(y - x, p);
      assert y * p == (y - x) * p + x * p;
    }
  }

  lemma RealScale(x: real, p: real)
    requires p > 0.0 && x >= 0.0
    ensures x * p >= 0.0
  {
  }
}

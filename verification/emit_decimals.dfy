/** Scale conversion of scraped int64 decimals, with Go's truncated division and wrap-around. */
module EmitDecimals {
  import opened Prelude
  import opened NormDecimal

  datatype ScaleError = TargetScaleOutOfRange | WouldOverflow | NegativeScale | ScaleTooLarge | MissingValue

  datatype ScaledDecimalConfig = ScaledDecimalConfig(percentScale: int, allowNegativeScale: bool, maxScale: int)

  /** The powers of ten that fit int64; beyond them the conversion of math.Pow10 is implementation-defined. */
  predicate PowerFits(v: ScaledDecimal, targetScale: int) {
    -18 <= targetScale - v.scale <= 18
  }

  /** Rounds to nearest by adding half the divisor away from zero and truncating. */
  function ScaleDown(v: int, d: int): int
    requires d > 0
  {
    if v < 0 then TruncDiv(Wrap64(v - d / 2), d) else TruncDiv(Wrap64(v + d / 2), d)
  }

  function ConvertScale(v: ScaledDecimal, targetScale: int): Result<ScaledDecimal, ScaleError>
    requires PowerFits(v, targetScale)
  {
    if v.scale == targetScale then Ok(v)
    else if targetScale < 0 || targetScale > 15 then Err(TargetScaleOutOfRange)
    else if targetScale > v.scale then
      var multiplier := Pow10(targetScale - v.scale);
      if v.scaled > MAX_INT64 / multiplier then Err(WouldOverflow)
      else Ok(ScaledDecimal(Wrap64(v.scaled * multiplier), targetScale))
    else Ok(ScaledDecimal(ScaleDown(v.scaled, Pow10(v.scale - targetScale)), targetScale))
  }

  function Negated(v: ScaledDecimal): ScaledDecimal {
    v.(scaled := -v.scaled)
  }

  predicate InScaleRange(scale: int) {
    0 <= scale <= 15
  }

  /** Half-up rounding with negative ties rounded away from zero: one less there, and only there. */
  function TiesAway(v: int, fromScale: int, toScale: int): int
    requires fromScale > toScale
  {
    var d := Pow10(fromScale - toScale);
    RoundHalfUp(v, fromScale, toScale) - if v < 0 && (-v) % d == d / 2 then 1 else 0
  }

  /** There is room in int64 to add half the divisor away from zero. */
  predicate RoomForHalf(v: int, d: int) {
    if v < 0 then v - d / 2 >= MIN_INT64 else v + d / 2 <= MAX_INT64
  }

  /** Scaling down never errs, and differs from half-up rounding exactly at negative ties, there by
      one, if and only if adding the half does not overflow. */
  lemma DiffersFromHalfUpOnlyAtNegativeTies(v: ScaledDecimal, targetScale: int)
    requires PowerFits(v, targetScale) && InScaleRange(targetScale) && targetScale < v.scale && InInt64(v.scaled)
    ensures var r := ConvertScale(v, targetScale);
      && r.Ok?
      && (r.value.scaled == TiesAway(v.scaled, v.scale, targetScale) <==> RoomForHalf(v.scaled, Pow10(v.scale - targetScale)))
  {
    hide Pow10, HalfUp, ScaleDown, RoomForHalf;
    var d := Pow10(v.scale - targetScale);
    PowersFit(v.scale - targetScale);
    TiesAwayByAdding(v.scaled, d);
    ScaleDownWithoutRoom(v.scaled, d);
  }

  lemma TiesAwayByAdding(v: int, d: int)
    requires d > 0 && d % 2 == 0
    ensures HalfUp(v, d) - (if v < 0 && (-v) % d == d / 2 then 1 else 0)
            == if v < 0 then -((-v + d / 2) / d) else (v + d / 2) / d
  {
    HalfUpByAdding(Abs(v), d);
    if v < 0 {
      NegativeHalfUp(-v, d);
    }
  }

  /** Past int64 the sum changes sign, and so does its quotient. */
  lemma ScaleDownWithoutRoom(v: int, d: int)
    requires 0 < d <= MAX_INT64 && InInt64(v)
    ensures RoomForHalf(v, d) ==> ScaleDown(v, d) == if v < 0 then -((-v + d / 2) / d) else (v + d / 2) / d
    ensures !RoomForHalf(v, d) ==> ScaleDown(v, d) != if v < 0 then -((-v + d / 2) / d) else (v + d / 2) / d
  {
    hide Wrap64;
    if !RoomForHalf(v, d) {
      var sum := Abs(v) + d / 2;
      QuotientAtLeastOne(sum, d);
      if v < 0 {
        assert Wrap64(v - d / 2) >= 0;
      } else {
        assert Wrap64(v + d / 2) < 0;
        NegativeQuotient(Wrap64(v + d / 2), d);
      }
    }
  }

  lemma QuotientAtLeastOne(a: int, d: int)
    requires a >= d > 0
    ensures a / d >= 1
  {
  }

  /** Adding half the divisor before an integer division rounds half up. */
  lemma HalfUpByAdding(m: int, d: int)
    requires m >= 0 && d > 0 && d % 2 == 0
    ensures (m + d / 2) / d == m / d + if m % d >= d / 2 then 1 else 0
  {
    var q, r := m / d, m % d;
    assert m == d * q + r;
    MulDistributes(d, q, 1);
    if r >= d / 2 {
      RemainderIs(m + d / 2, d, q + 1, r - d / 2);
    } else {
      RemainderIs(m + d / 2, d, q, r + d / 2);
    }
  }

  /** Scaling down is odd-symmetric except where the added half lands exactly on 2^63. */
  lemma ScaleDownIsOdd(v: int, d: int)
    requires 0 < d <= MAX_INT64 && d % 2 == 0 && 0 < v <= MAX_INT64
    ensures ScaleDown(-v, d) == -ScaleDown(v, d) <==> v + d / 2 != MAX_INT64 + 1
  {
    if v + d / 2 == MAX_INT64 + 1 {
      assert Wrap64(v + d / 2) == MIN_INT64 && Wrap64(-v - d / 2) == MIN_INT64;
      HalfRangeQuotient(d);
    }
  }

  lemma HalfRangeQuotient(d: int)
    requires 0 < d <= 0x8000_0000_0000_0000
    ensures 0x8000_0000_0000_0000 / d >= 1
  {
  }

  /** Scaling up succeeds on both v and -v, with opposite results, exactly when v stays within the
      bound the overflow check tests; beyond it v is refused while -v is not. */
  lemma ScaleUpIsOdd(v: ScaledDecimal, targetScale: int)
    requires PowerFits(v, targetScale) && InScaleRange(targetScale) && v.scale < targetScale
    requires 0 < v.scaled <= MAX_INT64
    ensures var r, s := ConvertScale(v, targetScale), ConvertScale(Negated(v), targetScale);
      && s.Ok?
      && (r.Ok? <==> v.scaled * Pow10(targetScale - v.scale) <= MAX_INT64)
      && (r.Ok? ==> s.value == Negated(r.value))
  {
    hide Pow10, ScaleDown, Wrap64;
    var m := Pow10(targetScale - v.scale);
    OppositeProducts(v.scaled, m);
    QuotientBound(v.scaled, m);
    QuotientBound(-v.scaled, m);
  }

  /** When a conversion is refused: a new scale outside 0 to 15, or an up-scaled value past the greatest
      int64. The value's own scale is always accepted, and changes nothing. */
  lemma ConversionRefusedExactly(v: ScaledDecimal, targetScale: int)
    requires PowerFits(v, targetScale)
    ensures var r := ConvertScale(v, targetScale);
      && (r == Err(TargetScaleOutOfRange) <==> targetScale != v.scale && (targetScale < 0 || targetScale > 15))
      && (r == Err(WouldOverflow) <==>
            v.scale < targetScale && 0 <= targetScale <= 15 && v.scaled * Pow10(targetScale - v.scale) > 0x7FFF_FFFF_FFFF_FFFF)
      && (r.Err? ==> r.error == TargetScaleOutOfRange || r.error == WouldOverflow)
      && (r.Ok? ==> r.value.scale == targetScale)
      && (targetScale == v.scale ==> r == Ok(v))
  {
    hide Pow10, ScaleDown, Wrap64;
    if v.scale < targetScale {
      QuotientBound(v.scaled, Pow10(targetScale - v.scale));
    }
  }

  lemma OppositeProducts(v: int, m: int)
    requires v > 0 && m > 0
    ensures v * m > 0 && (-v) * m == -(v * m)
  {
  }

  lemma QuotientBound(v: int, m: int)
    requires m > 0
    ensures v > MAX_INT64 / m <==> v * m > MAX_INT64
  {
    var q, r := MAX_INT64 / m, MAX_INT64 % m;
    assert MAX_INT64 == m * q + r;
    if v > q {
      MulMonotone(m, q + 1, v);
      MulDistributes(m, q, 1);
    } else {
      MulMonotone(m, v, q);
    }
  }

  /** The overflow check covers the positive side only: a negative value is scaled up correctly
      exactly when the product fits, and otherwise silently wraps. */
  lemma NegativeScaleUpMayWrap(v: ScaledDecimal, targetScale: int)
    requires PowerFits(v, targetScale) && InScaleRange(targetScale) && v.scale < targetScale
    requires v.scaled < 0
    ensures var r, exact := ConvertScale(v, targetScale), v.scaled * Pow10(targetScale - v.scale);
      r.Ok? && (r.value.scaled == exact <==> exact >= MIN_INT64)
  {
    hide Pow10, ScaleDown, Wrap64;
    var m := Pow10(targetScale - v.scale);
    QuotientBound(v.scaled, m);
    MulMonotone(m, v.scaled, 0);
  }

  /** Scaling up and back restores the value if and only if the up-scaled value still has room for
      half a unit, on whichever side it lies. */
  lemma ScaleUpIsUndone(v: ScaledDecimal, targetScale: int)
    requires PowerFits(v, targetScale) && InScaleRange(v.scale) && InScaleRange(targetScale) && v.scale < targetScale
    requires InInt64(v.scaled)
    ensures var m, u := Pow10(targetScale - v.scale), ConvertScale(v, targetScale);
      (u.Ok? && ConvertScale(u.value, v.scale) == Ok(v))
      <==> RoomForHalf(v.scaled * m, m)
  {
    hide Wrap64, ScaleDown, Pow10, RoomForHalf;
    var m := Pow10(targetScale - v.scale);
    PowersFit(targetScale - v.scale);
    UndoneExactly(v.scaled, m, v.scaled * m);
  }

  /** The same for the integers alone: the up-scaling is not refused, and scaling down gives v back. */
  lemma UndoneExactly(v: int, m: int, exact: int)
    requires InInt64(v) && 0 < m <= MAX_INT64 && m % 2 == 0 && exact == v * m
    ensures v <= MAX_INT64 / m && ScaleDown(Wrap64(exact), m) == v <==> RoomForHalf(exact, m)
  {
    hide Wrap64, ScaleDown;
    QuotientBound(v, m);
    if v >= 0 {
      MulMonotone(m, 0, v);
      UndoneNonNegative(v, m, exact);
    } else {
      MulMonotone(m, v, -1);
      UndoneNegative(v, m, exact);
    }
  }

  lemma UndoneNonNegative(v: int, m: int, exact: int)
    requires 0 <= v <= MAX_INT64 && m > 0 && m % 2 == 0 && m / 2 <= MAX_INT64 && exact == v * m
    ensures exact <= MAX_INT64 ==> (ScaleDown(Wrap64(exact), m) == v <==> exact + m / 2 <= MAX_INT64)
  {
    hide Wrap64;
    MulMonotone(m, 0, v);
    if exact <= MAX_INT64 {
      if exact + m / 2 <= MAX_INT64 {
        RemainderIs(exact + m / 2, m, v, m / 2);
      } else if v > 0 {
        assert Wrap64(exact + m / 2) < 0;
        NegativeQuotient(Wrap64(exact + m / 2), m);
      }
    }
  }

  lemma NegativeQuotient(a: int, d: int)
    requires a < 0 && d > 0
    ensures TruncDiv(a, d) <= 0
  {
  }

  lemma UndoneNegative(v: int, m: int, exact: int)
    requires MIN_INT64 <= v < 0 && m > 0 && m % 2 == 0 && m / 2 <= MAX_INT64 && exact == v * m
    ensures ScaleDown(Wrap64(exact), m) == v <==> exact - m / 2 >= MIN_INT64
  {
    hide Wrap64, TruncDiv;
    MulMonotone(m, v, -1);
    if exact - m / 2 >= MIN_INT64 {
      QuotientBack(v, m, exact);
    } else if exact >= MIN_INT64 {
      assert Wrap64(exact - m / 2) >= 0;
      NonNegativeQuotient(Wrap64(exact - m / 2), m);
    } else {
      var u := Wrap64(exact);
      var w := Wrap64(if u < 0 then u - m / 2 else u + m / 2);
      QuotientAbove(w, m, v, exact);
    }
  }

  lemma NonNegativeQuotient(a: int, d: int)
    requires a >= 0 && d > 0
    ensures TruncDiv(a, d) >= 0
  {
  }

  lemma QuotientBack(v: int, m: int, exact: int)
    requires v < 0 && m > 0 && m % 2 == 0 && exact == v * m
    ensures exact < 0 && TruncDiv(exact - m / 2, m) == v
  {
    MulMonotone(m, v, -1);
    MulNegates(m, v);
    RemainderIs(-exact + m / 2, m, -v, m / 2);
  }

  lemma QuotientAbove(w: int, m: int, v: int, exact: int)
    requires InInt64(w) && m > 0 && exact == v * m && exact < MIN_INT64
    ensures TruncDiv(w, m) > v
  {
    hide TruncDiv;
    QuotientInRange(w, m);
    if TruncDiv(w, m) <= v {
      MulMonotone(m, TruncDiv(w, m), v);
    }
  }

  /** The m-fold of an int64's quotient by m is still an int64. */
  lemma QuotientInRange(w: int, m: int)
    requires InInt64(w) && m > 0
    ensures m * TruncDiv(w, m) >= MIN_INT64
  {
    if w < 0 {
      QuotientBelow(-w, m);
      MulNegates(m, (-w) / m);
    } else {
      QuotientBelow(w, m);
    }
  }

  lemma QuotientBelow(a: nat, m: int)
    requires m > 0
    ensures 0 <= m * (a / m) <= a
  {
    var q, r := a / m, a % m;
    assert a == m * q + r;
    MulMonotone(m, 0, q);
  }

  /** 10^18 is the largest power of ten in int64. */
  lemma {:induction false} PowersFit(k: nat)
    requires k <= 18
    ensures Pow10(k) <= MAX_INT64
    decreases 18 - k
  {
    if k < 18 {
      PowersFit(k + 1);
    } else {
      Pow10Add(3, 3);
      Pow10Add(6, 6);
      Pow10Add(12, 6);
      assert Pow10(3) == 1000;
    }
  }

  // ---- PercentToScaled ----

  predicate ScaleAccepted(scale: int, cfg: ScaledDecimalConfig) {
    (cfg.allowNegativeScale || scale >= 0) && scale <= cfg.maxScale
  }

  function PercentToScaled(v: Option<ScaledDecimal>, cfg: ScaledDecimalConfig): Result<ScaledDecimal, ScaleError>
    requires v.Some? ==> PowerFits(v.value, cfg.percentScale)
  {
    if v == None then Err(MissingValue)
    else
      var c := ConvertScale(v.value, cfg.percentScale);
      if c.Err? then c
      else if !cfg.allowNegativeScale && c.value.scale < 0 then Err(NegativeScale)
      else if c.value.scale > cfg.maxScale then Err(ScaleTooLarge)
      else c
  }

  /** Success means a conversion to an accepted percent scale; every success carries that scale, and
      converting a success again changes nothing. */
  lemma PercentToScaledIsIdempotent(v: ScaledDecimal, cfg: ScaledDecimalConfig)
    requires PowerFits(v, cfg.percentScale)
    ensures var r := PercentToScaled(Some(v), cfg);
      && (r.Ok? <==> ConvertScale(v, cfg.percentScale).Ok? && ScaleAccepted(cfg.percentScale, cfg))
      && (r.Ok? ==> r.value.scale == cfg.percentScale && PercentToScaled(Some(r.value), cfg) == r)
      && PercentToScaled(None, cfg) == Err(MissingValue)
  {
  }
}

/** Emission of normalized batches, and the whole way of a chart response to an emitted batch. */
module EmitBars {
  import opened Prelude
  import opened NormDecimal
  import opened YahooBars
  import opened NormBars

  datatype Field = Symbol | Mic | TimeWindow | EventTime | CurrencyCode | PolicyId | AdjustmentConsistency | Scale

  datatype EmitError = BadSecurity(field: Field) | BadNormalizedBar(index: nat, cause: Field)

  datatype AdjustmentPolicy = Raw | SplitOnly | SplitDividend | Unspecified

  datatype AmpyBar = AmpyBar(
    security: Security, start: int, end: int, open: ScaledDecimal, high: ScaledDecimal, low: ScaledDecimal,
    close: ScaledDecimal, volume: int, adjusted: bool, policyId: string, policy: AdjustmentPolicy,
    eventTime: int, ingestTime: int, asOf: int)

  // ---- Validation ----

  function ValidateSecurity(sec: Security): Option<Field> {
    if sec.symbol == "" then Some(Symbol)
    else if sec.mic != "" && |sec.mic| != 4 then Some(Mic)
    else if sec.mic != "" && !IsMic(sec.mic) then Some(Mic)
    else None
  }

  function ValidateTimeWindow(start: int, end: int, event: int): Option<Field> {
    if end != start + DAY then Some(TimeWindow)
    else if event != end then Some(EventTime)
    else None
  }

  function ValidateDecimal(d: ScaledDecimal): Option<Field> {
    if d.scale < 0 || d.scale > 9 then Some(Scale) else None
  }

  predicate ThreeLetters(code: string) {
    |code| == 3 && 'A' <= code[0] <= 'Z' && 'A' <= code[1] <= 'Z' && 'A' <= code[2] <= 'Z'
  }

  function ValidateCurrency(code: string): Option<Field> {
    if code == "" then Some(CurrencyCode)
    else if |code| != 3 then Some(CurrencyCode)
    else if !ThreeLetters(code) then Some(CurrencyCode)
    else None
  }

  function ValidateAdjustments(adjusted: bool, policyId: string): Option<Field> {
    if !(policyId == "raw" || policyId == "split_only" || policyId == "split_dividend") then Some(PolicyId)
    else if adjusted && policyId == "raw" then Some(AdjustmentConsistency)
    else if !adjusted && (policyId == "split_only" || policyId == "split_dividend") then Some(AdjustmentConsistency)
    else None
  }

  function ConvertAdjustmentPolicy(policyId: string): AdjustmentPolicy {
    if policyId == "raw" then Raw
    else if policyId == "split_only" then SplitOnly
    else if policyId == "split_dividend" then SplitDividend
    else Unspecified
  }

  // ---- One bar ----

  function EmitBar(n: NormalizedBar, security: Security): Result<AmpyBar, Field> {
    var window := ValidateTimeWindow(n.start, n.end, n.eventTime);
    if window.Some? then Err(window.value) else
    var currency := ValidateCurrency(n.currency);
    if currency.Some? then Err(currency.value) else
    var adjustments := ValidateAdjustments(n.adjusted, n.policy);
    if adjustments.Some? then Err(adjustments.value) else
    var open := ValidateDecimal(n.open);
    if open.Some? then Err(open.value) else
    var high := ValidateDecimal(n.high);
    if high.Some? then Err(high.value) else
    var low := ValidateDecimal(n.low);
    if low.Some? then Err(low.value) else
    var close := ValidateDecimal(n.close);
    if close.Some? then Err(close.value) else
    Ok(AmpyBar(security, n.start, n.end, n.open, n.high, n.low, n.close, n.volume, n.adjusted, n.policy,
               ConvertAdjustmentPolicy(n.policy), n.eventTime, n.ingestTime, n.asOf))
  }

  /** EmitBarBatch: all bars, one for one and in order, or the first refusal. */
  method EmitBarBatch(b: Batch) returns (res: Result<seq<AmpyBar>, EmitError>)
    ensures res.Ok? <==> ValidateSecurity(b.security).None? && forall k :: 0 <= k < |b.bars| ==> EmitBar(b.bars[k], b.security).Ok?
    ensures res.Ok? ==>
      |res.value| == |b.bars| && forall k :: 0 <= k < |b.bars| ==> EmitBar(b.bars[k], b.security) == Ok(res.value[k])
    ensures res.Err? && res.error.BadSecurity? ==> ValidateSecurity(b.security) == Some(res.error.field)
    ensures res.Err? && res.error.BadNormalizedBar? ==> var i := res.error.index;
      && i < |b.bars| && EmitBar(b.bars[i], b.security) == Err(res.error.cause)
      && forall k :: 0 <= k < i ==> EmitBar(b.bars[k], b.security).Ok?
  {
    hide EmitBar, ValidateSecurity;
    var e := ValidateSecurity(b.security);
    if e.Some? { return Err(BadSecurity(e.value)); }
    var out: seq<AmpyBar> := [];
    var i := 0;
    while i < |b.bars|
      invariant 0 <= i <= |b.bars| && |out| == i
      invariant forall k :: 0 <= k < i ==> EmitBar(b.bars[k], b.security) == Ok(out[k])
    {
      var one := EmitBar(b.bars[i], b.security);
      if one.Err? { return Err(BadNormalizedBar(i, one.error)); }
      out := out + [one.value];
      i := i + 1;
    }
    return Ok(out);
  }

  // ---- The whole way ----

  /** What emitBar accepts, and that it copies every field. */
  lemma EmitBarExactly(n: NormalizedBar, security: Security)
    ensures EmitBar(n, security).Ok? <==>
      && n.end == n.start + 86400 && n.eventTime == n.end
      && |n.currency| == 3 && (forall i :: 0 <= i < 3 ==> 'A' <= n.currency[i] <= 'Z')
      && (if n.adjusted then n.policy == "split_only" || n.policy == "split_dividend" else n.policy == "raw")
      && 0 <= n.open.scale <= 9 && 0 <= n.high.scale <= 9 && 0 <= n.low.scale <= 9 && 0 <= n.close.scale <= 9
    ensures EmitBar(n, security).Ok? ==>
      var a := EmitBar(n, security).value;
      && a.open == n.open && a.high == n.high && a.low == n.low && a.close == n.close && a.volume == n.volume
      && a.start == n.start && a.end == n.end && a.eventTime == n.eventTime && a.asOf == n.asOf
      && a.ingestTime == n.ingestTime && a.security == security && a.adjusted == n.adjusted && a.policyId == n.policy
      && a.policy == if n.policy == "raw" then Raw else if n.policy == "split_only" then SplitOnly else SplitDividend
  {
  }

  /** What the emitter accepts as a security. */
  lemma ValidateSecurityExactly(sec: Security)
    ensures ValidateSecurity(sec).None? <==>
      sec.symbol != "" && (sec.mic == "" ||
        (|sec.mic| == 4 && forall i :: 0 <= i < 4 ==> 'A' <= sec.mic[i] <= 'Z' || '0' <= sec.mic[i] <= '9'))
  {
  }

  /** A well-formed bar is emitted exactly when its currency is three letters A-Z. */
  lemma WellFormedBarEmits(n: NormalizedBar, security: Security, currency: string, isAdjusted: bool)
    requires WellFormed(n, currency, isAdjusted, if isAdjusted then "split_dividend" else "raw")
    ensures EmitBar(n, security).Ok? <==> ThreeLetters(currency)
    ensures EmitBar(n, security).Ok? ==>
      var a := EmitBar(n, security).value;
      && a.open == n.open && a.high == n.high && a.low == n.low && a.close == n.close && a.volume == n.volume
      && a.start == n.start && a.end == n.end && a.eventTime == n.eventTime && a.asOf == n.asOf
      && a.ingestTime == n.ingestTime && a.security == security
      && a.adjusted == isAdjusted && a.policy == if isAdjusted then SplitDividend else Raw
  {
    hide EmitBar;
    EmitBarExactly(n, security);
  }

  /** What a successful NormalizeBars can return. */
  ghost predicate IsNormalized(b: Batch, bars: seq<Bar>, meta: ChartMeta, now: int, upper: string -> string) {
    && b.security == CreateSecurity(meta.symbol, meta.exchangeName, meta.exchangeName, upper)
    && b.security.symbol != ""
    && b.bars == Converted(bars, |bars|, meta.currency, AnyAdjusted(bars), Policy(bars), now)
    && |b.bars| > 0
  }

  /** Of whatever a successful NormalizeBars returns, everything is emitted if and only if the currency
      is three letters A-Z and the inferred market is not "OTC". */
  lemma NormalizedBatchEmits(b: Batch, bars: seq<Bar>, meta: ChartMeta, now: int, upper: string -> string)
    requires IsNormalized(b, bars, meta, now, upper)
    ensures (ValidateSecurity(b.security).None? && forall k :: 0 <= k < |b.bars| ==> EmitBar(b.bars[k], b.security).Ok?)
       <==> ThreeLetters(meta.currency) && InferMic(meta.exchangeName, meta.exchangeName, upper) != "OTC"
  {
    hide EmitBar, ThreeLetters, InferMic, Converted, WellFormed, AnyAdjusted, CleanSymbol;
    var isAdjusted := AnyAdjusted(bars);
    ConvertedAreWellFormed(bars, |bars|, meta.currency, isAdjusted, Policy(bars), now);
    SecurityPasses(b.security, meta, upper);
    forall k | 0 <= k < |b.bars| ensures EmitBar(b.bars[k], b.security).Ok? <==> ThreeLetters(meta.currency) {
      WellFormedBarEmits(b.bars[k], b.security, meta.currency, isAdjusted);
    }
    assert 0 < |b.bars| && (EmitBar(b.bars[0], b.security).Ok? <==> ThreeLetters(meta.currency));
  }

  lemma SecurityPasses(s: Security, meta: ChartMeta, upper: string -> string)
    requires s == CreateSecurity(meta.symbol, meta.exchangeName, meta.exchangeName, upper) && s.symbol != ""
    ensures ValidateSecurity(s).None? <==> InferMic(meta.exchangeName, meta.exchangeName, upper) != "OTC"
  {
  }

  /** The normalized bar n is made of row i of the columns: its window holds the instant two days before
      that row's timestamp, its prices are that row's to within half a hundredth (the close the adjusted
      one if the batch is adjusted and the row has one), and its volume is that row's. */
  ghost predicate CarriesRow(c: ChartResult, i: nat, n: NormalizedBar, now: int)
    requires InBounds(c) && i < |c.timestamp|
  {
    var q := c.quote[0];
    && n.start % 86400 == 0 && n.end == n.start + 86400 && n.start <= c.timestamp[i] - 2 * 86400 < n.end
    && n.eventTime == n.end && n.asOf == n.end && n.ingestTime == now
    && q.volume[i] == Some(n.volume) && n.currency == c.meta.currency
    && (InHundredths(q.high[i]) ==>
          NearCell(n.open, q.open[i]) && NearCell(n.high, q.high[i]) && NearCell(n.low, q.low[i]))
    && (InHundredths(q.high[i]) && (!n.adjusted || |c.adjClose| == 0 || c.adjClose[0][i] == None) ==> NearCell(n.close, q.close[i]))
    && (InHundredths(q.high[i]) && n.adjusted && |c.adjClose| > 0 && InHundredths(c.adjClose[0][i]) ==> NearCell(n.close, c.adjClose[0][i]))
  }

  ghost predicate NearCell(d: ScaledDecimal, cell: Option<Price>) {
    d.scale == 2 && cell.Some? && cell.value.Finite? && NearHundredths(d.scaled, cell.value.value)
  }

  predicate InHundredths(cell: Option<Price>) {
    cell.Some? && cell.value.Finite? && InRange(cell.value.value, 2)
  }

  lemma RowIsCarried(c: ChartResult, i: nat, bar: Bar, n: NormalizedBar, isAdjusted: bool, policy: string, now: int)
    requires InBounds(c) && i < |c.timestamp| && IsRow(c, i, bar) && SoundBar(bar)
    requires NormalizeBar(bar, c.meta.currency, isAdjusted, policy, now) == Ok(n)
    ensures CarriesRow(c, i, n, now)
  {
    hide NormalizeBar, InRange, NearHundredths;
    NormalizedWindow(bar, n, c.meta.currency, isAdjusted, policy, now);
    NormalizedScales(bar, n, c.meta.currency, isAdjusted, policy, now);
    if InRange(bar.high.value, 2) {
      NormalizedPricesNear(bar, c.meta.currency, isAdjusted, policy, now);
    }
  }

  lemma BatchCarriesRows(c: ChartResult, bars: seq<Bar>, out: seq<NormalizedBar>, isAdjusted: bool, policy: string, now: int)
    requires InBounds(c) && IsExtraction(c, |c.timestamp|, bars) && |out| == |bars|
    requires forall k :: 0 <= k < |bars| ==> SoundBar(bars[k]) && NormalizeBar(bars[k], c.meta.currency, isAdjusted, policy, now) == Ok(out[k])
    ensures forall k :: 0 <= k < |out| ==> CarriesRow(c, CompleteRows(c, |c.timestamp|)[k], out[k], now)
  {
    hide SoundBar, NormalizeBar, CarriesRow, IsRow, CompleteRows;
    forall k | 0 <= k < |out| ensures CarriesRow(c, CompleteRows(c, |c.timestamp|)[k], out[k], now) {
      RowIsCarried(c, CompleteRows(c, |c.timestamp|)[k], bars[k], out[k], isAdjusted, policy, now);
    }
  }

  lemma NormalizedScales(bar: Bar, n: NormalizedBar, currency: string, isAdjusted: bool, policy: string, now: int)
    requires NormalizeBar(bar, currency, isAdjusted, policy, now) == Ok(n)
    ensures n.open.scale == 2 && n.high.scale == 2 && n.low.scale == 2 && n.close.scale == 2
  {
  }

  /** Client.FetchDailyBars once the response is decoded: of an accepted response, every complete row of
      the first result becomes one normalized bar, in order, unless nothing is left of the symbol. */
  method FetchDailyBars(r: Response, runId: string, now: int, upper: string -> string) returns (res: Option<Batch>)
    requires ResponseAccepted(r)
    ensures var c := r.results[0];
      && InBounds(c)
      && (res.Some? <==> CreateSecurity(c.meta.symbol, c.meta.exchangeName, c.meta.exchangeName, upper).symbol != "")
      && (res.Some? ==> exists bars ::
            && IsExtraction(c, |c.timestamp|, bars)
            && IsNormalized(res.value, bars, c.meta, now, upper)
            && |res.value.bars| == |CompleteRows(c, |c.timestamp|)| > 0
            && forall k :: 0 <= k < |bars| ==>
                 SoundBar(bars[k])
                 && NormalizeBar(bars[k], c.meta.currency, AnyAdjusted(bars), Policy(bars), now) == Ok(res.value.bars[k]))
    ensures var c := r.results[0];
      res.Some? ==> forall k :: 0 <= k < |res.value.bars| ==> CarriesRow(c, CompleteRows(c, |c.timestamp|)[k], res.value.bars[k], now)
  {
    hide SoundBar, NormalizeBar, Convertible, CreateSecurity, CarriesRow, IsRow, Converted, WindowsMatch, CompleteRows, Columns, Policy, AnyAdjusted, RowsPass, SomeComplete, AdjClosesPass;
    var c := r.results[0];
    assert Accepted(c);
    ExtractedBarsAreSound(c, []);
    var got := GetBars(r);
    var bars := got.value;
    ExtractedBarsAreSound(c, bars);
    ghost var isAdjusted := AnyAdjusted(bars);
    forall k | 0 <= k < |bars| ensures Convertible(bars[k], isAdjusted) {
      ConvertibleBarsConvert(bars[k], c.meta.currency, isAdjusted, Policy(bars), now);
    }
    ConvertedLosesNone(bars, |bars|, c.meta.currency, isAdjusted, Policy(bars), now);
    assert Convertible(bars[0], isAdjusted);
    var normalized := NormalizeBars(bars, Some(c.meta), runId, now, upper);
    if normalized.Err? { return None; }
    BatchCarriesRows(c, bars, normalized.value.bars, isAdjusted, Policy(bars), now);
    return Some(normalized.value);
  }

  /** The high, in hundredths, fits int64. */
  predicate HighFits(bar: Bar) {
    bar.high.Finite? && InRange(bar.high.value, 2)
  }

  /** Normalized bars of sound bars in time order: prices ordered when they fit int64, starts in order. */
  lemma NormalizedBatchOrdered(bars: seq<Bar>, out: seq<NormalizedBar>, currency: string, isAdjusted: bool, policy: string, now: int)
    requires |out| == |bars|
    requires forall k :: 0 <= k < |bars| ==>
               SoundBar(bars[k]) && NormalizeBar(bars[k], currency, isAdjusted, policy, now) == Ok(out[k])
    requires forall j, k :: 0 <= j < k < |bars| ==> bars[j].timestamp <= bars[k].timestamp
    ensures forall k :: 0 <= k < |out| && HighFits(bars[k]) ==>
              out[k].low.scaled <= out[k].open.scaled <= out[k].high.scaled
    ensures forall k :: 0 <= k < |out| && HighFits(bars[k]) && bars[k].adjClose.None? ==>
              out[k].low.scaled <= out[k].close.scaled <= out[k].high.scaled
    ensures forall j, k :: 0 <= j < k < |out| ==> out[j].start <= out[k].start && out[j].eventTime <= out[k].eventTime
  {
    forall k | 0 <= k < |out| && HighFits(bars[k])
      ensures out[k].low.scaled <= out[k].open.scaled <= out[k].high.scaled
      ensures bars[k].adjClose.None? ==> out[k].low.scaled <= out[k].close.scaled <= out[k].high.scaled
    {
      OneBarOrdered(bars[k], out[k], currency, isAdjusted, policy, now);
    }
    forall j, k | 0 <= j < k < |out| ensures out[j].start <= out[k].start && out[j].eventTime <= out[k].eventTime {
      StartsOrdered(bars[j], bars[k], out[j], out[k], currency, isAdjusted, policy, now);
    }
  }

  lemma OneBarOrdered(bar: Bar, n: NormalizedBar, currency: string, isAdjusted: bool, policy: string, now: int)
    requires SoundBar(bar) && NormalizeBar(bar, currency, isAdjusted, policy, now) == Ok(n)
    requires HighFits(bar)
    ensures n.low.scaled <= n.open.scaled <= n.high.scaled
    ensures bar.adjClose.None? ==> n.low.scaled <= n.close.scaled <= n.high.scaled
  {
    hide NormalizeBar, InRange;
    NormalizedPricesOrdered(bar, currency, isAdjusted, policy, now);
  }

  lemma StartsOrdered(a: Bar, b: Bar, m: NormalizedBar, n: NormalizedBar, currency: string, isAdjusted: bool, policy: string, now: int)
    requires a.timestamp <= b.timestamp
    requires NormalizeBar(a, currency, isAdjusted, policy, now) == Ok(m)
    requires NormalizeBar(b, currency, isAdjusted, policy, now) == Ok(n)
    ensures m.start <= n.start && m.eventTime <= n.eventTime
  {
    DayWindow(a.timestamp, b.timestamp);
  }
}

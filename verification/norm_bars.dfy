/** Normalization of extracted bars: security, UTC day boundaries, scaled prices. */
module NormBars {
  import opened Prelude
  import opened NormDecimal
  import opened YahooBars

  datatype Security = Security(symbol: string, mic: string)

  datatype NormalizedBar = NormalizedBar(
    start: int, end: int, open: ScaledDecimal, high: ScaledDecimal, low: ScaledDecimal, close: ScaledDecimal,
    volume: int, adjusted: bool, policy: string, currency: string, eventTime: int, ingestTime: int, asOf: int)

  datatype Batch = Batch(security: Security, bars: seq<NormalizedBar>, runId: string)

  datatype NormError = NoBars | NoMetadata | EmptySymbol | NoneConverted

  // ---- Security ----

  predicate UpperAlnum(c: char) {
    'A' <= c <= 'Z' || '0' <= c <= '9'
  }

  /** Four characters, upper-case letters or digits. */
  predicate IsMic(s: string) {
    |s| == 4 && UpperAlnum(s[0]) && UpperAlnum(s[1]) && UpperAlnum(s[2]) && UpperAlnum(s[3])
  }

  /** The exchange table: every entry is a four-character code, save the three over-the-counter ones. */
  function ExchangeToMic(name: string): (m: Option<string>)
    ensures m.Some? ==> IsMic(m.value) || m.value == "OTC"
  {
    if name == "NASDAQ" || name == "NMS" || name == "NasdaqGS" then Some("XNAS")
    else if name == "NYSE" || name == "NYQ" then Some("XNYS")
    else if name == "AMEX" then Some("XASE")
    else if name == "OTC" || name == "OTCBB" || name == "PINK" then Some("OTC")
    else if name == "BATS" then Some("BATS")
    else if name == "EDGX" then Some("EDGX")
    else if name == "EDGA" then Some("EDGA")
    else if name == "XETR" then Some("XETR")
    else if name == "XTKS" || name == "TSE" then Some("XTKS")
    else if name == "LSE" then Some("XLON")
    else if name == "ASX" then Some("XASX")
    else if name == "HKEX" then Some("XHKG")
    else if name == "SGX" then Some("XSES")
    else if name == "BSE" then Some("XBOM")
    else if name == "NSE" then Some("XNSE")
    else None
  }

  /** The table, entry by entry. */
  lemma ExchangeTable()
    ensures ExchangeToMic("NASDAQ") == ExchangeToMic("NMS") == ExchangeToMic("NasdaqGS") == Some("XNAS")
    ensures ExchangeToMic("NYSE") == ExchangeToMic("NYQ") == Some("XNYS")
    ensures ExchangeToMic("AMEX") == Some("XASE")
    ensures ExchangeToMic("OTC") == ExchangeToMic("OTCBB") == ExchangeToMic("PINK") == Some("OTC")
  {
  }

  lemma ExchangeTableVenues()
    ensures ExchangeToMic("BATS") == Some("BATS") && ExchangeToMic("EDGX") == Some("EDGX")
    ensures ExchangeToMic("EDGA") == Some("EDGA") && ExchangeToMic("XETR") == Some("XETR")
  {
  }

  lemma ExchangeTableTokyoAndLondon()
    ensures ExchangeToMic("XTKS") == ExchangeToMic("TSE") == Some("XTKS") && ExchangeToMic("LSE") == Some("XLON")
  {
  }

  lemma ExchangeTablePacific()
    ensures ExchangeToMic("ASX") == Some("XASX") && ExchangeToMic("HKEX") == Some("XHKG") && ExchangeToMic("SGX") == Some("XSES")
  {
  }

  lemma ExchangeTableIndia()
    ensures ExchangeToMic("BSE") == Some("XBOM") && ExchangeToMic("NSE") == Some("XNSE")
  {
  }

  lemma ExchangeTableIsWhole(name: string)
    ensures ExchangeToMic(name).Some?
       <==> name in ["NASDAQ", "NMS", "NasdaqGS", "NYSE", "NYQ", "AMEX", "OTC", "OTCBB", "PINK", "BATS", "EDGX",
                     "EDGA", "XETR", "XTKS", "TSE", "LSE", "ASX", "HKEX", "SGX", "BSE", "NSE"]
  {
  }

  /** The four lookups, in their order of precedence; `upper` stands for strings.ToUpper. */
  function Lookups(exchangeName: string, fullExchangeName: string, upper: string -> string): (ls: seq<Option<string>>)
    ensures |ls| == 4
    ensures forall k :: 0 <= k < 4 && ls[k].Some? ==> IsMic(ls[k].value) || ls[k].value == "OTC"
  {
    [ExchangeToMic(fullExchangeName), ExchangeToMic(exchangeName),
     ExchangeToMic(upper(exchangeName)), ExchangeToMic(upper(fullExchangeName))]
  }

  /** The first lookup that finds something, or the empty string. */
  function InferMic(exchangeName: string, fullExchangeName: string, upper: string -> string): (mic: string)
    ensures mic == "" || IsMic(mic) || mic == "OTC"
  {
    var found := Lookups(exchangeName, fullExchangeName, upper);
    if found[0].Some? then found[0].value
    else if found[1].Some? then found[1].value
    else if found[2].Some? then found[2].value
    else if found[3].Some? then found[3].value
    else ""
  }

  /** The full exchange name is looked up before the short one, and both as written before either in upper
      case; the first lookup that finds something wins, and the code is empty exactly when none does. */
  lemma FirstLookupWins(exchangeName: string, fullExchangeName: string, upper: string -> string, k: nat)
    ensures
      var found := [ExchangeToMic(fullExchangeName), ExchangeToMic(exchangeName),
                    ExchangeToMic(upper(exchangeName)), ExchangeToMic(upper(fullExchangeName))];
      var mic := InferMic(exchangeName, fullExchangeName, upper);
      && (k < 4 && found[k].Some? && (forall j :: 0 <= j < k ==> found[j].None?) ==> found[k] == Some(mic))
      && (mic == "" <==> forall j :: 0 <= j < 4 ==> found[j].None?)
  {
    hide ExchangeToMic;
  }

  function CleanSymbol(symbol: string, mic: string): (c: string)
    ensures if mic == "XTKS" && |symbol| >= 2 && symbol[|symbol| - 2..] == ".T" then symbol == c + ".T" else c == symbol
  {
    if mic == "XTKS" && |symbol| >= 2 && symbol[|symbol| - 2..] == ".T" then symbol[..|symbol| - 2] else symbol
  }

  function CreateSecurity(symbol: string, exchangeName: string, fullExchangeName: string, upper: string -> string): Security {
    var mic := InferMic(exchangeName, fullExchangeName, upper);
    Security(CleanSymbol(symbol, mic), mic)
  }

  /** The symbol loses one ".T" in Tokyo, and nothing elsewhere. */
  lemma SecurityCreated(symbol: string, exchangeName: string, fullExchangeName: string, upper: string -> string)
    ensures var s := CreateSecurity(symbol, exchangeName, fullExchangeName, upper);
      && s.mic == InferMic(exchangeName, fullExchangeName, upper)
      && (s.mic == "XTKS" && (exists stem :: symbol == stem + ".T") ==> symbol == s.symbol + ".T")
      && (s.mic != "XTKS" || !(exists stem :: symbol == stem + ".T") ==> symbol == s.symbol)
  {
    hide InferMic;
  }

  // ---- Time ----

  const DAY: int := 86400

  /** Start, end and event time of the bar for a Unix timestamp: the UTC day two days before it. */
  function ToUTCDayBoundaries(timestamp: int): (int, int, int) {
    var tradingDay := timestamp - 2 * DAY;
    var start := tradingDay / DAY * DAY;
    (start, start + DAY, start + DAY)
  }

  /** The window is a whole UTC day that holds the instant two days before the timestamp, so the event
      time lies at least a day before it; later timestamps get no earlier windows, and two timestamps
      share a window exactly when they share a UTC day. */
  lemma DayWindow(t: int, u: int)
    ensures var (start, end, event) := ToUTCDayBoundaries(t);
      start % DAY == 0 && end == start + DAY && event == end && start <= t - 2 * DAY < end && event + DAY <= t
    ensures t <= u ==> ToUTCDayBoundaries(t).0 <= ToUTCDayBoundaries(u).0
    ensures ToUTCDayBoundaries(t) == ToUTCDayBoundaries(u) <==> t / DAY == u / DAY
  {
  }

  // ---- One bar ----

  function GetScaleForCurrency(currency: string): nat {
    if currency == "JPY" then 2
    else if currency in ["USD", "EUR", "GBP", "CAD", "AUD", "CHF", "NZD"] then 2
    else 2
  }

  function ToScaledDecimalWithCurrency(price: Price, currency: string): Result<ScaledDecimal, DecimalError> {
    ToScaledDecimal(price, GetScaleForCurrency(currency))
  }

  /** The close that goes into the normalized bar. */
  function UsedClose(bar: Bar, isAdjusted: bool): Price {
    if isAdjusted && bar.adjClose.Some? then bar.adjClose.value else bar.close
  }

  function NormalizeBar(bar: Bar, currency: string, isAdjusted: bool, policy: string, now: int): Result<NormalizedBar, DecimalError> {
    var (start, end, event) := ToUTCDayBoundaries(bar.timestamp);
    var open := ToScaledDecimalWithCurrency(bar.open, currency);
    if open.Err? then Err(open.error) else
    var high := ToScaledDecimalWithCurrency(bar.high, currency);
    if high.Err? then Err(high.error) else
    var low := ToScaledDecimalWithCurrency(bar.low, currency);
    if low.Err? then Err(low.error) else
    var close := ToScaledDecimalWithCurrency(UsedClose(bar, isAdjusted), currency);
    if close.Err? then Err(close.error) else
    Ok(NormalizedBar(start, end, open.value, high.value, low.value, close.value, bar.volume, isAdjusted, policy,
                     currency, event, now, event))
  }

  predicate Convertible(bar: Bar, isAdjusted: bool) {
    bar.open.Finite? && bar.high.Finite? && bar.low.Finite? && UsedClose(bar, isAdjusted).Finite?
  }

  lemma ConvertibleBarsConvert(bar: Bar, currency: string, isAdjusted: bool, policy: string, now: int)
    ensures NormalizeBar(bar, currency, isAdjusted, policy, now).Ok? <==> Convertible(bar, isAdjusted)
    ensures SoundBar(bar) ==> Convertible(bar, isAdjusted)
  {
  }

  /** The price in hundredths, as converted. */
  function Hundredths(x: real): int {
    ToScaledDecimal(Finite(x), 2).value.scaled
  }

  /** The window of a normalized bar is the UTC day that holds the instant two days before that bar's own
      timestamp; event and as-of time are its end, and the ingest time is the time of the call. */
  lemma NormalizedWindow(bar: Bar, n: NormalizedBar, currency: string, isAdjusted: bool, policy: string, now: int)
    requires NormalizeBar(bar, currency, isAdjusted, policy, now) == Ok(n)
    ensures n.start % 86400 == 0 && n.end == n.start + 86400 && n.start <= bar.timestamp - 2 * 86400 < n.end
    ensures n.eventTime == n.end && n.asOf == n.end && n.ingestTime == now
    ensures n.volume == bar.volume && n.currency == currency && n.adjusted == isAdjusted && n.policy == policy
  {
    hide ToScaledDecimalWithCurrency;
    DayWindow(bar.timestamp, bar.timestamp);
  }

  /** Low <= Open <= High survives the conversion of a sound bar if and only if the high fits int64 or
      not even the low does. When the high fits, the close lies between the converted low and high if
      and only if the close used is, in hundredths, within half of that range. */
  lemma NormalizedPricesOrdered(bar: Bar, currency: string, isAdjusted: bool, policy: string, now: int)
    requires SoundBar(bar)
    ensures NormalizeBar(bar, currency, isAdjusted, policy, now).Ok?
    ensures var n := NormalizeBar(bar, currency, isAdjusted, policy, now).value;
      && (n.low.scaled <= n.open.scaled <= n.high.scaled <==> InRange(bar.high.value, 2) || !InRange(bar.low.value, 2))
      && (InRange(bar.high.value, 2) ==>
            (n.low.scaled <= n.close.scaled <= n.high.scaled
             <==> Hundredths(bar.low.value) as real - 0.5 <= UsedClose(bar, isAdjusted).value * 100.0
                  < Hundredths(bar.high.value) as real + 0.5))
      && (!InRange(bar.high.value, 2) ==>
            (n.low.scaled <= n.close.scaled <= n.high.scaled
             <==> !InRange(bar.low.value, 2) && !InRange(UsedClose(bar, isAdjusted).value, 2)))
      && (InRange(bar.high.value, 2) && bar.low.value <= UsedClose(bar, isAdjusted).value <= bar.high.value ==>
            n.low.scaled <= n.close.scaled <= n.high.scaled)
  {
    hide InRange, AsInt64, Round, Shift;
    var low, open, high := bar.low.value, bar.open.value, bar.high.value;
    var close := UsedClose(bar, isAdjusted).value;
    ConversionKeepsOrder(low, open, 2);
    ConversionKeepsOrder(open, high, 2);
    ConversionKeepsOrder(low, high, 2);
    CloseBetween(low, high, close);
    if low <= close <= high {
      ConversionKeepsOrder(low, close, 2);
      ConversionKeepsOrder(close, high, 2);
    }
  }

  /** Where a third price ends up, relative to a converted pair. */
  lemma CloseBetween(low: real, high: real, close: real)
    requires 0.0 <= low <= high && 0.0 <= close
    ensures InRange(high, 2) ==>
              (Hundredths(low) <= Hundredths(close) <= Hundredths(high)
               <==> Hundredths(low) as real - 0.5 <= close * 100.0 < Hundredths(high) as real + 0.5)
    ensures !InRange(high, 2) ==>
              (Hundredths(low) <= Hundredths(close) <= Hundredths(high) <==> !InRange(low, 2) && !InRange(close, 2))
  {
    hide Round, Shift;
    ConversionKeepsOrder(low, high, 2);
    HundredthsOf(low);
    HundredthsOf(high);
    HundredthsOf(close);
    RoundBetween(close * 100.0, Round(low * 100.0), Round(high * 100.0));
  }

  lemma HundredthsOf(x: real)
    requires x >= 0.0
    ensures Shift(x, 2) == x * 100.0 && Round(x * 100.0) >= 0
  {
    assert Pow10(2) == 100;
  }

  lemma RoundBetween(x: real, lo: int, hi: int)
    requires x >= 0.0
    ensures lo <= Round(x) <==> lo as real - 0.5 <= x
    ensures Round(x) <= hi <==> x < hi as real + 0.5
  {
  }

  ghost predicate NearHundredths(scaled: int, x: real) {
    -0.5 <= scaled as real - x * 100.0 <= 0.5
  }

  /** Every price of a sound bar whose high fits is carried over to the nearest hundredth, and the close
      is the adjusted one exactly when the batch is adjusted and the bar has one. */
  lemma NormalizedPricesNear(bar: Bar, currency: string, isAdjusted: bool, policy: string, now: int)
    requires SoundBar(bar) && InRange(bar.high.value, 2)
    ensures NormalizeBar(bar, currency, isAdjusted, policy, now).Ok?
    ensures var n := NormalizeBar(bar, currency, isAdjusted, policy, now).value;
      && NearHundredths(n.low.scaled, bar.low.value) && NearHundredths(n.open.scaled, bar.open.value)
      && NearHundredths(n.high.scaled, bar.high.value) && n.volume == bar.volume
      && (bar.adjClose.None? || !isAdjusted ==> NearHundredths(n.close.scaled, bar.close.value))
      && (bar.adjClose.Some? && isAdjusted && InRange(bar.adjClose.value.value, 2) ==>
            NearHundredths(n.close.scaled, bar.adjClose.value.value))
  {
    hide InRange, Round;
    var low, open, high := bar.low.value, bar.open.value, bar.high.value;
    var close := UsedClose(bar, isAdjusted).value;
    assert Pow10(2) == 100;
    ConversionKeepsOrder(low, open, 2);
    ConversionKeepsOrder(open, high, 2);
    ConversionWithinHalf(low, 2);
    ConversionWithinHalf(open, 2);
    ConversionWithinHalf(high, 2);
    if bar.adjClose.None? || !isAdjusted {
      ConversionKeepsOrder(close, high, 2);
    }
    if InRange(close, 2) {
      ConversionWithinHalf(close, 2);
    }
  }

  /** Validation never compares the adjusted close with the other prices: it may end up below the low. */
  lemma AdjustedCloseMayLeaveTheRange()
    ensures var bar := Bar(0, Finite(10.0), Finite(12.0), Finite(9.0), Finite(11.0), 100, Some(Finite(5.0)));
      && SoundBar(bar)
      && NormalizeBar(bar, "USD", true, "split_dividend", 0).Ok?
      && var n := NormalizeBar(bar, "USD", true, "split_dividend", 0).value;
         n.close.scaled == 500 && n.low.scaled == 900 && n.high.scaled == 1200
  {
    assert Pow10(2) == 100;
  }

  // ---- The batch ----

  ghost predicate AnyAdjusted(bars: seq<Bar>) {
    exists k :: 0 <= k < |bars| && bars[k].adjClose.Some?
  }

  ghost function Policy(bars: seq<Bar>): string {
    if AnyAdjusted(bars) then "split_dividend" else "raw"
  }

  /** The conversions of the first n bars that convert, in order. */
  function Converted(bars: seq<Bar>, n: nat, currency: string, isAdjusted: bool, policy: string, now: int): seq<NormalizedBar>
    requires n <= |bars|
  {
    if n == 0 then []
    else
      var before := Converted(bars, n - 1, currency, isAdjusted, policy, now);
      var one := NormalizeBar(bars[n - 1], currency, isAdjusted, policy, now);
      if one.Ok? then before + [one.value] else before
  }

  /** Every bar of the batch carries the batch-wide settings and a window computed from some timestamp. */
  ghost predicate WellFormed(n: NormalizedBar, currency: string, isAdjusted: bool, policy: string) {
    && n.end == n.start + DAY && n.eventTime == n.end && n.asOf == n.end && n.start % DAY == 0
    && n.adjusted == isAdjusted && n.policy == policy && n.currency == currency
    && n.open.scale == n.high.scale == n.low.scale == n.close.scale == 2
  }

  lemma {:induction false} ConvertedAreWellFormed(bars: seq<Bar>, n: nat, currency: string, isAdjusted: bool, policy: string, now: int)
    requires n <= |bars|
    ensures forall k :: 0 <= k < |Converted(bars, n, currency, isAdjusted, policy, now)| ==>
              WellFormed(Converted(bars, n, currency, isAdjusted, policy, now)[k], currency, isAdjusted, policy)
    ensures |Converted(bars, n, currency, isAdjusted, policy, now)| > 0 <==>
              exists k :: 0 <= k < n && Convertible(bars[k], isAdjusted)
  {
    if n > 0 {
      ConvertedAreWellFormed(bars, n - 1, currency, isAdjusted, policy, now);
      ConvertibleBarsConvert(bars[n - 1], currency, isAdjusted, policy, now);
    }
  }

  /** When every bar converts none is lost: the k-th result is the k-th bar's. */
  lemma {:induction false} ConvertedLosesNone(bars: seq<Bar>, n: nat, currency: string, isAdjusted: bool, policy: string, now: int)
    requires n <= |bars|
    requires forall k :: 0 <= k < n ==> Convertible(bars[k], isAdjusted)
    ensures var out := Converted(bars, n, currency, isAdjusted, policy, now);
      && |out| == n
      && forall k :: 0 <= k < n ==>
           NormalizeBar(bars[k], currency, isAdjusted, policy, now) == Ok(out[k])
  {
    hide NormalizeBar, Convertible;
    if n > 0 {
      ConvertedLosesNone(bars, n - 1, currency, isAdjusted, policy, now);
      ConvertibleBarsConvert(bars[n - 1], currency, isAdjusted, policy, now);
    }
  }

  /** The indices of the bars that convert, among the first n, in order. */
  function ConvertingRows(bars: seq<Bar>, n: nat, isAdjusted: bool): (js: seq<nat>)
    requires n <= |bars|
    ensures forall k :: 0 <= k < |js| ==> js[k] < n
  {
    if n == 0 then []
    else
      var before := ConvertingRows(bars, n - 1, isAdjusted);
      if Convertible(bars[n - 1], isAdjusted) then before + [n - 1] else before
  }

  /** The rows listed are exactly those that convert, each once, in ascending order. */
  lemma {:induction false} ConvertingRowsListsThemAll(bars: seq<Bar>, n: nat, isAdjusted: bool)
    requires n <= |bars|
    ensures var js := ConvertingRows(bars, n, isAdjusted);
      && (forall j, k :: 0 <= j < k < |js| ==> js[j] < js[k])
      && (forall i: nat :: i in js <==> i < n && Convertible(bars[i], isAdjusted))
  {
    hide Convertible;
    if n > 0 {
      ConvertingRowsListsThemAll(bars, n - 1, isAdjusted);
    }
  }

  /** The k-th result is the conversion of the k-th bar that converts. */
  lemma {:induction false} ConvertedAreTheConvertible(bars: seq<Bar>, n: nat, currency: string, isAdjusted: bool, policy: string, now: int)
    requires n <= |bars|
    ensures var out, js := Converted(bars, n, currency, isAdjusted, policy, now), ConvertingRows(bars, n, isAdjusted);
      |out| == |js| && forall k :: 0 <= k < |js| ==> NormalizeBar(bars[js[k]], currency, isAdjusted, policy, now) == Ok(out[k])
  {
    hide NormalizeBar, Convertible;
    if n > 0 {
      ConvertedAreTheConvertible(bars, n - 1, currency, isAdjusted, policy, now);
      ConvertibleBarsConvert(bars[n - 1], currency, isAdjusted, policy, now);
    }
  }

  /** Each result belongs to the bar at the same place among those that convert: its window is the UTC
      day that holds the instant two days before that bar's timestamp, its volume that bar's. */
  ghost predicate WindowsMatch(bars: seq<Bar>, out: seq<NormalizedBar>, isAdjusted: bool, now: int) {
    var js := ConvertingRows(bars, |bars|, isAdjusted);
    |out| == |js| && forall k :: 0 <= k < |js| ==>
      && out[k].start % 86400 == 0 && out[k].end == out[k].start + 86400
      && out[k].start <= bars[js[k]].timestamp - 2 * 86400 < out[k].end
      && out[k].eventTime == out[k].end && out[k].asOf == out[k].end && out[k].ingestTime == now
      && out[k].volume == bars[js[k]].volume
  }

  lemma ConvertedWindows(bars: seq<Bar>, currency: string, isAdjusted: bool, policy: string, now: int)
    ensures WindowsMatch(bars, Converted(bars, |bars|, currency, isAdjusted, policy, now), isAdjusted, now)
  {
    hide NormalizeBar, Convertible, Converted, ConvertingRows;
    ConvertedAreTheConvertible(bars, |bars|, currency, isAdjusted, policy, now);
    var out, js := Converted(bars, |bars|, currency, isAdjusted, policy, now), ConvertingRows(bars, |bars|, isAdjusted);
    forall k | 0 <= k < |js|
      ensures out[k].start % 86400 == 0 && out[k].end == out[k].start + 86400
      ensures out[k].start <= bars[js[k]].timestamp - 2 * 86400 < out[k].end
      ensures out[k].eventTime == out[k].end && out[k].asOf == out[k].end && out[k].ingestTime == now
      ensures out[k].volume == bars[js[k]].volume
    {
      NormalizedWindow(bars[js[k]], out[k], currency, isAdjusted, policy, now);
    }
  }

  /** NormalizeBars: succeeds exactly when there is a bar that converts, metadata, and a symbol left
      after cleaning; the whole batch is labelled adjusted as soon as one bar has an adjusted close. */
  method NormalizeBars(bars: seq<Bar>, meta: Option<ChartMeta>, runId: string, now: int, upper: string -> string)
    returns (res: Result<Batch, NormError>)
    ensures res.Ok? <==>
      && meta.Some? && CreateSecurity(meta.value.symbol, meta.value.exchangeName, meta.value.exchangeName, upper).symbol != ""
      && exists k :: 0 <= k < |bars| && Convertible(bars[k], AnyAdjusted(bars))
    ensures res.Ok? ==>
      && res.value.security == CreateSecurity(meta.value.symbol, meta.value.exchangeName, meta.value.exchangeName, upper)
      && res.value.bars == Converted(bars, |bars|, meta.value.currency, AnyAdjusted(bars), Policy(bars), now)
      && res.value.runId == runId
    ensures res.Ok? ==> WindowsMatch(bars, res.value.bars, AnyAdjusted(bars), now)
    ensures res == Err(NoBars) <==> bars == []
  {
    hide NormalizeBar, Convertible, CleanSymbol, InferMic, WindowsMatch;
    if |bars| == 0 { return Err(NoBars); }
    if meta.None? { return Err(NoMetadata); }
    var m := meta.value;
    var security := CreateSecurity(m.symbol, m.exchangeName, m.exchangeName, upper);
    if security.symbol == "" { return Err(EmptySymbol); }
    var isAdjusted, policy := FindAdjusted(bars);
    var out: seq<NormalizedBar> := [];
    var i := 0;
    while i < |bars|
      invariant 0 <= i <= |bars|
      invariant out == Converted(bars, i, m.currency, isAdjusted, policy, now)
    {
      var one := NormalizeBar(bars[i], m.currency, isAdjusted, policy, now);
      if one.Ok? {
        out := out + [one.value];
      }
      i := i + 1;
    }
    ConvertedAreWellFormed(bars, |bars|, m.currency, isAdjusted, policy, now);
    ConvertedWindows(bars, m.currency, isAdjusted, policy, now);
    if |out| == 0 { return Err(NoneConverted); }
    return Ok(Batch(security, out, runId));
  }

  method FindAdjusted(bars: seq<Bar>) returns (isAdjusted: bool, policy: string)
    ensures isAdjusted == AnyAdjusted(bars) && policy == Policy(bars)
  {
    isAdjusted, policy := false, "raw";
    var i := 0;
    while i < |bars|
      invariant 0 <= i <= |bars| && !isAdjusted && policy == "raw"
      invariant forall k :: 0 <= k < i ==> bars[k].adjClose.None?
    {
      if bars[i].adjClose.Some? {
        isAdjusted, policy := true, "split_dividend";
        assert AnyAdjusted(bars);
        return;
      }
      i := i + 1;
    }
  }
}

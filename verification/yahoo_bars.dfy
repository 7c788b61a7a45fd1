/** Chart responses: strict validation, and the extraction of the complete rows. */
module YahooBars {
  import opened Prelude
  import opened NormDecimal

  datatype ChartMeta = ChartMeta(currency: string, symbol: string, exchangeName: string)

  /** Five columns; a missing cell is None. */
  datatype Quote = Quote(
    open: seq<Option<Price>>, high: seq<Option<Price>>, low: seq<Option<Price>>, close: seq<Option<Price>>,
    volume: seq<Option<int>>)

  datatype ChartResult = ChartResult(
    meta: ChartMeta, timestamp: seq<int>, quote: seq<Quote>, adjClose: seq<seq<Option<Price>>>)

  datatype Response = Response(error: Option<string>, results: seq<ChartResult>)

  datatype Bar = Bar(
    timestamp: int, open: Price, high: Price, low: Price, close: Price, volume: int, adjClose: Option<Price>)

  datatype BarError =
    | MissingOpen | MissingHigh | MissingLow | MissingClose | MissingVolume
    | InvalidOpen | InvalidHigh | InvalidLow | InvalidClose | NegativeVolume
    | HighBelowLow | HighBelowOpen | HighBelowClose | LowAboveOpen | LowAboveClose

  datatype ChartError =
    | MissingSymbol | MissingCurrency | NoTimestamps | NoQuote | LengthMismatch | NoValidBars | AdjCloseLengthMismatch
    | BadBar(row: nat, cause: BarError)
    | BadAdjClose(row: nat)

  datatype ResponseError = YahooError(message: string) | NoResults | InResult(index: nat, cause: ChartError)

  // ---- One row ----

  /** validatePrice: a finite number that is not negative. */
  predicate ValidPrice(p: Price) {
    p.Finite? && p.value >= 0.0
  }

  /** What validation promises of a bar: real prices, the open and the close between low and high. */
  predicate SoundBar(b: Bar) {
    && b.open.Finite? && b.high.Finite? && b.low.Finite? && b.close.Finite?
    && 0.0 <= b.low.value <= b.open.value <= b.high.value
    && b.low.value <= b.close.value <= b.high.value
    && b.volume >= 0
    && (b.adjClose.Some? ==> ValidPrice(b.adjClose.value))
  }

  predicate Below(p: Option<Price>, q: Option<Price>) {
    p.Some? && q.Some? && p.value.Finite? && q.value.Finite? && p.value.value < q.value.value
  }

  predicate Unpriced(p: Option<Price>) {
    p.Some? && (p.value.NaN? || p.value.Infinite? || p.value.value < 0.0)
  }

  /** What a refusal blames is so. */
  predicate FaultHolds(e: BarError,
    open: Option<Price>, high: Option<Price>, low: Option<Price>, close: Option<Price>, volume: Option<int>)
  {
    match e
    case MissingOpen => open.None?
    case MissingHigh => high.None?
    case MissingLow => low.None?
    case MissingClose => close.None?
    case MissingVolume => volume.None?
    case InvalidOpen => Unpriced(open)
    case InvalidHigh => Unpriced(high)
    case InvalidLow => Unpriced(low)
    case InvalidClose => Unpriced(close)
    case NegativeVolume => volume.Some? && volume.value < 0
    case HighBelowLow => Below(high, low)
    case HighBelowOpen => Below(high, open)
    case HighBelowClose => Below(high, close)
    case LowAboveOpen => Below(open, low)
    case LowAboveClose => Below(close, low)
  }

  function ValidateBarData(
    open: Option<Price>, high: Option<Price>, low: Option<Price>, close: Option<Price>, volume: Option<int>): (e: Option<BarError>)
    ensures e.None? <==>
      && open.Some? && high.Some? && low.Some? && close.Some? && volume.Some?
      && SoundBar(Bar(0, open.value, high.value, low.value, close.value, volume.value, None))
    ensures e.Some? ==> FaultHolds(e.value, open, high, low, close, volume)
  {
    if open.None? then Some(MissingOpen)
    else if high.None? then Some(MissingHigh)
    else if low.None? then Some(MissingLow)
    else if close.None? then Some(MissingClose)
    else if volume.None? then Some(MissingVolume)
    else if !ValidPrice(open.value) then Some(InvalidOpen)
    else if !ValidPrice(high.value) then Some(InvalidHigh)
    else if !ValidPrice(low.value) then Some(InvalidLow)
    else if !ValidPrice(close.value) then Some(InvalidClose)
    else if volume.value < 0 then Some(NegativeVolume)
    else
      var o, h, l, c := open.value.value, high.value.value, low.value.value, close.value.value;
      if h < l then Some(HighBelowLow)
      else if h < o then Some(HighBelowOpen)
      else if h < c then Some(HighBelowClose)
      else if l > o then Some(LowAboveOpen)
      else if l > c then Some(LowAboveClose)
      else None
  }

  // ---- Rows of a chart ----

  predicate Columns(c: ChartResult) {
    && |c.quote| > 0
    && |c.quote[0].open| == |c.timestamp| && |c.quote[0].high| == |c.timestamp| && |c.quote[0].low| == |c.timestamp|
    && |c.quote[0].close| == |c.timestamp| && |c.quote[0].volume| == |c.timestamp|
  }

  /** What GetBars indexes is there. */
  predicate InBounds(c: ChartResult) {
    && |c.quote| > 0
    && |c.quote[0].open| >= |c.timestamp| && |c.quote[0].high| >= |c.timestamp| && |c.quote[0].low| >= |c.timestamp|
    && |c.quote[0].close| >= |c.timestamp| && |c.quote[0].volume| >= |c.timestamp|
    && (|c.adjClose| > 0 ==> |c.adjClose[0]| >= |c.timestamp|)
  }

  predicate Complete(q: Quote, i: nat)
    requires i < |q.open| && i < |q.high| && i < |q.low| && i < |q.close| && i < |q.volume|
  {
    q.open[i].Some? && q.high[i].Some? && q.low[i].Some? && q.close[i].Some? && q.volume[i].Some?
  }

  function RowError(q: Quote, i: nat): Option<BarError>
    requires i < |q.open| && i < |q.high| && i < |q.low| && i < |q.close| && i < |q.volume|
  {
    ValidateBarData(q.open[i], q.high[i], q.low[i], q.close[i], q.volume[i])
  }

  predicate RowPasses(c: ChartResult, i: nat)
    requires Columns(c) && i < |c.timestamp|
  {
    Complete(c.quote[0], i) ==> RowError(c.quote[0], i).None?
  }

  predicate AdjClosePasses(c: ChartResult, i: nat)
    requires |c.adjClose| > 0 && i < |c.adjClose[0]|
  {
    c.adjClose[0][i].Some? ==> ValidPrice(c.adjClose[0][i].value)
  }

  ghost predicate RowsPass(c: ChartResult)
    requires Columns(c)
  {
    forall i :: 0 <= i < |c.timestamp| ==> RowPasses(c, i)
  }

  ghost predicate SomeComplete(c: ChartResult)
    requires Columns(c)
  {
    exists i :: 0 <= i < |c.timestamp| && Complete(c.quote[0], i)
  }

  ghost predicate AdjClosesPass(c: ChartResult) {
    |c.adjClose| > 0 ==>
      |c.adjClose[0]| == |c.timestamp| && forall i :: 0 <= i < |c.timestamp| ==> AdjClosePasses(c, i)
  }

  ghost predicate Accepted(c: ChartResult) {
    && c.meta.symbol != "" && c.meta.currency != ""
    && Columns(c) && RowsPass(c) && SomeComplete(c) && AdjClosesPass(c)
  }

  // ---- Validation ----

  /** The refusals decided before any row is looked at. */
  function HeaderError(c: ChartResult): (e: Option<ChartError>)
    ensures e.None? <==> c.meta.symbol != "" && c.meta.currency != "" && |c.timestamp| > 0 && Columns(c)
    ensures e == Some(MissingSymbol) <==> c.meta.symbol == ""
    ensures e == Some(MissingCurrency) <==> c.meta.symbol != "" && c.meta.currency == ""
    ensures e == Some(NoTimestamps) ==> |c.timestamp| == 0
    ensures e == Some(NoQuote) ==> |c.quote| == 0
    ensures e == Some(LengthMismatch) ==> |c.quote| > 0 && !Columns(c)
  {
    if c.meta.symbol == "" then Some(MissingSymbol)
    else if c.meta.currency == "" then Some(MissingCurrency)
    else if |c.timestamp| == 0 then Some(NoTimestamps)
    else if |c.quote| == 0 then Some(NoQuote)
    else if !Columns(c) then Some(LengthMismatch)
    else None
  }

  /** ChartResult.Validate passes exactly the accepted charts, and blames the first offending row. */
  method ValidateChart(c: ChartResult) returns (err: Option<ChartError>)
    ensures err.None? <==> Accepted(c)
    ensures HeaderError(c).Some? ==> err == HeaderError(c)
    ensures err == Some(NoValidBars) <==> HeaderError(c).None? && RowsPass(c) && !SomeComplete(c)
    ensures err.Some? && err.value.BadBar? ==> var i := err.value.row;
      && Columns(c) && i < |c.timestamp| && Complete(c.quote[0], i) && RowError(c.quote[0], i) == Some(err.value.cause)
      && forall k :: 0 <= k < i ==> RowPasses(c, k)
    ensures err.Some? && err.value.BadAdjClose? ==> var i := err.value.row;
      && |c.adjClose| > 0 && |c.adjClose[0]| == |c.timestamp| && i < |c.timestamp|
      && !AdjClosePasses(c, i) && forall k :: 0 <= k < i ==> AdjClosePasses(c, k)
  {
    hide ValidateBarData, ValidPrice;
    if c.meta.symbol == "" { return Some(MissingSymbol); }
    if c.meta.currency == "" { return Some(MissingCurrency); }
    if |c.timestamp| == 0 { return Some(NoTimestamps); }
    if |c.quote| == 0 { return Some(NoQuote); }
    var quote, expectedLen := c.quote[0], |c.timestamp|;
    if |quote.open| != expectedLen || |quote.high| != expectedLen || |quote.low| != expectedLen
       || |quote.close| != expectedLen || |quote.volume| != expectedLen {
      return Some(LengthMismatch);
    }
    var validBars, i := 0, 0;
    while i < expectedLen
      invariant 0 <= i <= expectedLen && validBars >= 0
      invariant forall k :: 0 <= k < i ==> RowPasses(c, k)
      invariant validBars > 0 <==> exists k :: 0 <= k < i && Complete(quote, k)
    {
      if quote.open[i].Some? && quote.high[i].Some? && quote.low[i].Some? && quote.close[i].Some? && quote.volume[i].Some? {
        var e := ValidateBarData(quote.open[i], quote.high[i], quote.low[i], quote.close[i], quote.volume[i]);
        if e.Some? {
          assert !RowPasses(c, i);
          return Some(BadBar(i, e.value));
        }
        validBars := validBars + 1;
        assert Complete(quote, i);
      }
      i := i + 1;
    }
    if validBars == 0 {
      return Some(NoValidBars);
    }
    err := ValidateAdjClose(c);
  }

  method ValidateAdjClose(c: ChartResult) returns (err: Option<ChartError>)
    ensures err.None? <==> AdjClosesPass(c)
    ensures err.Some? ==> err.value.AdjCloseLengthMismatch? || err.value.BadAdjClose?
    ensures err == Some(AdjCloseLengthMismatch) <==> |c.adjClose| > 0 && |c.adjClose[0]| != |c.timestamp|
    ensures err.Some? && err.value.BadAdjClose? ==> var i := err.value.row;
      && |c.adjClose| > 0 && |c.adjClose[0]| == |c.timestamp| && i < |c.timestamp|
      && !AdjClosePasses(c, i) && forall k :: 0 <= k < i ==> AdjClosePasses(c, k)
  {
    if |c.adjClose| > 0 {
      var adjClose := c.adjClose[0];
      if |adjClose| != |c.timestamp| {
        return Some(AdjCloseLengthMismatch);
      }
      var i := 0;
      while i < |c.timestamp|
        invariant 0 <= i <= |c.timestamp|
        invariant forall k :: 0 <= k < i ==> AdjClosePasses(c, k)
      {
        if adjClose[i].Some? && !ValidPrice(adjClose[i].value) {
          assert !AdjClosePasses(c, i);
          return Some(BadAdjClose(i));
        }
        i := i + 1;
      }
    }
    return None;
  }

  ghost predicate ResponseAccepted(r: Response) {
    r.error.None? && |r.results| > 0 && forall k :: 0 <= k < |r.results| ==> Accepted(r.results[k])
  }

  /** BarsResponse.Validate passes exactly the responses all of whose results are accepted, and blames
      the first one that is not. */
  method Validate(r: Response) returns (err: Option<ResponseError>)
    ensures err.None? <==> ResponseAccepted(r)
    ensures err.Some? && err.value.InResult? ==> var i := err.value.index;
      i < |r.results| && !Accepted(r.results[i]) && forall k :: 0 <= k < i ==> Accepted(r.results[k])
  {
    hide Accepted;
    if r.error.Some? { return Some(YahooError(r.error.value)); }
    if |r.results| == 0 { return Some(NoResults); }
    var i := 0;
    while i < |r.results|
      invariant 0 <= i <= |r.results|
      invariant forall k :: 0 <= k < i ==> Accepted(r.results[k])
    {
      var e := ValidateChart(r.results[i]);
      if e.Some? {
        return Some(InResult(i, e.value));
      }
      i := i + 1;
    }
    return None;
  }

  // ---- Extraction ----

  /** The indices of the complete rows among the first n, in order. */
  function CompleteRows(c: ChartResult, n: nat): (rows: seq<nat>)
    requires InBounds(c) && n <= |c.timestamp|
    ensures forall k :: 0 <= k < |rows| ==> rows[k] < n
  {
    if n == 0 then []
    else if Complete(c.quote[0], n - 1) then CompleteRows(c, n - 1) + [n - 1]
    else CompleteRows(c, n - 1)
  }

  /** The rows listed are exactly the complete ones, each once, in ascending order. */
  lemma {:induction false} CompleteRowsListsThemAll(c: ChartResult, n: nat)
    requires InBounds(c) && n <= |c.timestamp|
    ensures var rows := CompleteRows(c, n);
      && (forall j, k :: 0 <= j < k < |rows| ==> rows[j] < rows[k])
      && (forall i: nat :: i in rows <==> i < n && Complete(c.quote[0], i))
      && (forall i: nat :: i in rows <==>
            var q := c.quote[0];
            i < n && q.open[i] != None && q.high[i] != None && q.low[i] != None && q.close[i] != None && q.volume[i] != None)
  {
    if n > 0 {
      CompleteRowsListsThemAll(c, n - 1);
    }
  }

  /** The bar is row i of the columns, with the cell of the first adjusted column if there is one. */
  ghost predicate IsRow(c: ChartResult, i: nat, bar: Bar)
    requires InBounds(c) && i < |c.timestamp|
  {
    var q := c.quote[0];
    && bar.timestamp == c.timestamp[i]
    && q.open[i] == Some(bar.open) && q.high[i] == Some(bar.high) && q.low[i] == Some(bar.low)
    && q.close[i] == Some(bar.close) && q.volume[i] == Some(bar.volume)
    && bar.adjClose == if |c.adjClose| > 0 then c.adjClose[0][i] else None
  }

  /** The k-th bar is the k-th complete row. */
  ghost predicate IsExtraction(c: ChartResult, n: nat, bars: seq<Bar>)
    requires InBounds(c) && n <= |c.timestamp|
  {
    && |bars| == |CompleteRows(c, n)|
    && forall k :: 0 <= k < |bars| ==> IsRow(c, CompleteRows(c, n)[k], bars[k])
  }

  /** Field by field: each from its own column, at the k-th complete row. */
  lemma ExtractedFields(c: ChartResult, bars: seq<Bar>, k: nat)
    requires InBounds(c) && IsExtraction(c, |c.timestamp|, bars) && k < |bars|
    ensures var q, i, bar := c.quote[0], CompleteRows(c, |c.timestamp|)[k], bars[k];
      && bar.timestamp == c.timestamp[i]
      && q.open[i] == Some(bar.open) && q.high[i] == Some(bar.high) && q.low[i] == Some(bar.low)
      && q.close[i] == Some(bar.close) && q.volume[i] == Some(bar.volume)
      && bar.adjClose == if |c.adjClose| > 0 then c.adjClose[0][i] else None
  {
    assert IsRow(c, CompleteRows(c, |c.timestamp|)[k], bars[k]);
  }

  /** GetBars never indexes out of bounds on what it is called for, and yields exactly the complete
      rows of the first result in order: each field from its own column. */
  method GetBars(r: Response) returns (res: Result<seq<Bar>, ResponseError>)
    requires |r.results| > 0 ==> InBounds(r.results[0])
    ensures res.Ok? <==> |r.results| > 0
    ensures res.Ok? ==> IsExtraction(r.results[0], |r.results[0].timestamp|, res.value)
  {
    if |r.results| == 0 { return Err(NoResults); }
    var result := r.results[0];
    var quote := result.quote[0];
    var bars: seq<Bar> := [];
    var i := 0;
    while i < |result.timestamp|
      invariant 0 <= i <= |result.timestamp|
      invariant IsExtraction(result, i, bars)
    {
      if quote.open[i].None? || quote.high[i].None? || quote.low[i].None? || quote.close[i].None? || quote.volume[i].None? {
        i := i + 1;
        continue;
      }
      var bar := Bar(result.timestamp[i], quote.open[i].value, quote.high[i].value, quote.low[i].value,
                     quote.close[i].value, quote.volume[i].value, None);
      if |result.adjClose| > 0 && result.adjClose[0][i].Some? {
        bar := bar.(adjClose := result.adjClose[0][i]);
      }
      bars := bars + [bar];
      i := i + 1;
    }
    return Ok(bars);
  }

  /** Of an accepted chart every extracted bar is sound, and there is at least one. */
  lemma ExtractedBarsAreSound(c: ChartResult, bars: seq<Bar>)
    requires Accepted(c)
    ensures InBounds(c)
    ensures IsExtraction(c, |c.timestamp|, bars) ==> |bars| > 0 && forall k :: 0 <= k < |bars| ==> SoundBar(bars[k])
  {
    hide ValidateBarData, SoundBar;
    if IsExtraction(c, |c.timestamp|, bars) {
      var rows := CompleteRows(c, |c.timestamp|);
      CompleteRowsListsThemAll(c, |c.timestamp|);
      var i :| 0 <= i < |c.timestamp| && Complete(c.quote[0], i);
      assert i in rows;
      forall k | 0 <= k < |bars| ensures SoundBar(bars[k]) {
        assert RowPasses(c, rows[k]);
        PassingRowIsSound(c, rows[k], bars[k]);
      }
    }
  }

  lemma PassingRowIsSound(c: ChartResult, i: nat, bar: Bar)
    requires Accepted(c) && InBounds(c) && i < |c.timestamp| && IsRow(c, i, bar)
    ensures SoundBar(bar)
  {
    assert RowPasses(c, i);
    if |c.adjClose| > 0 {
      assert AdjClosePasses(c, i);
    }
  }

  predicate Chronological(c: ChartResult) {
    forall i, k :: 0 <= i < k < |c.timestamp| ==> c.timestamp[i] <= c.timestamp[k]
  }

  /** Extraction keeps time order. */
  lemma ExtractionKeepsTimeOrder(c: ChartResult, bars: seq<Bar>)
    requires InBounds(c) && IsExtraction(c, |c.timestamp|, bars) && Chronological(c)
    ensures forall j, k :: 0 <= j < k < |bars| ==> bars[j].timestamp <= bars[k].timestamp
  {
    CompleteRowsListsThemAll(c, |c.timestamp|);
  }
}

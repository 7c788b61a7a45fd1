/** The sequential circuit breaker of the message bus, and the configuration check it runs
    under. Times are in nanoseconds. */
module BusBreaker {
  import opened Prelude

  /** A float64: every comparison with NaN is false. */
  datatype Float = Number(value: real) | NaN

  datatype Config = Config(window: int, failureThreshold: Float, resetTimeoutMs: int, halfOpenProbes: int)

  datatype State = Closed | Open | HalfOpen

  datatype Core = Core(state: State, failureCount: nat, successCount: nat, lastFailureTime: int, nextAttemptTime: int)

  const INITIAL: Core := Core(Closed, 0, 0, 0, 0)

  /** validateCircuitBreakerConfig: a threshold is refused when it is <= 0 or > 1, which NaN is not. */
  predicate ValidConfig(cfg: Config) {
    && cfg.window > 0
    && (cfg.failureThreshold.Number? ==> 0.0 < cfg.failureThreshold.value <= 1.0)
    && cfg.resetTimeoutMs > 0
    && cfg.halfOpenProbes > 0
  }

  predicate ShouldOpenCircuit(cfg: Config, failureCount: nat)
    requires cfg.window > 0
  {
    if failureCount < cfg.window then false
    else cfg.failureThreshold.Number? && failureCount as real / cfg.window as real >= cfg.failureThreshold.value
  }

  /** canExecute: the verdict, and the state it leaves. */
  function CanExecute(cfg: Config, c: Core, now: int): (bool, Core) {
    match c.state
    case Closed => (true, c)
    case Open => if now > c.nextAttemptTime then (true, c.(state := HalfOpen, successCount := 0)) else (false, c)
    case HalfOpen => (c.successCount < cfg.halfOpenProbes, c)
  }

  /** recordResult. */
  function RecordResult(cfg: Config, c: Core, now: int, ok: bool): Core
    requires cfg.window > 0
  {
    if !ok then
      var d := c.(failureCount := c.failureCount + 1, lastFailureTime := now);
      if ShouldOpenCircuit(cfg, d.failureCount)
      then d.(state := Open, nextAttemptTime := now + cfg.resetTimeoutMs * MS)
      else d
    else
      var d := c.(successCount := c.successCount + 1, failureCount := if c.state == Closed then 0 else c.failureCount);
      if d.state == HalfOpen && d.successCount >= cfg.halfOpenProbes
      then d.(state := Closed, failureCount := 0)
      else d
  }

  class CircuitBreaker {
    const cfg: Config
    var state: State
    var failureCount: nat
    var successCount: nat
    var lastFailureTime: int
    var nextAttemptTime: int

    function View(): Core
      reads this
    {
      Core(state, failureCount, successCount, lastFailureTime, nextAttemptTime)
    }

    constructor (cfg: Config)
      ensures this.cfg == cfg && View() == INITIAL
    {
      this.cfg := cfg;
      state, failureCount, successCount, lastFailureTime, nextAttemptTime := Closed, 0, 0, 0, 0;
    }

    method TryExecute(now: int) returns (admitted: bool)
      modifies this`state, this`successCount
      ensures (admitted, View()) == CanExecute(cfg, old(View()), now)
    {
      match state {
        case Closed => admitted := true;
        case Open =>
          if now > nextAttemptTime {
            state := HalfOpen;
            successCount := 0;
            admitted := true;
          } else {
            admitted := false;
          }
        case HalfOpen => admitted := successCount < cfg.halfOpenProbes;
      }
    }

    method Record(now: int, ok: bool)
      requires cfg.window > 0
      modifies this
      ensures View() == RecordResult(cfg, old(View()), now, ok)
    {
      if !ok {
        failureCount := failureCount + 1;
        lastFailureTime := now;
        if ShouldOpenCircuit(cfg, failureCount) {
          state := Open;
          nextAttemptTime := now + cfg.resetTimeoutMs * MS;
        }
      } else {
        successCount := successCount + 1;
        if state == Closed {
          failureCount := 0;
        }
        if state == HalfOpen && successCount >= cfg.halfOpenProbes {
          state := Closed;
          failureCount := 0;
        }
      }
    }
  }

  // ---- runs ----

  /** One call of Execute: when it asks, and when and how the guarded function would return. */
  datatype Call = Call(start: int, finish: int, ok: bool)

  function Execute(cfg: Config, c: Core, call: Call): Core
    requires cfg.window > 0
  {
    var (admitted, d) := CanExecute(cfg, c, call.start);
    if admitted then RecordResult(cfg, d, call.finish, call.ok) else d
  }

  function Admits(cfg: Config, c: Core, call: Call): bool {
    CanExecute(cfg, c, call.start).0
  }

  function Run(cfg: Config, c: Core, calls: seq<Call>): Core
    requires cfg.window > 0
  {
    if calls == [] then c else Execute(cfg, Run(cfg, c, calls[..|calls| - 1]), calls[|calls| - 1])
  }

  /** The breaker a maintainer would draw: it never mentions the failure rate, keeps only the
      current streak, and refuses by the clock alone. */
  datatype Mode = Counting(streak: nat) | Refusing(until: int) | Probing(wins: nat)

  function ModeAfter(cfg: Config, m: Mode, call: Call): Mode {
    var trip := Refusing(call.finish + cfg.resetTimeoutMs * MS);
    match m
    case Counting(streak) =>
      if call.ok then Counting(0) else if streak + 1 == cfg.window then trip else Counting(streak + 1)
    case Refusing(until) =>
      if call.start <= until then m else ModeAfterProbe(cfg, 0, call)
    case Probing(wins) => ModeAfterProbe(cfg, wins, call)
  }

  function ModeAfterProbe(cfg: Config, wins: nat, call: Call): Mode {
    if !call.ok then Refusing(call.finish + cfg.resetTimeoutMs * MS)
    else if wins + 1 == cfg.halfOpenProbes then Counting(0)
    else Probing(wins + 1)
  }

  function ModeOf(cfg: Config, calls: seq<Call>): Mode {
    if calls == [] then Counting(0) else ModeAfter(cfg, ModeOf(cfg, calls[..|calls| - 1]), calls[|calls| - 1])
  }

  function Abstract(c: Core): Mode {
    match c.state
    case Closed => Counting(c.failureCount)
    case Open => Refusing(c.nextAttemptTime)
    case HalfOpen => Probing(c.successCount)
  }

  ghost predicate Inv(cfg: Config, c: Core) {
    && (c.state == Closed <==> c.failureCount < cfg.window)
    && (c.state == HalfOpen ==> c.successCount < cfg.halfOpenProbes)
  }

  /** An accepted configuration whose threshold is a number. */
  predicate NumericConfig(cfg: Config) {
    ValidConfig(cfg) && cfg.failureThreshold.Number?
  }

  /** Under an accepted configuration the rate test passes whenever the count reaches the window. */
  lemma RateTestIsVacuous(cfg: Config, failureCount: nat)
    requires NumericConfig(cfg)
    ensures ShouldOpenCircuit(cfg, failureCount) <==> failureCount >= cfg.window
  {
    if failureCount >= cfg.window {
      QuotientAtLeastOne(failureCount as real, cfg.window as real);
    }
  }

  /** What a recorded failure changes: it counts and is stamped in every state, and with Window of them
      the breaker opens for the reset timeout. A threshold that is not a number never opens it. */
  lemma FailureEffect(cfg: Config, c: Core, now: int)
    requires ValidConfig(cfg)
    ensures var d := RecordResult(cfg, c, now, false);
      && d.failureCount == c.failureCount + 1 && d.successCount == c.successCount && d.lastFailureTime == now
      && if cfg.failureThreshold.Number? && c.failureCount + 1 >= cfg.window
         then d.state == Open && d.nextAttemptTime == now + 1_000_000 * cfg.resetTimeoutMs
         else d.state == c.state && d.nextAttemptTime == c.nextAttemptTime
  {
    if cfg.failureThreshold.Number? {
      RateTestIsVacuous(cfg, c.failureCount + 1);
      hide ShouldOpenCircuit;
    }
  }

  /** What a recorded success changes: it closes a half-open breaker with its HalfOpenProbes-th success,
      forgets the failures there and while Closed, and leaves both instants. */
  lemma SuccessEffect(cfg: Config, c: Core, now: int)
    requires ValidConfig(cfg)
    ensures var d := RecordResult(cfg, c, now, true);
      var closes := c.state == HalfOpen && c.successCount + 1 >= cfg.halfOpenProbes;
      && d.state == (if closes then Closed else c.state)
      && d.failureCount == (if closes || c.state == Closed then 0 else c.failureCount)
      && d.successCount == c.successCount + 1
      && d.lastFailureTime == c.lastFailureTime && d.nextAttemptTime == c.nextAttemptTime
  {
  }

  /** What asking to execute changes: an Open breaker past its reset time starts counting probes from none. */
  lemma AdmissionEffect(cfg: Config, c: Core, now: int)
    ensures var (admitted, d) := CanExecute(cfg, c, now);
      && (admitted <==> c.state == Closed || (c.state == Open && now > c.nextAttemptTime)
                        || (c.state == HalfOpen && c.successCount < cfg.halfOpenProbes))
      && d == if admitted && c.state == Open then Core(HalfOpen, c.failureCount, 0, c.lastFailureTime, c.nextAttemptTime) else c
  {
  }

  lemma QuotientAtLeastOne(f: real, w: real)
    requires f >= w > 0.0
    ensures f / w >= 1.0
  {
    var q := f / w;
    assert q * w == f;
    if q < 1.0 {
      ProductBelow(q, w);
    }
  }

  lemma ProductBelow(q: real, w: real)
    requires q < 1.0 && w > 0.0
    ensures q * w < w
  {
  }

  lemma StepRefines(cfg: Config, c: Core, call: Call)
    requires NumericConfig(cfg) && Inv(cfg, c)
    ensures Inv(cfg, Execute(cfg, c, call))
    ensures Abstract(Execute(cfg, c, call)) == ModeAfter(cfg, Abstract(c), call)
  {
    RateTestIsVacuous(cfg, c.failureCount + 1);
  }

  /** For every accepted configuration and every sequence of calls, the breaker is in the mode
      the history prescribes, and is Closed exactly while failureCount < Window. */
  lemma {:induction false} BreakerIsHistoryFold(cfg: Config, calls: seq<Call>)
    requires NumericConfig(cfg)
    ensures Inv(cfg, Run(cfg, INITIAL, calls))
    ensures Abstract(Run(cfg, INITIAL, calls)) == ModeOf(cfg, calls)
  {
    if calls != [] {
      var prefix, last := calls[..|calls| - 1], calls[|calls| - 1];
      BreakerIsHistoryFold(cfg, prefix);
      StepRefines(cfg, Run(cfg, INITIAL, prefix), last);
    }
  }

  /** Validation lets NaN through, and under it the breaker never leaves Closed, whatever fails. */
  lemma {:induction false} NaNThresholdNeverTrips(cfg: Config, calls: seq<Call>)
    requires ValidConfig(cfg) && cfg.failureThreshold.NaN?
    ensures Run(cfg, INITIAL, calls).state == Closed
  {
    if calls != [] {
      NaNThresholdNeverTrips(cfg, calls[..|calls| - 1]);
    }
  }

  /** So an accepted breaker is Closed exactly while failureCount < Window, over every history, if and
      only if its threshold is a number. */
  lemma ClosedBelowWindowIffNumeric(cfg: Config)
    requires ValidConfig(cfg)
    ensures (forall calls: seq<Call> {:trigger Run(cfg, INITIAL, calls)} ::
               Run(cfg, INITIAL, calls).state == Closed <==> Run(cfg, INITIAL, calls).failureCount < cfg.window)
       <==> cfg.failureThreshold.Number?
  {
    if cfg.failureThreshold.Number? {
      forall calls: seq<Call>
        ensures Run(cfg, INITIAL, calls).state == Closed <==> Run(cfg, INITIAL, calls).failureCount < cfg.window
      {
        BreakerIsHistoryFold(cfg, calls);
      }
    } else {
      var calls := seq(cfg.window, _ => Call(0, 0, false));
      AllFailuresCounted(cfg, calls);
      NaNThresholdNeverTrips(cfg, calls);
    }
  }

  lemma {:induction false} AllFailuresCounted(cfg: Config, calls: seq<Call>)
    requires ValidConfig(cfg) && cfg.failureThreshold.NaN?
    requires forall i :: 0 <= i < |calls| ==> !calls[i].ok
    ensures Run(cfg, INITIAL, calls).failureCount == |calls|
  {
    if calls != [] {
      AllFailuresCounted(cfg, calls[..|calls| - 1]);
      NaNThresholdNeverTrips(cfg, calls[..|calls| - 1]);
    }
  }

  /** Otherwise FailureThreshold never matters: accepted configurations that differ only there behave alike. */
  lemma {:induction false} FailureThresholdIrrelevant(cfg: Config, other: Float, calls: seq<Call>)
    requires NumericConfig(cfg) && NumericConfig(cfg.(failureThreshold := other))
    ensures Run(cfg, INITIAL, calls) == Run(cfg.(failureThreshold := other), INITIAL, calls)
  {
    if calls != [] {
      FailureThresholdIrrelevant(cfg, other, calls[..|calls| - 1]);
      var c := Run(cfg, INITIAL, calls[..|calls| - 1]);
      RateTestIsVacuous(cfg, c.failureCount + 1);
      RateTestIsVacuous(cfg.(failureThreshold := other), c.failureCount + 1);
    }
  }

  /** n failures in a row, from position i on. */
  ghost predicate StreakAt(calls: seq<Call>, i: int, n: int) {
    0 <= i && i + n <= |calls| && forall j :: i <= j < i + n ==> !calls[j].ok
  }

  ghost predicate HasFailureStreak(calls: seq<Call>, n: int) {
    exists i :: StreakAt(calls, i, n)
  }

  lemma PrefixHasNoStreak(calls: seq<Call>, k: nat, n: nat)
    requires k <= |calls| && !HasFailureStreak(calls, n)
    ensures !HasFailureStreak(calls[..k], n)
  {
    forall i | StreakAt(calls[..k], i, n) ensures StreakAt(calls, i, n) {
      forall j | i <= j < i + n ensures !calls[j].ok {
        assert calls[j] == calls[..k][j];
      }
    }
  }

  /** The streak of a still-Closed breaker is the length of the run of failures the history ends in. */
  lemma {:induction false} StreakIsTrailingRun(cfg: Config, calls: seq<Call>)
    requires NumericConfig(cfg)
    requires !HasFailureStreak(calls, cfg.window)
    ensures var m := ModeOf(cfg, calls);
      && m.Counting? && m.streak < cfg.window
      && StreakAt(calls, |calls| - m.streak, m.streak)
      && (m.streak < |calls| ==> calls[|calls| - m.streak - 1].ok)
  {
    if calls != [] {
      var n := |calls| - 1;
      var prefix := calls[..n];
      PrefixHasNoStreak(calls, n, cfg.window);
      StreakIsTrailingRun(cfg, prefix);
      var k := ModeOf(cfg, prefix).streak;
      if !calls[n].ok {
        forall j | n - k <= j < n + 1 ensures !calls[j].ok {
          if j < n {
            assert calls[j] == prefix[j];
          }
        }
        assert StreakAt(calls, n - k, k + 1);
        assert k + 1 < cfg.window;
        if k < n {
          assert calls[n - k - 1] == prefix[n - k - 1];
        }
      }
    }
  }

  /** A new breaker is Closed through the whole of a history exactly when the history holds no
      Window failures in a row. */
  lemma TripsExactlyOnWindowConsecutiveFailures(cfg: Config, calls: seq<Call>)
    requires NumericConfig(cfg)
    ensures (forall k :: 0 <= k <= |calls| ==> ModeOf(cfg, calls[..k]).Counting?) <==> !HasFailureStreak(calls, cfg.window)
  {
    if HasFailureStreak(calls, cfg.window) {
      // the first streak ends at k: every shorter prefix has none
      var k := FirstStreakEnd(cfg, calls);
      var n := k - 1;
      assert calls[..k][..n] == calls[..n];
      StreakIsTrailingRun(cfg, calls[..n]);
      TrailingRunReachesWindow(cfg, calls, k);
      assert !ModeOf(cfg, calls[..k]).Counting?;
    } else {
      forall k | 0 <= k <= |calls| ensures ModeOf(cfg, calls[..k]).Counting? {
        PrefixHasNoStreak(calls, k, cfg.window);
        StreakIsTrailingRun(cfg, calls[..k]);
      }
    }
  }

  lemma FirstStreakEnd(cfg: Config, calls: seq<Call>) returns (k: nat)
    requires NumericConfig(cfg) && HasFailureStreak(calls, cfg.window)
    ensures 0 < k <= |calls| && HasFailureStreak(calls[..k], cfg.window) && !HasFailureStreak(calls[..k - 1], cfg.window)
  {
    k := |calls|;
    assert calls[..k] == calls;
    while k > 0 && HasFailureStreak(calls[..k - 1], cfg.window)
      invariant 0 <= k <= |calls| && HasFailureStreak(calls[..k], cfg.window)
    {
      k := k - 1;
    }
  }

  /** Where a streak first completes, the trailing run just before it is one short of the window. */
  lemma TrailingRunReachesWindow(cfg: Config, calls: seq<Call>, k: nat)
    requires NumericConfig(cfg)
    requires 0 < k <= |calls| && HasFailureStreak(calls[..k], cfg.window) && !HasFailureStreak(calls[..k - 1], cfg.window)
    ensures ModeOf(cfg, calls[..k - 1]) == Counting(cfg.window - 1) && !calls[k - 1].ok
  {
    var whole, prefix, w := calls[..k], calls[..k - 1], cfg.window;
    var i :| StreakAt(whole, i, w);
    if i + w < k {
      EarlierStreak(whole, prefix, i, w);
    }
    assert whole[k - 1] == calls[k - 1];
    StreakIsTrailingRun(cfg, prefix);
  }

  lemma EarlierStreak(whole: seq<Call>, prefix: seq<Call>, i: int, n: int)
    requires prefix <= whole && StreakAt(whole, i, n) && i + n <= |prefix|
    ensures StreakAt(prefix, i, n)
  {
    forall j | i <= j < i + n ensures !prefix[j].ok {
      assert prefix[j] == whole[j];
    }
  }

  /** Closing forgets: whatever follows a clean close is judged as if the breaker were new. */
  lemma {:induction false} CloseForgetsHistory(cfg: Config, history: seq<Call>, calls: seq<Call>)
    requires ModeOf(cfg, history) == Counting(0)
    ensures ModeOf(cfg, history + calls) == ModeOf(cfg, calls)
  {
    if calls == [] {
      assert history + calls == history;
    } else {
      var prefix := calls[..|calls| - 1];
      CloseForgetsHistory(cfg, history, prefix);
      assert (history + calls)[..|history + calls| - 1] == history + prefix;
    }
  }

  /** While Open, every call that starts no later than nextAttemptTime is refused and changes nothing. */
  lemma {:induction false} RefusesUntilReset(cfg: Config, c: Core, calls: seq<Call>)
    requires cfg.window > 0 && c.state == Open
    requires forall i :: 0 <= i < |calls| ==> calls[i].start <= c.nextAttemptTime
    ensures Run(cfg, c, calls) == c
    ensures forall i :: 0 <= i < |calls| ==> !Admits(cfg, c, calls[i])
  {
    if calls != [] {
      RefusesUntilReset(cfg, c, calls[..|calls| - 1]);
    }
  }

  /** Past the reset, the outcome of the next probes decides: HalfOpenProbes successes in a row
      close the breaker with a clean count; fewer leave it half-open. */
  lemma {:induction false} ProbesClose(cfg: Config, c: Core, calls: seq<Call>)
    requires NumericConfig(cfg) && Inv(cfg, c) && c.state == Open
    requires 0 < |calls| <= cfg.halfOpenProbes
    requires calls[0].start > c.nextAttemptTime
    requires forall i :: 0 <= i < |calls| ==> calls[i].ok
    ensures var d := Run(cfg, c, calls);
      if |calls| == cfg.halfOpenProbes then d.state == Closed && d.failureCount == 0
      else d.state == HalfOpen && d.successCount == |calls| && d.failureCount == c.failureCount
  {
    var prefix := calls[..|calls| - 1];
    if prefix != [] {
      ProbesClose(cfg, c, prefix);
    } else {
      assert Run(cfg, c, prefix) == c;
    }
  }

  /** A single failed probe reopens the breaker for a full reset timeout, however many probes
      had succeeded. */
  lemma AnyProbeFailureReopens(cfg: Config, calls: seq<Call>, call: Call)
    requires NumericConfig(cfg)
    requires var c := Run(cfg, INITIAL, calls); c.state == HalfOpen || (c.state == Open && call.start > c.nextAttemptTime)
    requires !call.ok
    ensures var d := Execute(cfg, Run(cfg, INITIAL, calls), call);
      d.state == Open && d.nextAttemptTime == call.finish + cfg.resetTimeoutMs * MS
  {
    BreakerIsHistoryFold(cfg, calls);
    StepRefines(cfg, Run(cfg, INITIAL, calls), call);
  }

  /** The half-open admission test never refuses: in no reachable half-open state is it false. */
  lemma HalfOpenNeverRefuses(cfg: Config, calls: seq<Call>, call: Call)
    requires NumericConfig(cfg)
    requires Run(cfg, INITIAL, calls).state == HalfOpen
    ensures Admits(cfg, Run(cfg, INITIAL, calls), call)
  {
    BreakerIsHistoryFold(cfg, calls);
  }
}

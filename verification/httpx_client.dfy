/** The retry loop of the HTTP client: admission by the circuit breaker, one rate-limiter
    wait, then up to MaxAttempts sends with capped, jittered exponential backoff. */
module HttpxClient {
  import opened Prelude
  import opened HttpxBreaker

  datatype ClientConfig = ClientConfig(maxAttempts: int, backoffBaseMs: int, backoffJitterMs: int, maxDelayMs: int)

  datatype NetError = DeadlineExceeded | Canceled | TransportError | OtherError

  datatype Outcome = NetFailure(kind: NetError) | Response(status: int)

  datatype DoError = CircuitOpen | RateLimited | Network(kind: NetError) | Http(status: int) | ContextDone
                   | MaxAttemptsExceeded(last: Option<Outcome>)

  /** Everything the world decides during one call of Do, by attempt number: the result of
      the send, the clock when it is recorded, the jitter drawn, and whether the context is
      cancelled during the following wait (and after how long). */
  datatype Environment = Environment(
    admitAt: int,
    limiterOk: bool,
    send: nat -> Outcome,
    clock: nat -> int,
    jitterMs: nat -> nat,
    cancelAfter: nat -> Option<nat>)

  predicate IsSuccess(o: Outcome) {
    o.Response? && 200 <= o.status < 300
  }

  /** shouldRetry and shouldRetryResponse: worth another attempt, and one is left. */
  predicate ShouldRetry(cfg: ClientConfig, o: Outcome, attempt: nat) {
    if attempt as int >= cfg.maxAttempts - 1 then false
    else match o
      case NetFailure(kind) => kind != OtherError
      case Response(status) => status == 429 || status == 500 || status == 502 || status == 503 || status == 504
  }

  /** math.Pow(2, attempt) converted to int64; past 2^62 the conversion is out of range and
      yields the least int64 (the amd64 behaviour). */
  function PowerOfTwo(attempt: nat): (p: int)
    ensures attempt <= 62 ==> p == Pow2(attempt)
  {
    if attempt <= 62 then Pow2(attempt) else MIN_INT64
  }

  /** The jitter drawn, in nanoseconds; none is drawn when none is configured. */
  function Jitter(cfg: ClientConfig, jitterMs: nat): nat {
    if cfg.backoffJitterMs > 0 then jitterMs * MS else 0
  }

  lemma NonNegativeProduct(a: int, b: int)
    ensures a >= 0 && b >= 0 ==> a * b >= 0
  {
  }

  /** calculateBackoff, in nanoseconds, with the int64 wrap-around of the product and sum. */
  function CalculateBackoff(cfg: ClientConfig, attempt: nat, jitterMs: nat): (delay: int)
    ensures delay <= cfg.maxDelayMs * MS
    ensures var jitter := if cfg.backoffJitterMs > 0 then jitterMs * 1_000_000 else 0;
      var exact := cfg.backoffBaseMs * 1_000_000 * Pow2(attempt) + jitter;
      attempt <= 62 && cfg.backoffBaseMs >= 0 && exact <= MAX_INT64 ==>
        delay == Min(cfg.maxDelayMs * 1_000_000, exact)
  {
    NonNegativeProduct(cfg.backoffBaseMs * MS, PowerOfTwo(attempt));
    var exponential := Wrap64(cfg.backoffBaseMs * MS * PowerOfTwo(attempt));
    var total := Wrap64(exponential + Jitter(cfg, jitterMs));
    var max := cfg.maxDelayMs * MS;
    if total > max then max else total
  }

  /** The configured maximum delay in nanoseconds; a negative one never blocks. */
  function WaitCap(cfg: ClientConfig): nat {
    Max(0, cfg.maxDelayMs) * MS
  }

  /** How long the select really blocks: a timer with a non-positive delay fires at once. */
  function Blocked(cfg: ClientConfig, env: Environment, attempt: nat): (w: nat)
    ensures w <= WaitCap(cfg)
  {
    var delay := CalculateBackoff(cfg, attempt, env.jitterMs(attempt));
    var full := if delay > 0 then delay else 0;
    match env.cancelAfter(attempt)
    case None => full
    case Some(t) => if t < full then t else full
  }

  /** What one send does to the breaker: nothing for a 401, else one success or one failure. */
  function Record(bcfg: Config, c: Core, env: Environment, attempt: nat): Core {
    var o := env.send(attempt);
    if IsSuccess(o) then AfterSuccess(c)
    else if o == Response(401) then c
    else AfterFailure(bcfg, c, env.clock(attempt))
  }

  function CoreAfter(bcfg: Config, c: Core, env: Environment, n: nat): Core {
    if n == 0 then c else Record(bcfg, CoreAfter(bcfg, c, env, n - 1), env, n - 1)
  }

  /** Sends among the first n that failed with anything but a 401. */
  function CountedFailures(env: Environment, n: nat): nat {
    if n == 0 then 0
    else CountedFailures(env, n - 1)
         + if !IsSuccess(env.send(n - 1)) && env.send(n - 1) != Response(401) then 1 else 0
  }

  /** Until int64 overflows, doubling the attempt never shortens the wait. */
  lemma {:induction false} BackoffIsMonotone(cfg: ClientConfig, attempt: nat, jitterMs: nat)
    requires cfg.backoffBaseMs >= 0 && attempt < 62
    requires cfg.backoffBaseMs * MS * Pow2(attempt + 1) + Jitter(cfg, jitterMs) <= MAX_INT64
    ensures CalculateBackoff(cfg, attempt, jitterMs) <= CalculateBackoff(cfg, attempt + 1, jitterMs)
  {
    var b, p := cfg.backoffBaseMs * MS, Pow2(attempt);
    assert 0 <= b * p <= b * (2 * p);
  }

  /** The i-th wait is the backoff after attempt i, as long as it blocked. */
  ghost predicate Waited(cfg: ClientConfig, env: Environment, waits: seq<nat>) {
    forall i :: 0 <= i < |waits| ==> waits[i] == Blocked(cfg, env, i)
  }

  function TotalWait(waits: seq<nat>): nat {
    if waits == [] then 0 else TotalWait(waits[..|waits| - 1]) + waits[|waits| - 1]
  }

  /** The waits of one call of Do add up to at most (MaxAttempts - 1) times the maximum delay. */
  lemma TotalWaitBounded(cfg: ClientConfig, env: Environment, r: Report)
    requires cfg.maxAttempts >= 1 && Sent(cfg, env, r)
    ensures TotalWait(r.waits) <= (cfg.maxAttempts - 1) * WaitCap(cfg)
  {
    hide IsSuccess, FinalResult, Blocked, WaitCap;
    SumBounded(cfg, env, r.waits);
    FewerIsLess(|r.waits|, cfg.maxAttempts - 1, WaitCap(cfg));
  }

  lemma FewerIsLess(m: nat, n: nat, cap: nat)
    requires m <= n
    ensures m * cap <= n * cap
  {
  }

  /** One call of Do adds to the breaker exactly one failure for each of its sends that failed
      with anything but a 401; a successful send is the last one and adds none. */
  lemma OneFailurePerFailedSend(cfg: ClientConfig, bcfg: Config, core: Core, env: Environment, r: Report)
    requires cfg.maxAttempts >= 1 && Sent(cfg, env, r)
    ensures var c := CoreAfter(bcfg, core, env, r.sends);
      var added := core.failures + CountedFailures(env, r.sends);
      if r.result.Ok? && CoreAfter(bcfg, core, env, r.sends - 1).state == StateHalfOpen
      then c.failures == 0 && c.state == StateClosed
      else c.failures == added
  {
    FailuresOfRetries(cfg, bcfg, core, env, r.sends - 1);
  }

  /** The state in which a successful call leaves a breaker that admitted it: Open exactly when it took
      retries and their failures, with those counted before, reach the threshold; else Closed. So a
      call that succeeds on a retry can leave the breaker Open. */
  lemma StateAfterSuccessfulCall(cfg: ClientConfig, bcfg: Config, core: Core, env: Environment, r: Report)
    requires cfg.maxAttempts >= 1 && Sent(cfg, env, r) && r.result.Ok?
    requires bcfg.failureThreshold >= 1 && core.state != StateOpen && ClosedBelowThreshold(bcfg, core)
    ensures CoreAfter(bcfg, core, env, r.sends).state
            == if r.sends > 1 && core.failures + (r.sends - 1) >= bcfg.failureThreshold then StateOpen else StateClosed
  {
    StateOfRetries(cfg, bcfg, core, env, r.sends - 1);
  }

  lemma {:induction false} StateOfRetries(cfg: ClientConfig, bcfg: Config, core: Core, env: Environment, n: nat)
    requires RetriedBefore(cfg, env, n)
    requires bcfg.failureThreshold >= 1 && core.state != StateOpen && ClosedBelowThreshold(bcfg, core)
    ensures var c := CoreAfter(bcfg, core, env, n);
      && c.failures == core.failures + n
      && c.state == if n > 0 && core.failures + n >= bcfg.failureThreshold then StateOpen else core.state
  {
    if n > 0 {
      StateOfRetries(cfg, bcfg, core, env, n - 1);
    }
  }

  lemma {:induction false} FailuresOfRetries(cfg: ClientConfig, bcfg: Config, core: Core, env: Environment, n: nat)
    requires RetriedBefore(cfg, env, n)
    ensures CoreAfter(bcfg, core, env, n).failures == core.failures + CountedFailures(env, n)
  {
    if n > 0 {
      FailuresOfRetries(cfg, bcfg, core, env, n - 1);
    }
  }

  lemma {:induction false} SumBounded(cfg: ClientConfig, env: Environment, waits: seq<nat>)
    requires Waited(cfg, env, waits)
    ensures TotalWait(waits) <= |waits| * WaitCap(cfg)
  {
    hide Blocked, WaitCap;
    if waits != [] {
      var n := |waits| - 1;
      SumBounded(cfg, env, waits[..n]);
      assert (n + 1) * WaitCap(cfg) == n * WaitCap(cfg) + WaitCap(cfg);
    }
  }

  function Admitted(c: Core, admitted: bool): Core {
    if c.state == StateOpen && admitted then c.(state := StateHalfOpen) else c
  }

  function FinalResult(o: Outcome): Result<Outcome, DoError> {
    if IsSuccess(o) then Ok(o)
    else match o
      case NetFailure(kind) => Err(Network(kind))
      case Response(status) => Err(Http(status))
  }

  /** Each of the first n sends was worth retrying and its wait was not cancelled. */
  ghost predicate RetriedBefore(cfg: ClientConfig, env: Environment, n: int) {
    forall i: nat :: i < n ==> ShouldRetry(cfg, env.send(i), i) && env.cancelAfter(i) == None
  }

  /** What a call of Do did. `tail` says whether the code after the loop, with its own
      RecordFailure, was reached. */
  datatype Report = Report(result: Result<Outcome, DoError>, sends: nat, waits: seq<nat>, tail: bool)

  /** The report of a call that got past admission and the rate limiter. */
  ghost predicate Sent(cfg: ClientConfig, env: Environment, r: Report) {
    if cfg.maxAttempts <= 0 then
      r == Report(Err(MaxAttemptsExceeded(None)), 0, [], true)
    else
      && !r.tail
      && 1 <= r.sends <= cfg.maxAttempts
      && Waited(cfg, env, r.waits)
      && RetriedBefore(cfg, env, r.sends - 1)
      && var last := env.send(r.sends - 1);
         if ShouldRetry(cfg, last, r.sends - 1)
         then r.result == Err(ContextDone) && env.cancelAfter(r.sends - 1) != None && |r.waits| == r.sends
         else r.result == FinalResult(last) && |r.waits| == r.sends - 1
  }

  /** In the words of the protocol: a send before the last attempt leads to another (or to a cancelled
      wait) exactly for a deadline, a cancellation, a transport error, or a status of 429, 500, 502, 503
      or 504; the call succeeds exactly when its last send does, with a status from 200 to 299, and
      otherwise reports that send's error; and it waits, after each send but the last, the backoff of that
      attempt, or for a cancelled wait until then. */
  ghost predicate ReportMeaning(cfg: ClientConfig, env: Environment, r: Report)
    requires r.sends >= 1
  {
    var last := env.send(r.sends - 1);
    && (forall i: nat :: i < r.sends && i < cfg.maxAttempts - 1 ==>
          ((i + 1 < r.sends || r.result == Err(ContextDone)) <==>
             match env.send(i)
             case NetFailure(kind) => kind == DeadlineExceeded || kind == Canceled || kind == TransportError
             case Response(status) => status == 429 || status == 500 || status == 502 || status == 503 || status == 504))
    && (r.result.Ok? <==> last.Response? && 200 <= last.status <= 299)
    && (r.result.Ok? ==> r.result.value == last)
    && (r.result.Err? && r.result.error != ContextDone ==>
          r.result.error == if last.NetFailure? then Network(last.kind) else Http(last.status))
    && |r.waits| == (if r.result == Err(ContextDone) then r.sends else r.sends - 1)
    && (forall i: nat :: i < r.sends - 1 ==>
          env.cancelAfter(i) == None && r.waits[i] == Max(0, CalculateBackoff(cfg, i, env.jitterMs(i))))
    && (r.result == Err(ContextDone) ==>
          var i := r.sends - 1;
          env.cancelAfter(i).Some? && r.waits[i] == Min(env.cancelAfter(i).value, Max(0, CalculateBackoff(cfg, i, env.jitterMs(i)))))
  }

  lemma SentMeans(cfg: ClientConfig, env: Environment, r: Report)
    requires cfg.maxAttempts >= 1 && Sent(cfg, env, r)
    ensures ReportMeaning(cfg, env, r)
  {
    hide CalculateBackoff;
    forall i: nat | i < |r.waits|
      ensures r.waits[i] == match env.cancelAfter(i)
                            case None => Max(0, CalculateBackoff(cfg, i, env.jitterMs(i)))
                            case Some(t) => Min(t, Max(0, CalculateBackoff(cfg, i, env.jitterMs(i))))
    {
      assert r.waits[i] == Blocked(cfg, env, i);
    }
  }

  /** What one send does to the breaker, in the words of the protocol. */
  lemma SendEffect(bcfg: Config, c: Core, env: Environment, attempt: nat)
    ensures var o, d := env.send(attempt), Record(bcfg, c, env, attempt);
      && (o.Response? && 200 <= o.status <= 299 ==>
            if c.state == StateHalfOpen then d == Core(StateClosed, 0, c.lastFailure) else d == c)
      && (o.Response? && o.status == 401 ==> d == c)
      && (o.NetFailure? || !(200 <= o.status <= 299 || o.status == 401) ==>
            d == Core(if c.failures + 1 >= bcfg.failureThreshold then StateOpen else c.state, c.failures + 1, env.clock(attempt)))
  {
  }

  class Client {
    const cfg: ClientConfig
    const breaker: CircuitBreaker

    constructor (cfg: ClientConfig, breaker: CircuitBreaker)
      ensures this.cfg == cfg && this.breaker == breaker
    {
      this.cfg := cfg;
      this.breaker := breaker;
    }

    /** Do: refused by the breaker, or by the rate limiter, or sent. */
    method Do(env: Environment) returns (r: Report)
      modifies breaker
      ensures var admitted := old(breaker.state) != StateOpen
                              || env.admitAt - old(breaker.lastFailure) >= breaker.cfg.resetTimeout;
        var core := Admitted(old(breaker.View()), admitted);
        if !admitted then r == Report(Err(CircuitOpen), 0, [], false) && breaker.View() == core
        else if !env.limiterOk then r == Report(Err(RateLimited), 0, [], false) && breaker.View() == core
        else
          && Sent(cfg, env, r)
          && breaker.View() == (if r.tail then AfterFailure(breaker.cfg, core, env.clock(0))
                                else CoreAfter(breaker.cfg, core, env, r.sends))
          && (cfg.maxAttempts >= 1 ==> ReportMeaning(cfg, env, r))
    {
      hide ReportMeaning;
      var admitted := breaker.Allow(env.admitAt);
      if !admitted {
        return Report(Err(CircuitOpen), 0, [], false);
      }
      if !env.limiterOk {
        return Report(Err(RateLimited), 0, [], false);
      }
      r := SendLoop(env);
      if cfg.maxAttempts >= 1 {
        SentMeans(cfg, env, r);
      }
    }

    /** The attempt loop of Do and the code after it. */
    method SendLoop(env: Environment) returns (r: Report)
      modifies breaker
      ensures Sent(cfg, env, r)
      ensures breaker.View() == if r.tail then AfterFailure(breaker.cfg, old(breaker.View()), env.clock(0))
                                else CoreAfter(breaker.cfg, old(breaker.View()), env, r.sends)
    {
      hide Blocked, WaitCap, IsSuccess, FinalResult, AfterFailure;
      ghost var core := breaker.View();
      var waits := [];
      var lastErr: Option<Outcome> := None;
      var attempt := 0;
      while attempt < cfg.maxAttempts
        invariant 0 <= attempt && (attempt > 0 ==> attempt < cfg.maxAttempts)
        invariant attempt == 0 ==> lastErr == None
        invariant breaker.View() == CoreAfter(breaker.cfg, core, env, attempt)
        invariant |waits| == attempt && Waited(cfg, env, waits)
        invariant RetriedBefore(cfg, env, attempt)
      {
        var final := TryOnce(env, attempt);
        if final.Some? {
          return Report(final.value, attempt + 1, waits, false);
        }
        lastErr := Some(env.send(attempt));
        var cancelled;
        cancelled, waits := BackOff(env, attempt, waits);
        if cancelled {
          return Report(Err(ContextDone), attempt + 1, waits, false);
        }
        attempt := attempt + 1;
      }
      breaker.RecordFailure(env.clock(attempt));
      return Report(Err(MaxAttemptsExceeded(lastErr)), attempt, waits, true);
    }

    /** The select at the end of an iteration: the delay elapses or the context is cancelled. */
    method BackOff(env: Environment, attempt: nat, waits: seq<nat>) returns (cancelled: bool, extended: seq<nat>)
      ensures cancelled <==> env.cancelAfter(attempt) != None
      ensures extended == waits + [Blocked(cfg, env, attempt)]
    {
      cancelled := env.cancelAfter(attempt).Some?;
      extended := waits + [Blocked(cfg, env, attempt)];
    }

    /** One send and its bookkeeping; None means "back off and try again". */
    method TryOnce(env: Environment, attempt: nat) returns (final: Option<Result<Outcome, DoError>>)
      modifies breaker
      ensures breaker.View() == Record(breaker.cfg, old(breaker.View()), env, attempt)
      ensures final == if ShouldRetry(cfg, env.send(attempt), attempt) then None else Some(FinalResult(env.send(attempt)))
    {
      var o := env.send(attempt);
      match o {
        case NetFailure(kind) =>
          breaker.RecordFailure(env.clock(attempt));
          if !ShouldRetry(cfg, o, attempt) {
            return Some(Err(Network(kind)));
          }
        case Response(status) =>
          if ShouldRetry(cfg, o, attempt) {
            breaker.RecordFailure(env.clock(attempt));
          } else if IsSuccess(o) {
            breaker.RecordSuccess();
            return Some(Ok(o));
          } else {
            if status != 401 {
              breaker.RecordFailure(env.clock(attempt));
            }
            return Some(Err(Http(status)));
          }
      }
      return None;
    }
  }
}

/** The publish pipeline of the bus: retry policy around circuit breaker around publisher, the
    chunk-sending publisher, and the configuration all of them run under. */
module BusPublish {
  import opened Prelude
  import opened BusChunking
  import Breaker = BusBreaker

  /** An error chain. Only the outermost link decides retryability (a type assertion, not errors.As). */
  datatype Error =
    | Plain(message: string)
    | Retryable(inner: Error)
    | Wrapped(context: string, inner: Error)

  predicate IsRetryableError(e: Error) {
    e.Retryable?
  }

  // ---- configuration ----

  datatype RetryConfig = RetryConfig(attempts: int, baseMs: int, maxDelayMs: int)

  datatype PublisherConfig = PublisherConfig(backend: string, natsUrl: string, natsAckWaitMs: int,
                                             kafkaBrokers: seq<string>, kafkaAcks: string)

  datatype Config = Config(enabled: bool, env: string, topicPrefix: string, maxPayloadBytes: int,
                           publisher: PublisherConfig, retry: RetryConfig, breaker: Breaker.Config)

  predicate ValidRetryConfig(r: RetryConfig) {
    r.attempts > 0 && r.baseMs > 0 && r.maxDelayMs > 0 && r.maxDelayMs >= r.baseMs
  }

  predicate ValidPublisherConfig(p: PublisherConfig) {
    || (p.backend == "nats" && p.natsUrl != "" && p.natsAckWaitMs > 0)
    || (p.backend == "kafka" && p.kafkaBrokers != [] && (p.kafkaAcks == "all" || p.kafkaAcks == "1" || p.kafkaAcks == "0"))
  }

  /** ValidateConfig accepts. */
  predicate ValidConfig(c: Config) {
    && (c.env == "dev" || c.env == "staging" || c.env == "prod")
    && c.topicPrefix != ""
    && 256 * 1024 <= c.maxPayloadBytes <= 10 * 1024 * 1024
    && (c.enabled ==> ValidPublisherConfig(c.publisher))
    && ValidRetryConfig(c.retry)
    && Breaker.ValidConfig(c.breaker)
  }

  // ---- publishers ----

  /** What one call of a publisher does: the chunks the transport accepts, and the error returned. */
  datatype Effect = Effect(accepted: seq<Bytes>, err: Option<Error>)

  /** The Publisher interface: the chunk-sending BusPublisher over a transport that may answer
      anything to chunk i of call k, or any other implementation. */
  datatype Backend =
    | BusPublisher(maxPayloadBytes: nat, marshal: Result<Bytes, Error>, transport: nat -> (nat -> Option<Error>))
    | OtherPublisher(behaviour: nat -> Effect)
  {
    ghost predicate Valid() {
      BusPublisher? ==> maxPayloadBytes > 0
    }
  }

  function SendFrom(chunks: seq<Bytes>, reply: nat -> Option<Error>, i: nat): Effect
    requires i <= |chunks|
    decreases |chunks| - i
  {
    if i == |chunks| then Effect([], None)
    else match reply(i)
      case Some(e) => Effect([], Some(Wrapped("failed to publish bar batch chunk", e)))
      case None =>
        var rest := SendFrom(chunks, reply, i + 1);
        Effect([chunks[i]] + rest.accepted, rest.err)
  }

  function Behaviour(b: Backend, call: nat): Effect
    requires b.Valid()
  {
    match b
    case OtherPublisher(behaviour) => behaviour(call)
    case BusPublisher(max, marshal, transport) =>
      match marshal
      case Err(e) => Effect([], Some(Wrapped("failed to marshal bar batch", e)))
      case Ok(payload) => SendFrom(Chunks(max, payload), transport(call), 0)
  }

  /** The accepted chunks are those before the first refusal, in order, each once; and the call
      succeeds exactly when none is refused. */
  lemma {:induction false} SendFromStopsAtFirstRefusal(chunks: seq<Bytes>, reply: nat -> Option<Error>, i: nat)
    requires i <= |chunks|
    ensures var r := SendFrom(chunks, reply, i);
      var m := i + |r.accepted|;
      && m <= |chunks| && r.accepted == chunks[i..m]
      && (forall k: nat :: i <= k < m ==> reply(k) == None)
      && (r.err == None <==> m == |chunks|)
      && (m < |chunks| ==> reply(m).Some? && r.err == Some(Wrapped("failed to publish bar batch chunk", reply(m).value)))
    decreases |chunks| - i
  {
    if i < |chunks| && reply(i) == None {
      SendFromStopsAtFirstRefusal(chunks, reply, i + 1);
    }
  }

  class Publisher {
    const backend: Backend
    var calls: nat
    var log: seq<Bytes> // everything the transport has accepted

    constructor (backend: Backend)
      requires backend.Valid()
      ensures this.backend == backend && calls == 0 && log == []
    {
      this.backend := backend;
      calls, log := 0, [];
    }

    method PublishBars() returns (err: Option<Error>)
      requires backend.Valid()
      modifies this
      ensures calls == old(calls) + 1
      ensures err == Behaviour(backend, old(calls)).err
      ensures log == old(log) + Behaviour(backend, old(calls)).accepted
    {
      var call := calls;
      calls := calls + 1;
      match backend {
        case OtherPublisher(behaviour) =>
          log := log + behaviour(call).accepted;
          err := behaviour(call).err;
        case BusPublisher(max, marshal, transport) =>
          if marshal.Err? {
            return Some(Wrapped("failed to marshal bar batch", marshal.error));
          }
          var strategy := new ChunkingStrategy(max);
          var result := strategy.ChunkPayload(marshal.value);
          err := SendChunks(result.chunks, transport(call));
      }
    }

    /** The chunk loop: publish one by one, stop at the first refusal. */
    method SendChunks(chunks: seq<Bytes>, transport: nat -> Option<Error>) returns (err: Option<Error>)
      modifies this`log
      ensures err == SendFrom(chunks, transport, 0).err
      ensures log == old(log) + SendFrom(chunks, transport, 0).accepted
    {
      var i := 0;
      while i < |chunks|
        invariant 0 <= i <= |chunks|
        invariant SendFrom(chunks, transport, 0).err == SendFrom(chunks, transport, i).err
        invariant old(log) + SendFrom(chunks, transport, 0).accepted == log + SendFrom(chunks, transport, i).accepted
      {
        var reply := transport(i);
        if reply.Some? {
          return Some(Wrapped("failed to publish bar batch chunk", reply.value));
        }
        log := log + [chunks[i]];
        i := i + 1;
      }
      err := None;
    }
  }

  // ---- retry ----

  function Exponential(r: RetryConfig, attempt: nat): real {
    r.baseMs as real * Pow2(attempt) as real
  }

  /** The exponential delay after the cap, before the jitter. */
  function CappedDelay(r: RetryConfig, attempt: nat): real {
    var exponential := Exponential(r, attempt);
    if exponential > r.maxDelayMs as real then r.maxDelayMs as real else exponential
  }

  function WithJitter(capped: real, unit: real): real {
    capped + capped * 0.25 * (unit - 0.5)
  }

  /** calculateDelay in milliseconds; `unit` is the random draw from [0, 1). */
  function CalculateDelay(r: RetryConfig, attempt: nat, unit: real): int {
    var delay := WithJitter(CappedDelay(r, attempt), unit);
    (if delay < 0.0 then 1.0 else delay).Floor
  }

  /** The wait, cut to milliseconds, is within an eighth of the capped exponential delay. The jitter is
      added after the cap, so a wait can pass MaxDelayMs, but stays below 9/8 of it. */
  lemma DelayBelowNineEighths(r: RetryConfig, attempt: nat, unit: real)
    requires ValidRetryConfig(r) && 0.0 <= unit < 1.0
    ensures 0 <= CalculateDelay(r, attempt, unit)
    ensures 8 * CalculateDelay(r, attempt, unit) < 9 * r.maxDelayMs
    ensures 7.0 * CappedDelay(r, attempt) - 8.0 < 8.0 * CalculateDelay(r, attempt, unit) as real < 9.0 * CappedDelay(r, attempt)
  {
    hide WithJitter;
    ProductPositive(r.baseMs as real, Pow2(attempt) as real);
    var capped := CappedDelay(r, attempt);
    JitterWithinEighth(capped, unit);
    FloorBelow(WithJitter(capped, unit), r.maxDelayMs);
  }

  /** MaxDelayMs bounds every wait a burst can make if and only if there is none, or the last one's delay,
      before the jitter, leaves room for an eighth of itself. */
  lemma MaxDelayKeptExactly(r: RetryConfig)
    requires ValidRetryConfig(r)
    ensures (forall attempt: nat, unit: real | attempt < r.attempts - 1 && 0.0 <= unit < 1.0 ::
               CalculateDelay(r, attempt, unit) <= r.maxDelayMs)
       <==> r.attempts == 1 || 9.0 * CappedDelay(r, r.attempts - 2) <= 8.0 * (r.maxDelayMs + 1) as real
  {
    hide CalculateDelay, CappedDelay;
    if r.attempts > 1 {
      var last := r.attempts - 2;
      if 9.0 * CappedDelay(r, last) <= 8.0 * (r.maxDelayMs + 1) as real {
        forall attempt: nat, unit: real | attempt < r.attempts - 1 && 0.0 <= unit < 1.0
          ensures CalculateDelay(r, attempt, unit) <= r.maxDelayMs
        {
          CappedDelayGrows(r, attempt, last);
          DelayBelowNineEighths(r, attempt, unit);
        }
      } else {
        var unit := LiftingDraw(r, last);
        assert CalculateDelay(r, last, unit) > r.maxDelayMs;
      }
    }
  }

  /** A draw that lifts the delay of such an attempt to MaxDelayMs + 1. */
  lemma LiftingDraw(r: RetryConfig, attempt: nat) returns (unit: real)
    requires ValidRetryConfig(r) && 9.0 * CappedDelay(r, attempt) > 8.0 * (r.maxDelayMs + 1) as real
    ensures 0.0 <= unit < 1.0 && CalculateDelay(r, attempt, unit) == r.maxDelayMs + 1
  {
    hide CappedDelay, WithJitter;
    CappedDelayBounds(r, attempt);
    var capped, lift := CappedDelay(r, attempt), r.maxDelayMs + 1;
    var k := LiftFactor(capped, lift as real);
    unit := 0.5 + 4.0 * k;
    JitterOf(capped, unit, k);
    assert WithJitter(capped, unit) == lift as real;
    assert (lift as real).Floor == lift;
  }

  lemma LiftFactor(capped: real, lift: real) returns (k: real)
    requires 0.0 < capped < lift && 8.0 * lift < 9.0 * capped
    ensures capped * k == lift - capped && 0.0 < k < 0.125
  {
    var gap := lift - capped;
    k := gap / capped;
    QuotientTimes(gap, capped);
    FactorSmall(capped, k, gap);
  }

  lemma FactorSmall(x: real, k: real, product: real)
    requires x > 0.0 && product == x * k && 0.0 < 8.0 * product < x
    ensures 0.0 < k < 0.125
  {
    FactorDecides(x, k);
  }

  lemma QuotientTimes(x: real, y: real)
    requires y > 0.0
    ensures y * (x / y) == x
  {
    var q := x / y;
    assert q * y == x;
  }

  lemma JitterOf(capped: real, unit: real, k: real)
    requires unit == 0.5 + 4.0 * k
    ensures WithJitter(capped, unit) == capped + capped * k
  {
    assert 0.25 * (unit - 0.5) == k;
    assert capped * 0.25 * (unit - 0.5) == capped * (0.25 * (unit - 0.5));
  }

  lemma CappedDelayBounds(r: RetryConfig, attempt: nat)
    requires ValidRetryConfig(r)
    ensures 0.0 < CappedDelay(r, attempt) <= r.maxDelayMs as real
  {
    ProductPositive(r.baseMs as real, Pow2(attempt) as real);
  }

  /** The first wait is around BaseMs, and each later one around twice the one before it, up to MaxDelayMs. */
  lemma CappedDelayDoubles(r: RetryConfig, attempt: nat)
    requires ValidRetryConfig(r)
    ensures CappedDelay(r, 0) == r.baseMs as real
    ensures CappedDelay(r, attempt + 1)
            == if 2.0 * CappedDelay(r, attempt) > r.maxDelayMs as real then r.maxDelayMs as real else 2.0 * CappedDelay(r, attempt)
  {
    ProductPositive(r.baseMs as real, Pow2(attempt) as real);
    assert Pow2(0) == 1;
    ExponentialDoubles(r, attempt);
    hide Exponential, Pow2;
  }

  lemma ExponentialDoubles(r: RetryConfig, attempt: nat)
    ensures Exponential(r, attempt + 1) == 2.0 * Exponential(r, attempt)
  {
    var power, twice := Pow2(attempt) as real, Pow2(attempt + 1) as real;
    assert twice == power + power;
    Distributes(r.baseMs as real, power, power);
  }

  /** The delay before the jitter does not shrink from one attempt to the next. */
  lemma {:induction false} CappedDelayGrows(r: RetryConfig, i: nat, j: nat)
    requires ValidRetryConfig(r) && i <= j
    ensures CappedDelay(r, i) <= CappedDelay(r, j)
    decreases j - i
  {
    hide Exponential;
    if i < j {
      CappedDelayGrows(r, i, j - 1);
      ExponentialGrows(r, j - 1);
    }
  }

  lemma ExponentialGrows(r: RetryConfig, attempt: nat)
    requires ValidRetryConfig(r)
    ensures Exponential(r, attempt) <= Exponential(r, attempt + 1)
  {
    var power, twice := Pow2(attempt) as real, Pow2(attempt + 1) as real;
    assert twice == 2.0 * power;
    hide Pow2;
    Doubled(r.baseMs as real, power, twice);
  }

  lemma Doubled(base: real, power: real, twice: real)
    requires base > 0.0 && power > 0.0 && twice == 2.0 * power
    ensures base * twice >= base * power
  {
    ProductNonNegative(base, power);
    Distributes(base, power, power);
    assert power + power == twice;
  }

  /** Of the shipped retry settings the default (5 attempts from 250 ms up to 8 s) keeps its cap; the
      production example (7 from 500 ms up to 15 s) does not. */
  lemma ShippedRetryConfigs()
    ensures var r := RetryConfig(5, 250, 8000);
      forall attempt: nat, unit: real | attempt < r.attempts - 1 && 0.0 <= unit < 1.0 :: CalculateDelay(r, attempt, unit) <= r.maxDelayMs
    ensures var r := RetryConfig(7, 500, 15000);
      exists attempt: nat, unit: real :: attempt < r.attempts - 1 && 0.0 <= unit < 1.0 && CalculateDelay(r, attempt, unit) > r.maxDelayMs
  {
    hide CalculateDelay;
    assert Pow2(3) == 8;
    assert Pow2(5) == 4 * Pow2(3);
    MaxDelayKeptExactly(RetryConfig(5, 250, 8000));
    var r := RetryConfig(7, 500, 15000);
    var unit := LiftingDraw(r, 5);
    assert 5 < r.attempts - 1 && CalculateDelay(r, 5, unit) > r.maxDelayMs;
  }

  lemma FactorDecides(x: real, k: real)
    requires x > 0.0
    ensures k >= 0.125 ==> x * k >= x * 0.125
    ensures k <= 0.0 ==> x * k <= 0.0
  {
    var above, below := k - 0.125, -k;
    assert x * (0.125 + above) == x * k;
    Distributes(x, 0.125, above);
    Distributes(x, k, below);
    if k >= 0.125 {
      ProductNonNegative(x, above);
    } else if k <= 0.0 {
      ProductNonNegative(x, below);
    }
  }

  lemma Distributes(x: real, a: real, b: real)
    ensures x * (a + b) == x * a + x * b
  {
  }

  lemma ProductNonNegative(x: real, y: real)
    requires x > 0.0 && y >= 0.0
    ensures x * y >= 0.0
  {
  }

  lemma FloorBelow(delay: real, max: int)
    requires 0.0 <= delay && 8.0 * delay < 9.0 * max as real
    ensures 0 <= delay.Floor && 8 * delay.Floor < 9 * max && delay - 1.0 < delay.Floor as real <= delay
  {
    assert delay.Floor as real <= delay;
  }

  lemma ProductPositive(x: real, y: real)
    requires x > 0.0 && y > 0.0
    ensures x * y > 0.0
  {
  }

  lemma JitterWithinEighth(capped: real, unit: real)
    requires capped > 0.0 && 0.0 <= unit < 1.0
    ensures 0.0 <= 7.0 * capped <= 8.0 * WithJitter(capped, unit) < 9.0 * capped
  {
    var k := 0.25 * (unit - 0.5);
    assert capped * 0.25 * (unit - 0.5) == capped * k;
    ProductBetween(capped, 8.0 * k);
    assert capped * (8.0 * k) == 8.0 * (capped * k);
  }

  lemma ProductBetween(x: real, y: real)
    requires x > 0.0 && -1.0 <= y < 1.0
    ensures -x <= x * y < x
  {
  }

  /** What the world decides during one burst, by attempt: how long the publisher takes, the
      jitter draw, how late the timer fires, and whether the context is cancelled while waiting. */
  datatype Timing = Timing(start: int, callTime: nat -> nat, unit: nat -> real, late: nat -> nat, cancelled: nat -> bool)

  datatype Setup = Setup(retry: RetryConfig, breaker: Breaker.Config, backend: Backend, timing: Timing)
  {
    ghost predicate Valid() {
      ValidRetryConfig(retry) && Breaker.ValidConfig(breaker) && backend.Valid()
      && forall a: nat :: 0.0 <= timing.unit(a) < 1.0
    }
  }

  /** A burst under way: the breaker, the publisher calls so far, the chunks accepted in it, the
      clock, and, once the burst has returned, what it returned. */
  datatype Progress = Progress(core: Breaker.Core, calls: nat, log: seq<Bytes>, now: int, verdict: Option<Option<Error>>)

  const BREAKER_OPEN: Error := Plain("circuit breaker is open")

  /** CircuitBreaker.Execute around the publisher. */
  function Execute(s: Setup, p: Progress, a: nat): (Progress, Option<Error>)
    requires s.backend.Valid() && s.breaker.window > 0
  {
    var (admitted, core) := Breaker.CanExecute(s.breaker, p.core, p.now);
    if !admitted then (p.(core := core), Some(BREAKER_OPEN))
    else
      var effect := Behaviour(s.backend, p.calls);
      var finish := p.now + s.timing.callTime(a);
      (Progress(Breaker.RecordResult(s.breaker, core, finish, effect.err == None),
                p.calls + 1, p.log + effect.accepted, finish, p.verdict), effect.err)
  }

  /** The rest of an iteration of ExecuteWithRetry: return, or wait for the next attempt. */
  function Settle(s: Setup, p: Progress, err: Option<Error>, a: nat): Progress {
    if err == None || !IsRetryableError(err.value) then p.(verdict := Some(err))
    else if a as int == s.retry.attempts - 1 then p.(verdict := Some(Some(Wrapped("failed after all attempts", err.value))))
    else if s.timing.cancelled(a) then p.(verdict := Some(Some(Plain("context done"))))
    else p.(now := p.now + CalculateDelay(s.retry, a, s.timing.unit(a)) * MS + s.timing.late(a))
  }

  function Attempt(s: Setup, p: Progress, a: nat): Progress
    requires s.backend.Valid() && s.breaker.window > 0
  {
    var (q, err) := Execute(s, p, a);
    Settle(s, q, err, a)
  }

  /** What one attempt does. The burst goes on after it if and only if the breaker admitted the call, its
      error was retryable at the outermost link, another attempt is left and the context is not
      cancelled; and then the wait is over only after the delay. */
  lemma AttemptEffect(s: Setup, p: Progress, a: nat)
    requires s.Valid() && p.verdict == None && a < s.retry.attempts
    ensures var q := Attempt(s, p, a);
      var admitted := Breaker.CanExecute(s.breaker, p.core, p.now).0;
      var called := Behaviour(s.backend, p.calls);
      && q.calls == p.calls + (if admitted then 1 else 0)
      && q.log == p.log + (if admitted then called.accepted else [])
      && (q.verdict == None <==> admitted && called.err.Some? && called.err.value.Retryable?
                                 && a + 1 < s.retry.attempts && !s.timing.cancelled(a))
      && (q.verdict == Some(None) <==> admitted && called.err == None)
      && (!admitted ==> q.verdict == Some(Some(Plain("circuit breaker is open"))))
      && (admitted && called.err.Some? && !called.err.value.Retryable? ==> q.verdict == Some(called.err))
      && (admitted && called.err.Some? && called.err.value.Retryable? && a + 1 == s.retry.attempts ==>
            q.verdict == Some(Some(Wrapped("failed after all attempts", called.err.value))))
      && (admitted && called.err.Some? && called.err.value.Retryable? && a + 1 < s.retry.attempts && s.timing.cancelled(a) ==>
            q.verdict == Some(Some(Plain("context done"))))
    ensures var q := Attempt(s, p, a);
      var (admitted, asked) := Breaker.CanExecute(s.breaker, p.core, p.now);
      var returned := p.now + s.timing.callTime(a);
      && q.core == (if admitted then Breaker.RecordResult(s.breaker, asked, returned, Behaviour(s.backend, p.calls).err == None) else asked)
      && (q.verdict == None ==> q.now == returned + 1_000_000 * CalculateDelay(s.retry, a, s.timing.unit(a)) + s.timing.late(a))
  {
    hide CalculateDelay, Behaviour, Breaker.CanExecute, Breaker.RecordResult;
  }

  function After(s: Setup, p: Progress, n: nat): Progress
    requires s.backend.Valid() && s.breaker.window > 0
  {
    if n == 0 then p
    else
      var q := After(s, p, n - 1);
      if q.verdict.Some? then q else Attempt(s, q, n - 1)
  }

  lemma {:induction false} VerdictIsFinal(s: Setup, p: Progress, m: nat, n: nat)
    requires s.Valid() && m <= n && After(s, p, m).verdict.Some?
    ensures After(s, p, n) == After(s, p, m)
    decreases n - m
  {
    hide Attempt;
    if m < n {
      VerdictIsFinal(s, p, m, n - 1);
    }
  }

  /** A burst calls the publisher at most once per attempt, and has returned by the last one. */
  lemma {:induction false} BurstIsBounded(s: Setup, p: Progress, n: nat)
    requires s.Valid() && p.verdict == None && n <= s.retry.attempts
    ensures p.calls <= After(s, p, n).calls <= p.calls + n
    ensures n == s.retry.attempts ==> After(s, p, n).verdict.Some?
  {
    if n > 0 {
      BurstIsBounded(s, p, n - 1);
    }
  }

  /** If ResetTimeoutMs >= 9/8 MaxDelayMs and the timer after it fires on time, a publisher call that leaves the
      breaker Open is the last publisher call of its burst: the next attempt is refused. */
  lemma TrippingCallIsLast(s: Setup, p: Progress, a: nat)
    requires s.Valid() && a < s.retry.attempts
    requires 8 * s.breaker.resetTimeoutMs >= 9 * s.retry.maxDelayMs
    requires s.timing.late(a) == 0
    requires After(s, p, a + 1).calls > After(s, p, a).calls
    requires After(s, p, a + 1).core.state == Breaker.Open
    ensures After(s, p, s.retry.attempts).calls == After(s, p, a + 1).calls
  {
    hide Attempt;
    var q := After(s, p, a + 1);
    if q.verdict == None {
      TripOutlastsTheWait(s, After(s, p, a), a);
      RefusedWhileOpen(s, q, a + 1);
      VerdictIsFinal(s, p, a + 2, s.retry.attempts);
    } else {
      VerdictIsFinal(s, p, a + 1, s.retry.attempts);
    }
  }

  /** Such a burst exists: a window of one, and a publisher whose every error is retryable. */
  lemma TrippingCallExists() returns (s: Setup, p: Progress)
    ensures s.Valid() && 8 * s.breaker.resetTimeoutMs >= 9 * s.retry.maxDelayMs && forall k: nat :: s.timing.late(k) == 0
    ensures s.retry.attempts > 1 && After(s, p, 1).verdict == None
    ensures After(s, p, 1).calls > After(s, p, 0).calls && After(s, p, 1).core.state == Breaker.Open
  {
    hide CalculateDelay;
    s := Setup(RetryConfig(3, 1, 8), Breaker.Config(1, Breaker.Number(1.0), 9, 1),
               OtherPublisher(_ => Effect([], Some(Retryable(Plain("unavailable"))))),
               Timing(0, _ => 0, _ => 0.0, _ => 0, _ => false));
    p := Progress(Breaker.INITIAL, 0, [], 0, None);
    assert After(s, p, 0) == p;
    assert After(s, p, 1) == Attempt(s, p, 0);
    Breaker.RateTestIsVacuous(s.breaker, 1);
  }

  lemma TripOutlastsTheWait(s: Setup, p: Progress, a: nat)
    requires s.Valid() && p.verdict == None
    requires 8 * s.breaker.resetTimeoutMs >= 9 * s.retry.maxDelayMs && s.timing.late(a) == 0
    requires var q := Attempt(s, p, a); q.calls > p.calls && q.core.state == Breaker.Open && q.verdict == None
    ensures Attempt(s, p, a).now <= Attempt(s, p, a).core.nextAttemptTime
    ensures a as int != s.retry.attempts - 1
  {
    hide CalculateDelay;
    DelayBelowNineEighths(s.retry, a, s.timing.unit(a));
  }

  /** After a call that trips the breaker mid-burst, the next attempt reaches the publisher if and only
      if the wait outlasts the reset timeout. */
  lemma CallAfterTripExactly(s: Setup, p: Progress, a: nat)
    requires s.Valid() && p.verdict == None
    requires var q := Attempt(s, p, a); q.calls > p.calls && q.core.state == Breaker.Open && q.verdict == None
    ensures var q := Attempt(s, p, a);
      Attempt(s, q, a + 1).calls > q.calls
      <==> CalculateDelay(s.retry, a, s.timing.unit(a)) * MS + s.timing.late(a) > s.breaker.resetTimeoutMs * MS
  {
    hide CalculateDelay;
    var q := Attempt(s, p, a);
    if q.now <= q.core.nextAttemptTime {
      RefusedWhileOpen(s, q, a + 1);
    }
  }

  lemma RefusedWhileOpen(s: Setup, q: Progress, a: nat)
    requires s.Valid() && q.verdict == None && q.core.state == Breaker.Open && q.now <= q.core.nextAttemptTime
    ensures Attempt(s, q, a) == q.(verdict := Some(Some(BREAKER_OPEN)))
  {
  }

  // ---- the bus ----

  /** NewBusPublisher takes the chunk size from the configuration. */
  predicate Configured(b: Backend, c: Config) {
    b.BusPublisher? ==> b.maxPayloadBytes == c.maxPayloadBytes
  }

  lemma ConfigParts(c: Config)
    requires ValidConfig(c)
    ensures ValidRetryConfig(c.retry) && Breaker.ValidConfig(c.breaker) && c.maxPayloadBytes > 0
  {
  }

  /** A publish call appended a prefix of the payload's chunks to the log, none over the limit, and
      returned nil exactly when it appended them all, so that they make up the payload. */
  ghost predicate Delivered(before: seq<Bytes>, log: seq<Bytes>, err: Option<Error>, max: int, payload: Bytes) {
    && max > 0 && |before| <= |log| <= |before| + |Chunks(max, payload)|
    && log == before + Chunks(max, payload)[..|log| - |before|]
    && (forall i :: |before| <= i < |log| ==> |log[i]| <= max)
    && (err == None <==> log == before + Chunks(max, payload))
    && (err == None ==> Concat(log[|before|..]) == payload)
  }

  class Bus {
    const config: Config
    const publisher: Publisher
    const breaker: Breaker.CircuitBreaker

    /** The parts are built from the one configuration. */
    ghost predicate Wired() {
      && ValidConfig(config) && breaker.cfg == config.breaker
      && publisher.backend.Valid() && Configured(publisher.backend, config)
    }

    constructor (config: Config, publisher: Publisher)
      requires ValidConfig(config) && publisher.backend.Valid() && Configured(publisher.backend, config)
      ensures this.config == config && this.publisher == publisher && Wired()
      ensures fresh(breaker) && breaker.View() == Breaker.INITIAL
    {
      this.config := config;
      this.publisher := publisher;
      this.breaker := new Breaker.CircuitBreaker(config.breaker);
    }

    ghost function Snapshot(now: int): Progress
      reads breaker, publisher
    {
      Progress(breaker.View(), publisher.calls, publisher.log, now, None)
    }

    /** Bus.PublishBars: one burst of the retry loop, or nothing at all when publishing is disabled. Over
        the chunk-sending publisher it delivers a prefix of the chunks of the configured size. */
    method PublishBars(timing: Timing) returns (err: Option<Error>)
      requires Wired()
      requires forall a: nat :: 0.0 <= timing.unit(a) < 1.0
      modifies breaker, publisher
      ensures !config.enabled ==> err == Some(Plain("bus publishing is disabled")) && Snapshot(0) == old(Snapshot(0))
      ensures config.enabled ==>
        var q := After(Setup(config.retry, config.breaker, publisher.backend, timing),
                       old(Snapshot(timing.start)), config.retry.attempts);
        q.verdict == Some(err) && Snapshot(0) == q.(now := 0, verdict := None)
      ensures config.enabled && publisher.backend.BusPublisher? && publisher.backend.marshal.Ok? ==>
        Delivered(old(publisher.log), publisher.log, err, config.maxPayloadBytes, publisher.backend.marshal.value)
    {
      hide After, Delivered, ValidConfig;
      ConfigParts(config);
      if !config.enabled {
        return Some(Plain("bus publishing is disabled"));
      }
      ghost var s, p := Setup(config.retry, config.breaker, publisher.backend, timing), Snapshot(timing.start);
      err := ExecuteWithRetry(timing, Setup(config.retry, config.breaker, publisher.backend, timing));
      if publisher.backend.BusPublisher? && publisher.backend.marshal.Ok? {
        BurstDelivers(s, p, err);
      }
    }

    method ExecuteWithRetry(timing: Timing, ghost s: Setup) returns (err: Option<Error>)
      requires s == Setup(config.retry, breaker.cfg, publisher.backend, timing) && s.Valid()
      modifies breaker, publisher
      ensures var q := After(s, old(Snapshot(timing.start)), config.retry.attempts);
        q.verdict == Some(err) && Snapshot(0) == q.(now := 0, verdict := None)
    {
      hide Attempt;
      ghost var p := Snapshot(timing.start);
      BurstIsBounded(s, p, config.retry.attempts);
      var now := timing.start;
      var attempt := 0;
      while attempt < config.retry.attempts
        invariant 0 <= attempt <= config.retry.attempts
        invariant After(s, p, attempt) == Snapshot(now)
      {
        var verdict;
        verdict, now := RunAttempt(timing, attempt, now, s);
        if verdict.Some? {
          VerdictIsFinal(s, p, attempt + 1, config.retry.attempts);
          return verdict.value;
        }
        attempt := attempt + 1;
      }
      assert false;
      err := None;
    }

    /** One iteration of the retry loop; `verdict` is what it returns, if it returns. */
    method RunAttempt(timing: Timing, attempt: nat, now: int, ghost s: Setup)
      returns (verdict: Option<Option<Error>>, next: int)
      requires s == Setup(config.retry, breaker.cfg, publisher.backend, timing) && s.Valid()
      modifies breaker, publisher
      ensures Snapshot(next).(verdict := verdict) == Attempt(s, old(Snapshot(now)), attempt)
    {
      var err;
      err, next := ExecuteOnce(timing, attempt, now, s);
      if err == None || !IsRetryableError(err.value) {
        return Some(err), next;
      }
      if attempt == config.retry.attempts - 1 {
        return Some(Some(Wrapped("failed after all attempts", err.value))), next;
      }
      if timing.cancelled(attempt) {
        return Some(Some(Plain("context done"))), next;
      }
      return None, next + CalculateDelay(config.retry, attempt, timing.unit(attempt)) * MS + timing.late(attempt);
    }

    /** CircuitBreaker.Execute around the publisher. */
    method ExecuteOnce(timing: Timing, attempt: nat, now: int, ghost s: Setup) returns (err: Option<Error>, finish: int)
      requires s == Setup(config.retry, breaker.cfg, publisher.backend, timing) && s.Valid()
      modifies breaker, publisher
      ensures (Snapshot(finish), err) == Execute(s, old(Snapshot(now)), attempt)
    {
      finish := now;
      var admitted := breaker.TryExecute(now);
      if !admitted {
        return Some(BREAKER_OPEN), finish;
      }
      err := publisher.PublishBars();
      finish := now + timing.callTime(attempt);
      breaker.Record(finish, err == None);
    }
  }

  /** BusPublisher wraps every transport error, so even a retryable one ends the burst: a burst over
      it calls the publisher at most once. */
  lemma BusPublisherIsNeverRetried(s: Setup, p: Progress)
    requires s.Valid() && s.backend.BusPublisher? && p.verdict == None
    ensures After(s, p, s.retry.attempts) == Attempt(s, p, 0)
    ensures Attempt(s, p, 0).calls <= p.calls + 1
  {
    if s.backend.marshal.Ok? {
      SendFromStopsAtFirstRefusal(Chunks(s.backend.maxPayloadBytes, s.backend.marshal.value),
                                  s.backend.transport(p.calls), 0);
    }
    assert After(s, p, 1) == Attempt(s, p, 0);
    VerdictIsFinal(s, p, 1, s.retry.attempts);
  }

  /** One Bus.PublishBars over BusPublisher, under any transport: the accepted chunks are a prefix of
      the payload's chunks, in order and never repeated; they are all of them exactly when the call
      returns nil, and then they concatenate to the payload. */
  lemma AcceptedChunksArePrefix(s: Setup, p: Progress)
    requires s.Valid() && s.backend.BusPublisher? && p.verdict == None
    ensures var q := After(s, p, s.retry.attempts);
      var cs := if s.backend.marshal.Ok? then Chunks(s.backend.maxPayloadBytes, s.backend.marshal.value) else [];
      && |p.log| <= |q.log| <= |p.log| + |cs|
      && q.log == p.log + cs[..|q.log| - |p.log|]
      && (q.verdict == Some(None) <==> s.backend.marshal.Ok? && q.log == p.log + cs)
      && (q.verdict == Some(None) ==> q.log[..|p.log|] == p.log && Concat(q.log[|p.log|..]) == s.backend.marshal.value)
  {
    hide Chunks, Concat, CalculateDelay, SendFrom;
    BusPublisherIsNeverRetried(s, p);
    if s.backend.marshal.Ok? {
      var max, payload := s.backend.maxPayloadBytes, s.backend.marshal.value;
      var cs := Chunks(max, payload);
      SendFromStopsAtFirstRefusal(cs, s.backend.transport(p.calls), 0);
      ChunksPartitionPayload(max, payload);
      assert cs[..|cs|] == cs;
      var q := Attempt(s, p, 0);
      assert q.log == p.log + cs ==> |q.log| == |p.log| + |cs|;
      assert q.verdict == Some(None) ==> q.log[|p.log|..] == cs;
    }
  }

  lemma BurstDelivers(s: Setup, p: Progress, err: Option<Error>)
    requires s.Valid() && s.backend.BusPublisher? && s.backend.marshal.Ok? && p.verdict == None
    requires After(s, p, s.retry.attempts).verdict == Some(err)
    ensures Delivered(p.log, After(s, p, s.retry.attempts).log, err, s.backend.maxPayloadBytes, s.backend.marshal.value)
  {
    hide After, Concat;
    AcceptedChunksArePrefix(s, p);
    ChunksPartitionPayload(s.backend.maxPayloadBytes, s.backend.marshal.value);
  }
}

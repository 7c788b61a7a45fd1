/** The scraper's token bucket, which holds its mutex while it waits, and the limiter that shares
    one bucket among all hosts. Seconds and tokens are reals. */
module ScrapeBucket {
  import opened Prelude

  /** The fields of one bucket. `released` is the instant the mutex was last given up: no later
      call reads the clock before it. */
  datatype Bucket = Bucket(tokens: real, capacity: real, rate: real, lastTime: real, released: real)
  {
    ghost predicate Valid() {
      0.0 <= tokens <= capacity && rate >= 0.0 && lastTime <= released
    }
  }

  /** One call of Wait: when it gets the mutex, how much longer than asked its timer takes, and,
      if its context is cancelled while it waits, after how long. */
  datatype Call = Call(start: real, late: real, cancelAfter: Option<real>)

  function MinReal(a: real, b: real): real {
    if a <= b then a else b
  }

  /** The tokens that `dt` seconds are worth. */
  function Earned(rate: real, dt: real): real {
    rate * dt
  }

  function Refill(b: Bucket, now: real): Bucket {
    b.(tokens := MinReal(b.capacity, b.tokens + Earned(b.rate, now - b.lastTime)), lastTime := now, released := now)
  }

  /** How long a call that finds less than one token waits: until the missing part is earned. With rate
      0 the quotient is infinite, and converts to the least duration (as on amd64): the timer fires at
      once. */
  function WaitTime(tokens: real, rate: real): real
    requires rate >= 0.0
  {
    if rate > 0.0 then (1.0 - tokens) / rate else 0.0
  }

  ghost predicate Feasible(b: Bucket, c: Call) {
    && c.start >= b.released && c.late >= 0.0
    && b.rate >= 0.0
    && (c.cancelAfter.Some? ==> 0.0 <= c.cancelAfter.value)
  }

  /** Wait: whether the call is granted a token, and the bucket it leaves. */
  function WaitStep(b: Bucket, c: Call): (bool, Bucket)
    requires b.rate >= 0.0
  {
    var r := Refill(b, c.start);
    if r.tokens >= 1.0 then (true, r.(tokens := r.tokens - 1.0))
    else
      match c.cancelAfter
      case Some(t) => (false, r.(released := c.start + t))
      case None => (true, r.(tokens := 0.0, released := c.start + WaitTime(r.tokens, r.rate) + c.late))
  }

  /** The effect of one call, in numbers. Time earns tokens up to the capacity; a whole token is taken at
      once; a cancelled wait costs nothing; and a wait is as long as the missing part takes to earn and
      leaves the bucket empty as of its start. */
  lemma WaitEffect(b: Bucket, c: Call)
    requires b.Valid() && Feasible(b, c)
    ensures var (granted, a) := WaitStep(b, c);
      var refilled := if b.tokens + b.rate * (c.start - b.lastTime) <= b.capacity then b.tokens + b.rate * (c.start - b.lastTime) else b.capacity;
      && a.capacity == b.capacity && a.rate == b.rate && a.lastTime == c.start
      && (granted <==> refilled >= 1.0 || c.cancelAfter == None)
      && (refilled >= 1.0 ==> a.tokens == refilled - 1.0 && a.released == c.start)
      && (refilled < 1.0 && c.cancelAfter.Some? ==> a.tokens == refilled && a.released == c.start + c.cancelAfter.value)
      && (refilled < 1.0 && c.cancelAfter.None? ==> a.tokens == 0.0)
      && (refilled < 1.0 && c.cancelAfter.None? && b.rate > 0.0 ==> b.rate * (a.released - c.start - c.late) == 1.0 - refilled)
      && (refilled < 1.0 && c.cancelAfter.None? && b.rate == 0.0 ==> a.released == c.start + c.late)
  {
    var refilled := Refill(b, c.start).tokens;
    assert Earned(b.rate, c.start - b.lastTime) == b.rate * (c.start - b.lastTime);
    if b.rate > 0.0 {
      RateTimesWait(refilled, b.rate);
    }
    hide Earned, WaitTime;
    var a := WaitStep(b, c).1;
    if refilled < 1.0 && c.cancelAfter.None? {
      assert a.released - c.start - c.late == WaitTime(refilled, b.rate);
      NoWaitWithoutRate(refilled);
    }
  }

  lemma RateTimesWait(tokens: real, rate: real)
    requires rate > 0.0
    ensures rate * WaitTime(tokens, rate) == 1.0 - tokens
  {
  }

  lemma NoWaitWithoutRate(tokens: real)
    ensures WaitTime(tokens, 0.0) == 0.0
  {
  }

  class TokenBucket {
    var tokens: real
    const capacity: real
    const rate: real
    var lastTime: real
    ghost var released: real

    ghost function View(): Bucket
      reads this
    {
      Bucket(tokens, capacity, rate, lastTime, released)
    }

    constructor (burst: nat, qps: real, now: real)
      requires qps >= 0.0
      ensures View() == Bucket(burst as real, burst as real, qps, now, now) && View().Valid()
    {
      tokens, capacity, rate, lastTime, released := burst as real, burst as real, qps, now, now;
    }

    method Wait(c: Call) returns (granted: bool)
      requires View().Valid() && Feasible(View(), c)
      modifies this
      ensures (granted, View()) == WaitStep(old(View()), c)
    {
      hide Earned, WaitTime;
      var now := c.start;
      tokens := tokens + Earned(rate, now - lastTime);
      if tokens > capacity {
        tokens := capacity;
      }
      lastTime := now;
      released := now;
      if tokens >= 1.0 {
        tokens := tokens - 1.0;
        return true;
      }
      var waitTime := WaitTime(tokens, rate);
      match c.cancelAfter {
        case Some(t) =>
          released := now + t;
          return false;
        case None =>
          tokens := 0.0; // lastTime stays at the start of the wait
          released := now + waitTime + c.late;
          return true;
      }
    }
  }

  /** RateLimiter.Wait: the first call creates the one bucket every later call shares. */
  class RateLimiter {
    var limiters: map<string, TokenBucket>
    const qps: real
    const burst: nat

    constructor (qps: real, burst: nat)
      requires qps >= 0.0
      ensures this.qps == qps && this.burst == burst && limiters == map[]
    {
      this.qps, this.burst, limiters := qps, burst, map[];
    }

    method Global(now: real) returns (bucket: TokenBucket)
      requires qps >= 0.0
      modifies this`limiters
      ensures limiters == old(limiters)["global" := bucket]
      ensures "global" in old(limiters) ==> limiters == old(limiters)
      ensures "global" !in old(limiters) ==>
        fresh(bucket) && bucket.View() == Bucket(burst as real, burst as real, qps, now, now)
    {
      if "global" !in limiters {
        bucket := new TokenBucket(burst, qps, now);
        limiters := limiters["global" := bucket];
      } else {
        bucket := limiters["global"];
      }
    }

    /** The shared bucket, or the full one a call at `now` would create. */
    ghost function Shared(now: real): Bucket
      reads this, if "global" in limiters then {limiters["global"]} else {}
    {
      if "global" in limiters then limiters["global"].View() else Bucket(burst as real, burst as real, qps, now, now)
    }

    /** Whatever the host, a call is one step of the one shared bucket. */
    method Wait(now: real, c: Call) returns (granted: bool)
      requires qps >= 0.0 && Shared(now).Valid() && Feasible(Shared(now), c)
      modifies this`limiters, if "global" in limiters then {limiters["global"]} else {}
      ensures "global" in limiters && (granted, Shared(now)) == WaitStep(old(Shared(now)), c)
      ensures forall host :: host in old(limiters) ==> host in limiters && limiters[host] == old(limiters)[host]
    {
      hide WaitStep;
      var bucket := Global(now);
      granted := bucket.Wait(c);
    }
  }

  // ---- runs ----

  function After(b: Bucket, calls: seq<Call>): Bucket
    requires b.rate >= 0.0
    ensures After(b, calls).rate == b.rate && After(b, calls).capacity == b.capacity
  {
    if calls == [] then b else WaitStep(After(b, calls[..|calls| - 1]), calls[|calls| - 1]).1
  }

  function Grants(b: Bucket, calls: seq<Call>): nat
    requires b.rate >= 0.0
  {
    if calls == [] then 0
    else
      var prefix := calls[..|calls| - 1];
      Grants(b, prefix) + if WaitStep(After(b, prefix), calls[|calls| - 1]).0 then 1 else 0
  }

  /** The calls are serialised by the mutex: each starts no earlier than the one before released it. */
  ghost predicate Serialised(b: Bucket, calls: seq<Call>)
    requires b.rate >= 0.0
  {
    forall k :: 0 <= k < |calls| ==> Feasible(After(b, calls[..k]), calls[k])
  }

  lemma SerialisedPrefix(b: Bucket, calls: seq<Call>, n: nat)
    requires b.rate >= 0.0 && Serialised(b, calls) && n <= |calls|
    ensures Serialised(b, calls[..n])
  {
    forall k | 0 <= k < n ensures Feasible(After(b, calls[..n][..k]), calls[..n][k]) {
      assert calls[..n][..k] == calls[..k];
    }
  }

  /** What the bucket is worth at an instant: its tokens if it were refilled there and then. */
  function Worth(b: Bucket, now: real): real {
    MinReal(b.capacity, b.tokens + Earned(b.rate, now - b.lastTime))
  }

  /** Twice what the rate yields in dt seconds. */
  function Allowance(rate: real, dt: real): real {
    2.0 * Earned(rate, dt)
  }

  lemma EarnedAdds(rate: real, x: real, y: real)
    ensures Earned(rate, x + y) == Earned(rate, x) + Earned(rate, y)
  {
  }

  lemma EarnedNonNegative(rate: real, dt: real)
    requires rate >= 0.0 && dt >= 0.0
    ensures Earned(rate, dt) >= 0.0
  {
  }

  lemma AllowanceAdds(rate: real, x: real, y: real, z: real)
    ensures Allowance(rate, x) + Allowance(rate, y) + Allowance(rate, z) == Allowance(rate, x + y + z)
  {
    hide Earned;
    EarnedAdds(rate, x + y, z);
    EarnedAdds(rate, x, y);
  }

  /** Idling for dt adds at most rate * dt. */
  lemma WorthGrowsByRate(b: Bucket, t0: real, t1: real)
    requires b.Valid() && t0 <= t1
    ensures Worth(b, t0) <= Worth(b, t1) <= Worth(b, t0) + Allowance(b.rate, t1 - t0)
  {
    hide Earned;
    EarnedAdds(b.rate, t0 - b.lastTime, t1 - t0);
    EarnedNonNegative(b.rate, t1 - t0);
  }

  /** One call: a grant is paid for by worth plus twice the rate times the time it takes. The factor
      is two because the wait is credited again on the next call: lastTime is not moved past it. */
  lemma StepPays(b: Bucket, c: Call)
    requires b.Valid() && b.rate > 0.0 && Feasible(b, c)
    ensures var (granted, a) := WaitStep(b, c);
      && a.Valid() && a.released >= c.start
      && (if granted then 1.0 else 0.0) + Worth(a, a.released)
         <= Worth(b, c.start) + Allowance(b.rate, a.released - c.start)
  {
    hide Earned;
    var r := Refill(b, c.start);
    EarnedNonNegative(b.rate, c.start - b.lastTime);
    if r.tokens < 1.0 {
      var spent := if c.cancelAfter.Some? then c.cancelAfter.value else WaitTime(r.tokens, r.rate) + c.late;
      WaitEarnsTheRest(r.tokens, r.rate, c.late);
      EarnedNonNegative(b.rate, spent);
      SlowCallPays(b.rate, r.tokens, r.capacity, spent, c.cancelAfter == None);
    } else {
      AllowanceOfNoTime(b.rate);
    }
  }

  /** The arithmetic of a call that waits for `spent` with `tokens` in hand. */
  lemma SlowCallPays(rate: real, tokens: real, capacity: real, spent: real, granted: bool)
    requires Earned(rate, spent) >= 0.0 && 0.0 <= tokens <= capacity
    requires granted ==> Earned(rate, spent) >= 1.0 - tokens
    ensures (if granted then 1.0 else 0.0) + MinReal(capacity, (if granted then 0.0 else tokens) + Earned(rate, spent))
            <= tokens + Allowance(rate, spent)
  {
    hide Earned;
  }

  /** A timer that does not fire early waits out at least the missing part of a token. */
  lemma WaitEarnsTheRest(tokens: real, rate: real, late: real)
    requires rate > 0.0 && tokens < 1.0 && late >= 0.0
    ensures WaitTime(tokens, rate) > 0.0
    ensures Earned(rate, WaitTime(tokens, rate) + late) >= 1.0 - tokens
  {
    WaitPositive(1.0 - tokens, rate);
    assert Earned(rate, WaitTime(tokens, rate)) == 1.0 - tokens;
    hide WaitTime, Earned;
    EarnedAdds(rate, WaitTime(tokens, rate), late);
    EarnedNonNegative(rate, late);
  }

  lemma WaitPositive(x: real, y: real)
    requires x > 0.0 && y > 0.0
    ensures x / y > 0.0
  {
  }

  /** Whatever the rate, 0 <= tokens <= capacity holds throughout a run. */
  lemma {:induction false} StaysValid(b: Bucket, calls: seq<Call>)
    requires b.Valid() && Serialised(b, calls)
    ensures After(b, calls).Valid() && After(b, calls).released >= b.released
  {
    hide WaitStep, Feasible;
    if calls != [] {
      SerialisedPrefix(b, calls, |calls| - 1);
      StaysValid(b, calls[..|calls| - 1]);
      LastIsFeasible(b, calls);
      StepValid(After(b, calls[..|calls| - 1]), calls[|calls| - 1]);
    }
  }

  lemma StepValid(b: Bucket, c: Call)
    requires b.Valid() && Feasible(b, c)
    ensures var a := WaitStep(b, c).1; a.Valid() && a.released >= b.released
  {
    hide Earned, WaitTime;
    var r := Refill(b, c.start);
    EarnedNonNegative(b.rate, c.start - b.lastTime);
    WaitNotNegative(r.tokens, r.rate);
  }

  lemma WaitNotNegative(tokens: real, rate: real)
    requires rate >= 0.0
    ensures tokens < 1.0 ==> WaitTime(tokens, rate) >= 0.0
  {
    if tokens < 1.0 && rate > 0.0 {
      WaitPositive(1.0 - tokens, rate);
    }
  }

  /** Over any stretch of calls, 0 <= tokens <= capacity holds throughout, and grants are bounded by
      what the bucket was worth at the start plus 2 * rate * elapsed. */
  lemma {:induction false} GrantsPaidFor(b: Bucket, calls: seq<Call>)
    requires b.Valid() && b.rate > 0.0 && Serialised(b, calls)
    ensures After(b, calls).Valid() && After(b, calls).released >= b.released
    ensures var a := After(b, calls);
      Grants(b, calls) as real + Worth(a, a.released)
      <= Worth(b, b.released) + Allowance(b.rate, a.released - b.released)
  {
    hide WaitStep, Worth, Allowance, Feasible;
    if calls == [] {
      AllowanceOfNoTime(b.rate);
    } else {
      var n := |calls| - 1;
      var m, c := After(b, calls[..n]), calls[n];
      SerialisedPrefix(b, calls, n);
      GrantsPaidFor(b, calls[..n]);
      StartsAfterRelease(m, c);
      StepPays(m, c);
      WorthGrowsByRate(m, m.released, c.start);
      var a := After(b, calls);
      AllowanceAdds(b.rate, m.released - b.released, c.start - m.released, a.released - c.start);
    }
  }

  lemma AllowanceOfNoTime(rate: real)
    ensures Allowance(rate, 0.0) == 0.0
  {
  }

  lemma StartsAfterRelease(b: Bucket, c: Call)
    requires Feasible(b, c)
    ensures c.start >= b.released
  {
  }

  /** Between any two points of a run, at most burst + 2 * rate * elapsed tokens are granted. */
  lemma GrantBound(b: Bucket, calls: seq<Call>)
    requires b.Valid() && b.rate > 0.0 && Serialised(b, calls)
    ensures Grants(b, calls) as real <= b.capacity + 2.0 * b.rate * (After(b, calls).released - b.released)
  {
    hide WaitStep, Worth, Allowance, Feasible, Grants, After, Serialised;
    GrantsPaidFor(b, calls);
    var a := After(b, calls);
    WorthWithinCapacity(b, b.released);
    WorthWithinCapacity(a, a.released);
    AllowanceIs(b.rate, a.released - b.released);
  }

  /** The same for the stretch between calls i and j of a run that starts with a full bucket. */
  lemma StretchBound(burst: nat, rate: real, now: real, calls: seq<Call>, i: nat, j: nat)
    requires rate > 0.0 && i <= j <= |calls|
    requires Serialised(Bucket(burst as real, burst as real, rate, now, now), calls)
    ensures var b := Bucket(burst as real, burst as real, rate, now, now);
      (Grants(b, calls[..j]) - Grants(b, calls[..i])) as real
      <= burst as real + 2.0 * rate * (After(b, calls[..j]).released - After(b, calls[..i]).released)
  {
    hide After, Grants, Serialised, Worth, Allowance;
    var b := Bucket(burst as real, burst as real, rate, now, now);
    SerialisedPrefix(b, calls, i);
    GrantsPaidFor(b, calls[..i]);
    assert calls[..j] == calls[..i] + calls[i..j];
    SerialisedPrefix(b, calls, j);
    RunSplits(b, calls[..i], calls[i..j]);
    GrantBound(After(b, calls[..i]), calls[i..j]);
  }

  lemma {:induction false} RunSplits(b: Bucket, p: seq<Call>, q: seq<Call>)
    requires b.rate >= 0.0 && Serialised(b, p + q)
    ensures After(b, p + q) == After(After(b, p), q)
    ensures Grants(b, p + q) == Grants(b, p) + Grants(After(b, p), q)
    ensures Serialised(After(b, p), q)
  {
    hide WaitStep, Feasible;
    if q == [] {
      assert p + q == p;
    } else {
      var r, n := q[..|q| - 1], |p + q| - 1;
      assert (p + q)[..n] == p + r;
      SerialisedPrefix(b, p + q, n);
      RunSplits(b, p, r);
      assert Feasible(After(b, (p + q)[..n]), (p + q)[n]);
      SerialisedSnoc(After(b, p), r, q[|q| - 1]);
      assert q == r + [q[|q| - 1]];
    }
  }

  lemma AllowanceIs(rate: real, dt: real)
    ensures Allowance(rate, dt) == 2.0 * rate * dt
  {
  }

  lemma WorthWithinCapacity(b: Bucket, now: real)
    requires b.Valid() && now >= b.lastTime
    ensures 0.0 <= Worth(b, now) <= b.capacity
  {
    hide Earned;
    EarnedNonNegative(b.rate, now - b.lastTime);
  }

  // ---- the factor two is exact ----

  /** The instant k / rate, when the k-th token after the burst is earned. */
  function TimeOf(rate: real, k: nat): real
    requires rate > 0.0
  {
    k as real / rate
  }

  /** Calls at instant 0, as many as the burst, say. */
  function Opening(burst: nat): (calls: seq<Call>)
    ensures |calls| == burst
  {
    if burst == 0 then [] else Opening(burst - 1) + [Call(0.0, 0.0, None)]
  }

  /** A caller that asks again the moment it is served, with punctual timers: the burst, then n pairs of calls. */
  function BackToBack(burst: nat, rate: real, n: nat): seq<Call>
    requires rate > 0.0
    ensures |BackToBack(burst, rate, n)| == burst + 2 * n
  {
    if n == 0 then Opening(burst)
    else
      BackToBack(burst, rate, n - 1) + [Call(TimeOf(rate, n - 1), 0.0, None), Call(TimeOf(rate, n), 0.0, None)]
  }

  function FullBucket(burst: nat, rate: real): Bucket {
    Bucket(burst as real, burst as real, rate, 0.0, 0.0)
  }

  /** For every burst of at least 1, every rate and every n, a back-to-back caller gets burst + 2n
      grants in n / rate seconds, which is the bound of GrantBound with equality. */
  lemma FactorTwoIsExact(burst: nat, rate: real, n: nat)
    requires rate > 0.0 && burst >= 1
    ensures var b, calls := FullBucket(burst, rate), BackToBack(burst, rate, n);
      && b.Valid() && Serialised(b, calls)
      && Grants(b, calls) == burst + 2 * n
      && After(b, calls).released == TimeOf(rate, n)
      && Grants(b, calls) as real == b.capacity + 2.0 * rate * (After(b, calls).released - b.released)
  {
    hide Serialised, After, Grants, TimeOf, BackToBack;
    BackToBackRun(burst, rate, n);
    RateTimesTime(rate, n);
  }

  /** A caller of a new bucket gets at most the burst plus what the configured rate yields. */
  ghost predicate RateKept(burst: nat, rate: real)
    requires rate >= 0.0
  {
    forall calls: seq<Call> | Serialised(FullBucket(burst, rate), calls) ::
      Grants(FullBucket(burst, rate), calls) as real
      <= burst as real + Earned(rate, After(FullBucket(burst, rate), calls).released)
  }

  /** The configured rate is kept in every run if and only if the burst is 0, so that the waited time is
      never credited, and the rate is not 0, at which nobody waits. */
  lemma RateKeptExactly(burst: nat, rate: real)
    requires rate >= 0.0
    ensures RateKept(burst, rate) <==> burst == 0 && rate > 0.0
  {
    hide Serialised, Grants, After, Earned, BackToBack, Opening;
    var b := FullBucket(burst, rate);
    if rate == 0.0 {
      ZeroRateRun(burst, 1);
      EarnedAtNoRate(0.0);
      assert Grants(b, Opening(burst + 1)) == burst + 1;
    } else if burst == 0 {
      forall calls: seq<Call> | Serialised(b, calls) ensures Grants(b, calls) as real <= Earned(rate, After(b, calls).released) {
        WithoutBurst(rate, calls);
      }
    } else {
      FactorTwoIsExact(burst, rate, 1);
      FirstTime(rate);
      assert Grants(b, BackToBack(burst, rate, 1)) == burst + 2;
    }
  }

  /** A caller of a new bucket gets at most the burst plus twice what the rate yields. */
  ghost predicate TwiceRateKept(burst: nat, rate: real)
    requires rate >= 0.0
  {
    forall calls: seq<Call> | Serialised(FullBucket(burst, rate), calls) ::
      Grants(FullBucket(burst, rate), calls) as real
      <= burst as real + Allowance(rate, After(FullBucket(burst, rate), calls).released)
  }

  /** Twice the rate is kept in every run if and only if the rate is not 0. */
  lemma TwiceRateKeptExactly(burst: nat, rate: real)
    requires rate >= 0.0
    ensures TwiceRateKept(burst, rate) <==> rate > 0.0
  {
    hide Serialised, Grants, After, Earned, Opening, Worth;
    var b := FullBucket(burst, rate);
    if rate == 0.0 {
      ZeroRateRun(burst, 1);
      EarnedAtNoRate(0.0);
      assert Grants(b, Opening(burst + 1)) == burst + 1;
    } else {
      forall calls: seq<Call> | Serialised(b, calls)
        ensures Grants(b, calls) as real <= burst as real + Allowance(rate, After(b, calls).released)
      {
        GrantsPaidFor(b, calls);
        WorthWithinCapacity(b, 0.0);
        WorthWithinCapacity(After(b, calls), After(b, calls).released);
        assert After(b, calls).released - b.released == After(b, calls).released;
      }
    }
  }

  lemma EarnedAtNoRate(dt: real)
    ensures Earned(0.0, dt) == 0.0
  {
  }

  /** With rate 0 there is no limit: for every n, one caller gets burst + n grants in no time. */
  lemma {:induction false} ZeroRateRun(burst: nat, n: nat)
    ensures var b, calls := FullBucket(burst, 0.0), Opening(burst + n);
      && Serialised(b, calls)
      && After(b, calls) == Bucket(0.0, burst as real, 0.0, 0.0, 0.0)
      && Grants(b, calls) == burst + n
  {
    hide Serialised, After, Grants;
    var b := FullBucket(burst, 0.0);
    if n == 0 {
      OpeningRun(burst, 0.0, burst);
    } else {
      ZeroRateRun(burst, n - 1);
      SerialisedSnoc(b, Opening(burst + n - 1), Call(0.0, 0.0, None));
    }
  }

  lemma FirstTime(rate: real)
    requires rate > 0.0
    ensures Earned(rate, TimeOf(rate, 1)) == 1.0
  {
    hide Earned;
    NextTime(rate, 0);
    TimeOfZero(rate);
    assert TimeOf(rate, 1) - TimeOf(rate, 0) == TimeOf(rate, 1);
  }

  /** With burst 0 the bucket stays empty, and each grant costs its whole wait. */
  lemma {:induction false} WithoutBurst(rate: real, calls: seq<Call>)
    requires rate > 0.0 && Serialised(FullBucket(0, rate), calls)
    ensures var b := FullBucket(0, rate); var a := After(b, calls);
      && a.tokens == 0.0 && a.lastTime <= a.released && a.released >= 0.0
      && Grants(b, calls) as real <= Earned(rate, a.released)
  {
    hide Serialised, Earned, WaitStep, Feasible;
    var b := FullBucket(0, rate);
    if calls == [] {
      EarnedInNoTime(rate);
    } else {
      var k := |calls| - 1;
      SerialisedPrefix(b, calls, k);
      WithoutBurst(rate, calls[..k]);
      LastIsFeasible(b, calls);
      var before, after := After(b, calls[..k]), After(b, calls);
      EmptyStepPays(before, calls[k]);
      EarnedAdds(rate, before.released, after.released - before.released);
    }
  }

  lemma LastIsFeasible(b: Bucket, calls: seq<Call>)
    requires b.rate >= 0.0 && Serialised(b, calls) && calls != []
    ensures Feasible(After(b, calls[..|calls| - 1]), calls[|calls| - 1])
  {
  }

  /** One call of a bucket that can hold nothing. */
  lemma EmptyStepPays(b: Bucket, c: Call)
    requires Feasible(b, c) && b.rate > 0.0 && b.tokens == 0.0 == b.capacity && b.lastTime <= b.released
    ensures var (granted, a) := WaitStep(b, c);
      && a.tokens == 0.0 && a.lastTime <= a.released && a.released >= b.released
      && (if granted then 1.0 else 0.0) <= Earned(b.rate, a.released - b.released)
  {
    hide Earned, WaitTime;
    var r := Refill(b, c.start);
    EarnedNonNegative(b.rate, c.start - b.lastTime);
    WaitEarnsTheRest(r.tokens, r.rate, c.late);
    var spent := if c.cancelAfter.Some? then c.cancelAfter.value else WaitTime(r.tokens, r.rate) + c.late;
    EarnedAdds(b.rate, c.start - b.released, spent);
    EarnedNonNegative(b.rate, c.start - b.released);
    EarnedNonNegative(b.rate, spent);
    assert (c.start - b.released) + spent == (c.start + spent) - b.released;
  }

  lemma {:induction false} BackToBackRun(burst: nat, rate: real, n: nat)
    requires rate > 0.0 && burst >= 1
    ensures var b, calls := FullBucket(burst, rate), BackToBack(burst, rate, n);
      && Serialised(b, calls)
      && After(b, calls) == Bucket(0.0, burst as real, rate, TimeOf(rate, n), TimeOf(rate, n))
      && Grants(b, calls) == burst + 2 * n
  {
    hide WaitStep, Feasible, Serialised, TimeOf, After, Grants;
    var b, calls := FullBucket(burst, rate), BackToBack(burst, rate, n);
    if n == 0 {
      OpeningRun(burst, rate, burst);
      TimeOfZero(rate);
    } else {
      var prefix := BackToBack(burst, rate, n - 1);
      BackToBackRun(burst, rate, n - 1);
      var t0, t1 := TimeOf(rate, n - 1), TimeOf(rate, n);
      var c1, c2 := Call(t0, 0.0, None), Call(t1, 0.0, None);
      OneCycle(burst, rate, n - 1);
      SerialisedSnoc(b, prefix, c1);
      SerialisedSnoc(b, prefix + [c1], c2);
      assert calls == (prefix + [c1]) + [c2];
    }
  }

  /** Each of the first calls takes one token at once. */
  lemma {:induction false} OpeningRun(burst: nat, rate: real, m: nat)
    requires rate >= 0.0 && m <= burst
    ensures var b, calls := FullBucket(burst, rate), Opening(m);
      && Serialised(b, calls)
      && After(b, calls) == Bucket((burst - m) as real, burst as real, rate, 0.0, 0.0)
      && Grants(b, calls) == m
  {
    hide Serialised, After, Grants;
    var b := FullBucket(burst, rate);
    if m == 0 {
      NothingAsked(b);
    } else {
      OpeningRun(burst, rate, m - 1);
      SerialisedSnoc(b, Opening(m - 1), Call(0.0, 0.0, None));
    }
  }

  lemma NothingAsked(b: Bucket)
    requires b.rate >= 0.0
    ensures Serialised(b, []) && After(b, []) == b && Grants(b, []) == 0
  {
  }

  lemma TimeOfZero(rate: real)
    requires rate > 0.0
    ensures TimeOf(rate, 0) == 0.0
  {
  }

  lemma RateTimesTime(rate: real, n: nat)
    requires rate > 0.0
    ensures 2.0 * rate * (TimeOf(rate, n) - 0.0) == 2.0 * n as real
  {
    var t := TimeOf(rate, n);
    assert rate * t == n as real;
    assert 2.0 * rate * t == 2.0 * (rate * t);
  }

  lemma NextTime(rate: real, k: nat)
    requires rate > 0.0
    ensures TimeOf(rate, k + 1) - TimeOf(rate, k) == WaitTime(0.0, rate) > 0.0
    ensures Earned(rate, TimeOf(rate, k + 1) - TimeOf(rate, k)) == 1.0
  {
    var step := 1.0 / rate;
    assert rate * step == 1.0;
    assert TimeOf(rate, k + 1) - TimeOf(rate, k) == step;
    WaitPositive(1.0, rate);
  }

  lemma EarnedInNoTime(rate: real)
    ensures Earned(rate, 0.0) == 0.0
  {
  }

  /** From an empty bucket at k / rate: one grant by waiting, then one at once. */
  lemma OneCycle(burst: nat, rate: real, k: nat)
    requires rate > 0.0 && burst >= 1
    ensures var t0, t1, full := TimeOf(rate, k), TimeOf(rate, k + 1), burst as real;
      var empty, waited := Bucket(0.0, full, rate, t0, t0), Bucket(0.0, full, rate, t0, t1);
      && Feasible(empty, Call(t0, 0.0, None)) && WaitStep(empty, Call(t0, 0.0, None)) == (true, waited)
      && Feasible(waited, Call(t1, 0.0, None))
      && WaitStep(waited, Call(t1, 0.0, None)) == (true, Bucket(0.0, full, rate, t1, t1))
  {
    var t0, t1 := TimeOf(rate, k), TimeOf(rate, k + 1);
    NextTime(rate, k);
    hide TimeOf, Earned, WaitTime;
    EarnedInNoTime(rate);
    assert MinReal(burst as real, 0.0 + Earned(rate, t1 - t0)) == 1.0;
    assert t0 + WaitTime(0.0, rate) + 0.0 == t1;
  }

  lemma SerialisedSnoc(b: Bucket, calls: seq<Call>, c: Call)
    requires b.rate >= 0.0 && Serialised(b, calls) && Feasible(After(b, calls), c)
    ensures Serialised(b, calls + [c])
    ensures After(b, calls + [c]) == WaitStep(After(b, calls), c).1
    ensures Grants(b, calls + [c]) == Grants(b, calls) + if WaitStep(After(b, calls), c).0 then 1 else 0
  {
    var more := calls + [c];
    assert more[..|calls|] == calls;
    forall k | 0 <= k < |more| ensures Feasible(After(b, more[..k]), more[k]) {
      assert more[..k] == calls[..k];
      assert calls[..|calls|] == calls;
    }
  }
}

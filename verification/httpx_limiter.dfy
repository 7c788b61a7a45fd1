/** The rate limiter of the HTTP client. Unlike the scraper's bucket it gives its mutex up while a
    caller waits, so one call is up to two separately locked phases. Seconds and tokens are reals. */
module HttpxLimiter {
  import opened Prelude
  import Bucket = ScrapeBucket

  /** The fields the mutex guards. */
  datatype Limiter = Limiter(tokens: real, capacity: real, rate: real, lastTime: real)

  function Refilled(l: Limiter, now: real): Limiter {
    l.(tokens := Bucket.MinReal(l.capacity, l.tokens + Bucket.Earned(l.rate, now - l.lastTime)), lastTime := now)
  }

  /** First phase: a token at once (None), or how long to wait for one. */
  function Enter(l: Limiter, now: real): (Option<real>, Limiter)
    requires l.rate >= 0.0
  {
    var r := Refilled(l, now);
    if r.tokens >= 1.0 then (None, r.(tokens := r.tokens - 1.0))
    else (Some(Bucket.WaitTime(r.tokens, r.rate)), r)
  }

  /** Second phase, when the timer has fired. */
  function Leave(l: Limiter): Limiter {
    l.(tokens := 0.0)
  }

  /** NewClient hands the limiter the configured rate cut down to an integer. */
  function RateOf(qps: real): nat
    requires qps >= 0.0
  {
    qps.Floor
  }

  class RateLimiter {
    var tokens: real
    const capacity: real
    const rate: real
    var lastTime: real

    function View(): Limiter
      reads this
    {
      Limiter(tokens, capacity, rate, lastTime)
    }

    constructor (qps: nat, burst: nat, now: real)
      ensures View() == Limiter(burst as real, burst as real, qps as real, now)
    {
      tokens, capacity, rate, lastTime := burst as real, burst as real, qps as real, now;
    }

    /** Wait up to where it gives the mutex up. */
    method EnterWait(now: real) returns (wait: Option<real>)
      requires rate >= 0.0
      modifies this
      ensures (wait, View()) == Enter(old(View()), now)
      ensures wait == None <==> RefilledTo(old(View()), now) >= 1.0
      ensures tokens == RefilledTo(old(View()), now) - (if wait == None then 1.0 else 0.0) && lastTime == now
    {
      hide Bucket.Earned, Bucket.WaitTime, RefilledTo;
      EnterEffect(View(), now);
      tokens := tokens + Bucket.Earned(rate, now - lastTime);
      if tokens > capacity {
        tokens := capacity;
      }
      lastTime := now;
      if tokens >= 1.0 {
        tokens := tokens - 1.0;
        return None;
      }
      return Some(Bucket.WaitTime(tokens, rate));
    }

    /** Wait from where it takes the mutex again: nothing is left, whatever was refilled meanwhile. */
    method LeaveWait()
      modifies this`tokens
      ensures View() == Leave(old(View()))
      ensures tokens == 0.0
    {
      tokens := 0.0;
    }
  }

  // ---- interleavings ----

  /** `waiting` holds the instant at which each waiting goroutine's timer fires. */
  datatype World = World(limiter: Limiter, clock: real, waiting: map<nat, real>, grants: nat)

  datatype Event = Tick(dt: real) | BeginWait(g: nat) | TimerFired(g: nat) | Cancelled(g: nat)

  predicate Enabled(w: World, e: Event) {
    match e
    case Tick(dt) => dt >= 0.0
    case BeginWait(g) => g !in w.waiting && w.limiter.rate >= 0.0
    case TimerFired(g) => g in w.waiting && w.clock >= w.waiting[g]
    case Cancelled(g) => g in w.waiting
  }

  function Step(w: World, e: Event): World
    requires Enabled(w, e)
  {
    match e
    case Tick(dt) => w.(clock := w.clock + dt)
    case BeginWait(g) =>
      var (wait, l) := Enter(w.limiter, w.clock);
      if wait.None? then w.(limiter := l, grants := w.grants + 1)
      else w.(limiter := l, waiting := w.waiting[g := w.clock + wait.value])
    case TimerFired(g) => w.(limiter := Leave(w.limiter), waiting := w.waiting - {g}, grants := w.grants + 1)
    case Cancelled(g) => w.(waiting := w.waiting - {g})
  }

  function New(burst: nat, rate: real): World {
    World(Limiter(burst as real, burst as real, rate, 0.0), 0.0, map[], 0)
  }

  /** Where the events lead, if each is possible when its turn comes. */
  function Run(w: World, es: seq<Event>): Option<World> {
    if es == [] then Some(w)
    else
      match Run(w, es[..|es| - 1])
      case None => None
      case Some(u) => if Enabled(u, es[|es| - 1]) then Some(Step(u, es[|es| - 1])) else None
  }

  ghost predicate Reachable(w: World, v: World) {
    exists es :: Run(w, es) == Some(v)
  }

  lemma OneMore(w: World, u: World, e: Event)
    requires Reachable(w, u) && Enabled(u, e)
    ensures Reachable(w, Step(u, e))
  {
    hide Enabled, Step;
    var es :| Run(w, es) == Some(u);
    var more := es + [e];
    assert more[..|more| - 1] == es && more[|more| - 1] == e;
    assert Run(w, more) == Some(Step(u, e));
  }

  // ---- what holds ----

  ghost predicate Inv(w: World) {
    0.0 <= w.limiter.tokens <= w.limiter.capacity && w.limiter.rate >= 0.0 && w.limiter.lastTime <= w.clock
  }

  /** In every interleaving the tokens stay between 0 and the burst. */
  lemma {:induction false} TokensInBounds(burst: nat, rate: real, es: seq<Event>)
    requires rate >= 0.0 && Run(New(burst, rate), es).Some?
    ensures var w := Run(New(burst, rate), es).value; Inv(w) && w.limiter.capacity == burst as real
  {
    hide Step, Enabled;
    if es != [] {
      TokensInBounds(burst, rate, es[..|es| - 1]);
      InvStep(Run(New(burst, rate), es[..|es| - 1]).value, es[|es| - 1]);
    }
  }

  lemma InvStep(w: World, e: Event)
    requires Inv(w) && Enabled(w, e)
    ensures Inv(Step(w, e)) && Step(w, e).limiter.capacity == w.limiter.capacity
  {
    hide Bucket.Earned, Bucket.WaitTime;
    Bucket.EarnedNonNegative(w.limiter.rate, w.clock - w.limiter.lastTime);
  }

  // ---- what one call does ----

  function RefilledTo(l: Limiter, now: real): real {
    var earned := l.rate * (now - l.lastTime);
    if l.tokens + earned <= l.capacity then l.tokens + earned else l.capacity
  }

  lemma RefilledIs(l: Limiter, now: real)
    ensures RefilledTo(l, now) == Refilled(l, now).tokens
  {
    var earned := l.rate * (now - l.lastTime);
    assert Bucket.Earned(l.rate, now - l.lastTime) == earned;
  }

  lemma RefilledInNoTime(l: Limiter)
    requires l.tokens <= l.capacity
    ensures RefilledTo(l, l.lastTime) == l.tokens
  {
    assert l.rate * (l.lastTime - l.lastTime) == 0.0;
  }

  /** Time earns tokens: what is left and what is granted add up to what the bucket held plus rate times
      elapsed, cut off at the capacity; a whole token is granted at once, and otherwise the wait is as
      long as the missing part takes to earn. */
  lemma EnterEffect(l: Limiter, now: real)
    requires l.rate >= 0.0
    ensures var (wait, a) := Enter(l, now);
      && (wait == None <==> RefilledTo(l, now) >= 1.0)
      && a.tokens + (if wait == None then 1.0 else 0.0) == RefilledTo(l, now)
      && a.lastTime == now && a.capacity == l.capacity && a.rate == l.rate
      && (wait.Some? && l.rate > 0.0 ==> l.rate * wait.value == 1.0 - RefilledTo(l, now))
  {
    RefilledIs(l, now);
    var refilled := Refilled(l, now).tokens;
    if l.rate > 0.0 {
      Bucket.RateTimesWait(refilled, l.rate);
    }
    hide Bucket.Earned, Bucket.WaitTime, RefilledTo;
  }

  function Calls(g: nat, n: nat): seq<Event> {
    if n == 0 then [] else Calls(g, n - 1) + [BeginWait(g)]
  }

  /** n calls in a row, one after another and with no time between, are all granted at once if and only if
      the bucket holds n tokens by then: what it held, plus rate times the time it was idle, cut off at
      the burst. */
  lemma GrantedAtOnceExactly(w: World, g: nat, n: nat)
    requires Inv(w) && g !in w.waiting
    ensures (Run(w, Calls(g, n)).Some? && Run(w, Calls(g, n)).value.grants == w.grants + n)
       <==> n as real <= RefilledTo(w.limiter, w.clock)
  {
    hide Run, Step, Enabled, RefilledTo;
    RefilledNotNegative(w);
    if n as real <= RefilledTo(w.limiter, w.clock) {
      AllAtOnce(w, g, n);
    } else {
      NotAllAtOnce(w, g, n);
    }
  }

  lemma RefilledNotNegative(w: World)
    requires Inv(w)
    ensures RefilledTo(w.limiter, w.clock) >= 0.0
  {
    hide Bucket.Earned, RefilledTo;
    RefilledIs(w.limiter, w.clock);
    Bucket.EarnedNonNegative(w.limiter.rate, w.clock - w.limiter.lastTime);
  }

  /** The world after k calls were granted at once. */
  ghost predicate After(w: World, v: World, k: nat) {
    && Inv(v) && v.clock == w.clock && v.waiting == w.waiting && v.grants == w.grants + k
    && RefilledTo(v.limiter, v.clock) == RefilledTo(w.limiter, w.clock) - k as real
  }

  lemma {:induction false} AllAtOnce(w: World, g: nat, n: nat)
    requires Inv(w) && g !in w.waiting && n as real <= RefilledTo(w.limiter, w.clock)
    ensures Run(w, Calls(g, n)).Some? && After(w, Run(w, Calls(g, n)).value, n)
  {
    hide RefilledTo, Run;
    if n == 0 {
      RunOfNothing(w);
    } else {
      AllAtOnce(w, g, n - 1);
      var v := Run(w, Calls(g, n - 1)).value;
      var _ := Extended(w, Calls(g, n - 1), BeginWait(g));
      GrantStep(w, v, g, n - 1);
    }
  }

  lemma GrantStep(w: World, v: World, g: nat, k: nat)
    requires After(w, v, k) && g !in w.waiting && RefilledTo(v.limiter, v.clock) >= 1.0
    ensures After(w, Step(v, BeginWait(g)), k + 1)
  {
    hide RefilledTo, Enter;
    InvStep(v, BeginWait(g));
    EnterEffect(v.limiter, v.clock);
    RefilledInNoTime(Step(v, BeginWait(g)).limiter);
  }

  /** The first call that finds less than a token waits, and stays the only one granted no token. */
  lemma {:induction false} NotAllAtOnce(w: World, g: nat, n: nat)
    requires Inv(w) && g !in w.waiting && n as real > RefilledTo(w.limiter, w.clock) >= 0.0
    ensures Run(w, Calls(g, n)).None?
            || (g in Run(w, Calls(g, n)).value.waiting && Run(w, Calls(g, n)).value.grants < w.grants + n)
  {
    hide RefilledTo;
    if (n - 1) as real > RefilledTo(w.limiter, w.clock) {
      NotAllAtOnce(w, g, n - 1);
      LastCall(w, g, n);
    } else {
      AllAtOnce(w, g, n - 1);
      LastCall(w, g, n);
      var v := Run(w, Calls(g, n - 1)).value;
      EnterEffect(v.limiter, v.clock);
    }
  }

  lemma LastCall(w: World, g: nat, n: nat)
    requires n > 0
    ensures Run(w, Calls(g, n)) ==
      match Run(w, Calls(g, n - 1))
      case None => None
      case Some(u) => if Enabled(u, BeginWait(g)) then Some(Step(u, BeginWait(g))) else None
  {
    var es := Calls(g, n);
    assert es[..|es| - 1] == Calls(g, n - 1);
  }

  /** A grant by timer leaves nothing, whatever others had found refilled meanwhile. */
  lemma TimedGrantEmpties(w: World, g: nat)
    requires Enabled(w, TimerFired(g))
    ensures var v := Step(w, TimerFired(g));
      v.limiter == w.limiter.(tokens := 0.0) && v.grants == w.grants + 1 && v.clock == w.clock && v.waiting == w.waiting - {g}
  {
  }

  /** The instant a caller is told to wait for is the one at which the bucket, left alone, holds its token. */
  lemma PromiseIsExact(w: World, g: nat)
    requires Inv(w) && w.limiter.rate > 0.0 && Enabled(w, BeginWait(g)) && g in Step(w, BeginWait(g)).waiting
    ensures var v := Step(w, BeginWait(g));
      && v.waiting[g] > w.clock && v.waiting == w.waiting[g := v.waiting[g]] && v.grants == w.grants
      && (w.limiter.capacity >= 1.0 ==> RefilledTo(v.limiter, v.waiting[g]) == 1.0)
  {
    hide Bucket.Earned, RefilledTo;
    EnterEffect(w.limiter, w.clock);
    var v := Step(w, BeginWait(g));
    RefilledIs(w.limiter, w.clock);
    PositiveWaitFor(v.limiter.tokens, v.limiter.rate);
    hide Bucket.WaitTime;
    TokenEarned(v.limiter, v.waiting[g]);
  }

  lemma TokenEarned(l: Limiter, due: real)
    requires l.rate * (due - l.lastTime) == 1.0 - l.tokens
    ensures l.capacity >= 1.0 ==> RefilledTo(l, due) == 1.0
  {
  }

  /** A caller that begins to wait and is cancelled leaves no trace: no later caller, at whatever instant,
      finds more or fewer tokens than without it. */
  lemma CancelledCallIsInvisible(w: World, g: nat, later: real)
    requires Inv(w) && Enabled(w, BeginWait(g)) && g in Step(w, BeginWait(g)).waiting && later >= w.clock
    ensures var v := Step(Step(w, BeginWait(g)), Cancelled(g));
      && v.clock == w.clock && v.waiting == w.waiting && v.grants == w.grants
      && RefilledTo(v.limiter, later) == RefilledTo(w.limiter, later)
  {
    hide Bucket.WaitTime, RefilledTo;
    RefilledIs(w.limiter, w.clock);
    RefilledTwice(w.limiter, w.clock, later);
    assert Step(w, BeginWait(g)).waiting - {g} == w.waiting;
  }

  lemma RefilledTwice(l: Limiter, now: real, later: real)
    requires l.rate >= 0.0 && now <= later
    ensures RefilledTo(Refilled(l, now), later) == RefilledTo(l, later)
  {
    RefilledIs(l, now);
    Bucket.EarnedNonNegative(l.rate, later - now);
    var first, second := l.rate * (now - l.lastTime), l.rate * (later - now);
    assert l.rate * (later - l.lastTime) == first + second;
    assert Bucket.Earned(l.rate, later - now) == second;
  }

  // ---- what does not ----

  /** Goroutines 0 to n - 1 wait for the instant `due`. */
  function Queue(n: nat, due: real): (q: map<nat, real>)
    ensures forall g: nat :: g in q <==> g < n
  {
    if n == 0 then map[] else Queue(n - 1, due)[n - 1 := due]
  }

  /** The limiter with nothing in hand at instant 0. */
  function Drained(burst: nat, rate: real): Limiter {
    Limiter(0.0, burst as real, rate, 0.0)
  }

  /** No bound on the rate holds: whatever the burst and the rate, and for every n, some interleaving of
      n goroutines has burst + n grants when 1 / rate seconds have passed; at rate 0, at once. */
  lemma NoRateBound(burst: nat, rate: real, n: nat)
    requires rate >= 0.0
    ensures exists v :: Reachable(New(burst, rate), v) && v.grants == burst + n
                        && v.clock == if rate > 0.0 then 1.0 / rate else 0.0
  {
    hide Reachable, New;
    var due := Bucket.WaitTime(0.0, rate);
    AllLeave(burst, rate, n, 0);
    assert Reachable(New(burst, rate), World(Drained(burst, rate), due, Queue(0, due), burst + n));
  }

  /** One goroutine calling Wait, its timer firing, and nothing else. */
  ghost predicate Alone(es: seq<Event>) {
    forall i :: 0 <= i < |es| ==> es[i] == BeginWait(0) || es[i] == TimerFired(0)
  }

  /** One goroutine has n grants at instant 0. */
  ghost predicate Unlimited(burst: nat, qps: real, n: nat)
    requires qps >= 0.0
  {
    exists es :: Alone(es) && Run(New(burst, RateOf(qps) as real), es).Some?
                 && Run(New(burst, RateOf(qps) as real), es).value.grants == n
  }

  /** A single caller is not limited at all, if and only if fewer than one request per second is configured. */
  lemma UnlimitedExactlyBelowOne(burst: nat, qps: real)
    requires qps >= 0.0
    ensures (forall n: nat :: Unlimited(burst, qps, n)) <==> qps < 1.0
  {
    hide Run, New;
    if qps < 1.0 {
      forall n: nat ensures Unlimited(burst, qps, n) {
        var es := ZeroRateRun(burst, n);
      }
    } else if Unlimited(burst, qps, burst + 1) {
      var es :| Alone(es) && Run(New(burst, RateOf(qps) as real), es).Some?
                && Run(New(burst, RateOf(qps) as real), es).value.grants == burst + 1;
      AtMostTheBurst(burst, RateOf(qps) as real, es);
    }
  }

  /** At rate 0 the n-th call is granted at once, from the burst or by a timer that fires at once. */
  lemma {:induction false} ZeroRateRun(burst: nat, n: nat) returns (es: seq<Event>)
    ensures Alone(es)
    ensures Run(New(burst, 0.0), es)
            == Some(World(Limiter(Max(burst - n, 0) as real, burst as real, 0.0, 0.0), 0.0, map[], n))
  {
    hide Run;
    if n == 0 {
      es := [];
      RunOfNothing(New(burst, 0.0));
    } else {
      es := ZeroRateRun(burst, n - 1);
      Bucket.EarnedAtNoRate(0.0);
      es := Extended(New(burst, 0.0), es, BeginWait(0));
      if n > burst {
        es := Extended(New(burst, 0.0), es, TimerFired(0));
        assert map[0 := 0.0] - {0} == map[];
      }
    }
  }

  lemma RunOfNothing(w: World)
    ensures Run(w, []) == Some(w)
  {
  }

  lemma Extended(w: World, es: seq<Event>, e: Event) returns (more: seq<Event>)
    requires Run(w, es).Some? && Enabled(Run(w, es).value, e)
    ensures more == es + [e] && Run(w, more) == Some(Step(Run(w, es).value, e))
  {
    more := es + [e];
    assert more[..|more| - 1] == es;
  }

  /** At a positive rate one goroutine that lets no time pass gets no more than the burst: it is then
      waiting, or has just begun. */
  lemma {:induction false} AtMostTheBurst(burst: nat, rate: real, es: seq<Event>)
    requires rate > 0.0 && Alone(es) && Run(New(burst, rate), es).Some?
    ensures var w := Run(New(burst, rate), es).value;
      && w.clock == 0.0 && w.limiter.rate == rate && w.limiter.capacity == burst as real && w.limiter.lastTime == 0.0
      && 0.0 <= w.limiter.tokens && w.grants as real + w.limiter.tokens <= burst as real
      && (forall g :: g in w.waiting ==> w.waiting[g] > 0.0)
  {
    hide Step, Enabled;
    if es != [] {
      var before := es[..|es| - 1];
      AtMostTheBurst(burst, rate, before);
      AloneStep(Run(New(burst, rate), before).value, es[|es| - 1], burst);
    }
  }

  lemma AloneStep(w: World, e: Event, burst: nat)
    requires Enabled(w, e) && (e.BeginWait? || e.TimerFired?)
    requires w.clock == 0.0 && w.limiter.rate > 0.0 && w.limiter.capacity == burst as real && w.limiter.lastTime == 0.0
    requires 0.0 <= w.limiter.tokens && w.grants as real + w.limiter.tokens <= burst as real
    requires forall g :: g in w.waiting ==> w.waiting[g] > 0.0
    ensures var v := Step(w, e);
      && v.clock == 0.0 && v.limiter.rate == w.limiter.rate && v.limiter.capacity == burst as real && v.limiter.lastTime == 0.0
      && 0.0 <= v.limiter.tokens && v.grants as real + v.limiter.tokens <= burst as real
      && (forall g :: g in v.waiting ==> v.waiting[g] > 0.0)
  {
    hide Bucket.Earned, Bucket.WaitTime;
    Bucket.EarnedInNoTime(w.limiter.rate);
    if w.limiter.tokens < 1.0 {
      PositiveWaitFor(w.limiter.tokens, w.limiter.rate);
    }
  }

  lemma PositiveWaitFor(tokens: real, rate: real)
    requires rate > 0.0 && tokens < 1.0
    ensures Bucket.WaitTime(tokens, rate) > 0.0
  {
    Bucket.WaitPositive(1.0 - tokens, rate);
  }

  lemma {:induction false} BurstTaken(burst: nat, rate: real, m: nat)
    requires rate >= 0.0 && m <= burst
    ensures Reachable(New(burst, rate), World(Limiter((burst - m) as real, burst as real, rate, 0.0), 0.0, map[], m))
  {
    hide Reachable;
    if m == 0 {
      Nothing(New(burst, rate));
    } else {
      BurstTaken(burst, rate, m - 1);
      var u := World(Limiter((burst - m + 1) as real, burst as real, rate, 0.0), 0.0, map[], m - 1);
      Bucket.EarnedInNoTime(rate);
      OneMore(New(burst, rate), u, BeginWait(0));
    }
  }

  lemma Nothing(w: World)
    ensures Reachable(w, w)
  {
    assert Run(w, []) == Some(w);
  }

  /** All n find the bucket empty at the same instant, and are promised the same token. */
  lemma {:induction false} AllEnter(burst: nat, rate: real, n: nat)
    requires rate >= 0.0
    ensures Reachable(New(burst, rate),
                      World(Drained(burst, rate), 0.0, Queue(n, Bucket.WaitTime(0.0, rate)), burst))
  {
    hide Reachable, Bucket.WaitTime;
    var due := Bucket.WaitTime(0.0, rate);
    if n == 0 {
      BurstTaken(burst, rate, burst);
      assert Queue(0, due) == map[];
    } else {
      AllEnter(burst, rate, n - 1);
      var u := World(Drained(burst, rate), 0.0, Queue(n - 1, due), burst);
      Bucket.EarnedInNoTime(rate);
      assert Queue(n - 1, due)[n - 1 := 0.0 + due] == Queue(n, due);
      OneMore(New(burst, rate), u, BeginWait(n - 1));
    }
  }

  /** Their timers all fire at that instant. */
  lemma {:induction false} AllLeave(burst: nat, rate: real, n: nat, left: nat)
    requires rate >= 0.0 && left <= n
    ensures var due := Bucket.WaitTime(0.0, rate);
      Reachable(New(burst, rate), World(Drained(burst, rate), due, Queue(left, due), burst + (n - left)))
    decreases n - left
  {
    hide Reachable, Bucket.WaitTime;
    var due := Bucket.WaitTime(0.0, rate);
    if left == n {
      AllEnter(burst, rate, n);
      Bucket.WaitNotNegative(0.0, rate);
      OneMore(New(burst, rate), World(Drained(burst, rate), 0.0, Queue(n, due), burst), Tick(due));
      assert 0.0 + due == due;
    } else {
      AllLeave(burst, rate, n, left + 1);
      var u := World(Drained(burst, rate), due, Queue(left + 1, due), burst + (n - left - 1));
      assert Queue(left + 1, due) - {left} == Queue(left, due);
      OneMore(New(burst, rate), u, TimerFired(left));
    }
  }
}

/** The mutex-guarded circuit breaker of the HTTP client. `Allow` drops and retakes its
    lock, so one call is up to three separately locked phases; everything proved about
    runs below holds for every interleaving of those phases over any number of goroutines. */
module HttpxBreaker {
  import opened Prelude

  datatype CircuitState = StateClosed | StateOpen | StateHalfOpen

  datatype Config = Config(failureThreshold: int, resetTimeout: int)

  /** The fields the mutex guards. */
  datatype Core = Core(state: CircuitState, failures: nat, lastFailure: int)

  datatype ReadResult = Decided(allowed: bool) | MustUpgrade

  // ---- the locked sections, as functions of the guarded fields ----

  /** First read-locked phase of Allow. */
  function ReadPhase(cfg: Config, c: Core, now: int): ReadResult {
    match c.state
    case StateClosed => Decided(true)
    case StateOpen => if now - c.lastFailure >= cfg.resetTimeout then MustUpgrade else Decided(false)
    case StateHalfOpen => Decided(true)
  }

  /** Write-locked phase of Allow; `now` is the instant read in the first phase. */
  function UpgradePhase(cfg: Config, c: Core, now: int): Core {
    if c.state == StateOpen && now - c.lastFailure >= cfg.resetTimeout then c.(state := StateHalfOpen) else c
  }

  function AfterSuccess(c: Core): Core {
    if c.state == StateHalfOpen then c.(state := StateClosed, failures := 0) else c
  }

  function AfterFailure(cfg: Config, c: Core, now: int): Core {
    Core(if c.failures + 1 >= cfg.failureThreshold then StateOpen else c.state, c.failures + 1, now)
  }

  // ---- the object ----

  class CircuitBreaker {
    const cfg: Config
    var state: CircuitState
    var failures: nat
    var lastFailure: int

    function View(): Core
      reads this
    {
      Core(state, failures, lastFailure)
    }

    constructor (failureThreshold: int, resetTimeout: int)
      ensures cfg == Config(failureThreshold, resetTimeout)
      ensures View() == Core(StateClosed, 0, 0)
    {
      cfg := Config(failureThreshold, resetTimeout);
      state, failures, lastFailure := StateClosed, 0, 0;
    }

    method AllowRead(now: int) returns (r: ReadResult)
      ensures r == ReadPhase(cfg, View(), now)
    {
      match state {
        case StateClosed => r := Decided(true);
        case StateOpen =>
          if now - lastFailure >= cfg.resetTimeout {
            r := MustUpgrade;
          } else {
            r := Decided(false);
          }
        case StateHalfOpen => r := Decided(true);
      }
    }

    method AllowUpgrade(now: int)
      modifies this`state
      ensures View() == UpgradePhase(cfg, old(View()), now)
    {
      if state == StateOpen && now - lastFailure >= cfg.resetTimeout {
        state := StateHalfOpen;
      }
    }

    method AllowReread() returns (allowed: bool)
      ensures allowed == (state == StateHalfOpen)
    {
      allowed := state == StateHalfOpen;
    }

    /** One call of Allow that no other goroutine interrupts: it refuses exactly while
        the breaker is Open and the reset timeout has not elapsed. */
    method Allow(now: int) returns (allowed: bool)
      modifies this`state
      ensures allowed <==> old(state) != StateOpen || now - lastFailure >= cfg.resetTimeout
      ensures state == if old(state) == StateOpen && allowed then StateHalfOpen else old(state)
    {
      var r := AllowRead(now);
      match r {
        case Decided(b) => allowed := b;
        case MustUpgrade =>
          AllowUpgrade(now);
          allowed := AllowReread();
      }
    }

    method RecordSuccess()
      modifies this`state, this`failures
      ensures View() == AfterSuccess(old(View()))
    {
      if state == StateHalfOpen {
        state := StateClosed;
        failures := 0;
      }
    }

    method RecordFailure(now: int)
      modifies this
      ensures View() == AfterFailure(cfg, old(View()), now)
    {
      failures := failures + 1;
      lastFailure := now;
      if failures >= cfg.failureThreshold {
        state := StateOpen;
      }
    }
  }

  // ---- interleavings ----

  /** Where a goroutine inside Allow stands; one that is absent from `World.pcs` is outside. */
  datatype Pc = AtUpgrade(now: int) | AtReread

  datatype World = World(core: Core, clock: int, pcs: map<nat, Pc>)

  /** One atomic step: the clock moves, or some goroutine runs one locked section. */
  datatype Event =
    | Tick(dt: nat)
    | BeginAllow(g: nat)
    | Upgrade(g: nat)
    | Reread(g: nat)
    | Success
    | Failure

  predicate Enabled(w: World, e: Event) {
    match e
    case BeginAllow(g) => g !in w.pcs
    case Upgrade(g) => g in w.pcs && w.pcs[g].AtUpgrade?
    case Reread(g) => g in w.pcs && w.pcs[g].AtReread?
    case _ => true
  }

  function Step(cfg: Config, w: World, e: Event): World
    requires Enabled(w, e)
  {
    match e
    case Tick(dt) => w.(clock := w.clock + dt)
    case BeginAllow(g) =>
      if ReadPhase(cfg, w.core, w.clock).MustUpgrade? then w.(pcs := w.pcs[g := AtUpgrade(w.clock)]) else w
    case Upgrade(g) => w.(core := UpgradePhase(cfg, w.core, w.pcs[g].now), pcs := w.pcs[g := AtReread])
    case Reread(g) => w.(pcs := w.pcs - {g})
    case Success => w.(core := AfterSuccess(w.core))
    case Failure => w.(core := AfterFailure(cfg, w.core, w.clock))
  }

  /** What Allow returns on this step, when this step holds its deciding read. */
  function Returned(cfg: Config, w: World, e: Event): Option<bool>
    requires Enabled(w, e)
  {
    match e
    case BeginAllow(g) =>
      (match ReadPhase(cfg, w.core, w.clock)
       case Decided(b) => Some(b)
       case MustUpgrade => None)
    case Reread(g) => Some(w.core.state == StateHalfOpen)
    case _ => None
  }

  predicate Init(w: World) {
    w.core.state == StateClosed && w.core.failures == 0 && w.pcs == map[]
  }

  ghost predicate IsRun(cfg: Config, ws: seq<World>, es: seq<Event>) {
    && |ws| == |es| + 1
    && Init(ws[0])
    && forall i :: 0 <= i < |es| ==> Enabled(ws[i], es[i]) && ws[i + 1] == Step(cfg, ws[i], es[i])
  }

  ghost predicate ClosedBelowThreshold(cfg: Config, c: Core) {
    c.state == StateClosed <==> c.failures < cfg.failureThreshold
  }

  ghost predicate Inv(cfg: Config, w: World) {
    && (w.core.state != StateClosed ==> w.core.failures >= cfg.failureThreshold)
    && (cfg.failureThreshold >= 1 ==> ClosedBelowThreshold(cfg, w.core))
    && forall g :: g in w.pcs && w.pcs[g].AtUpgrade? ==> w.pcs[g].now <= w.clock
  }

  lemma {:induction false} InvHolds(cfg: Config, ws: seq<World>, es: seq<Event>, k: nat)
    requires IsRun(cfg, ws, es) && k < |ws|
    ensures Inv(cfg, ws[k])
  {
    if k > 0 {
      InvHolds(cfg, ws, es, k - 1);
      assert ws[k] == Step(cfg, ws[k - 1], es[k - 1]);
    }
  }

  /** "Closed exactly while failures < threshold" holds at every point of every run if and
      only if the configured threshold is at least 1. */
  lemma ClosedExactlyBelowThreshold(cfg: Config)
    ensures (forall ws: seq<World>, es: seq<Event>, k: nat | IsRun(cfg, ws, es) && k < |ws| :: ClosedBelowThreshold(cfg, ws[k].core))
            <==> cfg.failureThreshold >= 1
  {
    if cfg.failureThreshold >= 1 {
      forall ws: seq<World>, es: seq<Event>, k: nat | IsRun(cfg, ws, es) && k < |ws| ensures ClosedBelowThreshold(cfg, ws[k].core) {
        InvHolds(cfg, ws, es, k);
      }
    } else {
      var w := World(Core(StateClosed, 0, 0), 0, map[]);
      assert IsRun(cfg, [w], []);
      assert !ClosedBelowThreshold(cfg, [w][0].core);
    }
  }

  /** After a failure that leaves the breaker Open at time t0, the breaker stays Open until
      t0 + resetTimeout, whatever Allow calls were already under way. */
  lemma {:induction false} StaysOpen(cfg: Config, ws: seq<World>, es: seq<Event>, i: nat, k: nat)
    requires IsRun(cfg, ws, es) && i < k < |ws|
    requires es[i].Failure? && ws[i + 1].core.state == StateOpen
    ensures ws[k].clock >= ws[i].clock
    ensures ws[k].clock >= ws[i].clock + cfg.resetTimeout
            || (ws[k].core.state == StateOpen && ws[k].core.lastFailure >= ws[i].clock)
    decreases k
  {
    assert ws[i + 1] == Step(cfg, ws[i], es[i]);
    if k > i + 1 {
      StaysOpen(cfg, ws, es, i, k - 1);
      InvHolds(cfg, ws, es, k - 1);
      assert ws[k] == Step(cfg, ws[k - 1], es[k - 1]);
    }
  }

  /** No Allow whose deciding read comes before lastFailure + resetTimeout returns true, even
      if that Allow began before the failure. */
  lemma NoEarlyAdmission(cfg: Config, ws: seq<World>, es: seq<Event>, i: nat, j: nat)
    requires IsRun(cfg, ws, es) && i < j < |es|
    requires es[i].Failure? && ws[i + 1].core.state == StateOpen
    requires Returned(cfg, ws[j], es[j]) == Some(true)
    ensures ws[j].clock >= ws[i + 1].core.lastFailure + cfg.resetTimeout
  {
    assert ws[i + 1] == Step(cfg, ws[i], es[i]);
    StaysOpen(cfg, ws, es, i, j);
  }

  /** Whatever the interleaving, one failure recorded while the breaker is not Closed leaves it Open: no
      second half-open failure is ever needed. */
  lemma HalfOpenFailureReopens(cfg: Config, ws: seq<World>, es: seq<Event>, k: nat)
    requires IsRun(cfg, ws, es) && k < |es|
    requires es[k].Failure? && ws[k].core.state != StateClosed
    ensures ws[k + 1].core.state == StateOpen
  {
    InvHolds(cfg, ws, es, k);
    assert ws[k + 1] == Step(cfg, ws[k], es[k]);
  }

  function FailureCount(es: seq<Event>): nat {
    if es == [] then 0 else FailureCount(es[..|es| - 1]) + if es[|es| - 1].Failure? then 1 else 0
  }

  /** The count starts from nothing at s: at the start of the run, or just after a success taken half-open. */
  ghost predicate FreshAt(ws: seq<World>, es: seq<Event>, s: nat)
    requires |ws| == |es| + 1 && s < |ws|
  {
    s == 0 || ClosingSuccess(ws, es, s - 1)
  }

  /** A success recorded while half-open: the only event that closes the breaker. */
  ghost predicate ClosingSuccess(ws: seq<World>, es: seq<Event>, j: nat)
    requires |ws| == |es| + 1 && j < |es|
  {
    es[j].Success? && ws[j].core.state == StateHalfOpen
  }

  /** From one closing success to the next, every failure counts: successes in between and the age of
      a failure change nothing (the configured window is never consulted), and the breaker is Closed
      exactly while that total is below the threshold. */
  lemma {:induction false} TripsOnTotalFailures(cfg: Config, ws: seq<World>, es: seq<Event>, s: nat, k: nat)
    requires IsRun(cfg, ws, es) && s <= k < |ws| && FreshAt(ws, es, s)
    requires forall i :: s <= i < k ==> !ClosingSuccess(ws, es, i)
    ensures ws[k].core.failures == FailureCount(es[s..k])
    ensures cfg.failureThreshold >= 1 ==> (ws[k].core.state == StateClosed <==> FailureCount(es[s..k]) < cfg.failureThreshold)
  {
    InvHolds(cfg, ws, es, k);
    if k == s {
      assert s > 0 ==> ws[s] == Step(cfg, ws[s - 1], es[s - 1]);
    } else {
      TripsOnTotalFailures(cfg, ws, es, s, k - 1);
      assert ws[k] == Step(cfg, ws[k - 1], es[k - 1]);
      assert !ClosingSuccess(ws, es, k - 1);
      assert es[s..k][..k - 1 - s] == es[s..k - 1];
    }
  }

  // ---- refusals while Closed ----

  /** A pending Allow of g began at an earlier event that found the breaker Open. */
  lemma {:induction false} PendingBegan(cfg: Config, ws: seq<World>, es: seq<Event>, g: nat, k: nat) returns (b: nat)
    requires IsRun(cfg, ws, es) && k < |ws| && g in ws[k].pcs
    ensures b < k && es[b] == BeginAllow(g) && ws[b + 1].core.state == StateOpen
  {
    assert k > 0;
    assert ws[k] == Step(cfg, ws[k - 1], es[k - 1]);
    if g in ws[k - 1].pcs {
      b := PendingBegan(cfg, ws, es, g, k - 1);
    } else {
      b := k - 1;
    }
  }

  /** Between a point where the breaker is not Closed and one where it is lies a closing success. */
  lemma {:induction false} ClosedByASuccess(cfg: Config, ws: seq<World>, es: seq<Event>, i: nat, k: nat) returns (j: nat)
    requires IsRun(cfg, ws, es) && i <= k < |ws|
    requires ws[i].core.state != StateClosed && ws[k].core.state == StateClosed
    ensures i <= j < k && ClosingSuccess(ws, es, j)
  {
    assert ws[k] == Step(cfg, ws[k - 1], es[k - 1]);
    if ws[k - 1].core.state == StateClosed {
      j := ClosedByASuccess(cfg, ws, es, i, k - 1);
    } else {
      j := k - 1;
    }
  }

  /** What an upgrade does, whoever came first: an Open breaker past its timeout becomes half-open, one
      that another goroutine has already half-opened or closed is left as it is, and nothing is counted. */
  lemma UpgradeEffect(cfg: Config, c: Core, now: int)
    ensures var d := UpgradePhase(cfg, c, now);
      && d.failures == c.failures && d.lastFailure == c.lastFailure
      && (c.state == StateHalfOpen ==> d.state == StateHalfOpen)
      && (c.state == StateClosed ==> d.state == StateClosed)
      && (c.state == StateOpen ==> d.state == if now - c.lastFailure >= cfg.resetTimeout then StateHalfOpen else StateOpen)
  {
  }

  /** Nothing but calls of Allow, and time, between two points of a run. */
  ghost predicate OnlyAllows(es: seq<Event>, b: nat, k: nat)
    requires b <= k <= |es|
  {
    forall i :: b <= i < k ==> !es[i].Success? && !es[i].Failure?
  }

  /** Goroutines that find the timeout elapsed together are all admitted: an Allow under way is refused
      only if some outcome was recorded in the meantime. */
  lemma LatecomersAreAdmitted(cfg: Config, ws: seq<World>, es: seq<Event>, b: nat, k: nat, g: nat)
    requires IsRun(cfg, ws, es) && b < k < |es| && es[b] == BeginAllow(g) && es[k] == Reread(g)
    requires g in ws[b + 1].pcs && forall i :: b < i < k ==> es[i] != BeginAllow(g)
    requires OnlyAllows(es, b, k)
    ensures Returned(cfg, ws[k], es[k]) == Some(true)
  {
    assert ws[b + 1] == Step(cfg, ws[b], es[b]);
    StillPending(cfg, ws, es, b, k, g);
    assert Enabled(ws[k], es[k]);
  }

  /** Meanwhile the breaker is past its timeout or half-open, and half-open once g has upgraded it. */
  lemma {:induction false} StillPending(cfg: Config, ws: seq<World>, es: seq<Event>, b: nat, k: nat, g: nat)
    requires IsRun(cfg, ws, es) && b < k < |ws| && es[b] == BeginAllow(g) && g in ws[b + 1].pcs
    requires OnlyAllows(es, b, k) && forall i :: b < i < k ==> es[i] != BeginAllow(g)
    ensures g in ws[k].pcs ==>
      && ws[k].core.state != StateClosed
      && (ws[k].pcs[g].AtUpgrade? && ws[k].core.state == StateOpen ==> ws[k].pcs[g].now - ws[k].core.lastFailure >= cfg.resetTimeout)
      && (ws[k].pcs[g].AtReread? ==> ws[k].core.state == StateHalfOpen)
  {
    assert ws[k] == Step(cfg, ws[k - 1], es[k - 1]);
    if k > b + 1 {
      StillPending(cfg, ws, es, b, k - 1, g);
    }
  }

  ghost predicate Overtaken(ws: seq<World>, es: seq<Event>, b: nat, j: nat, k: nat)
    requires |ws| == |es| + 1 && k < |es|
  {
    b < j < k && es[k].Reread? && es[b] == BeginAllow(es[k].g) && ClosingSuccess(ws, es, j)
  }

  /** When a deciding read finds the breaker Closed, it refuses exactly if it is the third phase; then
      another goroutine's success closed the breaker after that Allow began. */
  lemma RefusedWhileClosedExactly(cfg: Config, ws: seq<World>, es: seq<Event>, k: nat)
    requires IsRun(cfg, ws, es) && k < |es| && ws[k].core.state == StateClosed
    ensures Returned(cfg, ws[k], es[k]) == Some(false) <==> es[k].Reread?
    ensures es[k].Reread? ==> exists b: nat, j: nat :: Overtaken(ws, es, b, j, k)
  {
    assert Enabled(ws[k], es[k]);
    if es[k].Reread? {
      var b := PendingBegan(cfg, ws, es, es[k].g, k);
      var j := ClosedByASuccess(cfg, ws, es, b + 1, k);
      assert Overtaken(ws, es, b, j, k);
    }
  }

  // ---- the race exists ----

  /** Every outcome recorded is that of a request admitted by the event just before it. */
  ghost predicate Answered(cfg: Config, ws: seq<World>, es: seq<Event>)
    requires IsRun(cfg, ws, es)
  {
    forall i :: 0 <= i < |es| && (es[i].Success? || es[i].Failure?) ==>
      i > 0 && Returned(cfg, ws[i - 1], es[i - 1]) == Some(true)
  }

  lemma Extend(cfg: Config, ws: seq<World>, es: seq<Event>, e: Event) returns (ws': seq<World>, es': seq<Event>)
    requires IsRun(cfg, ws, es) && Enabled(ws[|es|], e) && Answered(cfg, ws, es)
    requires e.Success? || e.Failure? ==> |es| > 0 && Returned(cfg, ws[|es| - 1], es[|es| - 1]) == Some(true)
    ensures ws' == ws + [Step(cfg, ws[|es|], e)] && es' == es + [e] && IsRun(cfg, ws', es') && Answered(cfg, ws', es')
  {
    hide Returned, Step, Enabled;
    ws', es' := ws + [Step(cfg, ws[|es|], e)], es + [e];
    forall i | 0 <= i < |es'| && (es'[i].Success? || es'[i].Failure?)
      ensures i > 0 && Returned(cfg, ws'[i - 1], es'[i - 1]) == Some(true)
    {
      if i < |es| {
        assert es'[i] == es[i] && es'[i - 1] == es[i - 1] && ws'[i - 1] == ws[i - 1];
      }
    }
  }

  /** Enough admitted requests that fail at instant 0 open a new breaker, whatever its threshold. */
  lemma {:induction false} OpenedByFailures(cfg: Config, n: nat) returns (ws: seq<World>, es: seq<Event>)
    requires n <= 1 || n <= cfg.failureThreshold
    ensures IsRun(cfg, ws, es) && Answered(cfg, ws, es) && |es| == 2 * n
    ensures ws[|es|] == World(Core(if n >= 1 && n >= cfg.failureThreshold then StateOpen else StateClosed, n, 0), 0, map[])
  {
    if n == 0 {
      ws, es := [World(Core(StateClosed, 0, 0), 0, map[])], [];
    } else {
      ws, es := OpenedByFailures(cfg, n - 1);
      ws, es := Extend(cfg, ws, es, BeginAllow(0));
      ws, es := Extend(cfg, ws, es, Failure);
    }
  }

  /** Under every configuration the race happens among requests that were all admitted: goroutine 1 is
      refused although the breaker is Closed at its deciding read, because goroutine 2 was admitted
      half-open and its success closed the breaker between goroutine 1's phases two and three. */
  lemma RefusedWhileClosed(cfg: Config) returns (ws: seq<World>, es: seq<Event>)
    ensures IsRun(cfg, ws, es) && Answered(cfg, ws, es) && |es| > 0
    ensures Returned(cfg, ws[|es| - 1], es[|es| - 1]) == Some(false)
    ensures ws[|es| - 1].core.state == StateClosed
  {
    hide IsRun, Answered;
    ws, es := OpenedByFailures(cfg, Max(1, cfg.failureThreshold));
    ws, es := Extend(cfg, ws, es, Tick(Max(0, cfg.resetTimeout)));
    ws, es := Extend(cfg, ws, es, BeginAllow(1));
    ws, es := Extend(cfg, ws, es, Upgrade(1));
    ws, es := Extend(cfg, ws, es, BeginAllow(2));
    ws, es := Extend(cfg, ws, es, Success);
    ws, es := Extend(cfg, ws, es, Reread(1));
  }
}

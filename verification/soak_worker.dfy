/** The soak workers' shared counters. Each counter is updated on its own, atomically or under an
    endpoint's mutex, so what holds between them is stated at every interleaving of the updates. */
module SoakWorker {
  datatype Strategy = ApiOnly | ScrapeOnly | Auto | UnknownStrategy

  /** The fallback strategy, and which endpoints the API serves. */
  datatype Config = Config(fallback: Strategy, isAPIEndpoint: nat -> bool)

  datatype Endpoint = Endpoint(requests: nat, successes: nat, failures: nat)

  datatype Stats = Stats(total: nat, successful: nat, failed: nat, api: nat, scrape: nat,
                         fallbackDecisions: nat, endpoints: seq<Endpoint>)

  /** How far a worker is into executeRequest; the name says which update it has just made, or
      which request it has just completed. */
  datatype Pc =
    | Idle
    | CountedTotal(ep: nat)
    | CountedRequest(ep: nat)
    | ApiReturned(ep: nat, ok: bool)
    | ScrapeReturned(ep: nat, ok: bool, fallback: bool)
    | CountedFallbackScrape(ep: nat, ok: bool)
    | CountedSource(ep: nat, ok: bool)
    | CountedOutcome(ep: nat, ok: bool)

  /** What the world decides during one request: the endpoint drawn, whether the API call and the
      scrape succeed, and whether the API error is one to fall back on. */
  datatype Choice = Choice(endpoint: nat, apiOk: bool, fallBack: bool, scrapeOk: bool)

  function WithEndpoint(s: Stats, ep: nat, e: Endpoint): Stats
    requires ep < |s.endpoints|
  {
    s.(endpoints := s.endpoints[ep := e])
  }

  /** Where the request itself leads, by strategy. */
  function AfterRequest(cfg: Config, ep: nat, c: Choice): Pc {
    match cfg.fallback
    case ApiOnly => ApiReturned(ep, c.apiOk)
    case ScrapeOnly => ScrapeReturned(ep, c.scrapeOk, false)
    case Auto =>
      if !cfg.isAPIEndpoint(ep) then ScrapeReturned(ep, c.scrapeOk, false)
      else if !c.apiOk && c.fallBack then ScrapeReturned(ep, c.scrapeOk, true)
      else ApiReturned(ep, c.apiOk)
    case UnknownStrategy => CountedSource(ep, false)
  }

  predicate InRange(s: Stats, pc: Pc) {
    !pc.Idle? ==> pc.ep < |s.endpoints|
  }

  /** The next atomic step of one worker. */
  function WorkerStep(cfg: Config, s: Stats, pc: Pc, c: Choice): (Stats, Pc)
    requires InRange(s, pc) && (pc.Idle? ==> c.endpoint < |s.endpoints|)
  {
    match pc
    case Idle => (s.(total := s.total + 1), CountedTotal(c.endpoint))
    case CountedTotal(ep) =>
      var e := s.endpoints[ep];
      (WithEndpoint(s, ep, e.(requests := e.requests + 1)), CountedRequest(ep))
    case CountedRequest(ep) => (s, AfterRequest(cfg, ep, c))
    case ApiReturned(ep, ok) => (s.(api := s.api + 1), CountedSource(ep, ok))
    case ScrapeReturned(ep, ok, fallback) =>
      (s.(scrape := s.scrape + 1), if fallback then CountedFallbackScrape(ep, ok) else CountedSource(ep, ok))
    case CountedFallbackScrape(ep, ok) =>
      (s.(fallbackDecisions := s.fallbackDecisions + 1), CountedSource(ep, ok))
    case CountedSource(ep, ok) =>
      (if ok then s.(successful := s.successful + 1) else s.(failed := s.failed + 1), CountedOutcome(ep, ok))
    case CountedOutcome(ep, ok) =>
      var e := s.endpoints[ep];
      (WithEndpoint(s, ep, if ok then e.(successes := e.successes + 1) else e.(failures := e.failures + 1)), Idle)
  }

  // ---- one worker on its own ----

  function Rank(pc: Pc): nat {
    match pc
    case Idle => 0
    case CountedTotal(_) => 7
    case CountedRequest(_) => 6
    case ApiReturned(_, _) => 5
    case ScrapeReturned(_, _, _) => 5
    case CountedFallbackScrape(_, _) => 4
    case CountedSource(_, _) => 3
    case CountedOutcome(_, _) => 2
  }

  /** The counters when a worker at pc finishes its request undisturbed. */
  function Finish(cfg: Config, s: Stats, pc: Pc, c: Choice): Stats
    requires InRange(s, pc)
    decreases Rank(pc)
  {
    if pc.Idle? then s
    else
      var (t, next) := WorkerStep(cfg, s, pc, c);
      Finish(cfg, t, next, c)
  }

  // ---- the effect of one request ----

  /** The request ends with a scrape: by strategy, or because the API does not serve the endpoint, or as
      a fallback. */
  predicate EndsInScrape(cfg: Config, c: Choice) {
    cfg.fallback.ScrapeOnly? || (cfg.fallback.Auto? && (!cfg.isAPIEndpoint(c.endpoint) || FallsBack(cfg, c)))
  }

  predicate FallsBack(cfg: Config, c: Choice) {
    cfg.fallback.Auto? && cfg.isAPIEndpoint(c.endpoint) && !c.apiOk && c.fallBack
  }

  /** The call that decides the outcome succeeds. */
  predicate Succeeds(cfg: Config, c: Choice) {
    !cfg.fallback.UnknownStrategy? && if EndsInScrape(cfg, c) then c.scrapeOk else c.apiOk
  }

  function One(b: bool): nat {
    if b then 1 else 0
  }

  /** Every counter, and which of them a request moves. */
  ghost predicate IsEffect(cfg: Config, c: Choice, s: Stats, t: Stats)
    requires c.endpoint < |s.endpoints|
  {
    var ep, ok := c.endpoint, Succeeds(cfg, c);
    && t.total == s.total + 1
    && t.successful == s.successful + One(ok) && t.failed == s.failed + One(!ok)
    && t.api == s.api + One(!cfg.fallback.UnknownStrategy? && !EndsInScrape(cfg, c))
    && t.scrape == s.scrape + One(EndsInScrape(cfg, c))
    && t.fallbackDecisions == s.fallbackDecisions + One(FallsBack(cfg, c))
    && |t.endpoints| == |s.endpoints|
    && t.endpoints[ep] == Endpoint(s.endpoints[ep].requests + 1, s.endpoints[ep].successes + One(ok), s.endpoints[ep].failures + One(!ok))
    && forall k :: 0 <= k < |s.endpoints| && k != ep ==> t.endpoints[k] == s.endpoints[k]
  }

  lemma RequestEffect(cfg: Config, s: Stats, c: Choice)
    requires c.endpoint < |s.endpoints|
    ensures IsEffect(cfg, c, s, Finish(cfg, s.(total := s.total + 1), CountedTotal(c.endpoint), c))
  {
    var ep, ok := c.endpoint, Succeeds(cfg, c);
    var e := s.endpoints[ep];
    var s1 := WithEndpoint(s.(total := s.total + 1), ep, e.(requests := e.requests + 1));
    var s2 := s1.(api := s.api + One(!cfg.fallback.UnknownStrategy? && !EndsInScrape(cfg, c)),
                  scrape := s.scrape + One(EndsInScrape(cfg, c)),
                  fallbackDecisions := s.fallbackDecisions + One(FallsBack(cfg, c)));
    var goal := Finish(cfg, s.(total := s.total + 1), CountedTotal(ep), c);
    assert goal == Finish(cfg, s1, CountedRequest(ep), c) == Finish(cfg, s1, AfterRequest(cfg, ep, c), c);
    SourceEffect(cfg, s1, s2, c);
    OutcomeEffect(cfg, s2, ep, ok, c);
  }

  lemma SourceEffect(cfg: Config, s: Stats, t: Stats, c: Choice)
    requires c.endpoint < |s.endpoints|
    requires t == s.(api := s.api + One(!cfg.fallback.UnknownStrategy? && !EndsInScrape(cfg, c)),
                     scrape := s.scrape + One(EndsInScrape(cfg, c)),
                     fallbackDecisions := s.fallbackDecisions + One(FallsBack(cfg, c)))
    ensures Finish(cfg, s, AfterRequest(cfg, c.endpoint, c), c) == Finish(cfg, t, CountedSource(c.endpoint, Succeeds(cfg, c)), c)
  {
  }

  lemma OutcomeEffect(cfg: Config, s: Stats, ep: nat, ok: bool, c: Choice)
    requires ep < |s.endpoints|
    ensures var t := Finish(cfg, s, CountedSource(ep, ok), c); var e := s.endpoints[ep];
      t == s.(successful := s.successful + One(ok), failed := s.failed + One(!ok),
              endpoints := s.endpoints[ep := Endpoint(e.requests, e.successes + One(ok), e.failures + One(!ok))])
  {
    var counted := if ok then s.(successful := s.successful + 1) else s.(failed := s.failed + 1);
    assert Finish(cfg, s, CountedSource(ep, ok), c) == Finish(cfg, counted, CountedOutcome(ep, ok), c);
    var e := s.endpoints[ep];
    var done := WithEndpoint(counted, ep, if ok then e.(successes := e.successes + 1) else e.(failures := e.failures + 1));
    assert Finish(cfg, counted, CountedOutcome(ep, ok), c) == Finish(cfg, done, Idle, c) == done;
  }

  class Counters {
    var total: nat
    var successful: nat
    var failed: nat
    var api: nat
    var scrape: nat
    var fallbackDecisions: nat
    var endpoints: seq<Endpoint>

    function View(): Stats
      reads this
    {
      Stats(total, successful, failed, api, scrape, fallbackDecisions, endpoints)
    }

    constructor (endpointCount: nat)
      ensures View() == Stats(0, 0, 0, 0, 0, 0, seq(endpointCount, _ => Endpoint(0, 0, 0)))
    {
      total, successful, failed, api, scrape, fallbackDecisions := 0, 0, 0, 0, 0, 0;
      endpoints := seq(endpointCount, _ => Endpoint(0, 0, 0));
    }

    /** executeRequest with no other worker about: exactly the steps of `WorkerStep`, in order, and so
        the stated effect on every counter. */
    method ExecuteRequest(cfg: Config, c: Choice)
      requires c.endpoint < |endpoints|
      modifies this
      ensures View() == Finish(cfg, old(View()).(total := old(total) + 1), CountedTotal(c.endpoint), c)
      ensures IsEffect(cfg, c, old(View()), View())
    {
      hide IsEffect;
      RequestEffect(cfg, View(), c);
      var ep := c.endpoint;
      total := total + 1;
      ghost var goal := Finish(cfg, View(), CountedTotal(ep), c);
      endpoints := endpoints[ep := endpoints[ep].(requests := endpoints[ep].requests + 1)];
      assert goal == Finish(cfg, View(), CountedRequest(ep), c);
      ghost var pc := AfterRequest(cfg, ep, c);
      assert goal == Finish(cfg, View(), pc, c);
      var ok := SendByStrategy(cfg, c);
      assert goal == Finish(cfg, View(), CountedSource(ep, ok), c);
      CountOutcome(cfg, ep, ok, c);
    }

    /** The switch on the strategy: the source counters of the request, and whether it succeeded. */
    method SendByStrategy(cfg: Config, c: Choice) returns (ok: bool)
      requires c.endpoint < |endpoints|
      modifies this
      ensures |endpoints| == |old(endpoints)|
      ensures Finish(cfg, View(), CountedSource(c.endpoint, ok), c) == Finish(cfg, old(View()), AfterRequest(cfg, c.endpoint, c), c)
    {
      var ep := c.endpoint;
      ghost var goal := Finish(cfg, View(), AfterRequest(cfg, ep, c), c);
      ok := false;
      match cfg.fallback {
        case ApiOnly =>
          ok := c.apiOk;
          api := api + 1;
        case ScrapeOnly =>
          ok := c.scrapeOk;
          scrape := scrape + 1;
        case Auto =>
          var fallbackUsed;
          ok, fallbackUsed := ExecuteAutoFallbackRequest(cfg, c);
          if fallbackUsed {
            assert goal == Finish(cfg, View(), CountedFallbackScrape(ep, ok), c);
            fallbackDecisions := fallbackDecisions + 1;
          }
        case UnknownStrategy =>
      }
    }

    /** The success and failure counters, global and per endpoint. */
    method CountOutcome(cfg: Config, ep: nat, ok: bool, c: Choice)
      requires ep < |endpoints|
      modifies this
      ensures View() == Finish(cfg, old(View()), CountedSource(ep, ok), c)
    {
      ghost var goal := Finish(cfg, View(), CountedSource(ep, ok), c);
      if !ok {
        failed := failed + 1;
        assert goal == Finish(cfg, View(), CountedOutcome(ep, ok), c);
        endpoints := endpoints[ep := endpoints[ep].(failures := endpoints[ep].failures + 1)];
      } else {
        successful := successful + 1;
        assert goal == Finish(cfg, View(), CountedOutcome(ep, ok), c);
        endpoints := endpoints[ep := endpoints[ep].(successes := endpoints[ep].successes + 1)];
      }
      assert goal == Finish(cfg, View(), Idle, c);
    }

    method ExecuteAutoFallbackRequest(cfg: Config, c: Choice) returns (ok: bool, fallbackUsed: bool)
      requires cfg.fallback.Auto?
      modifies this
      ensures var pc := AfterRequest(cfg, c.endpoint, c);
        && ok == pc.ok && fallbackUsed == (pc.ScrapeReturned? && pc.fallback)
        && View() == if pc.ApiReturned? then old(View()).(api := old(api) + 1) else old(View()).(scrape := old(scrape) + 1)
    {
      if cfg.isAPIEndpoint(c.endpoint) {
        if c.apiOk {
          api := api + 1;
          return true, false;
        }
        if c.fallBack {
          scrape := scrape + 1;
          return c.scrapeOk, true;
        }
        api := api + 1;
        return false, false;
      }
      scrape := scrape + 1;
      return c.scrapeOk, false;
    }
  }

  // ---- any number of workers ----

  datatype World = World(stats: Stats, workers: seq<Pc>)

  /** Worker w takes its next step. */
  datatype Event = Event(w: nat, choice: Choice)

  predicate Enabled(s: World, e: Event) {
    && e.w < |s.workers|
    && InRange(s.stats, s.workers[e.w])
    && (s.workers[e.w].Idle? ==> e.choice.endpoint < |s.stats.endpoints|)
  }

  function Step(cfg: Config, s: World, e: Event): World
    requires Enabled(s, e)
  {
    var (t, next) := WorkerStep(cfg, s.stats, s.workers[e.w], e.choice);
    World(t, s.workers[e.w := next])
  }

  ghost predicate Init(s: World) {
    && s.stats.total == s.stats.successful == s.stats.failed == s.stats.api == s.stats.scrape == s.stats.fallbackDecisions == 0
    && (forall k :: 0 <= k < |s.stats.endpoints| ==> s.stats.endpoints[k] == Endpoint(0, 0, 0))
    && (forall w :: 0 <= w < |s.workers| ==> s.workers[w] == Idle)
  }

  ghost predicate IsRun(cfg: Config, ss: seq<World>, es: seq<Event>) {
    && |ss| == |es| + 1
    && Init(ss[0])
    && forall i :: 0 <= i < |es| ==> Enabled(ss[i], es[i]) && ss[i + 1] == Step(cfg, ss[i], es[i])
  }

  /** Quantities counted over the workers. */
  datatype Measure =
    | InFlight            // counted in total, outcome not yet counted
    | Unsourced           // counted in total, in neither the API nor the scrape count yet
    | FallbackOwed        // scraped as a fallback, the decision not yet counted
    | RequestOwed         // counted in total, not yet in its endpoint's requests
    | OutcomeOwed(ok: bool) // outcome counted globally, not yet at its endpoint
    | BusyAt(ep: nat)     // in that endpoint's requests, in neither its successes nor its failures yet

  function Weight(m: Measure, pc: Pc): nat {
    match m
    case InFlight => if pc.Idle? || pc.CountedOutcome? then 0 else 1
    case Unsourced => if pc.CountedTotal? || pc.CountedRequest? || pc.ApiReturned? || pc.ScrapeReturned? then 1 else 0
    case FallbackOwed => if pc.CountedFallbackScrape? then 1 else 0
    case RequestOwed => if pc.CountedTotal? then 1 else 0
    case OutcomeOwed(ok) => if pc.CountedOutcome? && pc.ok == ok then 1 else 0
    case BusyAt(ep) => if !pc.Idle? && !pc.CountedTotal? && pc.ep == ep then 1 else 0
  }

  function Count(m: Measure, ws: seq<Pc>): nat {
    if ws == [] then 0 else Count(m, ws[..|ws| - 1]) + Weight(m, ws[|ws| - 1])
  }

  lemma {:induction false} CountUpdate(m: Measure, ws: seq<Pc>, w: nat, pc: Pc)
    requires w < |ws|
    ensures Count(m, ws[w := pc]) == Count(m, ws) - Weight(m, ws[w]) + Weight(m, pc)
  {
    var n := |ws| - 1;
    if w == n {
      assert ws[w := pc][..n] == ws[..n];
    } else {
      CountUpdate(m, ws[..n], w, pc);
      assert ws[w := pc][..n] == ws[..n][w := pc];
    }
  }

  lemma {:induction false} CountIdle(m: Measure, ws: seq<Pc>)
    requires forall w :: 0 <= w < |ws| ==> ws[w] == Idle
    ensures Count(m, ws) == 0
  {
    if ws != [] {
      CountIdle(m, ws[..|ws| - 1]);
    }
  }

  datatype Field = Requests | Successes | Failures

  function Get(f: Field, e: Endpoint): nat {
    match f
    case Requests => e.requests
    case Successes => e.successes
    case Failures => e.failures
  }

  /** The sum over all endpoints. */
  function SumOf(f: Field, es: seq<Endpoint>): nat {
    if es == [] then 0 else SumOf(f, es[..|es| - 1]) + Get(f, es[|es| - 1])
  }

  lemma {:induction false} SumOfUpdate(f: Field, es: seq<Endpoint>, k: nat, e: Endpoint)
    requires k < |es|
    ensures SumOf(f, es[k := e]) == SumOf(f, es) - Get(f, es[k]) + Get(f, e)
  {
    var n := |es| - 1;
    if k == n {
      assert es[k := e][..n] == es[..n];
    } else {
      SumOfUpdate(f, es[..n], k, e);
      assert es[k := e][..n] == es[..n][k := e];
    }
  }

  lemma {:induction false} SumOfZeros(f: Field, es: seq<Endpoint>)
    requires forall k :: 0 <= k < |es| ==> es[k] == Endpoint(0, 0, 0)
    ensures SumOf(f, es) == 0
  {
    if es != [] {
      SumOfZeros(f, es[..|es| - 1]);
    }
  }

  ghost predicate Balanced(cfg: Config, s: World) {
    var st, ws := s.stats, s.workers;
    && st.total == st.successful + st.failed + Count(InFlight, ws)
    && (cfg.fallback != UnknownStrategy ==> st.total == st.api + st.scrape + Count(Unsourced, ws))
    && (cfg.fallback == UnknownStrategy ==> st.api == st.scrape == 0)
    && st.fallbackDecisions + Count(FallbackOwed, ws) <= st.scrape
    && st.total == SumOf(Requests, st.endpoints) + Count(RequestOwed, ws)
  }

  /** Each outcome counted globally is counted at its endpoint, or about to be. */
  ghost predicate OutcomesBalanced(s: World) {
    && s.stats.successful == SumOf(Successes, s.stats.endpoints) + Count(OutcomeOwed(true), s.workers)
    && s.stats.failed == SumOf(Failures, s.stats.endpoints) + Count(OutcomeOwed(false), s.workers)
  }

  /** Each strategy moves its own source counters only. */
  predicate SourcesMatch(cfg: Config, st: Stats) {
    && (cfg.fallback == ApiOnly ==> st.scrape == 0 && st.fallbackDecisions == 0)
    && (cfg.fallback == ScrapeOnly ==> st.api == 0 && st.fallbackDecisions == 0)
  }

  ghost predicate EndpointBalanced(s: World, k: nat)
    requires k < |s.stats.endpoints|
  {
    var e := s.stats.endpoints[k];
    e.requests == e.successes + e.failures + Count(BusyAt(k), s.workers)
  }

  /** Each worker is somewhere its strategy can put it. */
  predicate Plausible(cfg: Config, s: Stats, pc: Pc) {
    && InRange(s, pc)
    && (cfg.fallback == UnknownStrategy ==> !pc.ApiReturned? && !pc.ScrapeReturned? && !pc.CountedFallbackScrape?)
    && (cfg.fallback == ApiOnly ==> !pc.ScrapeReturned? && !pc.CountedFallbackScrape?)
    && (cfg.fallback == ScrapeOnly ==> !pc.ApiReturned? && !pc.CountedFallbackScrape? && (pc.ScrapeReturned? ==> !pc.fallback))
  }

  ghost predicate Inv(cfg: Config, s: World) {
    && Balanced(cfg, s) && OutcomesBalanced(s) && SourcesMatch(cfg, s.stats)
    && (forall k :: 0 <= k < |s.stats.endpoints| ==> EndpointBalanced(s, k))
    && (forall w :: 0 <= w < |s.workers| ==> Plausible(cfg, s.stats, s.workers[w]))
  }

  lemma BalancedStep(cfg: Config, s: World, e: Event)
    requires Inv(cfg, s) && Enabled(s, e)
    ensures Balanced(cfg, Step(cfg, s, e))
  {
    hide Count, SumOf;
    var t := Step(cfg, s, e);
    var next := t.workers[e.w];
    CountUpdate(InFlight, s.workers, e.w, next);
    CountUpdate(Unsourced, s.workers, e.w, next);
    CountUpdate(FallbackOwed, s.workers, e.w, next);
    CountUpdate(RequestOwed, s.workers, e.w, next);
    var pc := s.workers[e.w];
    assert Plausible(cfg, s.stats, pc);
    if pc.CountedTotal? || pc.CountedOutcome? {
      SumOfUpdate(Requests, s.stats.endpoints, pc.ep, t.stats.endpoints[pc.ep]);
    }
  }

  lemma OutcomesBalancedStep(cfg: Config, s: World, e: Event)
    requires Inv(cfg, s) && Enabled(s, e)
    ensures OutcomesBalanced(Step(cfg, s, e))
  {
    hide Count, SumOf, Balanced, EndpointBalanced;
    var t := Step(cfg, s, e);
    CountUpdate(OutcomeOwed(true), s.workers, e.w, t.workers[e.w]);
    CountUpdate(OutcomeOwed(false), s.workers, e.w, t.workers[e.w]);
    var pc := s.workers[e.w];
    if pc.CountedTotal? || pc.CountedOutcome? {
      SumOfUpdate(Successes, s.stats.endpoints, pc.ep, t.stats.endpoints[pc.ep]);
      SumOfUpdate(Failures, s.stats.endpoints, pc.ep, t.stats.endpoints[pc.ep]);
    }
  }

  lemma SourcesMatchStep(cfg: Config, s: World, e: Event)
    requires Inv(cfg, s) && Enabled(s, e)
    ensures SourcesMatch(cfg, Step(cfg, s, e).stats)
  {
    hide Balanced, OutcomesBalanced, EndpointBalanced;
    assert Plausible(cfg, s.stats, s.workers[e.w]);
  }

  lemma EndpointBalancedStep(cfg: Config, s: World, e: Event, k: nat)
    requires Inv(cfg, s) && Enabled(s, e) && k < |s.stats.endpoints|
    ensures EndpointBalanced(Step(cfg, s, e), k)
  {
    assert EndpointBalanced(s, k);
    CountUpdate(BusyAt(k), s.workers, e.w, Step(cfg, s, e).workers[e.w]);
  }

  lemma InvStep(cfg: Config, s: World, e: Event)
    requires Inv(cfg, s) && Enabled(s, e)
    ensures Inv(cfg, Step(cfg, s, e))
  {
    var t := Step(cfg, s, e);
    BalancedStep(cfg, s, e);
    OutcomesBalancedStep(cfg, s, e);
    SourcesMatchStep(cfg, s, e);
    forall k | 0 <= k < |t.stats.endpoints| ensures EndpointBalanced(t, k) {
      EndpointBalancedStep(cfg, s, e, k);
    }
    forall w | 0 <= w < |t.workers| ensures Plausible(cfg, t.stats, t.workers[w]) {
      assert Plausible(cfg, s.stats, s.workers[w]);
    }
  }

  lemma {:induction false} InvHolds(cfg: Config, ss: seq<World>, es: seq<Event>, i: nat)
    requires IsRun(cfg, ss, es) && i < |ss|
    ensures Inv(cfg, ss[i])
  {
    hide Balanced, EndpointBalanced, Step, Enabled;
    if i == 0 {
      InvInit(cfg, ss[0]);
    } else {
      InvHolds(cfg, ss, es, i - 1);
      InvStep(cfg, ss[i - 1], es[i - 1]);
    }
  }

  lemma InvInit(cfg: Config, s: World)
    requires Init(s)
    ensures Inv(cfg, s)
  {
    CountIdle(InFlight, s.workers);
    CountIdle(Unsourced, s.workers);
    CountIdle(FallbackOwed, s.workers);
    CountIdle(RequestOwed, s.workers);
    SumOfZeros(Requests, s.stats.endpoints);
    SumOfZeros(Successes, s.stats.endpoints);
    SumOfZeros(Failures, s.stats.endpoints);
    CountIdle(OutcomeOwed(true), s.workers);
    CountIdle(OutcomeOwed(false), s.workers);
    forall k | 0 <= k < |s.stats.endpoints| ensures EndpointBalanced(s, k) {
      CountIdle(BusyAt(k), s.workers);
    }
  }

  /** At every point of every run: total = successful + failed + in flight, and fallback decisions
      never exceed scrape requests. */
  lemma RequestsAreConserved(cfg: Config, ss: seq<World>, es: seq<Event>, i: nat)
    requires IsRun(cfg, ss, es) && i < |ss|
    ensures var st := ss[i].stats;
      && st.total == st.successful + st.failed + Count(InFlight, ss[i].workers)
      && st.fallbackDecisions <= st.scrape
  {
    InvHolds(cfg, ss, es, i);
  }

  /** At every point of every run: each outcome counted globally is one counted at its endpoint, or owed
      by a worker between the two updates, successes as successes and failures as failures. */
  lemma OutcomesAreAttributed(cfg: Config, ss: seq<World>, es: seq<Event>, i: nat)
    requires IsRun(cfg, ss, es) && i < |ss|
    ensures var st, ws := ss[i].stats, ss[i].workers;
      && st.successful == SumOf(Successes, st.endpoints) + Count(OutcomeOwed(true), ws)
      && st.failed == SumOf(Failures, st.endpoints) + Count(OutcomeOwed(false), ws)
      && (cfg.fallback == ApiOnly ==> st.scrape == 0 && st.fallbackDecisions == 0)
      && (cfg.fallback == ScrapeOnly ==> st.api == 0 && st.fallbackDecisions == 0)
  {
    InvHolds(cfg, ss, es, i);
  }

  /** Whenever all workers are idle, every account closes: by outcome, by endpoint and, for a known
      strategy, by source. */
  lemma AccountsCloseWhenIdle(cfg: Config, ss: seq<World>, es: seq<Event>, i: nat)
    requires IsRun(cfg, ss, es) && i < |ss|
    requires forall w :: 0 <= w < |ss[i].workers| ==> ss[i].workers[w] == Idle
    ensures var st := ss[i].stats;
      && st.total == st.successful + st.failed
      && st.total == SumOf(Requests, st.endpoints)
      && (cfg.fallback != UnknownStrategy ==> st.total == st.api + st.scrape)
      && (cfg.fallback == UnknownStrategy ==> st.api == st.scrape == st.fallbackDecisions == 0)
      && (forall k :: 0 <= k < |st.endpoints| ==>
            st.endpoints[k].requests == st.endpoints[k].successes + st.endpoints[k].failures)
  {
    InvHolds(cfg, ss, es, i);
    var s := ss[i];
    CountIdle(InFlight, s.workers);
    CountIdle(Unsourced, s.workers);
    CountIdle(RequestOwed, s.workers);
    forall k | 0 <= k < |s.stats.endpoints|
      ensures s.stats.endpoints[k].requests == s.stats.endpoints[k].successes + s.stats.endpoints[k].failures
    {
      assert EndpointBalanced(s, k);
      CountIdle(BusyAt(k), s.workers);
    }
  }
}

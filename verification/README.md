# A verified model of yfinance-go

yfinance-go fetches daily bars, quotes and fundamentals from Yahoo Finance, scrapes what the API does
not serve, normalizes and emits it, and publishes it on a message bus. This project models the parts
of it that carry state, arithmetic or an algorithm, and proves what they keep over whole runs. Check
it with `dafny verify dfyconfig.toml`.

| file | models |
|---|---|
| `httpx_breaker.dfy`, `httpx_client.dfy`, `httpx_limiter.dfy` | the HTTP client's circuit breaker, whose `Allow` drops and retakes its lock, the retry loop around it, and the rate limiter, which drops its lock while it waits |
| `bus_breaker.dfy`, `bus_chunking.dfy`, `bus_publish.dfy`, `bus_topic.dfy` | the bus: breaker, chunking, the publish pipeline, topic names |
| `scrape_bucket.dfy` | the scraper's token bucket, which holds its mutex while it waits |
| `soak_worker.dfy` | the counters the soak workers share |
| `scrape_news.dfy`, `sorting.dfy`, `emit_periods.dfy` | news deduplication; the exchange sort; the overlap check of reporting periods |
| `norm_decimal.dfy`, `emit_decimals.dfy` | the three rounding routines |
| `scrape_robots.dfy`, `scrape_robots_parse.dfy` | robots.txt: evaluation against RFC 9309, parser and printed form |
| `config_interpolate.dfy` | `${VAR:-default}` interpolation |
| `yahoo_bars.dfy`, `norm_bars.dfy`, `emit_bars.dfy` | the bar pipeline: validate, extract, normalize, emit |
| `prelude.dfy`, `strings.dfy` | shared vocabulary: int64 arithmetic, string operations |

Objects that update their fields are classes; each method is proved against a function of the old
state, and the properties are proved of runs of those functions. Time is an integer (seconds as reals in
the token buckets), and random draws, replies, timer delays and cancellations are parameters that may
take any value in their range. Concurrency is a state machine over locked sections or atomic updates,
quantified over all interleavings.

Where the code and its own words, or the likely intent, part ways, the model follows the code:

- The HTTP breaker has a failure window that is never consulted: failures count for ever until a
  half-open success (`TripsOnTotalFailures`).
- The bus breaker's `FailureThreshold` never matters when it is a number, and validation accepts NaN,
  under which the breaker never trips (`FailureThresholdIrrelevant`, `NaNThresholdNeverTrips`).
- The retry jitter is commented as 25 % either way; it is 12.5 %, and is added after the cap, which
  therefore holds only where there is room for it (`MaxDelayKeptExactly`, `ShippedRetryConfigs`). A
  retryable transport error is never retried, because the publisher wraps it
  (`BusPublisherIsNeverRetried`).
- The scraper's token bucket credits a wait twice, so its sustained rate is twice the configured one,
  unless the burst is 0 (`FactorTwoIsExact`, `RateKeptExactly`); at rate 0 it does not limit at all
  (`TwiceRateKeptExactly`).
- The HTTP client's limiter bounds no rate, because goroutines that wait together are promised the same
  token (`NoRateBound`); and a configured rate below 1, such as the scraper's default of 0.7, is cut to
  0 and limits nobody (`UnlimitedExactlyBelowOne`).
- The chunking preview reports an even split, while the chunks are full up to the last one: the sizes
  agree only when that one lacks at most a byte (`PreviewIsExact`).
- The bus topic error message speaks of four parts and lists five; four are accepted.
- Robots: ties go to disallow (`DepartsFromRfcExactlyAtTies`); several groups are not merged; and "*"
  groups are obeyed beside groups that name the crawler, although the code's comment keeps them for
  when no specific rules are found (its fallback is never reached). For which files this matters can be
  read off the rules (`FollowsRfcExactly`, `StarGroupRefuses`). User-agent lines in a row do not share
  the rules that follow (`ParserFollowsRfcExactly`).
- `MultiplyAndRound` rounds negatives toward zero, and `convertScale` checks overflow on the positive
  side only (`MultiplyAndRoundMeetsHalfUp`, `NegativeScaleUpMayWrap`).
- Which news articles are kept depends on the order they come in, unless no article duplicates a
  different one (`OrderMattersExactly`). Running the deduplication again is not always harmless, but
  drops something only for dates 292 years apart (`RerunDropsNothing`, `RerunMayDrop`).
- An empty period that ties with a non-empty one makes the verdict of the period check depend on the
  input order (`OrderDecidesExactly`).
- Interpolation need not end; it always does when one of `$`, `{`, `}` is in no environment value
  (`EndsExactlyWithoutAMark`).
- The comments on day boundaries speak of the timestamp's day and of the day before; the code takes
  the day that lies two days before (`DayWindow`).

## Model

| member | source | states |
|---|---|---|
| HttpxBreaker.CircuitBreaker.AllowRead | internal/httpx/client.go:365-391 | The first read-locked section of `Allow`: admit, refuse, or go on to upgrade. |
| HttpxBreaker.CircuitBreaker.AllowUpgrade | internal/httpx/client.go:377-382 | The write-locked section: Open becomes HalfOpen if, still, the timeout has elapsed since the last failure at the instant read before the lock was dropped. |
| HttpxBreaker.CircuitBreaker.Allow | internal/httpx/client.go:365-392 | Undisturbed, `Allow` refuses exactly while the breaker is Open and the reset timeout has not elapsed, and an admission out of Open leaves it HalfOpen. |
| HttpxBreaker.CircuitBreaker.RecordSuccess | internal/httpx/client.go:395-403 | Only a half-open breaker is closed, with its count reset; a success while Closed resets nothing. |
| HttpxBreaker.CircuitBreaker.RecordFailure | internal/httpx/client.go:406-416 | Counts, stamps the time, and opens at the threshold, from any state. |
| HttpxBreaker.InvHolds | internal/httpx/client.go:365-416 | For any number of goroutines interleaving at every locked section: a breaker that is not Closed has reached its threshold, and no pending upgrade holds an instant of the future. |
| HttpxBreaker.ClosedExactlyBelowThreshold | internal/httpx/client.go:365-416 | Over all interleavings the state is Closed exactly when failures < threshold, if and only if the configured threshold is at least 1. |
| HttpxBreaker.StaysOpen | internal/httpx/client.go:376-384 | After a failure that leaves it Open, the breaker stays Open until the reset timeout has passed, whatever `Allow` calls were already under way. |
| HttpxBreaker.NoEarlyAdmission | internal/httpx/client.go:365-392 | No `Allow` whose deciding read comes before lastFailure + resetTimeout returns true, even if it began before that failure. |
| HttpxBreaker.HalfOpenFailureReopens | internal/httpx/client.go:406-416 | In every interleaving, one failure recorded while the breaker is not Closed leaves it Open. |
| HttpxBreaker.TripsOnTotalFailures | internal/httpx/client.go:395-416 | In every run, from the start or any closing success to the next one, the count is the number of all failures recorded, and (threshold >= 1) the breaker is Closed exactly while it is below the threshold: successes and the configured window do not matter. |
| HttpxBreaker.RefusedWhileClosedExactly | internal/httpx/client.go:365-392 | In every run, a deciding read that finds the breaker Closed refuses exactly if it is the third phase of its `Allow`; then a half-open success closed the breaker after that `Allow` began. |
| HttpxBreaker.ClosedByASuccess | internal/httpx/client.go:395-403 | Between a point where the breaker is not Closed and one where it is lies a half-open success. |
| HttpxBreaker.RefusedWhileClosed | internal/httpx/client.go:376-384 | Under every configuration that race happens among requests that were all admitted. |
| HttpxBreaker.LatecomersAreAdmitted | internal/httpx/client.go:376-384 | Goroutines that find the timeout elapsed together are all admitted: an `Allow` under way is refused only if an outcome was recorded meanwhile (`UpgradeEffect`: an upgrade of a breaker that another has already half-opened, or closed, changes nothing). |
| HttpxClient.CalculateBackoff | internal/httpx/client.go:251-271 | Base times 2^attempt plus jitter (none when none is configured), cut off at the maximum, as long as int64 holds it; never above the maximum, wrap-around included. |
| HttpxClient.BackoffIsMonotone | internal/httpx/client.go:251-271 | For the same jitter, a later attempt never waits less, as long as the product fits int64. |
| HttpxClient.Client.TryOnce | internal/httpx/client.go:125-182 | One send and its bookkeeping: what reaches the breaker, and whether the call returns or backs off. |
| HttpxClient.Client.SendLoop | internal/httpx/client.go:122-207 | Between 1 and MaxAttempts sends, each but the last retried; the tail with its extra RecordFailure is reached only when MaxAttempts <= 0. |
| HttpxClient.Client.Do | internal/httpx/client.go:97-207 | Refused by the breaker or by the limiter with nothing sent and nothing recorded; else the report means what `SentMeans` says and the breaker has recorded each send. |
| HttpxClient.SentMeans | internal/httpx/client.go:122-248 | A send before the last attempt leads to another, or to a cancelled wait, exactly for a deadline, a cancellation, a transport error, or status 429, 500, 502, 503 or 504; the call succeeds exactly when its last send has a status from 200 to 299, and else reports that send's error; each wait is the backoff of its attempt, cut short only by the cancellation. |
| HttpxClient.SendEffect | internal/httpx/client.go:127-182 | What one send does to the breaker: 2xx closes a half-open one, 401 changes nothing, everything else counts a failure stamped with the time of that send. |
| HttpxClient.TotalWaitBounded | internal/httpx/client.go:184-199 | The waits of one call add up to at most (MaxAttempts - 1) * MaxDelayMs. |
| HttpxClient.OneFailurePerFailedSend | internal/httpx/client.go:127-182 | One call adds to the breaker exactly one failure for each failed send other than a 401; a success in half-open resets the count. |
| HttpxClient.StateAfterSuccessfulCall | internal/httpx/client.go:127-164 | A successful call leaves the breaker Open exactly when it took retries whose failures, with those counted before, reach the threshold; else Closed, never half-open. |
| HttpxLimiter.RateLimiter.EnterWait | internal/httpx/client.go:293-318 | The first locked phase of `Wait`: refills up to the burst, then takes a token at once exactly when there is a whole one, or gives the time to wait (none at rate 0). |
| HttpxLimiter.RateLimiter.LeaveWait | internal/httpx/client.go:324-329 | The second locked phase, after the timer: no token is left, whatever was refilled meanwhile. |
| HttpxLimiter.EnterEffect | internal/httpx/client.go:293-318 | From any state and at any later instant, the tokens left plus the token granted are the lesser of the burst and tokens + rate * elapsed; a wait times the rate is the missing part of a token. |
| HttpxLimiter.GrantedAtOnceExactly | internal/httpx/client.go:293-313 | n calls in a row are all granted at once if and only if n is at most the burst and at most what was left plus the rate times the idle time. |
| HttpxLimiter.PromiseIsExact | internal/httpx/client.go:315-325 | The instant a caller is told to wait for is the one at which the bucket, left alone, holds exactly its token. |
| HttpxLimiter.CancelledCallIsInvisible | internal/httpx/client.go:293-324 | A caller that is cancelled while it waits leaves no trace: later callers find the same tokens as without it, at every instant. |
| HttpxLimiter.TimedGrantEmpties | internal/httpx/client.go:324-329 | A grant by timer leaves nothing in the bucket, also when it was refilled in the meantime. |
| HttpxLimiter.TokensInBounds | internal/httpx/client.go:293-331 | In every interleaving of any number of goroutines 0 <= tokens <= burst. |
| HttpxLimiter.NoRateBound | internal/httpx/client.go:293-331 | No bound on the rate holds: for every burst, rate and n, some interleaving of n goroutines has burst + n grants after 1 / rate seconds, and at rate 0 at once. |
| HttpxLimiter.UnlimitedExactlyBelowOne | internal/httpx/client.go:85-92 | The configured rate is cut down to an integer, so a single caller is not limited at all if and only if fewer than one request per second is configured. |
| BusBreaker.CircuitBreaker.TryExecute | internal/bus/retry.go:147-167 | The admission verdict and the state it leaves; `AdmissionEffect` spells both out. |
| BusBreaker.CircuitBreaker.Record | internal/bus/retry.go:170-208 | The whole new state after a success or a failure; `FailureEffect` and `SuccessEffect` spell it out. |
| BusBreaker.RateTestIsVacuous | internal/bus/retry.go:199-208 | Under an accepted numeric threshold the failure-rate test holds exactly when the count has reached Window. |
| BusBreaker.FailureEffect | internal/bus/retry.go:170-181 | A failure counts and is stamped in every state, and opens the breaker for the reset timeout exactly when it makes the count reach Window under a numeric threshold. |
| BusBreaker.StepRefines | internal/bus/retry.go:131-196 | One call refines one step of a machine that counts a streak, refuses until an instant, or counts probes. |
| BusBreaker.BreakerIsHistoryFold | internal/bus/retry.go:131-208 | Over every sequential run the breaker is in the mode the call history prescribes, and is Closed exactly while failureCount < Window. |
| BusBreaker.NaNThresholdNeverTrips | internal/bus/bus.go:277-295 | Validation accepts a NaN threshold, and under it the breaker never leaves Closed. |
| BusBreaker.ClosedBelowWindowIffNumeric | internal/bus/retry.go:170-208 | For an accepted configuration, Closed is equivalent to failureCount < Window over every history if and only if the threshold is a number. |
| BusBreaker.FailureThresholdIrrelevant | internal/bus/retry.go:199-208 | Two accepted configurations that differ only in a numeric FailureThreshold behave alike on every history. |
| BusBreaker.StreakIsTrailingRun | internal/bus/retry.go:173-188 | While Closed the count is the length of the run of failures the history ends in. |
| BusBreaker.TripsExactlyOnWindowConsecutiveFailures | internal/bus/retry.go:170-208 | A new breaker stays Closed throughout a history exactly when the history holds no Window failures in a row. |
| BusBreaker.TrailingRunReachesWindow | internal/bus/retry.go:173-181 | The call that trips is the one that completes the first such streak. |
| BusBreaker.CloseForgetsHistory | internal/bus/retry.go:186-194 | After a clean close, whatever follows is judged as if the breaker were new. |
| BusBreaker.RefusesUntilReset | internal/bus/retry.go:153-160 | While Open, every call that starts no later than nextAttemptTime is refused and changes nothing. |
| BusBreaker.ProbesClose | internal/bus/retry.go:155-194 | Past the reset, HalfOpenProbes successes in a row close the breaker with a clean count; fewer leave it half-open. |
| BusBreaker.AnyProbeFailureReopens | internal/bus/retry.go:173-181 | One failed probe reopens the breaker for a full reset timeout, however many probes had succeeded. |
| BusBreaker.HalfOpenNeverRefuses | internal/bus/retry.go:161-163 | In no reachable half-open state does the admission test refuse. |
| BusChunking.ChunkingStrategy.ChunkPayload | internal/bus/chunking.go:36-79 | The chunks are the blocks of the payload, each with its index, size and last-flag. |
| BusChunking.ChunksPartitionPayload | internal/bus/chunking.go:36-79 | The chunks concatenate to the payload, none exceeds the limit or (unless the payload is empty) is empty, and there are no more than the limit makes necessary. |
| BusChunking.AllButLastAreFull | internal/bus/chunking.go:59-67 | Every chunk but the last holds exactly the limit. |
| BusChunking.EstimateIsLeast | internal/bus/chunking.go:82-92 | The estimated number of chunks suffices, and no smaller positive number does. |
| BusChunking.ChunkingStrategy.Slice | internal/bus/chunking.go:59-67 | The slice of one loop round is the chunk's block, cut off at the payload's end. |
| BusChunking.ChunkingStrategy.GetChunkingInfo | internal/bus/chunking.go:103-127 | The preview predicts the chunk count of the real split, with sizes that add up to the payload, respect the limit and differ by at most one byte. |
| BusChunking.PreviewIsExact | internal/bus/chunking.go:36-127 | The previewed sizes are those of the real chunks if and only if there is one chunk, or the last one lacks at most one byte. |
| BusChunking.EvenPartFits | internal/bus/chunking.go:110-119 | No part of an even split exceeds the limit when the number of parts suffices. |
| BusPublish.Publisher.PublishBars | internal/bus/publisher.go:66-136 | One publisher call: marshal, chunk, send; what the transport has accepted is logged. |
| BusPublish.Publisher.SendChunks | internal/bus/publisher.go:92-136 | Chunks are sent one by one up to the first refusal, whose error is wrapped. |
| BusPublish.SendFromStopsAtFirstRefusal | internal/bus/publisher.go:92-136 | The accepted chunks are those before the first refusal, in order, each once; the call succeeds exactly when none is refused. |
| BusPublish.DelayBelowNineEighths | internal/bus/retry.go:82-101 | The wait is within an eighth of the capped exponential delay, and so below 9/8 of MaxDelayMs, which the jitter added after the cap may pass. |
| BusPublish.MaxDelayKeptExactly | internal/bus/retry.go:82-101 | MaxDelayMs bounds every wait a burst can make if and only if there is a single attempt, or the last wait's delay before the jitter leaves room for an eighth of itself. |
| BusPublish.LiftingDraw | internal/bus/retry.go:86-100 | Without that room some draw makes the last wait exactly MaxDelayMs + 1. |
| BusPublish.CappedDelayGrows | internal/bus/retry.go:84-89 | The delay before the jitter does not shrink from one attempt to the next. |
| BusPublish.CappedDelayDoubles | internal/bus/retry.go:83-89 | Before the jitter the first wait is BaseMs, and each later one twice the one before it, or MaxDelayMs when that is less. |
| BusPublish.ShippedRetryConfigs | internal/bus/bus.go:324-328 | The shipped default keeps its cap; the production example of 7 attempts from 500 ms up to 15 s does not. |
| BusPublish.Bus.PublishBars | internal/bus/bus.go:60-71 | Nothing at all when disabled; otherwise one burst of the retry loop, whose verdict it returns. Over the chunk-sending publisher it appends a prefix of the payload's chunks, none over the configured MaxPayloadBytes, and all of them exactly when it returns nil. |
| BusPublish.Bus.ExecuteWithRetry | internal/bus/retry.go:45-79 | The retry loop carries out the burst and always returns from inside the loop. |
| BusPublish.Bus.RunAttempt | internal/bus/retry.go:49-76 | One iteration: return on success, on a non-retryable error or on the last attempt, else wait. |
| BusPublish.AttemptEffect | internal/bus/retry.go:49-144 | One attempt calls the publisher and records the outcome exactly when admitted; the burst goes on if and only if the call was admitted, its error is retryable at the outermost link, an attempt is left and the context is not cancelled, and then after the delay; each other case and the error it returns. |
| BusPublish.Bus.ExecuteOnce | internal/bus/retry.go:131-144 | The breaker around one publisher call: refused without calling, or called and recorded. |
| BusPublish.BurstIsBounded | internal/bus/retry.go:48-78 | A burst calls the publisher at most once per attempt and has returned by the last. |
| BusPublish.TrippingCallIsLast | internal/bus/retry.go:45-196 | If ResetTimeoutMs >= 9/8 MaxDelayMs and the timer after it is punctual, the call that leaves the breaker Open is the last publisher call of its burst. |
| BusPublish.CallAfterTripExactly | internal/bus/retry.go:67-160 | After a call that trips the breaker mid-burst, the next attempt reaches the publisher if and only if the wait outlasts the reset timeout. |
| BusPublish.TrippingCallExists | internal/bus/retry.go:45-208 | Such a burst exists: the first call trips and the burst goes on to be refused. |
| BusPublish.BusPublisherIsNeverRetried | internal/bus/retry.go:39-59 | The publisher wraps every error, so even a retryable one ends the burst after one call. |
| BusPublish.AcceptedChunksArePrefix | internal/bus/bus.go:60-71 | One `Bus.PublishBars`, under any transport: the accepted chunks are a prefix of the payload's chunks, in order and never repeated, and are all of them, concatenating to the payload, exactly when it returns nil. |
| BusTopic.ParseInvertsBuild | internal/bus/topic.go:25-116 | A topic built in a valid domain parses back to its own components if and only if prefix, environment and version are dot-free, the environment is non-empty and the version starts with "v"; the subtopic may hold dots. |
| BusTopic.ParseInvertsBuildForKeys | internal/bus/topic.go:25-50 | For bars and quotes the subtopic that comes back is the key's partition key; for fundamentals, the symbol. |
| BusTopic.PartsOfBarsTopic | internal/bus/topic.go:25-50 | The parts of a bars topic are prefix, environment, "bars", version, then the market code (if any) before the symbol, as in the partition key. |
| BusTopic.PrintInvertsParse | internal/bus/topic.go:100-133 | Printing a parsed topic gives it back, except exactly when it is four components and a single trailing dot. |
| BusTopic.ValidateTopic | internal/bus/topic.go:53-97 | Accepted exactly when there are at least four parts, a non-empty environment, one of the twelve domains and a version starting with 'v'; which error otherwise. |
| ScrapeBucket.TokenBucket.Wait | internal/scrape/client.go:385-417 | One call under the mutex: granted at once, granted after the wait, or cancelled; `lastTime` stays at the start of the wait. |
| ScrapeBucket.WaitEffect | internal/scrape/client.go:385-417 | One call in numbers: the refill is capped at the burst; a whole token is taken at once; a cancelled wait keeps the refilled tokens; a completed wait lasts as long as the missing part takes to earn and leaves none. |
| ScrapeBucket.RateLimiter.Global | internal/scrape/client.go:365-380 | The one bucket every call shares is created full by the first call and never replaced. |
| ScrapeBucket.RateLimiter.Wait | internal/scrape/client.go:365-382 | Whatever the host, a call is one step of the one shared bucket. |
| ScrapeBucket.StepPays | internal/scrape/client.go:385-417 | A grant is paid for by what the bucket is worth plus twice the rate times the time the call takes. |
| ScrapeBucket.GrantsPaidFor | internal/scrape/client.go:385-417 | Over any run 0 <= tokens <= capacity, and all grants are so paid for. |
| ScrapeBucket.GrantBound | internal/scrape/client.go:385-417 | At any positive rate, any run from any state grants at most burst + 2 * rate * elapsed. |
| ScrapeBucket.StretchBound | internal/scrape/client.go:385-417 | The same for every stretch between two calls of a run. |
| ScrapeBucket.FactorTwoIsExact | internal/scrape/client.go:396-415 | For every burst >= 1, every rate and every n, a back-to-back caller gets burst + 2n grants in n / rate seconds: the bound with equality. |
| ScrapeBucket.RateKeptExactly | internal/scrape/client.go:385-417 | Every run of a new bucket gets at most burst + rate * elapsed grants if and only if the burst is 0 and the rate is not. |
| ScrapeBucket.TwiceRateKeptExactly | internal/scrape/client.go:385-417 | Every run of a new bucket gets at most burst + 2 * rate * elapsed grants if and only if the rate is not 0. |
| ScrapeBucket.ZeroRateRun | internal/scrape/client.go:403-415 | At rate 0 one caller gets burst + n grants in no time, for every n. |
| ScrapeBucket.StaysValid | internal/scrape/client.go:385-417 | Whatever the rate, 0 <= tokens <= capacity over any run. |
| SoakWorker.Counters.ExecuteRequest | internal/soak/worker.go:96-170 | A lone worker's request is the steps of the interleaving model, in order, with the effect of `RequestEffect`. |
| SoakWorker.RequestEffect | internal/soak/worker.go:96-170 | Every counter: `successful` grows by one exactly when the call the strategy makes last succeeds, else `failed`; the API counter exactly for a request that ends in the API, the scrape counter for one that ends in a scrape; the endpoint's counters likewise, and no other endpoint's. |
| SoakWorker.Counters.SendByStrategy | internal/soak/worker.go:112-126 | The strategy switch carries out the steps that follow the request, up to its outcome. |
| SoakWorker.Counters.ExecuteAutoFallbackRequest | internal/soak/worker.go:224-254 | Exactly one of the API and scrape counters moves, and the fallback flag says which failure led there. |
| SoakWorker.BalancedStep | internal/soak/worker.go:96-170 | Every single counter update keeps the global accounts, work in flight included. |
| SoakWorker.EndpointBalancedStep | internal/soak/worker.go:102-160 | Every single counter update keeps each endpoint's account. |
| SoakWorker.OutcomesBalancedStep | internal/soak/worker.go:130-160 | Every single counter update keeps that account, for successes and failures apart. |
| SoakWorker.InvHolds | internal/soak/worker.go:96-170 | The accounts hold at every point of every interleaving of any number of workers. |
| SoakWorker.RequestsAreConserved | internal/soak/worker.go:96-170 | At every point TotalRequests = Successful + Failed + in flight, and FallbackDecisions <= ScrapeRequests. |
| SoakWorker.OutcomesAreAttributed | internal/soak/worker.go:130-160 | At every point of every interleaving, `successful` is the sum of the endpoints' successes plus the workers that have yet to count theirs, and so for failures; under ApiOnly nothing is scraped, under ScrapeOnly the API is not called. |
| SoakWorker.AccountsCloseWhenIdle | internal/soak/worker.go:96-170 | When all workers are idle: total = outcomes = the endpoints' requests = (known strategy) API + scrape, and each endpoint's requests are its successes plus failures. |
| ScrapeNews.TimesMatchMeaning | internal/scrape/extract_news.go:404-417 | The time test is "at most two minutes apart, or both undated", except that it also fires on a candidate 292 years or more older, whose clamped difference negates to itself. |
| ScrapeNews.DuplicatesMeaning | internal/scrape/extract_news.go:385-419 | A candidate duplicates a kept article exactly for the same URL key, or the same title and source with both undated, dated at most 120 seconds apart, or the candidate 2^63 ns or more older. |
| ScrapeNews.DuplicatesIsNotTransitive | internal/scrape/extract_news.go:401-418 | Witness: the duplicate relation is not transitive. |
| ScrapeNews.OrderDecidesWhatIsKept | internal/scrape/extract_news.go:385-427 | Witness: for such articles the input order also decides how many are kept. |
| ScrapeNews.OrderMattersExactly | internal/scrape/extract_news.go:385-427 | The same articles are kept in every input order if and only if no article duplicates a different one. |
| ScrapeNews.KeptListsTheSet | internal/scrape/extract_news.go:385-427 | Among articles of which none duplicates a different one, only repetitions are dropped. |
| ScrapeNews.EquivalenceFixesTheCount | internal/scrape/extract_news.go:385-427 | When the relation is symmetric and transitive on the articles, the same number is kept in every input order. |
| ScrapeNews.KeptIsSelection | internal/scrape/extract_news.go:385-427 | The scan keeps a maximal duplicate-free selection: no kept article duplicates an earlier kept one, every dropped one does. |
| ScrapeNews.SelectionIsUnique | internal/scrape/extract_news.go:385-427 | That description fits no other selection. |
| ScrapeNews.SelectArticles | internal/scrape/extract_news.go:382-427 | The scan returns that selection, and `seen` is exactly the URL keys of the kept articles. |
| ScrapeNews.MatchesKept | internal/scrape/extract_news.go:393-419 | The inner loop finds a kept article with the same title and source and a matching time, if there is one. |
| ScrapeNews.DuplicateTest | internal/scrape/extract_news.go:386-419 | URL-key lookup and inner loop together decide whether the article duplicates a kept one. |
| ScrapeNews.ScanDropsNothing | internal/scrape/extract_news.go:385-427 | The scan drops nothing exactly when no article duplicates an earlier one. |
| ScrapeNews.ComparatorIsSound | internal/scrape/extract_news.go:430-441 | The comparator is a strict weak order, and sorted by it dated articles run from newest to oldest with the undated ones last. |
| ScrapeNews.DeduplicateArticles | internal/scrape/extract_news.go:381-444 | The result is a reordering of the kept articles, sorted by the comparator. |
| ScrapeNews.RerunDropsNothing | internal/scrape/extract_news.go:381-444 | Deduplicating the sorted result again drops nothing if and only if no two of its articles have the same text and dates 292 years or more apart. |
| ScrapeNews.RerunMayDrop | internal/scrape/extract_news.go:404-417 | Witness: two articles are both kept, and the rerun on the sorted result drops one. |
| ScrapeNews.ParseExtracted | internal/scrape/extract_news.go:97-118 | At most 25 are returned, the newest ones; found = returned + deduped exactly when the cut drops nothing. |
| Sorting.ExchangeSort | internal/emit/map_financials.go:1170-1177 | The in-place exchange sort sorts by any strict weak order, permutes, and leaves a sorted input alone. |
| Sorting.SortedReordering | internal/emit/map_financials.go:1170-1177 | Every list has a sorted reordering under any strict weak order. |
| EmitPeriods.AdjacentLiftsToAllPairs | internal/emit/map_financials.go:1179-1188 | On a group whose neighbours do not overlap, each period ends before every later one starts. |
| EmitPeriods.SortedGroupCheck | internal/emit/map_financials.go:1179-1188 | On a sorted group, what the check of neighbours says about all pairs, empty periods included. |
| EmitPeriods.CheckGroup | internal/emit/map_financials.go:1165-1189 | A group is sorted in place and passes exactly when its neighbours do not overlap. |
| EmitPeriods.AcceptedInEveryOrder | internal/emit/map_financials.go:1170-1188 | Some sorted order of a group is rejected if and only if something overlaps or an empty period ties with a non-empty one. |
| EmitPeriods.AcceptedInSomeOrder | internal/emit/map_financials.go:1170-1188 | Some sorted order of a group is accepted if and only if nothing overlaps. |
| EmitPeriods.OrderDecidesExactly | internal/emit/map_financials.go:1170-1188 | So the input order decides the verdict if and only if nothing overlaps but an empty period ties with a non-empty one. |
| EmitPeriods.GroupByKey | internal/emit/map_financials.go:1159-1163 | The map holds exactly the keys of the input, each with its lines in order. |
| EmitPeriods.NoClashByGroup | internal/emit/map_financials.go:1159-1189 | No two lines of one key overlap exactly when no group holds an overlap. |
| EmitPeriods.ValidateMonotonicPeriods | internal/emit/map_financials.go:1154-1192 | When every period has start < end: nil if and only if no two lines with the same key overlap, whatever the input order. |
| EmitPeriods.CheckPeriods | internal/emit/map_financials.go:31-50 | The first line that ends before it starts is reported; an overlap is not. |
| NormDecimal.RoundHalfUpBig | internal/norm/decimal.go:136-167 | The big-integer routine gives the nearest multiple, the upper one at a tie, or the exact scaled-up value. |
| NormDecimal.RoundHalfUpWithinHalf | internal/norm/decimal.go:150-166 | Rounding lands within half a unit, ties going up, negatives included. |
| NormDecimal.NearestMonotone | internal/norm/decimal.go:156-164 | A nearest multiple is unique and does not decrease with the value. |
| NormDecimal.RoundHalfUpMonotone | internal/norm/decimal.go:136-167 | Rounding keeps order. |
| NormDecimal.ScaleUpAndBack | internal/norm/decimal.go:136-167 | Scaling up and back is the identity for every integer. |
| NormDecimal.TwoStepRounding | internal/norm/decimal.go:136-167 | Rounding in two steps never gives less than rounding once, and gives exactly one more precisely when the value lies within half an intermediate unit below the step of the single rounding. |
| NormDecimal.MultiplyAndRoundMeetsHalfUp | internal/norm/decimal.go:82-133 | Within int64, the product is rounded half up if and only if it is non-negative, is not scaled down, or is at most half a unit past a multiple; a negative one that is scaled down is truncated toward zero. |
| NormDecimal.ConversionTiesAway | internal/norm/decimal.go:26-45 | A price halfway between two units goes to the one further from zero; only NaN and infinities are refused. |
| NormDecimal.ConversionWithinHalf | internal/norm/decimal.go:26-45 | A price is converted to within half a unit when its scaled value fits int64, and, if non-negative, only then. |
| NormDecimal.ConversionKeepsOrder | internal/norm/decimal.go:26-45 | Conversion keeps the order of two non-negative prices if and only if the larger fits int64 or neither does. |
| EmitDecimals.DiffersFromHalfUpOnlyAtNegativeTies | internal/emit/decimals.go:155-166 | Scaling down differs from `RoundHalfUp` exactly at negative ties, by exactly 1, if and only if adding the half does not overflow. |
| EmitDecimals.ScaleDownIsOdd | internal/emit/decimals.go:155-166 | Scaling down is odd-symmetric except where the added half lands exactly on 2^63. |
| EmitDecimals.ScaleUpIsOdd | internal/emit/decimals.go:145-154 | Scaling up gives opposite results on v and -v up to the bound the overflow check tests; beyond it only v is refused. |
| EmitDecimals.NegativeScaleUpMayWrap | internal/emit/decimals.go:150-155 | A negative value is never refused, and is scaled up correctly if and only if the product fits. |
| EmitDecimals.ScaleUpIsUndone | internal/emit/decimals.go:134-172 | Scaling up and back restores the value if and only if the up-scaled value has room for half a unit. |
| EmitDecimals.ConversionRefusedExactly | internal/emit/decimals.go:134-154 | A conversion is refused exactly for a different scale outside 0 to 15, or an up-scaled value past the greatest int64; converting to the scale a value has is always the identity. |
| EmitDecimals.PercentToScaledIsIdempotent | internal/emit/decimals.go:54-83 | A success has the percent scale, which the configuration accepts, and converts to itself. |
| ScrapeRobots.IsPathAllowed | internal/scrape/robots.go:194-239 | Allowed exactly when, in every applicable group, each matching disallow is beaten by a strictly longer matching allow of that group. |
| ScrapeRobots.CheckGroup | internal/scrape/robots.go:219-236 | The same for one group. |
| ScrapeRobots.GroupIsLongestMatch | internal/scrape/robots.go:219-236 | One group is longest match, with ties going to disallow. |
| ScrapeRobots.DepartsFromRfcExactlyAtTies | internal/scrape/robots.go:225-230 | The group differs from section 2.2.2 of RFC 9309 exactly when the longest matching allow and disallow are equally long. |
| ScrapeRobots.GroupsAreConjoined | internal/scrape/robots.go:218-238 | Several applicable groups are the conjunction of their longest-match answers. |
| ScrapeRobots.OrderIndependent | internal/scrape/robots.go:194-239 | Neither the order of groups nor of the lines in a group matters. |
| ScrapeRobots.AllowedImpliesMergedAllowed | internal/scrape/robots.go:194-239 | What is allowed, the groups section 2.2.1 of RFC 9309 selects allow too when merged as it asks, by either tie rule; and so do all applicable groups merged. |
| ScrapeRobots.AgreesWithMergedExactly | internal/scrape/robots.go:194-239 | The code and all applicable groups merged disagree exactly when one single group refuses although an allow of some group is longer than every matching disallow; by the tie rule of section 2.2.2 of RFC 9309, at least as long is enough. |
| ScrapeRobots.AgreesForEveryPathExactly | internal/scrape/robots.go:194-239 | Read off the rules alone: the code agrees with all applicable groups merged, whatever matches, if and only if no applicable group has a disallow that a longer allow, neither its own nor also disallowed, would lift. |
| ScrapeRobots.FollowsRfcExactly | internal/scrape/robots.go:194-239 | The code gives the verdict of sections 2.2.1 and 2.2.2 of RFC 9309 for every path if and only if no applicable group has a disallow that the selected groups lack, or for which a selected group has an allow at least as long that does not lift it in its own group. |
| ScrapeRobots.StarGroupRefuses | internal/scrape/robots.go:198-211 | Witness: a "*" group's disallow is obeyed although another group names the crawler and leaves the path open. |
| ScrapeRobots.SplitGroupsRefuse | internal/scrape/robots.go:218-238 | Witness for every pattern pair: an allow in another group does not lift a shorter disallow, as it would in the merged group. |
| RobotsParse.ParseRobotsTxt | internal/scrape/robots.go:137-191 | The line loop reads the directives of the lines, in order. |
| RobotsParse.Switch | internal/scrape/robots.go:159-178 | One directive: open a group, or add a path to the open one, or nothing. |
| RobotsParse.DocumentParses | internal/scrape/robots.go:159-184 | The directives of a rule list give the list back, however allow and disallow interleave and whatever rules come before the first user agent. |
| RobotsParse.PrintInvertsParse | internal/scrape/robots.go:159-184 | The converse: whatever is parsed is the printed form of the result, after rules that come before any user agent; so nothing else is lost, moved or reordered. |
| RobotsParse.RenderParses | internal/scrape/robots.go:143-157 | A printed directive with a trimmed value reads back as itself. |
| RobotsParse.SpelledDirectives | internal/scrape/robots.go:143-157 | Blank, comment and unknown-directive lines inserted anywhere change nothing. |
| RobotsParse.ParseInvertsPrint | internal/scrape/robots.go:137-191 | Parsing the printed lines of a rule list gives the list back, interleaved and with noise lines anywhere. |
| RobotsParse.ScanInvertsText | internal/scrape/robots.go:141-143 | Newline-free lines written out and scanned again say the same. |
| RobotsParse.ParseInvertsPrintedText | internal/scrape/robots.go:137-191 | The same down to the text of the file. |
| RobotsParse.ParserFollowsRfcExactly | internal/scrape/robots.go:159-184 | The parser yields the groups of section 2.2.1 of RFC 9309 if and only if no two user-agent lines in a row are followed by a rule. |
| RobotsParse.NoSharingCorresponds | internal/scrape/robots.go:159-184 | Until then the parser's state and the RFC's correspond after every directive. |
| RobotsParse.SharedRulesAreLost | internal/scrape/robots.go:160-169 | Witness: a crawler named first in such a pair is not bound by the rules it shares, so the code allows what the RFC refuses. |
| ConfigInterpolate.InterpolateString | internal/config/ampy_config.go:277-313 | Wherever rewriting ends the loop returns the string it ends in, which holds no complete expression. |
| ConfigInterpolate.Lookup | internal/config/ampy_config.go:294-307 | The value of one expression, with its default when the variable is empty. |
| ConfigInterpolate.ReferenceMeaning | internal/config/ampy_config.go:294-307 | The name runs to the first ":-"; what follows, further ":-" included, stands in when the variable is unset or empty. |
| ConfigInterpolate.RewriteLosesAMark | internal/config/ampy_config.go:279-310 | Each rewriting lowers the number of each of '$', '{' and '}' that no value holds, nested defaults included. |
| ConfigInterpolate.EndsWithoutAMark | internal/config/ampy_config.go:279-310 | The loop ends on every string when one of the three characters is in no value. |
| ConfigInterpolate.EndsExactlyWithoutAMark | internal/config/ampy_config.go:279-310 | The loop ends on every string, under every environment whose values draw on a given character set, if and only if that set lacks '$', '{' or '}'. |
| ConfigInterpolate.SelfReferenceNeverEnds | internal/config/ampy_config.go:279-310 | A variable whose value is its own expression is rewritten to itself for ever. |
| ConfigInterpolate.InterpolationIsIdempotent | internal/config/ampy_config.go:277-313 | Wherever interpolation ends it ends on its own result too, and changes nothing there. |
| ConfigInterpolate.RewritingIsSubstitution | internal/config/ampy_config.go:277-313 | On plain templates and values, leftmost rewriting ends, and equals simultaneous substitution, empty values replaced by defaults. |
| ConfigInterpolate.FirstReference | internal/config/ampy_config.go:281-309 | After a plain prefix, the first rewriting step replaces exactly the first reference. |
| YahooBars.ValidateBarData | internal/yahoo/bars.go:204-273 | A row passes exactly when all five cells are there, prices are finite and non-negative, the volume is non-negative, and open and close lie between low and high. |
| YahooBars.HeaderError | internal/yahoo/bars.go:138-159 | The refusals decided before any row is looked at. |
| YahooBars.ValidateChart | internal/yahoo/bars.go:137-201 | Passes exactly the acceptable charts and blames the first bad row. |
| YahooBars.ValidateAdjClose | internal/yahoo/bars.go:185-198 | Passes exactly when the adjusted closes are as many as the timestamps and each present one is a valid price; blames the first bad one. |
| YahooBars.Validate | internal/yahoo/bars.go:118-134 | Passes exactly when there is no error, at least one result, and every result passes; blames the first that does not. |
| YahooBars.GetBars | internal/yahoo/bars.go:276-311 | Never indexes out of bounds, and yields exactly the complete rows of the first result, in order, each field from its own column. |
| YahooBars.ExtractedFields | internal/yahoo/bars.go:286-308 | The k-th bar has the timestamp, open, high, low, close and volume of the k-th complete row, and the adjusted close of that row in the first adjusted column, or none without one. |
| YahooBars.CompleteRowsListsThemAll | internal/yahoo/bars.go:286-290 | The rows extracted are the complete ones, each once, ascending. |
| YahooBars.ExtractedBarsAreSound | internal/yahoo/bars.go:276-311 | For every accepted chart extraction stays in bounds, yields at least one bar, and every bar is sound. |
| YahooBars.ExtractionKeepsTimeOrder | internal/yahoo/bars.go:286-308 | Chronological timestamps give chronological bars. |
| NormBars.InferMic | internal/norm/security.go:36-60 | An inferred market code is empty, a four-character code, or 'OTC'. |
| NormBars.ExchangeTable | internal/norm/security.go:11-33 | The United States entries of the exchange table; `ExchangeTableVenues`, `ExchangeTableTokyoAndLondon`, `ExchangeTablePacific` and `ExchangeTableIndia` hold the rest. |
| NormBars.ExchangeTableIsWhole | internal/norm/security.go:11-33 | No name but those 21 has an entry. |
| NormBars.FirstLookupWins | internal/norm/security.go:36-60 | Of the four lookups (full name, name, each upper-cased, name first) the first that finds something wins; the code is empty exactly when none does. |
| NormBars.CleanSymbol | internal/norm/security.go:76-83 | On the Tokyo exchange exactly one '.T' suffix is removed; elsewhere the symbol is kept. |
| NormBars.SecurityCreated | internal/norm/security.go:62-83 | The security of a symbol: the inferred market, and the symbol, without its '.T' in Tokyo. |
| NormBars.DayWindow | internal/norm/time.go:12-31 | The window is the UTC day that holds the instant two days before the timestamp; it keeps order, and its event time lies at least a day before the timestamp. |
| NormBars.NormalizedWindow | internal/norm/bars.go:78-124 | A normalized bar's window is the UTC day that holds the instant two days before that bar's own timestamp; event and as-of time are its end, and the ingest time is the time of the call. |
| NormBars.ConvertibleBarsConvert | internal/norm/bars.go:78-109 | A bar is normalized exactly when its open, high, low and the close it uses are finite; a sound bar always is. |
| NormBars.NormalizedPricesOrdered | internal/norm/bars.go:81-109 | Low <= Open <= High survives the conversion of a sound bar if and only if the high fits int64 or not even the low does; the close lies between them if and only if the close used is, in hundredths, within half of that range (when the high fits), or neither it nor the low fits (when it does not). |
| NormBars.NormalizedPricesNear | internal/norm/bars.go:81-123 | Each price is carried over to within half a hundredth, and the close is the adjusted one exactly when the batch is adjusted and the bar has one. |
| NormBars.AdjustedCloseMayLeaveTheRange | internal/norm/bars.go:81-85 | Witness: a validated bar whose adjusted close ends up below its low. |
| NormBars.ConvertedAreWellFormed | internal/norm/bars.go:54-63 | Every bar of the batch has a whole-day window, scale 2, and the batch's currency and adjustment label. |
| NormBars.ConvertedLosesNone | internal/norm/bars.go:54-63 | When every bar converts, none is lost and the order is kept. |
| NormBars.ConvertedAreTheConvertible | internal/norm/bars.go:54-63 | The k-th result is the conversion of the k-th bar that converts; the others are dropped. |
| NormBars.ConvertedWindows | internal/norm/bars.go:54-124 | So the k-th result has the window and the volume of the k-th bar that converts. |
| NormBars.FindAdjusted | internal/norm/bars.go:30-41 | The batch is labelled adjusted as soon as one bar has an adjusted close. |
| NormBars.NormalizeBars | internal/norm/bars.go:13-75 | Succeeds exactly when there are metadata, a bar that converts, and a symbol left after cleaning; the result is the converted bars, each in the window of its own timestamp. |
| EmitBars.EmitBarBatch | internal/emit/bars.go:15-38 | All bars one for one, or the error of the security or of the first bad bar. |
| EmitBars.EmitBarExactly | internal/emit/bars.go:41-113 | What a bar must meet to be emitted, for any bar: a one-day window with the event at its end, a currency of three letters A-Z, a policy that fits the adjustment flag, scales from 0 to 9; and every field is copied. |
| EmitBars.WellFormedBarEmits | internal/emit/bars.go:41-113 | A well-formed bar is emitted, field for field, exactly when its currency is three letters A-Z. |
| EmitBars.SecurityPasses | internal/emit/validation.go:25-42 | The security of a normalized batch passes exactly when the inferred market is not "OTC". |
| EmitBars.NormalizedBatchEmits | internal/emit/bars.go:15-113 | The result of any successful normalization is emitted if and only if the currency is three letters A-Z and the inferred market is not "OTC". |
| EmitBars.RowIsCarried | internal/norm/bars.go:78-124 | From the columns to the normalized bar: the window of that row's timestamp, its prices to within half a hundredth, its volume, its adjusted close when the batch is adjusted and it has one. |
| EmitBars.FetchDailyBars | client.go:55-75 | Of an accepted response, every complete row of the first result becomes one normalized bar, in order, unless nothing is left of the symbol; the k-th bar carries the k-th complete row, as `RowIsCarried` says. |
| EmitBars.NormalizedBatchOrdered | internal/norm/bars.go:54-123 | For sound bars in time order: Low <= Open <= High, Close inside when the bar has no adjusted close, and starts and event times in order. |

## Left out

- InterpolateString: defined where rewriting ends, since the source's loop does not return elsewhere (`SelfReferenceNeverEnds`); `EndsExactlyWithoutAMark` says for which values that is assured. The walk over nested maps and slices that calls it is not modelled.
- ConvertScale: powers of ten beyond 10^18 are excluded; their conversion to int64 is implementation-defined.
- ToScaledDecimal: a float64 is a real, NaN or infinite, so float rounding error is not modelled; a scaled price out of int64 becomes the least int64, as on amd64.
- PowerOfTwo: past 2^62 the conversion of `math.Pow(2, attempt)` yields the least int64, as on amd64.
- Do: one call at a time, its rate limiter reduced to a yes or no; how the steps of many calls interleave is the state machines of `HttpxBreaker` and `HttpxLimiter`.
- CalculateDelay: the delay is computed in reals before it is cut to milliseconds.
- WaitTime: seconds and tokens are reals; the truncation of a wait to nanoseconds is not modelled. At rate 0 the infinite wait converts to the least duration, as on amd64, and the timer fires at once; negative rates are left out.
- CeilDiv: exact integer ceiling in place of `math.Ceil` on floats, which agrees at these sizes.
- Applies: pattern matching and lower-casing are arbitrary functions, so the wildcard rules of `pathMatches` are not modelled; nor are the robots cache, its expiry and the warn/enforce policy.
- ScanLines: the scanner's line-length limit is ignored.
- DeduplicateArticles: `sort.Slice` is replaced by a verified sort; any order of ties is allowed for. URL normalization and text folding are arbitrary functions.
- ValidateMonotonicPeriods: the error text is dropped, since which group it names depends on map order; errors of the line-item mapper are not modelled in `CheckPeriods`.
- ExecuteRequest: latency, RateLimitHits and RobotsBlocked counters are left out; a choice decides whether each call succeeds and whether an error is one to fall back on.
- ToUTCDayBoundaries: Unix seconds rather than calendar dates, which agree in UTC.
- InferMic: `strings.ToUpper` is an arbitrary function; strings are sequences of single-byte characters.
- GetBars: its index safety is stated for responses in bounds, which every validated one is (`ExtractedBarsAreSound`).
- HTTP, NATS, files, commands, metrics, tracing, logging and JSON decoding: I/O, reduced to parameters and logs.
- Publishing quotes and fundamentals, and `ChunkIndex`/`TotalChunks` extensions: the first repeat the bar path, the second never reach the sent headers.
- Regular-expression and JSON scraping, profile, statistics and analysis mappers, currency conversion: field copying, or patterns and converters that are not part of this model.

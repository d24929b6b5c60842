# NetGoat agent: models and proofs

This project models the stateful and algorithmic core of the NetGoat reverse-proxy agent in Dafny and proves
what that code is relied on for: what its bounded stores remember, that its route index agrees with its
queries, that a failed-over response is never a mixture, that configuration reaches the database whole, and
that its parsers and its protocol with the AI worker lose nothing. Check everything with
`dafny verify dfyconfig.toml`.

## How the modules correspond to the agent

| module | models |
|---|---|
| Strings, Listing, KeyList, History | string operations, filtering and sorting, recency lists, and histories of events |
| Glob | `wildcardDomainMatch` of `internal/database/database.go`, against the language of patterns with stars |
| OrderedExpiry, Challenge | `internal/challenge/challenge.go`: two maps with lists ordered by expiry, against the history of successes |
| Routing, RouteIndex | the lookup by query of `internal/database/database.go`, the snapshot of `internal/database/route_resolver.go`, and their agreement |
| TokenBucket, RateLimiter, LimiterRuns | `RateLimiter` of `internal/traffic/limiter.go`, step by step and over runs |
| Bandwidth, BandwidthRuns | `internal/traffic/bandwidth.go`, step by step and over runs |
| RequestQueue | `Queue` of `internal/traffic/limiter.go`, with every interleaving of its callers |
| Health | `internal/health/worker.go`, and `Pick` of `internal/balancer/balancer.go` |
| Failover | `Serve` and `streamWriter` of `internal/balancer/balancer.go` |
| Forwarded, Forged, ClientIP | `internal/clientip/resolver.go`, on headers that are printed and on any text in front of them |
| Cache | `internal/cache/cache.go` |
| Reconcile | `applySnapshotToDB` of `main.go` and `setRouteTargets` of `internal/database/database.go` |
| ConfigStream | `internal/streaming/manager.go`, and polling, merging and keying in `main.go` |
| Lines, Framing | `ai/worker_protocol.py` |
| AiWorker | `internal/aiworker/worker.go` |

Code that updates state is modelled by classes whose methods keep an invariant and whose contracts state the
whole new state. Where such a method is given its meaning by a function or by a ghost history, the properties
are lemmas about that function or history; what the source computes in one expression and both a method and its
contract use has a lemma that says it in other terms. A body that runs under a mutex is one step. Clock readings, random
ids, upstream outcomes, probe results, failing statements and the order in which a Go map is walked come from
outside and are arbitrary.

## What the code does not promise

Each of these is stated with the exact condition under which the promise does hold.

- `wildcardDomainMatch` accepts more than the language of a pattern: `ab*ba` accepts `aba`. It differs exactly
  when the last part of the pattern overlaps what the scan has used (`AgreesExactlyWithoutOverlap`), and what
  it accepts altogether is the language of the pattern up to its last star and, separately, the rest as a
  suffix (`AcceptedLanguage`).
- The two ways of normalising a host differ exactly on hosts that end in a bare bracket (`NormalizersAgree`).
- The query finds a path route by LIKE, the resolver by its prefix. The two agree for every path exactly when the
  prefix has no `%`, no `_` and no letter in it (`TestsAgreeExactly`); for one path and a prefix without wildcards,
  exactly when the path does not begin with the prefix in another case (`TestsAgreeOnPath`). The query never misses
  what the resolver finds (`PrefixIsLike`).
- Idle buckets of the rate limiter can be forgotten unobserved exactly when the rate over the time to live and
  one nanosecond gives at least the burst (`ObservedExactlyWhenEarly`); otherwise a client can get a second
  burst early (`PruningIsObservable`).
- The same holds of the idle buckets of the bandwidth limiter (`BandwidthRuns.ObservedExactlyWhenEarly`).
- Round robin is fair exactly when the wrap of the 64-bit counter does not fall unevenly into the picks
  (`FairExactlyWhenEven`).
- Two routes of a snapshot that trim to the same row leave a result that depends on the order of the map,
  unless they ask for the same content (`ApplySnapshot`, `OutcomeNeedsAgreement`).
- A subscriber is sent a new snapshot exactly when its channel has room (`NewestIsSentExactlyWhenThereIsRoom`).
- Text in the forwarding headers to the left of an untrusted address that trusted proxies appended cannot choose
  the client, but can have the headers rejected, and then the answer is the peer (`ForgedTextIsIgnored`, and
  `PrintedElementsDecide` for text that may leave a quote open).
- An AI worker request whose deadline passes between a failed read or write and the look at the deadline can
  leave part of a response behind, and then the next request gets an answer that is not its own
  (`UnpairedWithoutRestart`, `StaleAnswer`); the contract of `Attempted` says exactly when.
- A response of the AI worker that ends in a carriage return and a newline has a limit one byte lower than one
  that ends in a newline (`AcceptedSizes`), while the Python side gives both the same limit.

## Model

| member | source | states |
|---|---|---|
| Glob.WildcardDomainMatch | internal/database/database.go:446-471 | the scan decides the acceptance relation whose language the lemmas below determine |
| Glob.LanguageIsParts | internal/database/database.go:446-450 | the declarative language of a pattern is that of its parts between the stars |
| Glob.LeftmostPlacement | internal/database/database.go:459-470 | placing each middle part leftmost loses no match, by exchange |
| Glob.LanguageIsAcceptedWithoutOverlap | internal/database/database.go:446-471 | a domain is in the language iff the code accepts it and the last part starts no earlier than the scan ended |
| Glob.AgreesExactlyWithoutOverlap | internal/database/database.go:446-471 | code and language agree on an input iff the last part does not overlap the scanned text |
| Glob.AcceptedLanguage | internal/database/database.go:446-471 | the accepted domains of any pattern with a star, said without a scan |
| Glob.OverlapIsAccepted | internal/database/database.go:446-471 | an accepted domain outside the language |
| OrderedExpiry.OrderedMeaning | internal/challenge/challenge.go:326-350 | the list invariant means: no key twice, exactly the keys of the map, sorted by expiry |
| OrderedExpiry.LiveFront | internal/challenge/challenge.go:326-350 | if the front has not expired nothing has, so stopping there is exact |
| OrderedExpiry.PopExpired | internal/challenge/challenge.go:326-350 | removing an expired front leaves the set of live entries as it was |
| Challenge.LookupIsMeaning | internal/challenge/challenge.go:281-301 | a lookup in a store that tracks a history answers whether the latest success is young enough and fewer than the limit of others came since |
| Challenge.TracksLater | internal/challenge/challenge.go:281-301 | the passing of time alone breaks nothing |
| Challenge.PopTracks | internal/challenge/challenge.go:339-349 | forgetting an expired verification keeps the store true to its history |
| Challenge.RefreshTracks | internal/challenge/challenge.go:310-324 | a repeated success keeps the store true to the longer history |
| Challenge.EvictEntering | internal/challenge/challenge.go:310-324 | evicting the front of a full list forgets only a binding that enough others have overtaken |
| Challenge.FinishEntering | internal/challenge/challenge.go:310-324 | a first success keeps the store true to the longer history |
| Challenge.Store.constructor | internal/challenge/challenge.go:95-125 | an empty store satisfies the invariant, with defaults for limits that are not positive |
| Challenge.Store.CleanupChallenges | internal/challenge/challenge.go:327-337 | the early-stopping loop removes exactly the expired challenges |
| Challenge.Store.CleanupVerified | internal/challenge/challenge.go:339-349 | the early-stopping loop removes exactly the expired verifications and keeps the store true to its history |
| Challenge.Store.CleanupExpired | internal/challenge/challenge.go:326-350 | both of these at once, and the whole invariant |
| Challenge.Store.EvictChallenges | internal/challenge/challenge.go:195-203 | the loop ends with room for one more; the newest challenges stay |
| Challenge.Store.Create | internal/challenge/challenge.go:172-214 | the new challenge has an id not in use and what was asked for, cut to the stored sizes; it joins exactly the newest live ones, and the invariant holds |
| Challenge.Store.CreateAndSolve | internal/challenge/challenge.go:172-279 | whoever a challenge was made for is verified in time iff its type is one of the three and the answer is the expected one, for words up to case and outer white space |
| Challenge.CheckAnswer | internal/challenge/challenge.go:263-269 | the three types of answers are compared each in its way, and no other type is ever solved |
| Challenge.Store.FreshId | internal/challenge/challenge.go:204-209 | the search ends with an id that no live challenge has, and changes nothing else |
| Challenge.Store.Get | internal/challenge/challenge.go:216-241 | a challenge is found iff it is there and has not expired; one that has makes way with all others that have |
| Challenge.Store.GetLocked | internal/challenge/challenge.go:233-240 | the slow path, which does not look at the expiry again, never returns an expired challenge, even with an old clock reading |
| Challenge.Store.Verify | internal/challenge/challenge.go:243-279 | an answer is accepted iff the challenge is live, is bound to the caller and is solved by it; it is then used up; only the owner's wrong answers count |
| Challenge.Store.VerifyLive | internal/challenge/challenge.go:251-279 | the same once nothing expired is left |
| Challenge.Store.RecordFailure | internal/challenge/challenge.go:303-308 | a wrong answer is counted, and the last one allowed removes the challenge |
| Challenge.Store.MarkVerified | internal/challenge/challenge.go:310-324 | the success enters the history and the store stays true to it; the most recent bindings stay |
| Challenge.Store.EvictVerified | internal/challenge/challenge.go:310-324 | the loop ends with room for one more and drops only overtaken bindings |
| Challenge.Store.IsVerified | internal/challenge/challenge.go:281-301 | the answer is exactly the meaning of the history of successes at that time |
| Challenge.Store.IsVerifiedLocked | internal/challenge/challenge.go:295-300 | with an old clock reading the answer lies between the meaning then and the meaning now |
| Challenge.Store.RemoveChallenge | internal/challenge/challenge.go:358-368 | map and list lose the same one entry |
| Challenge.Store.RemoveVerified | internal/challenge/challenge.go:376-386 | map and list lose the same one entry |
| Routing.NormalizersAgree | internal/database/route_resolver.go:280-286 | the resolver's shortcut normalises as the lookup does iff the host does not end in a bare bracket |
| Routing.NormalizedName | internal/database/database.go:556-564 | a host name loses its port, its final dot and its upper case, and nothing else; of a port alone nothing is left |
| Routing.NormalizedAddress | internal/database/database.go:556-564 | an address in brackets loses them and a port |
| Routing.NormalizedColons | internal/database/database.go:556-564 | an address with several colons and no brackets is not cut at any of them |
| Routing.NormalizedTrims | internal/database/database.go:556-564 | white space around a host does not matter |
| Routing.CompilesMeaning | internal/database/route_resolver.go:288-315 | a row fails to load iff its type or its beginning says it is an expression and that does not compile |
| Routing.LikePrefix | internal/database/database.go:473-482 | a prefix without wildcards is LIKE a path iff the path begins with it up to case |
| Routing.PrefixIsLike | internal/database/database.go:473-482 | every prefix is LIKE the paths that begin with it, wildcards or not |
| Routing.TestsAgreeExactly | internal/database/database.go:473-482 | query and resolver find a path route for the same paths iff its prefix has no wildcard and no letter |
| Routing.TestsAgreeOnPath | internal/database/database.go:473-482 | for one path and a prefix without wildcards they agree iff the path does not begin with a case variant of it |
| Routing.LikeIsWider | internal/database/database.go:473-482 | paths that the query matches and the resolver does not, one for each reason |
| Listing.FirstIsChoice | internal/database/route_resolver.go:250-265 | the first hit in a sorted list is one that no other hit comes before |
| Listing.FilterOfSort | internal/database/route_resolver.go:226-265 | sorting and then selecting is selecting and then sorting |
| Listing.SortCounts | internal/database/route_resolver.go:250-265 | sorting keeps every element as often as it was there |
| RouteIndex.CachedTargets | internal/database/route_resolver.go:191-229 | reading all targets in one query gives each route what its own query would |
| RouteIndex.UpstreamsMeaning | internal/database/database.go:357-379 | a route's upstreams are its target rows by sort order and id, each with its own check or `http`; its own address serves iff there are no rows |
| RouteIndex.MatchMeaning | internal/database/database.go:485-554 | a match is that of an active row, has that row's upstreams and, for a host, its certificate, and is keyed by that row |
| RouteIndex.PatternTestsAgree | internal/database/route_resolver.go:288-326 | a matcher compiled in advance accepts the domains the per-request test accepts |
| RouteIndex.PatternChoice | internal/database/route_resolver.go:96-111 | the first pattern hit is the row the pattern query chooses |
| RouteIndex.PathTestsAgree | internal/database/route_resolver.go:114-118 | for one path and any listed row the two tests agree iff the query does not find the row by something other than its prefix |
| RouteIndex.PathChoice | internal/database/route_resolver.go:114-124 | the first path hit is the row the path query chooses; equally long prefixes of one path are the same row |
| RouteIndex.ExactDomainsMeaning | internal/database/route_resolver.go:231-237 | the map of exact domains holds a host iff some domain row normalises to it |
| RouteIndex.FirstRowHasHost | internal/database/route_resolver.go:231-237 | of domain rows that share a host the first has it |
| RouteIndex.ExactChoice | internal/database/route_resolver.go:88-94 | the map of exact domains gives the row the exact query chooses |
| RouteIndex.IndexRefinesLookup | internal/database/route_resolver.go:78-127 | whatever rows the queries may return, resolving in a freshly loaded snapshot gives the same match; an empty host or path needs no hypothesis of its own |
| RouteIndex.LiteralPrefixesArePlain | internal/database/database.go:473-482 | the hypothesis on the path holds of prefixes without wildcards that are no case variants of its beginning |
| RouteIndex.WellFormedLoads | internal/database/route_resolver.go:170-175 | tables whose patterns compile can be loaded, so the reload of the theorem succeeds |
| RouteIndex.ReloadAndResolve | internal/database/route_resolver.go:59-127 | a reload followed by a lookup gives what every possible run of the queries gives, and if that is a match, then with all the target rows of an active row, in order |
| RouteIndex.AnswersExist | internal/database/database.go:485-554 | the queries always have a possible answer, so the theorem is about every request |
| RouteIndex.LoadRouteSnapshot | internal/database/route_resolver.go:129-271 | loading gives the sorted index of the tables, and fails iff an expression of a listed row does not compile |
| RouteIndex.ReadRoutes | internal/database/route_resolver.go:140-182 | the first query gives one entry for each listed row, in order, and their positions by id |
| RouteIndex.DealTargets | internal/database/route_resolver.go:191-217 | dealing out the targets gives each route its own, in order |
| RouteIndex.FileRoutes | internal/database/route_resolver.go:226-265 | each kind of route is filed where it belongs, and rows that are no pattern are dropped |
| RouteIndex.RouteResolver.constructor | internal/database/route_resolver.go:50-54 | a new resolver knows no route |
| RouteIndex.RouteResolver.Reload | internal/database/route_resolver.go:59-73 | a reload that fails keeps the last good snapshot |
| RouteIndex.RouteResolver.Resolve | internal/database/route_resolver.go:78-127 | the answer is the one that the refinement theorem is about, and so has the targets that `MatchMeaning` gives it |
| RouteIndex.RouteResolver.ResolvePath | internal/database/route_resolver.go:114-126 | the path part of it |
| TokenBucket.SpendConserves | internal/traffic/limiter.go:83-95 | one attempt never leaves and grants more than was there and was earned |
| TokenBucket.RefillInBetween | internal/traffic/limiter.go:83-90 | it does not matter how often a bucket is looked at before it is full |
| TokenBucket.GrantsExactly | internal/traffic/limiter.go:83-95 | an amount is granted iff it is at most the burst and at most what is there and was earned |
| TokenBucket.WindowBound | internal/traffic/limiter.go:64-96 | over any attempts with any clock readings, no more is granted than the burst and the rate over the time the bucket has seen |
| RateLimiter.NewConfig | internal/traffic/limiter.go:44-58 | every configuration has a positive rate, a whole burst of at least one, and keeps idle buckets for a minute or more |
| RateLimiter.NextConsistent | internal/traffic/limiter.go:64-96 | every request keeps list and map in agreement, the tokens within the burst and the buckets within their limit |
| RateLimiter.Limiter.constructor | internal/traffic/limiter.go:44-58 | a new limiter is consistent and empty |
| RateLimiter.Limiter.AllowAt | internal/traffic/limiter.go:64-96 | the update in place is the step the run lemmas are about, and so is the decision |
| RateLimiter.Limiter.PruneAll | internal/traffic/limiter.go:98-108 | in whatever order the map is walked, exactly the idle buckets go |
| RateLimiter.Limiter.EnsureCapacity | internal/traffic/limiter.go:110-120 | room for one more; what goes is the least recent |
| RateLimiter.Limiter.RemoveBucket | internal/traffic/limiter.go:122-128 | map and list lose the same bucket |
| LimiterRuns.LifeIsBucketRun | internal/traffic/limiter.go:64-96 | while it lives a bucket sees the attempts on its key and nothing else, whatever the limiter does to others |
| LimiterRuns.LifetimeBound | internal/traffic/limiter.go:64-96 | requests admitted between two points of a bucket's life are at most the burst and the rate over the time between |
| LimiterRuns.LifetimeBoundFromCreation | internal/traffic/limiter.go:64-96 | the same, counting the request that creates the bucket |
| LimiterRuns.RecencyIsByLastAsk | internal/traffic/limiter.go:64-128 | after every run the list holds the keys in the order in which they were asked for last |
| LimiterRuns.EvictedIsLeastRecent | internal/traffic/limiter.go:110-120 | whoever loses its bucket to a new one was asked for less recently than anybody who keeps theirs |
| LimiterRuns.BurstIsAsConfigured | internal/traffic/limiter.go:44-96 | a new client may make exactly as many requests at once as configured, and earns as many a minute as configured |
| LimiterRuns.NoKeyIsOneClient | internal/traffic/limiter.go:65-67 | all requests without a key share one bucket |
| LimiterRuns.PruningIsUnobservable | internal/traffic/limiter.go:98-108 | with time to refill and no eviction, a limiter that prunes decides every run as one that never does |
| LimiterRuns.PruningIsObservable | internal/traffic/limiter.go:98-108 | without time to refill there is a run that tells the two apart, beginning at any time if a bucket is kept for a minute |
| LimiterRuns.ObservedExactlyWhenEarly | internal/traffic/limiter.go:98-108 | pruning is never observed iff an idle bucket has refilled before it is pruned |
| LimiterRuns.ObservedAtAnyTime | internal/traffic/limiter.go:44-108 | the same iff for the runs that begin at any one time, so for those of a real clock; every configuration of the constructor keeps buckets long enough |
| Bandwidth.NewConfig | internal/traffic/bandwidth.go:23-37 | every configuration has a positive rate and burst |
| Bandwidth.WaitIsEnough | internal/traffic/bandwidth.go:99-104 | the truncated wait and its millisecond earn at least what is missing |
| Bandwidth.WaitIsTight | internal/traffic/bandwidth.go:99-104 | but for its millisecond the wait earns no more than what is missing |
| Bandwidth.WaitSuffices | internal/traffic/bandwidth.go:78-105 | a retry after the returned wait succeeds, whatever others do on other keys, even if the bucket has gone meanwhile |
| Bandwidth.NoWaitMeansGranted | internal/traffic/bandwidth.go:78-105 | no wait is returned iff the bytes are charged |
| Bandwidth.LifeIsBucketRun | internal/traffic/bandwidth.go:78-105 | while it lives a bucket sees the reservations on its key and nothing else |
| Bandwidth.LifetimeBound | internal/traffic/bandwidth.go:78-105 | bytes granted between two points of a bucket's life are at most the burst and the rate over the time between |
| Bandwidth.LifetimeBoundFromCreation | internal/traffic/bandwidth.go:78-105 | the same, counting the reservation that makes the bucket, which may take the whole burst |
| BandwidthRuns.PruningIsUnobservable | internal/traffic/bandwidth.go:107-117 | with time to refill and no eviction, a limiter that prunes answers every run with the waits of one that never does |
| BandwidthRuns.ObservedExactlyWhenEarly | internal/traffic/bandwidth.go:107-117 | from any time on, pruning is never observed iff an idle bucket has refilled before it is pruned |
| BandwidthRuns.RateIsAsConfigured | internal/traffic/bandwidth.go:23-37 | a bucket earns as many bytes a second as configured, and holds as many as configured |
| Bandwidth.Limiter.constructor | internal/traffic/bandwidth.go:23-37 | a new limiter is consistent and empty |
| Bandwidth.Limiter.PruneAll | internal/traffic/bandwidth.go:107-117 | in whatever order the map is walked, exactly the idle buckets go |
| Bandwidth.Limiter.EnsureCapacity | internal/traffic/bandwidth.go:119-135 | what is dropped is one of the buckets idle longest, in whatever order the map is walked |
| Bandwidth.Limiter.OpenBucket | internal/traffic/bandwidth.go:81-88 | the bucket is there, at the cost of at most one that was idle longest |
| Bandwidth.Limiter.TryReserve | internal/traffic/bandwidth.go:78-105 | the update in place is the step the lemmas are about; exactly the granted bytes are charged |
| Bandwidth.Limiter.WaitChunk | internal/traffic/bandwidth.go:61-76 | a chunk is charged once or, if cancelled, not at all, with other callers in between |
| Bandwidth.Limiter.Wait | internal/traffic/bandwidth.go:39-59 | a successful wait has charged exactly the bytes asked for, all to the bucket of its key and in chunks within the burst; a cancelled one fewer; the chunk loop ends |
| RequestQueue.NewLimits | internal/traffic/limiter.go:139-154 | every queue admits at least one and queues at least none |
| RequestQueue.StepIsSafe | internal/traffic/limiter.go:156-195 | every step of every caller keeps occupancy equal to unreleased grants and the counter equal to the callers between its two updates; a release finds its token |
| RequestQueue.RunIsSafe | internal/traffic/limiter.go:156-195 | the same over whole runs |
| RequestQueue.EveryInterleavingIsSafe | internal/traffic/limiter.go:139-195 | in every reachable state the limits asked for hold, nothing leaks once everybody has left, and a caller is turned away only when the queue is full |
| RequestQueue.Queue.constructor | internal/traffic/limiter.go:139-154 | a new queue is the start of such a run |
| RequestQueue.Queue.TrySend | internal/traffic/limiter.go:157-161 | the fast path is a step of the protocol |
| RequestQueue.Queue.CountIn | internal/traffic/limiter.go:163-169 | the locked check is a step of the protocol |
| RequestQueue.Queue.Select | internal/traffic/limiter.go:177-187 | either case of the select is a step of the protocol |
| RequestQueue.Queue.CountOut | internal/traffic/limiter.go:171-175 | the deferred decrement is a step of the protocol |
| RequestQueue.Queue.ReleaseGrant | internal/traffic/limiter.go:190-195 | the default branch is never taken |
| Health.Worker.constructor | internal/health/worker.go:41-65 | a new worker monitors nothing |
| Health.Worker.Sync | internal/health/worker.go:68-99 | the three maps keep the same keys, and the registration enters the history they stand for |
| Health.Worker.Forget | internal/health/worker.go:84-89 | targets no longer wanted lose both flags, no other does |
| Health.Worker.Register | internal/health/worker.go:91-96 | new targets start out healthy and unchecked, the others keep their state |
| Health.Worker.Collect | internal/health/worker.go:72-82 | the last target given for an address counts |
| Health.WantedAddresses | internal/health/worker.go:72-82 | an address is monitored iff some target gives it |
| Health.WantedCheck | internal/health/worker.go:72-82 | the last target that gives an address says how to check it, in any case, `http` by default |
| Health.Worker.RecordProbe | internal/health/worker.go:186-205 | a probe counts iff its target is registered as it was when the probe began |
| Health.Worker.IsHealthy | internal/health/worker.go:103-114 | unhealthy iff monitored and the last accepted probe since registration failed |
| Health.Worker.HealthyTargets | internal/health/worker.go:117-125 | those found healthy, in order, each by what has happened when it is looked at, with anything happening between the looks |
| Health.QuietLook | internal/health/worker.go:117-125 | if nothing happens meanwhile, exactly the healthy ones |
| Health.Worker.Elapse | internal/health/worker.go:68-205 | any interleaving of registrations and late probes keeps the maps true to the history |
| Health.AfterSync | internal/health/worker.go:68-99 | a registration keeps verdicts of targets that stay and forgets all others |
| Health.Balancer.constructor | internal/balancer/balancer.go:31-36 | no route has been picked for |
| Health.Balancer.Pick | internal/balancer/balancer.go:39-51 | a target found healthy at the counter's place, iff there is one, whatever happens to health between the looks; other routes' counters stay |
| Health.Balancer.PickOthers | internal/balancer/balancer.go:39-51 | picks of other routes leave this route's counter alone |
| Health.Balancer.TakeTurn | internal/balancer/balancer.go:39-51 | one pick after such picks and after changes of health |
| Health.Balancer.PickInTurn | internal/balancer/balancer.go:39-51 | consecutive picks of a route, with other routes' picks and changes of health in between, go round robin through the targets as long as each finds the same ones healthy |
| Health.Balancer.PickEachOnce | internal/balancer/balancer.go:39-51 | n such picks over n distinct healthy targets return each exactly once, if the counter wraps evenly |
| Health.PickPlace | internal/balancer/balancer.go:39-51 | the place of the i-th of consecutive picks |
| Health.EvenIsFair | internal/balancer/balancer.go:39-51 | as many picks as targets reach each target once, if the counter wraps evenly |
| Health.UnevenCollides | internal/balancer/balancer.go:39-51 | if it does not, two of those picks coincide |
| Health.FairExactlyWhenEven | internal/balancer/balancer.go:39-51 | fairness holds iff the counter wraps evenly |
| Health.EachTargetOnce | internal/balancer/balancer.go:39-51 | n steps of round robin over n distinct targets visit each exactly once, if the counter wraps evenly |
| Failover.StreamWriter.constructor | internal/balancer/balancer.go:225-237 | nothing has been sent or held |
| Failover.StreamWriter.WriteHeader | internal/balancer/balancer.go:239-255 | the client has the status line, or it is held back; a second call changes nothing |
| Failover.StreamWriter.Write | internal/balancer/balancer.go:257-272 | after every chunk the client has all of the response or none of it, also when the buffer overflows |
| Failover.StreamWriter.FlushRetryTo | internal/balancer/balancer.go:290-299 | a response that was held back goes out whole |
| Failover.ServeHTTP | internal/balancer/balancer.go:119-154 | an attempt that fails before writing leaves the client untouched; any other delivers or holds its whole response, in whatever chunks it came |
| Failover.Choose | internal/balancer/balancer.go:94-108 | the target at the place of the route's counter among those not tried yet and healthy, iff there is one |
| Failover.TryTarget | internal/balancer/balancer.go:110-164 | one attempt ends with its whole response at the client, or with nothing there |
| Failover.Serve | internal/balancer/balancer.go:84-171 | each target is tried at most once, in the order of round robin, and one in all if the request has a body or is not safe; success means one status line and one whole body of one attempt, failure an untouched client |
| Failover.FirstTriesAreFair | internal/balancer/balancer.go:84-108 | over as many first tries as there are healthy targets each is tried first exactly once, if the counter wraps evenly |
| Failover.FailsMeaning | internal/balancer/balancer.go:148-165 | an attempt fails iff there is no response, or one of status 500 or more and at most a mebibyte |
| Failover.NoneLeft | internal/balancer/balancer.go:93-102 | as many distinct tries as targets are all the targets |
| Forwarded.SplitOutsideQuotes | internal/clientip/resolver.go:244-290 | the scan in place decides the splitting whose meaning and inverse are given below |
| Forwarded.SplitMeaning | internal/clientip/resolver.go:244-290 | the result is the only way to see the value as non-empty parts with delimiters outside quotes between them; there is none iff there is no such way |
| Forwarded.DecodeForwardedValue | internal/clientip/resolver.go:292-328 | the loop decides the decoding whose meaning and inverse are given below |
| Forwarded.DecodeMeaning | internal/clientip/resolver.go:292-328 | a value decodes to v iff it is the token v or a quoted string that writes v |
| Forwarded.ForwardedForAddress | internal/clientip/resolver.go:207-242 | the address of the `for` parameter, if every parameter is well formed and no name repeats |
| Forwarded.SplitJoin | internal/clientip/resolver.go:244-290 | splitting undoes joining |
| Forwarded.DecodeQuote | internal/clientip/resolver.go:292-328 | decoding undoes quoting, for all bytes a quoted string may carry |
| Forwarded.ParseParamRoundTrip | internal/clientip/resolver.go:215-236 | a printed parameter is read back, its name in lower case |
| Forwarded.ElementRoundTrip | internal/clientip/resolver.go:207-242 | a printed element is read back, parameter by parameter |
| Forwarded.ForMeaning | internal/clientip/resolver.go:207-242 | a printed element names the address of its parameter `for`, in any case and place, and none without one |
| Forwarded.TokenMeaning | internal/clientip/resolver.go:330-348 | tokens are of visible characters other than the delimiters of RFC 7230 |
| Forwarded.ControlMeaning | internal/clientip/resolver.go:254-256 | control characters are the first 32 of ASCII and the last |
| Strings.TrimMeaning | internal/clientip/resolver.go:359-361 | trimming takes away what may be cut at both ends and nothing else |
| Forwarded.HeaderRoundTrip | internal/clientip/resolver.go:179-242 | a printed header is read back, element by element |
| Forwarded.SplitIsScan | internal/clientip/resolver.go:244-248 | the first check of splitting is never needed |
| Forged.ScanApart | internal/clientip/resolver.go:244-290 | a delimiter outside quotes separates the parts of any two texts |
| Forged.LineHasNoStray | internal/clientip/resolver.go:207-328 | a line all of whose elements parse has no backslash outside quotes |
| Forged.HonestStandsAlone | internal/clientip/resolver.go:207-290 | an accepted line that ends in a text which resists an open quote has exactly the elements of that text at its end |
| Forged.PrintedResists | internal/clientip/resolver.go:244-328 | every printed header is such a text, whatever quotes and backslashes its values contain |
| ClientIP.ParseForwarded | internal/clientip/resolver.go:179-205 | the loops decide the chain the round trip is about, with its limits on bytes and addresses |
| ClientIP.ForwardedRoundTrip | internal/clientip/resolver.go:179-328 | any elements printed over any number of header lines are read back as the addresses they name, in order |
| ClientIP.ComputeHeaderSize | internal/clientip/resolver.go:375-381 | the size that is limited is that of all lines |
| ClientIP.ParseXForwardedFor | internal/clientip/resolver.go:152-177 | the loops decide the chain whose meaning is given below |
| ClientIP.XForwardedForMeaning | internal/clientip/resolver.go:152-177 | there is a chain iff the lines are within the limit, hold no control character, and have 1 to 64 comma-separated parts in all, each an address; the i-th address is that of the i-th part |
| ClientIP.SplitOnMeaning | internal/clientip/resolver.go:162 | the parts of a line are the texts between its commas |
| ClientIP.SplitOnComma | internal/clientip/resolver.go:162 | a comma separates the parts of two texts, whatever they are |
| ClientIP.ForwardedMeaning | internal/clientip/resolver.go:179-205 | there is a chain iff the lines are within the limit, can all be taken apart, and have 1 to 64 elements in all, each naming an address; the i-th address is that of the i-th element |
| ClientIP.FindClient | internal/clientip/resolver.go:45-93 | the walk decides the answer whose meaning is given below |
| ClientIP.ClientMeaning | internal/clientip/resolver.go:45-93 | somebody other than the peer is the client iff the peer is trusted, all headers there are agree, and that address is the last untrusted one of their chain |
| ClientIP.TailDecides | internal/clientip/resolver.go:45-93 | the parts at the end of the lines decide, as soon as one of them is an untrusted address |
| ClientIP.ForgedTextIsIgnored | internal/clientip/resolver.go:45-93 | text to the left of an untrusted address that trusted proxies appended, in any lines and with any other header, can change the answer only to the peer |
| ClientIP.ElementTailDecides | internal/clientip/resolver.go:45-93 | the elements at the end of the Forwarded lines decide, as soon as one of them is an untrusted address |
| ClientIP.ForgedElementsAreIgnored | internal/clientip/resolver.go:45-93 | the same for Forwarded lines: text before elements that resist an open quote can change the answer only to the peer |
| ClientIP.PrintedElementsDecide | internal/clientip/resolver.go:45-93 | whatever text stands before printed elements, an open quote included, and whatever their values, the answer is their last untrusted address or the peer |
| ClientIP.RightmostMeaning | internal/clientip/resolver.go:83-92 | the walk finds the address that is untrusted and has only trusted ones to its right |
| ClientIP.ForgedPrefixIsIgnored | internal/clientip/resolver.go:83-92 | what a client writes to the left of its own address does not change the answer |
| Cache.LookupIsMeaning | internal/cache/cache.go:68-82 | an entry tells what was given in the latest accepted set of its key, is there as long as it must be retained, and is fresh iff neither its lifetime nor the store's is over |
| Cache.NewEntryMeaning | internal/cache/cache.go:91-128 | an entry has the given status and body and the header but for hop-by-hop fields, and is fresh iff neither lifetime is over |
| Cache.TouchTracks | internal/cache/cache.go:68-133 | a hit or a set keeps list and map true to the history |
| Cache.RemoveTracks | internal/cache/cache.go:143-154 | removing an expired or overtaken key keeps them so |
| Cache.LastIsOvertaken | internal/cache/cache.go:143-148 | the last key of the list has been overtaken by all others |
| Cache.Store.constructor | internal/cache/cache.go:48-65 | an empty cache, with defaults for limits that are not positive |
| Cache.Store.Get | internal/cache/cache.go:68-82 | a hit tells what was given last, within its lifetime and the store's since; a key for which both last, with fewer than the limit of others touched since, always hits |
| Cache.Store.SetWithTTL | internal/cache/cache.go:91-133 | a body within the limit with a positive lifetime enters the history with its time; any other changes nothing |
| Cache.Store.RemoveExcess | internal/cache/cache.go:130-148 | what is evicted is not the key just set, and the limit holds again |
| Cache.Store.RemoveElement | internal/cache/cache.go:150-154 | map and list lose the same key |
| Cache.Capture.constructor | internal/cache/cache.go:200-209 | nothing has been delivered |
| Cache.Capture.Read | internal/cache/cache.go:220-237 | however the stream is cut into reads, all of it is delivered once or nothing is |
| Reconcile.NormalizedRouteTargets | main.go:1862-1891 | the loop decides the normal form whose meaning is given below, and fails if it is empty |
| Reconcile.NormalizeMeaning | main.go:1862-1891 | the normal form has the first occurrences of the addresses in order, no repetition, and known checks only |
| Reconcile.NormalizeExactly | main.go:1862-1891 | targets are accepted iff every address is an upstream and every check at a first occurrence is known; each address comes with the check of its first occurrence |
| Reconcile.StoredAsGiven | internal/database/database.go:590-610 | normalised targets are stored as they are |
| Reconcile.WantedExactly | main.go:1747-1769 | a route can be applied iff its type is known, its name fits the type, and it has acceptable upstreams |
| Reconcile.CommittedRoutes | main.go:1739-1795 | after a commit the tables hold every route as the snapshot gives it: row, certificate, all listed upstreams or else the primary one, and every row is one of them |
| Reconcile.DistinctRoutesAgree | main.go:1747-1773 | routes whose types or trimmed names differ always agree |
| Reconcile.RuleMeaning | main.go:1804-1813 | a rule is applied iff it has a name or key and an expression that compiles, under that name, with its expression and priority and its action in upper case |
| Reconcile.CommittedRules | main.go:1797-1817 | after a commit the table holds every rule as the snapshot gives it, and every row is one of them |
| Reconcile.OutcomeNeedsAgreement | main.go:1746-1786 | there is an outcome only if routes that ask for one row agree on it |
| Reconcile.OrderDoesNotMatter | main.go:1729-1860 | two outcomes differ at most in the ids of new rows |
| Reconcile.ApplyingTwiceIsApplyingOnce | main.go:1729-1860 | applying a snapshot again changes neither routes nor targets nor ids |
| Reconcile.PutRouteApplied | main.go:1771-1785 | applying one more route keeps those applied before |
| Reconcile.SweepReconciles | main.go:1788-1795 | once all routes are applied, the sweep leaves exactly the outcome |
| Reconcile.RulesAreDetermined | main.go:1797-1817 | only one set of rules answers a snapshot |
| Reconcile.Database.SetRouteTargets | internal/database/database.go:590-610 | a route's targets are replaced, none of another's |
| Reconcile.Database.ApplyRoute | main.go:1747-1786 | a row is updated or inserted with its targets, or the whole call fails |
| Reconcile.Database.ApplyRoutes | main.go:1746-1786 | in whatever order the map is walked, all routes are applied and known ids stay |
| Reconcile.Database.ReconcileRoutes | main.go:1739-1795 | exactly the routes of the snapshot are left, or nothing is touched if routes are not configured |
| Reconcile.Database.ApplyRules | main.go:1797-1817 | exactly the rules of the snapshot are left, in whatever order; it succeeds if all are valid and named apart |
| Reconcile.Database.ExecuteOthers | main.go:1819-1851 | the statements on other tables leave these alone and end the transaction at the first that fails |
| Reconcile.Database.ApplySnapshot | main.go:1729-1860 | any error leaves all tables as they were, and no statement may fail unnoticed; a commit reaches the outcome iff routes that share a row agree, and then stores routes and rules as the snapshot gives them; what is not configured is not touched |
| ConfigStream.Manager.constructor | internal/streaming/manager.go:174-201 | version and current snapshot agree from the start, recovered or not |
| ConfigStream.Manager.Subscribe | internal/streaming/manager.go:203-210 | a subscriber starts with the snapshot that is current |
| ConfigStream.Manager.HandleMessage | internal/streaming/manager.go:213-256 | a stale or unreadable message changes nothing; any other is published and offered to every subscriber, whose promises all hold |
| ConfigStream.Manager.Broadcast | internal/streaming/manager.go:244-253 | each subscriber gets it iff its channel has room, and stays well served |
| ConfigStream.Manager.Receive | internal/streaming/manager.go:203-210 | what a subscriber takes was published and is newer than all it took before |
| ConfigStream.SubscriberSeesProgress | internal/streaming/manager.go:203-256 | versions sent to a subscriber strictly increase, from the one current at its subscription |
| ConfigStream.SubsequenceMember | internal/streaming/manager.go:244-253 | everything sent was published since the subscription |
| ConfigStream.NewestIsSentExactlyWhenThereIsRoom | internal/streaming/manager.go:247-253 | the newest snapshot is lost to a subscriber iff its channel is full |
| ConfigStream.Poller.constructor | main.go:1159-1161 | the poller starts at the manager's version |
| ConfigStream.Poller.Poll | main.go:1197-1257 | the poller's version stays the manager's and follows the clock unless that is behind, so a changed configuration is never dropped as stale, and an unchanged one leaves the manager alone |
| ConfigStream.MergeConfigSnapshots | main.go:1449-1481 | the loops decide the merge whose meaning is given below |
| ConfigStream.MergeMeaning | main.go:1449-1481 | no route of either side is lost, the remote one wins, and the sides' claims to configure are kept |
| ConfigStream.ApplyNext | main.go:1663-1671 | one turn takes a newer published snapshot and leaves the tables reconciled with it, or as they were |
| ConfigStream.HandleAll | internal/streaming/manager.go:213-256 | any messages meanwhile only add to what a subscriber is sent |
| ConfigStream.ApplyUpdates | main.go:1659-1671 | over any number of turns, with anything published in between, what waits is taken in turn, the committed snapshots are published ones of strictly increasing versions, and the tables go through exactly these commits |
| ConfigStream.LastRoutesStand | main.go:1659-1671 | the routes are those that the last commit about routes asked for, or the first ones |
| ConfigStream.ItoaInjective | main.go:1315-1321 | different suffixes are written differently |
| ConfigStream.ItoaMeaning | main.go:1315-1321 | a suffix is the decimal number without leading zeros |
| ConfigStream.KeysDiffer | main.go:1315-1321 | no key is tried twice for one rule |
| ConfigStream.FreeKey | main.go:1315-1321 | the search ends, at the first key that is free |
| ConfigStream.KeyRules | main.go:1315-1327 | each rule gets the first free key that begins with its id, or its name if it has none, so no rule overwrites another |
| Lines.ConcatSplit | ai/worker_protocol.py:15-38 | the lines of a stream hold all of its bytes |
| Lines.SplitCounts | ai/worker_protocol.py:15-38 | there is one line for each newline and one for an unterminated tail |
| Lines.SplitAppend | ai/worker_protocol.py:15-38 | what follows a whole line does not change the lines before it |
| Framing.Drain | ai/worker_protocol.py:20-24 | however many reads it takes, draining stops at the end of the oversized line |
| Framing.ReadMeaning | ai/worker_protocol.py:16-20 | a full read without a newline has met an oversized line, any other read is a line |
| Framing.IterRequests | ai/worker_protocol.py:10-38 | for any stream, one item for each line, depending on that line alone: a size error iff it is too long without its terminator |
| Framing.RequestsArrive | ai/worker_protocol.py:10-38 | requests the Go side agrees to send arrive each as itself, in order |
| AiWorker.ReadLine | internal/aiworker/worker.go:220-241 | in whatever pieces the buffer yields it, a line is accepted iff it and its newline fit the limit and one byte; how far an oversized one is read |
| AiWorker.TrimmedFits | internal/aiworker/worker.go:229-234 | the second check of the size never fails |
| AiWorker.AcceptedSizes | internal/aiworker/worker.go:220-249 | the largest responses that are accepted, with either line ending |
| AiWorker.UnreadIsReply | internal/aiworker/worker.go:167-177 | with nothing left over before, what is unread after a request is its own reply |
| AiWorker.WholePartMeaning | ai/worker_protocol.py:15-38 | what is asked is what stands up to the last newline |
| AiWorker.ExchangeMeaning | internal/aiworker/worker.go:167-201 | an attempt is answered iff everything gets through, fits and decodes, and then by the reply to that request; it leaves something behind iff a write is cut in the middle, or a reply arrives whole that is longer than the reader looks |
| AiWorker.StaleAnswer | internal/aiworker/worker.go:136-147 | without a restart after that, the next request gets the tail of the old response |
| AiWorker.UnpairedWithoutRestart | internal/aiworker/worker.go:136-147 | such a child and such requests exist |
| AiWorker.Worker.constructor | internal/aiworker/worker.go:54-74 | a new worker has nothing left over |
| AiWorker.Worker.Start | internal/aiworker/worker.go:274-301 | a start that fails leaves what there was |
| AiWorker.Worker.Stop | internal/aiworker/worker.go:312-334 | no child is left, even if waiting for it fails |
| AiWorker.Worker.Restart | internal/aiworker/worker.go:303-310 | a new child or none, never the old one |
| AiWorker.Worker.RequestOnce | internal/aiworker/worker.go:167-201 | past the deadline the child is replaced; otherwise the state is that of one exchange, the end of the output included |
| AiWorker.Worker.Attempted | internal/aiworker/worker.go:136-147 | after an attempt the child has nothing left over iff no deadline passed between a failure that leaves something and the look at it |
| AiWorker.Worker.Tried | internal/aiworker/worker.go:135-148 | success iff one of two attempts is answered, with the response to this very request; each error has its cause |
| AiWorker.Worker.Request | internal/aiworker/worker.go:98-149 | a request that is refused changes nothing; any other is tried at most twice and pairs with its own response |
| AiWorker.Worker.Close | internal/aiworker/worker.go:336-346 | closing again changes nothing; after closing there is no child |

## Left out

- Text is ASCII: letter case, white space and header bytes beyond it, and Unicode normalisation, are not modelled.
- Regular expressions, URL parsing, IP literals and networks, the WAF expression compiler, JSON and UTF-8 decoding are arbitrary functions given from outside.
- `net.SplitHostPort` is written out from its documented behaviour; its source is not part of this repository.
- SHA-256 is taken as injective: a binding is the client address itself, and a digest of a configuration is the configuration.
- Times are whole nanoseconds without overflow of 64 bits; tokens are exact reals without rounding.
- List elements that hold pointers are modelled by their keys, so a check that a list element and a map entry are the same object is a check of the key.
- SQL is a sequence of rows or a map by unique key, with commit and rollback; NULL columns, migrations, pools and SQLite's files are not modelled.
- RouteIndex.IndexRefinesLookup: its hypothesis `PlainRequest` is sufficient, not necessary; a row on which the two lookups differ may be beaten by another on which they agree.
- Reconcile.Database.ApplySnapshot: of the statements about users, their domains and the zero-trust setting, which touch other tables, only that each may fail and undo everything.
- ConfigStream.ApplyNext: leaves out the resolver and WAF reloads and the health registration that follow a commit; agent configuration is not modelled.
- ConfigStream.KeyRules: takes the rules that are kept, named and scoped to hosts; how `snapshotFromDomainsResponse` does that is not modelled. Names can repeat there, in which case the transaction fails.
- ConfigStream.Poller.Poll: assumes a single poller, as the agent has; delivery of the newest snapshot to a subscriber is not claimed, because the channel may drop it.
- Challenge.Store.Create: the source of ids is a sequence that contains one not in use; that random ids are eventually fresh is not proved. The random choice of answers is an argument.
- RequestQueue.Queue.Select: the timeout of a queued caller is its cancellation; which of several waiting callers is admitted is left open.
- Bandwidth.Limiter.Wait: waits are turns given from outside, each with a clock reading and other callers' charges; timers are not modelled.
- Failover.Serve: a reverse proxy that fails while it copies a body, informational responses, trailers, protocol upgrades, hijacking and flushing are left out.
- Cache.Capture.Read: read errors other than the end of the stream, and closing, are left out; both only mean that nothing is delivered.
- AiWorker.Worker.Request: one call at a time, as the token serialises them; a write that blocks for ever, and a reader that outlives its process, are not modelled.
- Framing.IterRequests: the generator is run to its end; negative size limits, which make reads unbounded, are left out.
- HTTP serving, TLS, login pages, metrics, telemetry, the honeypot, model servers, shell scripts and the demo lab are presentation, I/O or simple branches.

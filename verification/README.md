# ProxyMax: verified model of the proxy's self-contained cores

ProxyMax is a proxy server in C. Around its sockets sit several modules whose
correctness is a matter of state, loops and arithmetic. This project models eight of
them and proves what they promise, for all inputs, all runs and, for the thread pool,
all interleavings.

| file | models |
|---|---|
| `Filter.dfy` | the wildcard matcher and the URL and IP filters |
| `RecencyList.dfy` | the cache as an association list in order of last use, and its runs |
| `Cache.dfy` | the cache itself: hash buckets and a recency queue over shared entries, a byte counter |
| `Http.dfy` | the growing response buffer, one request, and requests whose cache operations interleave |
| `WorkQueue.dfy` | the linked work queue |
| `ThreadPool.dfy`, `ThreadPoolHistory.dfy`, `ThreadPoolProgress.dfy` | workers, submitting clients and the destroyer, statement by statement, with the mutex explicit; what becomes of every job handed over, and why it is executed |
| `TokenBucket.dfy` | the request limiter and its bounds over whole traces |
| `Bandwidth.dfy`, `BandwidthRuns.dfy`, `BandwidthIntervals.dfy` | the bandwidth windows as a linked list with its collector, their runs, and what any interval of a run lets through |
| `Rotation.dfy`, `Balancing.dfy`, `Fairness.dfy`, `BalancerRuns.dfy`, `Stickiness.dfy` | what the load balancer selects, how it shares selections out, what mixed runs keep, when a client keeps its server |
| `LoadBalancer.dfy` | the list of backends updated in place |
| `Base64.dfy`, `Base64Standard.dfy`, `BasicAuth.dfy` | the streaming decoder, the encoder it inverts, the standard they follow, and Basic credentials |
| `CStrings.dfy`, `HeaderEdit.dfy` | string searches, and header editing in a NUL-terminated buffer |
| `Hashing.dfy`, `HashPolynomial.dfy`, `Sequences.dfy`, `Options.dfy` | the shared string hash, with and without its loop, positions in lists, and optional results |

Where the program updates state in place, a class or a buffer is updated in place here,
and each method is proved equal to a function on values; the lemmas are about those
functions. The two lists that the program relinks by hand (the work queue, and the
tracker list behind its collector) keep their `next` pointers; other lists are sequences
held in a field. The clock is a parameter, read as often as the
source reads it. Doubles are reals. Bytes of text are characters; shifts and ors of the
decoder are products, remainders and sums, which `Base64.ByteOperations` ties to bit
vectors. `recv`, `send`, `connect` and the health probe are inputs.

## Where the program differs from what it says

* The cache does not stay within its size: overwriting an entry never evicts. Exactly
  when a put ends within the limit is `RecencyList.PutWithinLimitIff`; a run that does
  not, in every configured cache, is `RecencyList.ConfiguredCacheCanExceedLimit`.
* "Cache the response if enabled and successful" (`proxy-server/src/protocols/http.c:270`):
  a response cut short is stored too, whether the client went away or `recv` failed. What
  is stored is whole exactly when all of the response came and every chunk was forwarded
  (`Http.StoredIsWholeIff`, and `Http.HitIsWholeIff` for what a hit serves);
  `Http.TruncatedResponseIsServed` has both ways to cut it.
* "Same client always goes to same backend" (`proxy-server/docs/NEW_FEATURES.md:110`):
  selection by address falls back to round robin when the hashed server is unhealthy.
  `Stickiness.StickyRunIff` says over which runs a client keeps its server whatever index
  other clients leave behind,
  `Stickiness.ComesBackIff` when two selections in a row agree, and
  `Stickiness.ClientMovesAfterFailures` is a run in which the client moves.
* Credentials are followed, in a real request, by the next header line, and without
  padding the decoder reads on. `BasicAuth.CredentialsRecoveredIff` is the exact condition
  on what follows, `BasicAuth.FollowingHeaderCorrupts` the failing family.
* "60-second sliding window" (`proxy-server/docs/NEW_FEATURES.md:29`): the window does not
  slide, it restarts, and sixty seconds can let through 118 times the limit less 59
  sixtieths of it (`BandwidthIntervals.WindowDoesNotSlide`), which is the most there can be
  (`BandwidthIntervals.SixtySecondsAtMost`). From which points every sixty seconds stay
  within sixty times the limit is `BandwidthIntervals.SixtySecondsIff`;
  `BandwidthIntervals.IntervalBound` is the bound for any interval.
* `base64_decode` writes the terminator without a capacity check when there is nothing to
  decode: it writes past its size exactly when the size is zero and the input has no
  alphabet characters before any `=`. `Base64.Decode` says so; the only caller passes 512
  (`proxy-server/src/auth/auth.c:191`).
* `compression_add_encoding_header` prints into 128 bytes, so an encoding name longer than
  107 characters loses its line end (`HeaderEdit.EncodingLineIsWholeIff`).

## Model

| member | source | states |
|---|---|---|
| Filter.PatternMatch | proxy-server/src/filter/filter.c:15-42 | the loop with one saved star terminates and returns 1 exactly when the pattern matches by the recursive meaning of `*` and `?` |
| Filter.MatchesIffCut | proxy-server/src/filter/filter.c:15-42 | a pattern matches exactly the strings that can be cut into one piece for each of its characters: any piece for `*`, one character for `?`, itself for any other |
| Filter.CommitToLastStar | proxy-server/src/filter/filter.c:23-25 | forgetting an earlier star when a new one is met loses no match |
| Filter.RestartAtMismatch | proxy-server/src/filter/filter.c:29-34 | at a mismatch only a restart of the saved star one character later can still match; without a star nothing can |
| Filter.StarredLiteralIsSubstringSearch | proxy-server/src/filter/filter.c:68-71 | a literal between two stars matches exactly the strings that contain it |
| Filter.AddPatterns | proxy-server/src/filter/filter.c:44-53 | each added pattern becomes the head of its list |
| Filter.CheckPatternList | proxy-server/src/filter/filter.c:55-64 | true exactly when some pattern of the list matches |
| Filter.Filters.Init | proxy-server/src/filter/filter.c:66-89 | the four built-in URL patterns and all configured addresses are on their lists |
| Filter.Filters.CheckUrl | proxy-server/src/filter/filter.c:91-112 | allowed exactly when the URL is there and whitelisted or not blacklisted |
| Filter.Filters.CheckIp | proxy-server/src/filter/filter.c:114-139 | a non-empty whitelist alone decides, otherwise the blacklist; a missing address is refused |
| Filter.DefaultListBlocksFourWords | proxy-server/src/filter/filter.c:68-71 | the built-in list blocks exactly the URLs that contain one of four words |
| Hashing.Hash | proxy-server/src/cache/cache.c:33-38 | the loop computes djb2 on 32-bit words |
| HashPolynomial.Djb2IsPolynomial | proxy-server/src/cache/cache.c:33-38 | the hash is 5381 times 33 to the length plus the characters weighted by powers of 33, modulo two to the power of 32 |
| Cache.HashKey | proxy-server/src/cache/cache.c:32-41 | the bucket of a key |
| Cache.LruCache.constructor | proxy-server/src/cache/cache.c:43-77 | a new cache is valid, has 1024 buckets, and is the empty recency list of the configured size |
| Cache.LruCache.Lookup | proxy-server/src/cache/cache.c:128-129 | searching the one bucket finds the entry of the key in the whole queue, or shows there is none |
| Cache.LruCache.Remove | proxy-server/src/cache/cache.c:103-111 | unlinking an entry from bucket and queue keeps them in step and lowers the counter by its size |
| Cache.LruCache.EvictLru | proxy-server/src/cache/cache.c:95-115 | drops the head of the queue, nothing when it is empty |
| Cache.LruCache.MakeRoom | proxy-server/src/cache/cache.c:213-216 | the eviction loop terminates and leaves what evicting from the recency list leaves |
| Cache.LruCache.SetData | proxy-server/src/cache/cache.c:185-202 | replacing data in place changes one record and moves the counter by the difference |
| Cache.LruCache.Insert | proxy-server/src/cache/cache.c:225-243 | a new entry goes to its bucket and the recent end, and the counter grows by its size |
| Cache.LruCache.Get | proxy-server/src/cache/cache.c:117-164 | refines a lookup in the recency list, result, order, expiry and counters included |
| Cache.LruCache.Put | proxy-server/src/cache/cache.c:166-247 | refines a store in the recency list |
| Cache.LruCache.Cleanup | proxy-server/src/cache/cache.c:249-278 | every entry of the queue is freed, oldest first, and none twice |
| Cache.RemoveKeepsLinked | proxy-server/src/cache/cache.c:103-108 | buckets still partition the queue by hash after a removal |
| Cache.InsertKeepsLinked | proxy-server/src/cache/cache.c:237-241 | and after inserting a key that is not there |
| Cache.MoveKeepsLinked | proxy-server/src/cache/cache.c:142-144 | and after moving an entry to the recent end |
| RecencyList.EvictRemovesShortestPrefix | proxy-server/src/cache/cache.c:213-216 | eviction removes exactly the shortest prefix of the recency list that makes room |
| RecencyList.RunKeepsKeysUnique | proxy-server/src/cache/cache.c:181-211 | no run ever holds a key twice |
| RecencyList.NewKeyFits | proxy-server/src/cache/cache.c:213-243 | storing a new key ends within the limit from any state |
| RecencyList.OverwriteShiftsTotal | proxy-server/src/cache/cache.c:183-210 | overwriting moves the total by the difference in size |
| RecencyList.PutWithinLimitIff | proxy-server/src/cache/cache.c:166-247 | from any state, a put ends within the limit if and only if the stated guard holds |
| RecencyList.OverwriteCanExceedLimit | proxy-server/src/cache/cache.c:183-210 | for every limit that is a multiple of four, a run of four puts that fills the cache and ends a quarter above it |
| RecencyList.ConfiguredCacheCanExceedLimit | proxy-server/src/cache/cache.c:51-51 | the same for every configured number of megabytes |
| RecencyList.NonEnlargingRunStaysWithinLimit | proxy-server/src/cache/cache.c:166-247 | every run whose overwrites never enlarge an entry stays within the limit |
| RecencyList.HitReturnsLatestPut | proxy-server/src/cache/cache.c:127-158 | over any run, a hit returns the bytes of the latest accepted put of the key, unexpired |
| RecencyList.ListIsInOrderOfLastTouch | proxy-server/src/cache/cache.c:142-144 | over any run, the list is in order of last hit or accepted put, so eviction takes the least recently used |
| RecencyList.CountersCountLookups | proxy-server/src/cache/cache.c:137-161 | over any run, the hit counter counts the lookups that returned something and the miss counter the others |
| RecencyList.GetIsExactly | proxy-server/src/cache/cache.c:117-164 | a live entry is returned and moves behind all others, an expired one is dropped, and nothing else changes |
| RecencyList.PutIsExactly | proxy-server/src/cache/cache.c:166-247 | a refused store changes nothing; an overwritten entry goes last; a new one goes behind all entries but the shortest prefix whose removal makes room |
| RecencyList.RecordStaysIff | proxy-server/src/cache/cache.c:117-247 | an entry leaves the cache with an operation if and only if that evicts it, overwrites it, or finds it expired |
| RecencyList.UndisturbedIsFound | proxy-server/src/cache/cache.c:117-247 | over any run that does none of these to an entry, it is found until it expires, however many lookups come between |
| Http.Relay | proxy-server/src/protocols/http.c:227-268 | whichever side fails first, the buffer holds exactly the chunks forwarded before, and one doubling per chunk always suffices |
| Http.HandleRequest | proxy-server/src/protocols/http.c:196-283 | cache and reply after a request: a hit is served from the cache, a forwarded non-empty GET response is stored |
| Http.ReplyIff | proxy-server/src/protocols/http.c:196-283 | whatever the method, a request that does not hit is told of a failed connection or a failed send if and only if that happened, and otherwise gets what could be forwarded |
| Http.CacheAfterIs | proxy-server/src/protocols/http.c:196-276 | a request other than GET, or with caching off, leaves the cache alone; a GET changes it by its lookup and by storing what it forwarded |
| Http.RepliesInTurns | proxy-server/src/protocols/http.c:196-283 | under every interleaving each request gets the answer of its own lookup and network, and one that reached its server waits or has been relayed what could be forwarded |
| Http.ForwardedUpToFailure | proxy-server/src/protocols/http.c:236-268 | what could be forwarded are the chunks before the first failure |
| Http.StoredIsWholeIff | proxy-server/src/protocols/http.c:236-276 | what is stored is a prefix of the server's response, and all of it if and only if all of it came and every chunk was forwarded |
| Http.NextRequestIsServed | proxy-server/src/protocols/http.c:196-276 | the next GET of the address is served what the first one's client got, and the whole response under exactly that condition |
| Http.ManyRequestsAreServed | proxy-server/src/protocols/http.c:196-276 | so are all GETs of the address that follow until it expires |
| Http.TruncatedResponseIsServed | proxy-server/src/protocols/http.c:237-276 | a response cut short by a failing client or a failing `recv` is stored and served, from any cache state and any time to live |
| Http.OwnTurnsHandle | proxy-server/src/protocols/http.c:196-283 | a request's lookup and store taken in a row are the handler, wherever other requests are |
| Http.OneByOne | proxy-server/src/protocols/http.c:196-283 | handling any requests one after the other is one of the interleavings |
| Http.CacheIsRunOfTurns | proxy-server/src/protocols/http.c:196-276 | after any interleaving the cache is the run of the operations that the requests issued |
| Http.HitServesWhatWasForwarded | proxy-server/src/protocols/http.c:196-276 | in every interleaving of any requests, one served from the cache gets exactly what the latest storable GET of its URL had been relayed, unexpired |
| Http.HitIsWholeIff | proxy-server/src/protocols/http.c:196-276 | and that is its server's response if and only if all of it came and was forwarded |
| WorkQueue.Queue.Push | proxy-server/src/core/threading.c:150-163 | linking at the tail appends to the contents; head, tail and count stay right |
| WorkQueue.Queue.Pop | proxy-server/src/core/threading.c:45-53 | unlinking the head yields the oldest job, or nothing from an empty queue |
| WorkQueue.Queue.Drain | proxy-server/src/core/threading.c:120-126 | the clean-up loop frees each remaining item, in order and once |
| ThreadPool.ReachableStatesAreSound | proxy-server/src/core/threading.c:28-169 | every interleaving keeps mutual exclusion, the flag and sleeper invariants, wake-up and conservation |
| ThreadPool.StepKeepsControl | proxy-server/src/core/threading.c:28-169 | one step of any thread keeps mutual exclusion and what each position says about flag and queue |
| ThreadPool.StepKeepsWakeups | proxy-server/src/core/threading.c:36-38 | one step keeps: while anyone sleeps, queued jobs do not outnumber the workers on their way plus a pending signal |
| ThreadPool.StepKeepsConservation | proxy-server/src/core/threading.c:45-61 | one step keeps: each submission is dequeued, queued or freed, each dequeued one is held or executed by its worker |
| ThreadPool.SleepersNeverMissWork | proxy-server/src/core/threading.c:154-166 | with the mutex free, a sleeper means each queued job has a worker on its way; never a queued job with all asleep |
| ThreadPool.QueuedJobsNeverStall | proxy-server/src/core/threading.c:28-65 | before shutdown a queued job always leaves some thread able to move, without spurious wake-ups |
| ThreadPoolProgress.RunsAreBounded | proxy-server/src/core/threading.c:28-65 | until destroy is called, every run is bounded by a measure of the state and what its submissions and spurious wake-ups add |
| ThreadPoolProgress.SubmissionsAreExecuted | proxy-server/src/core/threading.c:28-169 | however the threads are scheduled, they run out of steps within that bound, and then the jobs executed are exactly the jobs that clients handed over |
| ThreadPoolProgress.PoolCanFinish | proxy-server/src/core/threading.c:28-169 | from every sound state before shutdown some schedule gets there |
| ThreadPoolProgress.WorkloadIsExecuted | proxy-server/src/core/threading.c:28-169 | every sequence of jobs can be handed over before destroy, and is executed |
| ThreadPoolProgress.TicketIsDequeued | proxy-server/src/core/threading.c:28-65 | whoever goes on submitting, a ticket is dequeued once the workers have taken more than three steps each, six for every ticket before it and three for every wake-up |
| ThreadPool.FirstInFirstOut | proxy-server/src/core/threading.c:45-53 | over any run, submissions are the dequeued jobs in order, then the queue, then what was freed |
| ThreadPoolHistory.CallsAreLinked | proxy-server/src/core/threading.c:131-169 | over any run, each job that clients handed over is among the submissions, once for each call, or its call is still about to link it |
| ThreadPoolHistory.CallsKeepTheirOrder | proxy-server/src/core/threading.c:131-169 | each client's jobs are linked in the order of its calls |
| ThreadPool.ExecutedExactlyOnce | proxy-server/src/core/threading.c:57-61 | a dequeued job is executed once, by the worker that dequeued it |
| ThreadPool.ShutdownStopsWaitingAndDequeuing | proxy-server/src/core/threading.c:40-43 | once the flag is set no worker goes to sleep and none dequeues |
| ThreadPool.ShutdownRunsAreBounded | proxy-server/src/core/threading.c:104-126 | after the flag is set every run is bounded by a measure of the state and its new submissions |
| ThreadPool.ShutdownNeverStalls | proxy-server/src/core/threading.c:104-126 | after the flag is set some thread can move until destroy has returned; so all joins return |
| ThreadPool.DestroyLeavesNothing | proxy-server/src/core/threading.c:120-126 | at the end all workers are gone, each dequeued job ran exactly once, and exactly the others were freed, in order |
| ThreadPoolHistory.DestroyAccountsForEveryCall | proxy-server/src/core/threading.c:104-126 | when destroy has returned, every job ever handed over was executed once or freed once |
| TokenBucket.Limiter.RefillTokens | proxy-server/src/monitor/ratelimit.c:64-75 | adds what was earned since the last refill, up to the limit; a clock that went back changes nothing |
| TokenBucket.RateLimiters.GetRateLimiter | proxy-server/src/monitor/ratelimit.c:35-61 | the limiter of the address, or a new full one; other addresses unchanged |
| TokenBucket.RateLimiters.CheckRequest | proxy-server/src/monitor/ratelimit.c:77-102 | accepts exactly when the refilled bucket holds a token, and spends it; other addresses unchanged |
| TokenBucket.BucketTracksClock | proxy-server/src/monitor/ratelimit.c:64-75 | over any trace a bucket's refill time is the running maximum of its clock and its tokens stay between nothing and the limit |
| TokenBucket.AcceptedWithinBucket | proxy-server/src/monitor/ratelimit.c:35-102 | between two calls of an address, acceptances stay within the limit plus a sixtieth of it for each second |
| TokenBucket.RejectionIsDeserved | proxy-server/src/monitor/ratelimit.c:93-101 | a rejection implies an earlier full bucket since which more than the limit less one, plus a sixtieth of it for each second, was accepted |
| TokenBucket.NoTokensNoRequests | proxy-server/src/monitor/ratelimit.c:53-55 | a limit of zero or below accepts nothing |
| Bandwidth.Monitor.GetTracker | proxy-server/src/monitor/ratelimit.c:105-139 | finds, restarts or creates the tracker; other addresses unchanged |
| Bandwidth.Monitor.CheckBandwidth | proxy-server/src/monitor/ratelimit.c:141-180 | accepts exactly when the truncated rate plus the bytes is within the limit; every address then has the window that the runs give it |
| Bandwidth.TruncatedDivisionIsCut | proxy-server/src/monitor/ratelimit.c:162-162 | the conversion of the rate cuts the exact quotient towards zero |
| Bandwidth.Monitor.UpdateBandwidth | proxy-server/src/monitor/ratelimit.c:182-199 | counts without checking, as the runs do |
| Bandwidth.Monitor.Sweep | proxy-server/src/monitor/ratelimit.c:205-225 | unlinking behind a trailing pointer equals an order-preserving filter of the list |
| Bandwidth.Monitor.CleanupOldEntries | proxy-server/src/monitor/ratelimit.c:202-228 | forgets exactly the windows idle for more than 300 seconds, as the runs do |
| BandwidthRuns.CollectionsAreInvisible | proxy-server/src/monitor/ratelimit.c:202-228 | with a clock that never goes back, collections anywhere in a run change no decision |
| BandwidthRuns.WindowHoldsItsBytes | proxy-server/src/monitor/ratelimit.c:105-199 | over any run a window holds, for each direction, the bytes of accepted checks and of updates since it began, and the clock of its last lookup |
| BandwidthRuns.CollectionForgetsIff | proxy-server/src/monitor/ratelimit.c:202-228 | a collection forgets an address if and only if its last lookup was more than 300 seconds ago |
| BandwidthRuns.FittingStaysWithinRate | proxy-server/src/monitor/ratelimit.c:161-169 | despite truncation, an accepted check keeps the checked bytes within the limit times the duration |
| BandwidthRuns.WindowBound | proxy-server/src/monitor/ratelimit.c:154-175 | what checks let through in a window stays within the limit times its age, at least one second |
| BandwidthRuns.ChecksCountEverything | proxy-server/src/monitor/ratelimit.c:171-176 | without unchecked updates that is all the window counts |
| BandwidthRuns.LifetimeBound | proxy-server/src/monitor/ratelimit.c:105-180 | across restarts and collections, what checks let through stays within the limit times the seconds since first sight plus one |
| BandwidthIntervals.IntervalBound | proxy-server/src/monitor/ratelimit.c:105-180 | from any point of any run on, what checks let through stays within the limit times one more than the age of the window of that point, less what that window had let through |
| BandwidthIntervals.SixtySecondsBound | proxy-server/src/monitor/ratelimit.c:105-180 | sixty seconds anywhere in a run, with checks whose two clock readings may differ, let through at most what is left of the window they begin in, one check that straddles its end, and what the next window allows in the rest |
| BandwidthIntervals.MostIsReached | proxy-server/src/monitor/ratelimit.c:105-180 | from every window that is a second old or more and not yet filled, some continuation lets through exactly that |
| BandwidthIntervals.SixtySecondsIff | proxy-server/src/monitor/ratelimit.c:105-180 | from a point of a run every sixty seconds stay within sixty times the limit if and only if its window has to restart, began in this second, or has counted what is needed for its age |
| BandwidthIntervals.WindowDoesNotSlide | proxy-server/src/monitor/ratelimit.c:111-118 | for every limit and start, a run that lets through 118 times the limit less 59 sixtieths of it in sixty seconds |
| BandwidthIntervals.SixtySecondsAtMost | proxy-server/src/monitor/ratelimit.c:105-180 | no sixty seconds of any run let through more |
| Rotation.FullTurn | proxy-server/src/core/loadbalancer.c:180-194 | consecutive integers, as many as the modulus, meet each residue once |
| Rotation.Even | proxy-server/src/core/loadbalancer.c:90-114 | over any stretch two residues are met equally often up to one |
| Balancing.RoundRobinTakesNextRank | proxy-server/src/core/loadbalancer.c:90-114 | round robin picks the first healthy server in ring order and continues behind it |
| Balancing.PickLeast | proxy-server/src/core/loadbalancer.c:117-131 | the first healthy server with the fewest connections, none if all have the largest int |
| Balancing.PickByWeight | proxy-server/src/core/loadbalancer.c:183-192 | the first healthy server whose accumulated weight passes the target |
| Fairness.RoundRobinVisitsEachOnce | proxy-server/src/core/loadbalancer.c:90-114 | as many consecutive selections as healthy servers select each once, from any state |
| Fairness.RoundRobinIsFair | proxy-server/src/core/loadbalancer.c:90-114 | over any run two healthy servers differ by at most one selection |
| Fairness.RoundRobinSkipsUnhealthy | proxy-server/src/core/loadbalancer.c:105-111 | unhealthy servers are never selected while another is healthy |
| Fairness.WeightedSharesAreExact | proxy-server/src/core/loadbalancer.c:161-196 | as many consecutive selections as the total healthy weight select each healthy server exactly its weight, from any state |
| Fairness.WeightedSkipsUnhealthyAndWeightless | proxy-server/src/core/loadbalancer.c:161-196 | unhealthy servers and those of weight zero are never selected |
| Fairness.LeastConnectionsIsFair | proxy-server/src/core/loadbalancer.c:117-131 | from zero and without releases healthy servers differ by at most one selection |
| Fairness.LeastConnectionsStaysLevel | proxy-server/src/core/loadbalancer.c:117-131 | healthy servers that hold equally many connections up to one keep doing so |
| Fairness.StickyIff | proxy-server/src/core/loadbalancer.c:134-158 | with health as it stands, the choice is the same whatever the index if and only if the hashed server is healthy, or there is one server, or one healthy one |
| Stickiness.StickyRunIff | proxy-server/src/core/loadbalancer.c:134-158 | over any run of selections, releases, failures and health checks, all selections of an address agree whatever the index if and only if health pins it to one and the same server at each of them |
| Stickiness.PinnedRunsAgree | proxy-server/src/core/loadbalancer.c:134-158 | then the run itself selects that server each time |
| Stickiness.ComesBackIff | proxy-server/src/core/loadbalancer.c:134-158 | two selections in a row give the same server if and only if the hashed one is healthy, or there is one server, or one healthy one |
| Stickiness.ClientMovesAfterFailures | proxy-server/src/core/loadbalancer.c:252-269 | from every start with two servers or more, six failures of its server move the client to another |
| BalancerRuns.HealthyMeansFewFailures | proxy-server/src/core/loadbalancer.c:252-316 | over any run a healthy server has at most five recorded failures |
| BalancerRuns.HealthyIff | proxy-server/src/core/loadbalancer.c:252-316 | over any run a server is healthy if and only if the last check that it was due for passed, and it has had no more than five failures since |
| BalancerRuns.RequestsAreSelections | proxy-server/src/core/loadbalancer.c:198-236 | over any run the request counter counts the selections of the server |
| BalancerRuns.IndexCountsSelections | proxy-server/src/core/loadbalancer.c:161-196 | over any weighted run the index counts the selections that found a weight to share |
| BalancerRuns.ActiveCountIff | proxy-server/src/core/loadbalancer.c:229-250 | over any run the active count is at least selections minus releases, with equality if and only if every release matched a selection |
| BalancerRuns.SelectionIsHealthyIff | proxy-server/src/core/loadbalancer.c:198-236 | each algorithm selects a healthy server exactly when a usable one exists |
| LoadBalancer.Balancer.constructor | proxy-server/src/core/loadbalancer.c:28-87 | the configured backends in reverse order, or the default one when there are none, healthy and idle |
| LoadBalancer.Balancer.SelectRoundRobin | proxy-server/src/core/loadbalancer.c:90-114 | the two loops pick by ring order and advance the index past the skipped servers |
| LoadBalancer.Balancer.SelectLeastConnections | proxy-server/src/core/loadbalancer.c:117-131 | the scan finds the least connections among the healthy |
| LoadBalancer.Balancer.SelectIpHash | proxy-server/src/core/loadbalancer.c:134-158 | the hashed server, or round robin |
| LoadBalancer.Balancer.SelectWeightedRoundRobin | proxy-server/src/core/loadbalancer.c:161-196 | the two scans pick by share of the total weight; with no weight nothing is picked and the index stays |
| LoadBalancer.Balancer.SelectBackend | proxy-server/src/core/loadbalancer.c:198-236 | selects by the configured algorithm and counts connection and request |
| LoadBalancer.Balancer.ReleaseBackend | proxy-server/src/core/loadbalancer.c:238-250 | one connection fewer, never below zero |
| LoadBalancer.Balancer.MarkBackendFailed | proxy-server/src/core/loadbalancer.c:252-269 | one failure more; the sixth makes the server unhealthy |
| LoadBalancer.Balancer.RunHealthChecks | proxy-server/src/core/loadbalancer.c:283-316 | servers due after thirty seconds follow their probe, the others stay |
| Base64.Decode | proxy-server/src/auth/auth.c:34-79 | succeeds exactly when the sextets fit, yields their bytes terminated, and writes at the size or beyond exactly when the size is zero and there is nothing to decode |
| Base64.ByteOperations | proxy-server/src/auth/auth.c:57-59 | the values of the shifts and ors on bytes are the characters of the model |
| Base64.TableInvertsAlphabet | proxy-server/src/auth/auth.c:15-32 | the table inverts the alphabet of section 4 of RFC 4648 |
| Base64Standard.LetterIsStandard | proxy-server/src/auth/auth.c:15-32 | the letters are Table 1 of RFC 4648 |
| Base64Standard.TableIsStandard | proxy-server/src/auth/auth.c:15-32 | the table knows exactly these letters, by their places |
| Base64Standard.GroupKeepsBits | proxy-server/src/auth/auth.c:57-59 | a group holds the same twenty-four bits as bytes and as sextets |
| Base64.RoundTrip | proxy-server/src/auth/auth.c:34-79 | decoding an encoding, padded or not, returns the bytes, and fits exactly when stated |
| Base64.OnlyAlphabetMatters | proxy-server/src/auth/auth.c:40-48 | decoding depends only on the alphabet characters before the first `=` |
| BasicAuth.AuthParseBasic | proxy-server/src/auth/auth.c:171-206 | finds the scheme whatever its case, skips blanks, decodes, splits at the first colon and copies both parts; a failure leaves the caller's buffers alone |
| BasicAuth.AnySpellingRoundTrips | proxy-server/src/auth/auth.c:176-206 | credentials come back behind any spelling of the scheme |
| BasicAuth.RefusedWithoutSchemeOrColon | proxy-server/src/auth/auth.c:176-199 | without a spelling of the scheme, or a colon in what is decoded, there are none |
| CStrings.FindsFirstSpelling | proxy-server/src/auth/auth.c:177-177 | the search that ignores case finds the first spelling, and nothing if and only if there is none |
| BasicAuth.CredentialsFitCallerIff | proxy-server/src/protocols/http.c:109-112 | credentials fit the caller's two buffers if and only if neither has more than 127 characters, or they are refused |
| BasicAuth.CredentialsRoundTrip | proxy-server/src/auth/auth.c:171-206 | at the end of the string, or before anything when the encoding ends in padding, credentials come back if and only if they have at most 510 characters with the colon |
| BasicAuth.CredentialsRecoveredIff | proxy-server/src/auth/auth.c:171-206 | with anything behind them, they come back if and only if all fits and the sextets that follow hold no more than leftover bits and a NUL |
| BasicAuth.ExtraIsHarmlessIff | proxy-server/src/auth/auth.c:50-73 | for every byte string and every following sextets, what is decoded behind it is nothing or a NUL under exactly that condition |
| BasicAuth.FollowingHeaderCorrupts | proxy-server/src/auth/auth.c:189-206 | no credentials without padding come back from a `Proxy-Authorization` header that a `Host` header follows |
| BasicAuth.Verify | proxy-server/src/auth/auth.c:150-169 | accepts exactly the listed pairs |
| HeaderEdit.UpdateContentLength | proxy-server/src/protocols/compression.c:248-286 | editing the buffer in place, padding or shifting, equals splicing the text |
| HeaderEdit.UpdatedIsExactly | proxy-server/src/protocols/compression.c:248-286 | the first header, in any spelling, is written anew up to its line end with spaces behind it; without a line end the call fails |
| HeaderEdit.NoHeaderNoUpdate | proxy-server/src/protocols/compression.c:249-252 | without a header in any spelling nothing changes |
| HeaderEdit.DecimalIsShortest | proxy-server/src/protocols/compression.c:262-262 | the length is printed without leading zeros |
| HeaderEdit.UpdatedLengthReadsBack | proxy-server/src/protocols/compression.c:248-286 | reading the header again yields the new length |
| HeaderEdit.UpdatePreservesTheRest | proxy-server/src/protocols/compression.c:269-283 | everything before the header and from its line end on is kept |
| HeaderEdit.UpdateIsIdempotent | proxy-server/src/protocols/compression.c:248-286 | updating twice is updating once |
| HeaderEdit.LengthHeaderFits | proxy-server/src/protocols/compression.c:261-262 | the printed header fits its 128 bytes |
| HeaderEdit.AddEncodingHeader | proxy-server/src/protocols/compression.c:212-245 | inserting in place equals splicing after the first line end, with the same error cases |
| HeaderEdit.WithEncodingIsExactly | proxy-server/src/protocols/compression.c:212-245 | a header in any spelling stops it; else the line goes behind the first line end, unless there is none or the result does not fit |
| HeaderEdit.EncodingIsAddedOnce | proxy-server/src/protocols/compression.c:212-245 | after a success the header is there, the first line is unchanged and no later call changes anything |
| HeaderEdit.EncodingLineIsWholeIff | proxy-server/src/protocols/compression.c:233-235 | the header line keeps its line end exactly up to 107 characters of encoding |

## Left out

- Allocation failure: `malloc`, `realloc` and `pthread_create` always succeed here.
- Machine arithmetic: counters, sizes and the round-robin index do not overflow, and floating-point rounding is not modelled; the 32-bit wrap-around of the hash is.
- Characters of hashed strings count as unsigned; where C's `char` is signed the bucket and the hashed server can differ, which none of the results depends on.
- Fixed-size name buffers: patterns, addresses, user names and passwords are kept whole, except where `BasicAuth.AuthParseBasic` copies them.
- Bandwidth.Monitor.CheckBandwidth: does not model a negative configured rate, nor C's undefined conversion of a negative rate when the clock falls before the start of a window.
- HeaderEdit.UpdateContentLength: requires room for the grown text, because the function is given no buffer size and does not check.
- Negative weights: the weighted results assume that no healthy server has one. A configuration whose every allocation fails leaves no server to divide by; allocation does not fail here.
- Stickiness.StickyRunIff: quantifies over the index at each selection, because the index depends on every other client that falls back to round robin; `ComesBackIff` and `ClientMovesAfterFailures` are about the index the run itself leaves.
- Links of the other lists: the cache's buckets and queue, edited by the macros of `sys/queue.h`, are sequences of shared entry objects; the patterns, limiters, users and backends, which only grow at the head, are sequences too.
- ThreadPool.ReachableStatesAreSound: a submission may not begin after the destroyer has reached its clean-up loop, and the loop waits for submissions in progress; in the source both would use freed memory. The memory of the pool itself is not modelled.
- Jobs terminate: executing a job is one step.
- Http.HandleRequest: begins at the cache lookup; parsing, authentication, filtering and tunnelling before it, statistics and logging are left out.
- `auth_init`, `filter_cleanup`, `ratelimit_cleanup`, `loadbalancer_cleanup` and the printing functions: file reading, freeing lists and output.
- Sockets, TLS, SOCKS, compression proper, configuration, logging and statistics: plumbing around libraries that are not part of this model.

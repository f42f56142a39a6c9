# Shorty: proofs about the link shortener

This project models the parts of the Shorty service whose correctness is not
visible from any single function, and proves what holds of them over whole runs.

- `RateLimit`, `BucketRuns`, `RateLimitStore`, `Admission`, `EvictionVisibility`:
  the token bucket, its per-client store with lazy eviction, the exact law by
  which requests are admitted, and exactly when eviction can be seen.
- `SlidingWindow`, `StatsRanking`: the sixty-second ring of hit counters against
  the plain history of hits, and the ranking of links by hits.
- `Cache`, `CacheProtocol`, `CacheCoherence`, `CacheScenarios`, `CacheWrites`: the
  cache client and the cache-aside protocol of the link handlers as interleaved
  atomic steps, and what its writers do to the answers.
- `Pagination`, `KeysetWalk`, `PageToken`: listing by position and by key, walks
  over a table that changes, and the gRPC page token.
- `InMemoryRepo`, `RepoRuns`, `RepoHistory`, `Handlers`: the in-memory repository
  as an object, its runs, what they leave stored, and the handlers and code
  generation one at a time.
- `PostgresUpdates`, `PostgresHistory`: the compare-and-set update with its
  follow-up query, and what every column of a stored row goes back to.
- `Domain`: links, repository errors and timestamps.

## Conventions

Time is a parameter wherever the code reads a clock. Rate-limiter instants and
token counts are exact reals; `Limits` is the pair (capacity, capacity / period)
that one call reads from the configuration. Every other timestamp is a number
of nanoseconds since the Unix epoch. The rate limiter is modelled for a capacity
and a period of at least one. `created` in a rate-limit request is the second
clock reading, taken when a bucket has to be made; no result depends on it.

A run is a sequence of events or requests, and the state after n of them is a
function of n, so a statement "for every run and every n" is a statement about
every reachable state. Cache entries are keyed by code in the protocol; distinct
codes have distinct keys (`Cache.LinkKeyInjective`). Codes are compared
character by character, which is how Rust compares them, and how Postgres does
under the C collation; the keyset results use nothing but that the order is total.

The rate-limit store runs by steps, because threads share its map: a sweep takes
the stale buckets of some clients, with its own clock reading, and a consume
looks up, updates and stores one bucket. A call by itself is a sweep of every
client and a consume (`CheckAndConsume`). Clocks are read before the map is
reached, so readings may come in any order; `skew` bounds how much older a
consume's clock reading may be than that of a sweep before it, and every run has
some such bound. A window is measured by how far its client's own clock moved
forward in it (`Forward`). For a client whose readings are in order that is real
time (`ForwardIsElapsedIff`).

In the cache protocol a write to Redis that its request gives up on may still
land, up to `lag` later, or never; entries may disappear at any moment. Requests
stop at the latest when the request timeout is over (shorty-server/src/lib.rs:172-175),
which the protocol takes as given.

## What turned out not to hold

- The ring's read does not report the last sixty seconds but, for up to 59
  seconds after the last hit, the sixty seconds that ended with it. The comment
  beside the code calls that sum current. `ReadExcess` gives the exact excess and
  says exactly when there is none; `ReadCountsExpiredHit` is a witness.
- A clock that runs back can make the ring lose hits. `RingMatchesIff` says for
  every clock exactly which runs stay right; `BackwardClockLosesHits` is a witness.
- A client whose clock readings run back can be granted more than capacity + rate *
  (real time): `BackwardClockAdmitsMore` is a witness, `AdmissionLaw` the law
  that holds for every clock, and `ForwardIsElapsedIff` says exactly between
  which requests the two agree.
- With a ttl shorter than the period, or than period + skew when threads
  interleave, eviction lets clients exceed the limit: `EvictionInvisibleIff` has
  the exact condition.
- The cache can serve an outdated link with no writer left to invalidate it, in
  four ways (`StaleFillRace`, `PurgedButServed`, `LostInvalidation`,
  `LateWriteLands`); `CoherentRunIff` says exactly which runs are free of it,
  `ConditionalCoherence` gives a discipline that suffices, and `BoundedStaleness`
  a bound that needs none.
- Purging frees expired codes for reuse, which redirects can notice although they
  notice nothing else: `PurgesUnnoticedIff` has the exact condition.
- An in-memory cursor is not always as good as a key: `CursorGoodIff` says, for a
  link still stored, deleted or replaced, exactly when its cursor gives the right
  page. A cursor that names no link starts the listing over (`StaleCursorRestarts`);
  `StaleCursorRepeats` is a witness.
- A gRPC page token made from an RFC 3339 timestamp never decodes, so over
  Postgres the gRPC listing repeats its first page (`GrpcRepeatsFirstPage`).
  The README of the service promises cursor pagination for both protocols.
- The update version protects one lifetime of a link, not a code: an update hits
  the link its caller saw if and only if the code was not removed in between
  (`UpdateHitsSeenIff`); `VersionDoesNotSpanLifetimes` is a witness.

## Model

| member | source | states |
|---|---|---|
| RateLimit.TokensStayInRange | crates/domain/src/rate_limit.rs:52-80 | under any clock no attempt takes the token count out of [0, capacity], and refilling never lowers it |
| RateLimit.RefillComposes | crates/domain/src/rate_limit.rs:53-56 | refilling in two instalments, cap included, gives what one refill gives |
| RateLimit.FullAfterLongIdle | crates/domain/src/rate_limit.rs:53-56 | idle time worth a whole bucket leaves the bucket full |
| RateLimit.PeriodFillsBucket | crates/domain/src/rate_limit.rs:35-37 | the idle times worth a whole bucket are exactly those of a period or more |
| RateLimit.RefusalIsTransparent | crates/domain/src/rate_limit.rs:64-79 | after a refused attempt every later verdict is what it would have been without it |
| RateLimit.RetryAfterExact | crates/domain/src/rate_limit.rs:64-73 | a refused client is told to wait at least a second, and of all whole-second waits exactly those of at least the announced length are admitted: the delay-seconds of section 10.2.3 of RFC 9110, sufficient and tight |
| RateLimit.WaitIffRefused | crates/domain/src/rate_limit.rs:59-79 | a wait is announced if and only if the attempt is refused, and either way the bucket is brought up to the instant of the attempt |
| RateLimit.AdmittedFromReady | crates/domain/src/rate_limit.rs:52-80 | a bucket short of a token, as every refusal leaves it, admits from the instant on at which the shortage has been refilled, and not before |
| RateLimit.ReadyInWholeSeconds | crates/domain/src/rate_limit.rs:64-73 | the whole-second waits that reach that instant are exactly those of at least the announced length |
| RateLimit.PollingDoesNotPostpone | crates/domain/src/rate_limit.rs:52-80 | a refused client that keeps asking, at any instants before that one, is refused each time, and every later attempt gets the verdict it would have got without them |
| BucketRuns.LevelBelowRoom | crates/domain/src/rate_limit.rs:52-80 | the level is at most the room left by every window that ends now, over any run with refusals |
| BucketRuns.LevelIsSomeRoom | crates/domain/src/rate_limit.rs:52-80 | and equals the room of one of them, so it is their minimum |
| RateLimitStore.RateLimitStorage.CheckAndConsume | crates/storage/src/rate_limit_storage.rs:34-52 | with nothing in between, a call answers and leaves the map as a sweep of every client followed by a consume does |
| RateLimitStore.RateLimitStorage.ConsumeEntry | crates/storage/src/rate_limit_storage.rs:39-52 | the part of a call under the entry lock answers from the stored bucket or a full one, and stores what remains whether it grants or refuses |
| RateLimitStore.RateLimitStorage.CleanupStale | crates/storage/src/rate_limit_storage.rs:54-57 | exactly the buckets touched within the ttl survive |
| RateLimitStore.TokensInRange | crates/storage/src/rate_limit_storage.rs:34-57 | for any ttl, any interleaving and any clocks the store holds only token counts in [0, capacity] |
| RateLimitStore.SameAnswer | crates/storage/src/rate_limit_storage.rs:39-51 | a forgotten client and a fresh one get the same verdict and bucket, whatever instant the fresh bucket was made at |
| RateLimitStore.EvictionInvisible | crates/storage/src/rate_limit_storage.rs:34-57 | when ttl - skew refills a bucket, every consume in every interleaving of calls, clients and partial sweeps gets the verdict of a store that never evicts |
| RateLimitStore.CallsAreWhole | crates/storage/src/rate_limit_storage.rs:34-52 | in a run of calls one after another each does what CheckAndConsume does to the map |
| EvictionVisibility.EvictionVisible | crates/storage/src/rate_limit_storage.rs:34-57 | with a shorter ttl, two bursts of capacity calls around another client's call get a request granted that a store that never evicts refuses |
| EvictionVisibility.EvictionInvisibleIff | crates/storage/src/rate_limit_storage.rs:34-57 | eviction cannot be seen by any run of steps within the skew if and only if ttl >= period + skew; nor by any run of whole calls, if and only if the same |
| Admission.AdmissionLaw | crates/domain/src/rate_limit.rs:52-80 | with ttl >= period + skew, in any interleaving of clients and sweeps and under any clocks, a request is granted if and only if no window ending with it then exceeds capacity + rate * forward movement of its client's clock |
| Admission.WindowBound | crates/domain/src/rate_limit.rs:52-80 | over any segment of any such run a client is granted at most capacity + rate * forward movement of its clock, across evictions |
| Admission.NeverRefusedIff | crates/domain/src/rate_limit.rs:52-80 | among any other clients, a client is never refused if and only if each of its requests fits, together with all its requests before it, every window ending with it |
| Admission.ForwardIsElapsedIff | crates/storage/src/rate_limit_storage.rs:47-49 | between two requests a client's clock moves forward at least as far as it gets, and exactly so if and only if its readings between them are in order |
| Admission.AdmissionLawInOrder | crates/domain/src/rate_limit.rs:52-80 | for a client whose readings are in order, whatever the others' are, the law holds in real time over the windows that start at its requests |
| Admission.WindowBoundInOrder | crates/domain/src/rate_limit.rs:52-80 | and so does the bound: from one of its requests to another it is granted at most capacity + rate * elapsed time |
| Admission.NeverRefusedIffInOrder | crates/domain/src/rate_limit.rs:52-80 | such a client is never refused if and only if each block of its requests, the i-th to the k-th, has at most capacity + rate * (t_k - t_i) of them |
| Admission.SortedLaw | crates/domain/src/rate_limit.rs:52-80 | when no clock runs back, the law holds in real time over the windows that start at any step |
| Admission.SortedWindowBound | crates/domain/src/rate_limit.rs:52-80 | and the bound over any segment |
| Admission.SortedNeverRefusedIff | crates/domain/src/rate_limit.rs:52-80 | and the condition for never being refused |
| Admission.BackwardClockAdmitsMore | crates/storage/src/rate_limit_storage.rs:47-49 | witness: with one token a second and room for one, whole calls of one client reading 1, 0 and 1 get two grants in a window of length 0 |
| SlidingWindow.SlidingWindowStats.constructor | crates/domain/src/stats.rs:30-37 | a new object is the empty window |
| SlidingWindow.SlidingWindowStats.OpenSeconds | crates/domain/src/stats.rs:46-58 | both branches and the zeroing loop clear exactly the slots whose latest second lies after the last update, and keep the cached sum the sum of the slots |
| SlidingWindow.SlidingWindowStats.ClearSlot | crates/domain/src/stats.rs:53-57 | the loop's subtraction never underflows |
| SlidingWindow.SlidingWindowStats.RecordHit | crates/domain/src/stats.rs:40-65 | one hit under any clock; the cached sum stays the sum of the slots |
| SlidingWindow.SlidingWindowStats.GetLast60s | crates/domain/src/stats.rs:68-84 | reports the window sum, or nothing once sixty seconds have gone by |
| SlidingWindow.RecordedValid | crates/domain/src/stats.rs:60-64 | a hit adds one to what the ring keeps, and the ring never claims more than the total |
| SlidingWindow.TotalCountsEveryHit | crates/domain/src/stats.rs:60-64 | under any clock the total is the number of hits and bounds the ring's sum |
| SlidingWindow.RingIsLayout | crates/domain/src/stats.rs:40-65 | after any run of hits with nondecreasing seconds, each slot counts the hits of the latest second that falls on it, clear-all branch and sixty-second boundary included |
| SlidingWindow.LayoutSum | crates/domain/src/stats.rs:53-63 | laying a history out by slot loses none of the window's hits |
| SlidingWindow.RingHoldsSeconds | crates/domain/src/stats.rs:40-65 | after any run of hits with nondecreasing seconds, slot s % 60 holds the number of hits of second s, for each s of the last sixty |
| SlidingWindow.RingSumIsWindow | crates/domain/src/stats.rs:40-65 | and the cached sum is the number of hits in those sixty seconds |
| SlidingWindow.ReadExcess | crates/domain/src/stats.rs:68-84 | a read at any second reports nothing once sixty have gone by since the last hit, else the minute of that hit: the true count plus exactly the hits that left the window since, so it is exact if and only if sixty seconds have gone by or there are none |
| SlidingWindow.RingSumInTime | crates/domain/src/stats.rs:40-65 | over hit timestamps in nanoseconds, the sum counts those of the 60 * 10^9 nanoseconds that end with the second of the last hit |
| SlidingWindow.ReadInTime | crates/domain/src/stats.rs:68-84 | the same for a read: what it reports and when it is exact, counted between instants |
| SlidingWindow.ReadCountsExpiredHit | crates/domain/src/stats.rs:68-84 | witness: of hits at 100 and 159, a read at second 160 reports two, and one lies within sixty seconds |
| SlidingWindow.HitKeepsMatchIff | crates/domain/src/stats.rs:40-65 | whatever the clock, a hit keeps slots and history in agreement if and only if each second of the new window had its hits in the slot it falls on: none where the slot is opened anew, else those of the latest second on it |
| SlidingWindow.RingMatchesIff | crates/domain/src/stats.rs:40-65 | whatever the clock, a run of hits has the ring agree with its history throughout if and only if each of its hits meets that condition |
| SlidingWindow.BackwardClockLosesHits | crates/domain/src/stats.rs:46-64 | witness: hits at seconds 100, 70, 100 break it at the last, and leave one hit in the slot of second 100 |
| StatsRanking.GetTop | crates/domain/src/stats.rs:130-142 | the min(limit, n) links with the highest totals, in order, and none left out has more hits than one reported |
| Cache.JitterRange | crates/storage/src/cache.rs:191-197 | the times to live that occur are exactly the whole seconds from max(1, ttl - jitter) to max(1, ttl + jitter) |
| Cache.LinkKeyInjective | crates/storage/src/cache.rs:201-203 | different codes have different keys |
| Cache.ServedForTtl | crates/storage/src/cache.rs:156-161 | a stored value is served for ttl seconds and no longer, and other keys are as before |
| Cache.CacheClient.Get | crates/storage/src/cache.rs:100-139 | serves live entries only, and counts one hit or one miss per call |
| CacheProtocol.BoundedStaleness | shorty-server/src/api/handlers.rs:130-149 | in every interleaving each answer, not-found included, is what the repository gave for the code at an instant at most timeout + lag + max(1, ttl + jitter) before it was taken, and it was taken within the request |
| CacheProtocol.QuietCodeIsCurrent | shorty-server/src/api/handlers.rs:130-149 | a code left alone for longer than that is answered as the repository has it, whatever was lost, late or reordered before |
| CacheProtocol.RunTraced | crates/storage/src/cache.rs:143-168 | the invariant behind both: every cache entry was the repository's answer no earlier than its expiry minus the bound, and every write still to land can only make such an entry |
| CacheScenarios.StalenessIsTight | shorty-server/src/api/handlers.rs:130-149 | for every configuration a run whose last answer was true no later than one nanosecond short of the bound ago, lag included |
| CacheCoherence.CoherenceStep | shorty-server/src/api/handlers.rs:90-149 | from a coherent state a step leads to a coherent one if and only if it is not a fill, in time or late, with an outdated answer, a purge of a cached code or a writer ending without its invalidation, no other writer of the code being pending |
| CacheCoherence.CoherentRunIff | shorty-server/src/api/handlers.rs:90-149 | a run is coherent throughout if and only if all its steps are such |
| CacheCoherence.ConditionalCoherence | shorty-server/src/api/handlers.rs:90-111 | if no fill straddles a write to its code or lands after its request, no purge removes a cached code and every invalidation gets through, the cache differs from the repository only while a writer is between its write and its invalidation |
| CacheCoherence.DisciplinedHitIsCurrent | shorty-server/src/api/handlers.rs:136-139 | the same for what a cache hit answers |
| CacheCoherence.UndisturbedIsCurrent | shorty-server/src/api/handlers.rs:143-146 | a fill that straddles no write stores the repository's present answer |
| CacheCoherence.WritesArePending | shorty-server/src/api/handlers.rs:219-265 | every repository write that changes an answer leaves its writer owing an invalidation |
| CacheScenarios.StaleFillRace | shorty-server/src/api/handlers.rs:143-146 | a run in which only a straddling fill breaks the discipline and the cache is left outdated |
| CacheScenarios.PurgedButServed | shorty-server/src/cleanup.rs:31-32 | the same for a purge |
| CacheScenarios.LostInvalidation | crates/storage/src/cache.rs:172-188 | the same for a lost invalidation |
| CacheScenarios.LateWriteLands | crates/storage/src/cache.rs:157-167 | the same for a cache write that lands after its request timed it out |
| CacheWrites.UpdateEffect | shorty-server/src/api/handlers.rs:96-99 | an update goes through if and only if the code is stored, with the expected version where that is checked; then the repository answers with its target, the next version and nothing else changed, and the writer owes an invalidation |
| CacheWrites.DeleteEffect | shorty-server/src/api/handlers.rs:255-265 | after a deletion the repository has no answer for the code, and an invalidation is owed if and only if it had one |
| CacheWrites.CheckEffect | shorty-server/src/api/handlers.rs:223-226 | a redirect passes its check if and only if the link is stored and its expiry has not come |
| CacheWrites.HitEffect | shorty-server/src/api/handlers.rs:227-227 | it then counts exactly one hit if and only if the link is still stored |
| CacheWrites.CheckedWasLive | shorty-server/src/api/handlers.rs:219-236 | a redirect that is about to count its hit passed such a check at an earlier step of the run |
| CacheWrites.InsertEffect | crates/storage/src/in_memory.rs:49-58 | an insert makes the repository answer with its link, without hits, if and only if the code was free |
| CacheWrites.PurgeEffect | shorty-server/src/cleanup.rs:31-32 | a purge takes exactly the answers whose expiry has come |
| CacheWrites.OthersKept | shorty-server/src/api/handlers.rs:90-149 | no step changes the stored link of another code |
| CacheWrites.GoneUntilInserted | shorty-server/src/api/handlers.rs:255-265 | in every interleaving, from a deletion on the repository has no answer until the code is inserted again |
| CacheWrites.LeadsUntilWritten | shorty-server/src/api/handlers.rs:90-111 | and from an update on it answers with the new target until another writer changes the code |
| CacheWrites.DeletionReaches | shorty-server/src/api/handlers.rs:255-265 | so every answer taken more than the staleness bound after a deletion is not-found, until the code is inserted again |
| CacheWrites.UpdateReaches | shorty-server/src/api/handlers.rs:90-111 | and every one taken that long after an update has its target, until another writer changes the code |
| CacheWrites.LandsAtMostOnce | crates/storage/src/cache.rs:157-167 | in every run the writes given up on are those that landed later and those still to land |
| CacheWrites.EvictEffect | crates/storage/src/cache.rs:100-104 | an entry that disappears takes no other with it and changes no answer of the repository |
| Pagination.SortedLinks | crates/storage/src/in_memory.rs:108-116 | the sorted listing holds exactly the stored links, strictly descending by (created_at, code) |
| Pagination.NewestFirst | crates/storage/src/in_memory.rs:116-116 | it has the newest link first, and of links created at one instant the greater code, by the first character that differs |
| Pagination.LessIsFirstDifference | crates/storage/src/in_memory.rs:116-116 | codes are ordered by their first difference, a prefix before what it begins |
| Pagination.ListingUnique | crates/storage/src/in_memory.rs:116-116 | there is only one such listing |
| Pagination.ListSync | crates/storage/src/in_memory.rs:102-149 | the page is the slice of that listing after the link the cursor names, and next_cursor names its last link |
| Pagination.DecimalDenotes | crates/storage/src/in_memory.rs:138-146 | the timestamp of a cursor denotes its whole seconds in decimal, without leading zeros |
| Pagination.StartAfter | crates/storage/src/in_memory.rs:118-133 | although a cursor carries whole seconds only, the cursor of a listed link leads to the link right after it |
| Pagination.WalkComplete | crates/storage/src/in_memory.rs:102-149 | on an unchanged store following next_cursor lists every link exactly once, in order, in ceil(n / limit) + 1 pages |
| Pagination.PagesForRoundsUp | crates/storage/src/in_memory.rs:135-136 | the page count of the walk is the quotient rounded up |
| Pagination.CursorGoodIff | crates/storage/src/in_memory.rs:118-136 | on any store, a link's cursor gives the keyset page after the link if and only if no row lies between the link and the row the cursor names, which may be another link under its code; or, when it names none, if and only if every row comes after the link |
| Pagination.StaleCursorRestarts | crates/storage/src/in_memory.rs:130-131 | a cursor that names no stored link gives the first page again |
| Pagination.StaleCursorRepeats | crates/storage/src/in_memory.rs:130-131 | witness: after a newer and an older link are listed and the older is deleted, its cursor lists the newer again, though the page after it is empty |
| Pagination.PositionIsKeyset | crates/storage/src/in_memory.rs:118-136 | while the cursor's link is stored, the page by position is the page of the keyset query |
| Pagination.FirstPageIsKeyset | crates/storage/src/in_memory.rs:132-136 | and so is the first page |
| Pagination.IsPageUnique | crates/storage/src/postgres.rs:237-245 | the keyset query has one answer |
| Pagination.KeysetList | crates/storage/src/postgres.rs:227-276 | sorting, skipping to the cursor and taking limit rows answers the keyset query, for every cursor |
| KeysetWalk.KeysDescend | crates/storage/src/postgres.rs:237-245 | whatever happens to the table between pages, the listed keys strictly descend over the whole walk |
| KeysetWalk.ListedExactlyOnce | crates/storage/src/postgres.rs:227-276 | a finished walk lists every link present throughout at exactly one place |
| KeysetWalk.AheadShrinks | crates/storage/src/postgres.rs:237-245 | a page takes its rows out of what is ahead of the cursor when other links only appear behind it |
| KeysetWalk.WalkEnds | crates/storage/src/postgres.rs:227-276 | then the walk ends, in at most ceil(m / limit) + 1 pages for the m rows ahead of its start |
| KeysetWalk.PositionWalkIff | crates/storage/src/in_memory.rs:102-149 | over a changing store the in-memory walk is a keyset walk, with all that holds of one, if and only if each cursor is good on the store it meets |
| KeysetWalk.PositionListsExactlyOnce | crates/storage/src/in_memory.rs:102-149 | a finished in-memory walk lists every link present throughout at exactly one place while each cursor's link stays stored until the cursor is used |
| PageToken.RoundTrip | shorty-server/src/grpc/mod.rs:205-236 | parsing the formatted token gives back both halves if and only if neither has a colon, and otherwise no cursor |
| PageToken.ParseThenFormat | shorty-server/src/grpc/mod.rs:205-236 | a token that decodes is the one its cursor is printed as |
| PageToken.InMemoryTokenRoundTrips | crates/storage/src/in_memory.rs:138-146 | tokens of in-memory links with validated codes always round-trip |
| PageToken.Rfc3339TokenIsLost | crates/storage/src/postgres.rs:270-273 | a token with a timestamp in the form of section 5.6 of RFC 3339 never decodes |
| PageToken.GrpcRepeatsFirstPage | shorty-server/src/grpc/mod.rs:205-219 | so a gRPC client that sends such a token back gets the first page |
| PageToken.TokenNamesKey | shorty-server/src/grpc/mod.rs:205-219 | a token without further colons gives back the instant its timestamp stands for and the code |
| InMemoryRepo.InMemoryRepo.Insert | crates/storage/src/in_memory.rs:49-58 | a free code is stored with no hits, a taken one changes nothing and is reported |
| InMemoryRepo.InMemoryRepo.Remove | crates/storage/src/in_memory.rs:67-72 | afterwards the code is not stored and every other entry and the statistics are as before; a missing code is reported |
| InMemoryRepo.InMemoryRepo.RecordHit | crates/storage/src/in_memory.rs:74-89 | entry and statistics both count the hit of a stored code, neither that of another, and links are as before |
| InMemoryRepo.InMemoryRepo.Update | crates/storage/src/in_memory.rs:91-100 | the stored and returned link has the given target, the time of the call and the next version, and is otherwise as before, like hits, statistics and other entries; the caller's version plays no part |
| InMemoryRepo.InMemoryRepo.List | crates/storage/src/in_memory.rs:102-149 | lists the stored links by the page function |
| InMemoryRepo.InMemoryRepo.PurgeExpired | crates/storage/src/in_memory.rs:158-174 | exactly the expired links go, with their statistics, the rest keep their hits, and the number removed is returned |
| RepoRuns.HitConservation | crates/storage/src/in_memory.rs:49-89 | in every reachable state and for every code, the statistics total is the entry's hits plus those of earlier incarnations removed and not purged since, and the number of hits counted since a purge last took the code |
| RepoHistory.StoredIsTold | crates/storage/src/in_memory.rs:49-100 | in every reachable state a code is stored if and only if an insert that met it free has not been followed by a removal or a purge after its expiry; the link has the target and time of the last update since, or of the insert, its creation and expiry, a version raised by the number of updates, and the hits since |
| RepoHistory.InsertedAtIff | crates/storage/src/in_memory.rs:49-72 | that insert is the one with nothing after it that takes its link away |
| RepoHistory.RedirectsAsTold | crates/storage/src/in_memory.rs:60-65 | so a redirect leads, until the expiry the insert gave, to the target last given, and nowhere else |
| RepoHistory.StatsAreReplay | crates/storage/src/in_memory.rs:74-89 | in every reachable state a code's statistics are the replay of its counted hits, at the seconds they were made, since a purge last took it |
| RepoRuns.PurgeInvisible | crates/storage/src/in_memory.rs:158-174 | purges anywhere in a run leave every redirect's result unchanged when no insert meets an expired link of its code |
| RepoRuns.ReuseIsVisible | crates/storage/src/in_memory.rs:49-58 | where one does, a purge put before it changes where redirects lead |
| RepoRuns.PurgesUnnoticedIff | crates/storage/src/in_memory.rs:158-174 | for a run of live inserts and other calls, purges go unnoticed by redirects wherever they are put if and only if no insert meets an expired link of its code |
| RepoRuns.InsertKeepsLackIff | crates/storage/src/in_memory.rs:49-58 | an insert keeps a purged and an unpurged repository alike if and only if its code was not freed by a purge alone |
| RepoRuns.SameLocation | crates/domain/src/lib.rs:94-96 | repositories that differ in expired links only redirect alike |
| Handlers.GetLink | shorty-server/src/api/handlers.rs:130-149 | with nothing beside it and a cache in sync, the answer describes the stored link field by field, cached or not, and the cache stays in sync whether its operations get through or not |
| Handlers.UpdateLink | shorty-server/src/api/handlers.rs:90-111 | answers with the link as it now is, the new target and the next version, but with no hits whatever it has; if the invalidation gets through, the cache stays in sync |
| Handlers.DeleteLink | shorty-server/src/api/handlers.rs:255-265 | afterwards the code is not stored and all others are; if the invalidation gets through, the cache stays in sync |
| Handlers.Redirect | shorty-server/src/api/handlers.rs:219-236 | leads to the target of a stored link that has not expired, counts a hit exactly then, and keeps the cache in sync |
| Handlers.TryInsertLink | shorty-server/src/api/handlers.rs:306-317 | inserts a link of version 1 with the given expiry, or reports the code taken |
| Handlers.GenerateCode | shorty-server/src/api/handlers.rs:276-293 | stores the first free candidate as version 1 with no hits and changes nothing else, or changes nothing after max_generate_attempts taken ones |
| PostgresUpdates.VersionCountsUpdates | crates/storage/src/postgres.rs:195-209 | within one lifetime of a link, in any interleaving, the version is one plus the number of successful updates |
| PostgresUpdates.OnePerVersion | crates/storage/src/postgres.rs:195-209 | two successful updates of a link had different expected versions, the later one a higher one |
| PostgresUpdates.NoLostUpdate | crates/storage/src/postgres.rs:189-225 | an update succeeds only on the very target that was there when the link had the expected version |
| PostgresUpdates.OutcomesExplained | crates/storage/src/postgres.rs:211-224 | every outcome was true at some instant of its own call: a success replaced the row it reports, its target and version and no other column, a failure found no such version at the call's UPDATE, changed no row, and then did or did not find the code at its SELECT; a rejected call would have emptied the target of the row it hit, and changed none |
| PostgresUpdates.LifetimeIff | crates/storage/src/postgres.rs:195-209 | a code has the same row at two instants if and only if it was stored at every instant between them |
| PostgresUpdates.UpdateHitsSeenIff | crates/storage/src/postgres.rs:189-225 | an update that succeeds on a version seen earlier replaces the very row seen if and only if the code was stored throughout, and then it replaces the target seen |
| PostgresUpdates.VersionDoesNotSpanLifetimes | crates/storage/migrations/20240101000000_create_links.sql:9-10 | witness: after a delete and a new insert the version of the old link updates the new one |
| PostgresHistory.StoredIsTold | crates/storage/src/postgres.rs:102-225 | in every reachable state a code has a row if and only if an insert that met it free has not been followed by a delete or a purge after its expiry; the row keeps that expiry, has the target of the last update that succeeded since, or of the insert, and counts the updates and the hits since |
| PostgresHistory.ExpiryStays | crates/storage/src/postgres.rs:195-209 | within one lifetime of a link its expiry stays |
| PostgresHistory.ConstraintsHold | crates/storage/migrations/20240101000000_create_links.sql:13-14 | every stored code has 4 to 32 characters and every stored target is not empty, after inserts and updates alike |
| PostgresHistory.PurgeTakesExpired | crates/storage/src/postgres.rs:278-289 | a purge leaves no row that has expired at its instant and takes no other |
| PostgresHistory.CallAsBegun | crates/storage/src/postgres.rs:189-194 | a call keeps the code, target and expected version it was begun with |

## Left out

- Rounding of f64, NaN and infinity in the rate limiter, and the panic of `now - ttl` near the clock's origin: token arithmetic is exact and configurations are positive.
- RateLimitStore.RateLimitStorage.CheckAndConsume: as one uninterrupted call; its parts interleaved with other calls are the runs of steps, on values, which the eviction and admission results are about.
- Overflow of 64-bit hit counters, versions and seconds: they are unbounded here.
- The shared handles of `StatsStorage::get_or_create`: the repository holds the value of each window instead of a shared object; `SlidingWindow.SlidingWindowStats` is the object itself.
- The server's separate statistics storage: redirects record into the repository's own, so the two agree in nothing.
- CacheProtocol.BoundedStaleness: assumes that a write given up on lands within `lag` or never; nothing in the code bounds that time, and without a bound there is none on staleness.
- The Postgres keyset query's page of links is modelled on values, as the relation its WHERE, ORDER BY and LIMIT describe; `PostgresUpdates` models the statements as atomic steps on a value instead of a mutable table, because they interleave.
- Postgres keeps whole seconds of an expiry given at insertion; no result here depends on the fraction.
- Postgres failures other than a missing row, a version mismatch, a taken code or a violated constraint of the links table, and connection pools.
- The text codecs: base64 and JSON of the HTTP cursor and the RFC 3339 printer and reader, of which only the shape of the timestamp is used.
- Authentication, routing, tracing, metrics, configuration, streaming, health checks, DTO copying and error-to-status mapping.

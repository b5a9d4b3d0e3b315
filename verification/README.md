# Verification of the rate limiter

A Dafny 4.11 model of the parts of the rate-limiting proxy that have to be right for its limits to
mean anything: the in-memory sliding-window limiter and its concurrent eviction protocol, the Redis
script and its member ids, the circuit breaker that fails over between the two, the per-second
traffic series, the bounded client table, the broadcast hub, and the framing of server-sent events.
`dafny verify dfyconfig.toml` checks everything.

## How the pieces fit

* `Policies.dfy`, `SlidingWindow.dfy`: policies, their clamps, decisions; counting stamps in windows,
  and the one arithmetic argument every window theorem rests on (`SpacedWindow`): if each admission
  saw fewer than `limit` earlier ones in its true window, no window shorter by the lag overflows.
* `MemoryModel.dfy` gives the critical sections of the in-memory limiter as functions.
  `MemoryLimiter.dfy` is the program as it is written: a table of shared entry objects, each over a
  real backing array that is pruned, compacted and shrunk in place, proved against those functions.
* `FullHistory.dfy` is the reference: a limiter that keeps every admission for ever and counts those
  in the window. The in-memory limiter cannot be told apart from it. `Replies.dfy` says what either
  backend has to answer, field by field, given nothing but its own admissions. `Guarantees.dfy` derives what
  clients may rely on: no window overflows, admission is optimal, reset times are exact. `Horizon.dfy`
  says exactly when the count is right if windows change, and `LogSize.dfy` when a key's log is within
  the policy's limit.
* `Eviction.dfy` interleaves any number of callers of Allow and Peek, janitor passes and Resets at
  every point where the program takes a lock or touches the shared map. On its runs, `Margin.dfy`
  shows how long an idle key has to be kept, `Janitor.dfy` and `Pushed.dfy` exactly when a call can be
  driven to count on an entry of its own, and `Denials.dfy` that nobody is turned away for nothing.
* `RedisScript.dfy` is the Lua script as one atomic step on a sorted set with an expiry, together with
  a class that runs it command by command; `Members.dfy` the member ids; `RedisHistory.dfy` and
  `Bisimulation.dfy` show that both backends give the same answers, at whatever instants, and
  `RedisPeek.dfy` when Peek is right.
* `Breaker.dfy` is the circuit breaker and the manager; `Outcomes.dfy` tells the breaker's runs from what
  happened to requests and pings, with no word about its sections. `SharedRedis.dfy` lets a fleet use one
  Redis over an unreliable network, and `Fleet.dfy` composes everything: n instances, each with a
  breaker and its own in-memory limiter. `OrderlyFleet.dfy` takes the runs of those limiters out of
  a run of the fleet, and makes its bound exact; `RedisDenials.dfy` says when Redis turns a caller away,
  `FleetCircuits.dfy` when an instance tries Redis at all.
* `Series.dfy`, `Clients.dfy`, `Collector.dfy` (with `Sorting.dfy` for the library's sort): metrics.
  `Hub.dfy` (interleaved) and `HubObjects.dfy` (objects): the broadcast hub. `Sse.dfy`: the writer,
  and the reader of sections 9.2.5 and 9.2.6 of the WHATWG HTML Living Standard.

Time is an input: instants and durations are unbounded integers (nanoseconds, or milliseconds where a
file says so). Whatever the network, Redis or a client does is a step of the model or a parameter.

## What came out

* Where the code and a comment disagree, the model follows the code. A subscriber of a closed hub is
  not nil, as the comment at `internal/metrics/hub.go:41` has it, but one whose channel is closed.
* A key's log may exceed the policy's limit after the limit has been lowered, contrary to the comment
  at `internal/limiter/memory.go:12-16` (`LogSize.LoweredLimitIsExceeded`). After an Allow it is within
  the limit exactly when a Peek under the same policy just before reports no more than the limit
  (`LogSize.WithinLimitExactlyWhen`), or, told from the calls alone, when the key's admissions still in
  the window are no more than that (`LogSize.WithinLimitInOrder`). Where limits are never lowered on a
  key the comment is right (`LogSize.NeverLoweredIsWithinLimit`); and no log exceeds the largest limit
  it was held to (`Guarantees.LogsStayBounded`).
* The client table ranks a new key before it has been seen (`internal/metrics/metrics.go:162-180`).
  In a sequential run the key whose arrival triggers a cap pass is therefore always among the rows
  dropped, however busy it is about to become (`Clients.RecordOutcome`).
* A successful ping that finds failures counted but the circuit closed clears the count and leaves
  `lastErr` standing (`internal/limiter/manager.go:286-294`), where a successful request would clear
  both (`Breaker.ErrorOutlivesPing`). A recovery leaves no error on display exactly when it takes one off,
  a ping only if the failures have reached the threshold, or none was standing
  (`Breaker.RecoveryClearsExactlyWhen`).
* The degraded flag is written after the mutex is released. Two goroutines suffice to leave it set
  with no failure outstanding and no write pending (`Breaker.FlagCanBeLeftWrong`). With nothing
  pending it is wrong exactly when the last write was made for a report that has been overtaken: the
  last report of all says the opposite and its own write came earlier (`Breaker.FlagWrongExactlyWhen`).
  Writes made in the order of their sections leave it right (`Breaker.InOrderFlagIsRight`).
* A window that grows can forget requests pruned under the narrower one
  (`FullHistory.GrowingWindowForgets`). The calls made so far leave a horizon behind, and the count is
  right exactly when no admission of the key lies in the window but not beyond the horizon
  (`Horizon.CountsRightExactlyWhen`).
* `Peek` of the Redis limiter rounds the start of its window down (`internal/limiter/redis.go:142`), the
  script cuts instant and window first (`internal/limiter/redis.go:96-103`). Under a window that is no whole
  number of milliseconds Peek may therefore look one millisecond further back than Allow, and find what
  the last Allow has left there or not (`RedisPeek.PeekIsRightExactlyWhen`).
* A record a full lap late erases a newer second from the series (`Series.LateRecordErases`); a record
  is harmless exactly when it does not overwrite a later second that can still be asked for
  (`Series.HarmlessExactlyWhen`).
* The janitor's factor of two is sufficient for lags up to one window. Over all timely runs a time to
  live is safe exactly when it covers window plus lag, because a late caller may set `lastSeen` back
  (`Margin.EvictionMargin`).
* The detached entry of `internal/limiter/memory.go:112-117`, which counts for nobody else, takes eight
  evictions of one key during one call (`Janitor.EightEvictions`). With a janitor whose passes do not
  overlap and begin at least d + 1 apart it can come to that exactly when a call may take 7 * (d + 1) or
  more (`Pushed.DetachedExactlyWhen`). Below that the bounds hold with nothing set aside
  (`Janitor.ExactWindowUnderLag`, `OrderlyFleet.ExactFleetBound`).
* Nobody is turned away for nothing: a call is denied only after `limit` others have been admitted with
  stamps in its window, or older by at most the lag (`Denials.DeniedOnlyWhenSpent`). Redis, too, denies
  only after telling `limit` callers yes, but it may count one that has given up, or an earlier copy of
  the request itself (`RedisDenials.RedisDeniesOnlyWhenSpent`).

## Model

| member | source | states |
|---|---|---|
| Policies.Policy.Normalize | internal/limiter/limiter.go:38-53 | the result is always enforceable, between one request and a million and between a millisecond and a day; enforceable policies are left alone, and a field moves only to the bound it violated (a window below a millisecond becomes a second) |
| SlidingWindow.PruneShape | internal/limiter/memory.go:25-35 | pruning drops a prefix, all of it expired, and what is left starts with a live hit |
| SlidingWindow.SpacedWindow | internal/limiter/memory.go:119-131 | if every admission was decided within the lag with fewer than `limit` in its true window, no window shorter by the lag holds more than `limit` |
| MemoryLimiter.MemEntry.Prune | internal/limiter/memory.go:27-43 | overlapping copies and reallocation leave exactly the hits after the leading expired ones, and the capacity stays within max(64, 4 * len) |
| MemoryLimiter.MemEntry.Leading | internal/limiter/memory.go:28-31 | the scan stops at the first hit that has not expired, everything before it having expired |
| MemoryLimiter.MemEntry.Decide | internal/limiter/memory.go:119-149 | the critical section leaves the hits in the window, and the request's own if it is admitted, and answers field by field from what it leaves: used is how many they are, the reset time the first of them plus a window; an admission has a place left in the limit, a denial finds the limit reached and leaves nothing remaining |
| MemoryLimiter.MemEntry.Visit | internal/limiter/memory.go:217-233 | the janitor's section marks and empties an entry idle for more than two of its windows and more than minTTL, and prunes any other by its own window |
| MemoryLimiter.MemoryLimiter.Allow | internal/limiter/memory.go:91-150 | on the table of shared entry objects, one caller at a time: the retry loop ends with a live entry at the second try at the latest; the table is that of the model, and every field of the decision is told from the hits the key is left with; the other keys' entries are not touched |
| MemoryLimiter.MemoryLimiter.Peek | internal/limiter/memory.go:153-165 | ok exactly when the key is known; prunes the stored object with the caller's window and reports what is left, which for ascending hits is the number of hits in that window |
| MemoryLimiter.MemoryLimiter.Cleanup | internal/limiter/memory.go:213-236 | in whatever order keys are visited, a key goes if and only if it was last seen more than two of its windows and more than minTTL ago; evictions rises by the number of those; the rest are pruned in place |
| MemoryLimiter.MemoryLimiter.Reset | internal/limiter/memory.go:179-188 | nothing is left in the table and every entry it held is dead |
| MemoryLimiter.MemoryLimiter.SpaceIsBounded | internal/limiter/memory.go:36-42 | in every state of the limiter the backing array of every key is within 64 hits or four times what it holds |
| FullHistory.DecideAgrees | internal/limiter/memory.go:119-148 | one decision on any suffix that holds the live hits is the decision on the full history, and leaves a suffix of the history it leaves |
| FullHistory.CleanupKeepsRelated | internal/limiter/memory.go:213-236 | a janitor pass, at any time, loses nothing any later call could count |
| FullHistory.RefinesFullHistory | internal/limiter/memory.go:91-236 | in every run with a nondecreasing clock and windows that never grow on a key, every reply of Allow and Peek equals that of the limiter that forgets nothing (what that reply has to be is the subject of the next rows) |
| Replies.ReplyIsRight | internal/limiter/limiter.go:59-77 | every reply of Allow is right field by field, held against nothing but the instants at which the limiter itself admitted the key: admitted if and only if fewer than `limit` of those are in the window, used their number and the request's own if admitted, remaining what is left of the limit or nothing, the reset time that at which the first of them leaves, retry the wait until then; and Peek reports their number |
| Replies.RemainingIsExact | internal/limiter/limiter.go:69-70 | after any reply, of the key's further requests at that instant under the same policy exactly the first `remaining` are admitted, whatever Peek, the janitor and other keys do in between |
| Horizon.CountsRightExactlyWhen | internal/limiter/memory.go:119-131 | in every run with a nondecreasing clock and any windows, the count Allow and Peek go by is that of the key's own admissions in the window if and only if none of those lies at or before the horizon left by the earlier calls, computed from the calls alone |
| Horizon.TrackedInEveryRun | internal/limiter/memory.go:213-236 | in every run with a nondecreasing clock, told from the calls alone, a key is in the table from its first Allow until a janitor pass that comes more than two of the windows last used and more than minTTL after its last Allow |
| FullHistory.GrowingWindowForgets | internal/limiter/memory.go:119-121 | a concrete run in which a wider window misses a request |
| Guarantees.AcceptedIsGreedy | internal/limiter/memory.go:119-131 | under a fixed policy what Allow admits in a run is the greedy selection from the arrivals |
| Guarantees.NoWindowOverflows | internal/limiter/memory.go:119-131 | no window of the policy's width ever admits more than its limit |
| Guarantees.LongRunCeiling | scripts/test_load.sh:140-142 | any closed interval of length D admits at most limit * (D / window + 1) requests of a key |
| Guarantees.GreedyBeats | internal/limiter/memory.go:123-131 | no selection of arrivals that keeps every window within the limit is larger than the greedy one |
| Guarantees.AllowIsOptimal | internal/limiter/memory.go:91-150 | in every prefix of every run Allow admits at least as many requests as any selection that respects the windows |
| Guarantees.RaisingTheLimit | internal/limiter/memory.go:123-131 | raising the limit never lowers how many requests are admitted in any prefix |
| Guarantees.ResetTimeIsExact | internal/limiter/memory.go:123-127 | after a denial RetryAfter is in (0, window], ResetAt is that far away, and a later request is admitted if and only if it comes at or after ResetAt, when none came in between |
| Guarantees.LogsStayBounded | internal/limiter/memory.go:119-129 | in every run, with any clock, a key's log never exceeds the largest limit it was held to, hence a million |
| LogSize.LoweredLimitIsExceeded | internal/limiter/memory.go:12-16 | a concrete run, in order and under one window, after which a key's log holds more hits than the limit of the policy in force |
| LogSize.WithinLimitExactlyWhen | internal/limiter/memory.go:119-131 | in every run, with any clock, windows and limits, the log is within the policy's limit after an Allow if and only if a Peek under that policy just before reports at most the limit |
| LogSize.WithinLimitInOrder | internal/limiter/memory.go:119-131 | in every run in order, if and only if the key's admissions still in the window are at most the limit |
| LogSize.NeverLoweredIsWithinLimit | internal/limiter/memory.go:12-16 | where limits are never lowered on a key, its log is within the limit last enforced at every instant, with any clock and any windows |
| LogSize.SizeInEveryRun | internal/limiter/memory.go:25-43 | at every instant of every run with a nondecreasing clock, whatever windows and limits, a log holds exactly the key's admissions beyond the horizon left by the calls and the janitor |
| Eviction.ProtocolKept | internal/limiter/memory.go:99-117 | every step of Allow, Peek, cleanup and Reset keeps: a stored entry that is not dead is the one the map holds for its key; keys are fixed and the dead stay dead |
| Eviction.OneLiveEntry | internal/limiter/memory.go:222-229 | each key has at most one live entry |
| Eviction.CountedIntoLiveEntry | internal/limiter/memory.go:104-131 | a step that counts an admission appends it to the live entry the map holds before and after |
| Eviction.ProtocolInEveryRun | internal/limiter/memory.go:91-236 | in every interleaving, with any policies and Resets, the protocol holds and every admission not made on a detached entry is on record |
| Eviction.EvictionsInEveryRun | internal/limiter/memory.go:226-228 | in every interleaving evictions is the number of times a janitor pass took a key out of the table |
| Eviction.VisitOk | internal/limiter/memory.go:218-232 | an entry the janitor finds idle has nothing left in any window, even if its lastSeen is behind by the lag |
| Margin.EvictionMargin | internal/limiter/memory.go:218-222 | over all timely runs, dropping an entry idle for longer than ttl loses no admission still in the window if and only if ttl + 1 >= window + lag |
| Eviction.WindowsKept | internal/limiter/memory.go:91-236 | every timely step keeps: a live entry holds all that is in the true window, and every admission was decided with room in it |
| Eviction.WindowUnderLag | internal/limiter/memory.go:91-150 | if every call takes its steps within the lag of its clock read, any interval of window - lag holds at most `limit` admissions of a key plus those on detached entries, in every interleaving |
| Janitor.EightEvictions | internal/limiter/memory.go:99-117 | in every run without a Reset, a call that gives up on the table has seen eight entries of its key evicted since it read the clock |
| Janitor.NeverDetached | internal/limiter/memory.go:99-117 | if passes do not overlap, begin more than d apart and meet a key at most once, and calls take less than 7 * (d + 1), no call ever decides on a detached entry |
| Pushed.DetachedExactlyWhen | internal/limiter/memory.go:99-117 | over all timely runs with such a janitor no admission is ever detached if and only if the lag is below 7 * (d + 1); at that lag and above there is a run that reaches one |
| Janitor.ExactWindowUnderLag | internal/limiter/memory.go:91-236 | with such a janitor any interval of window - lag holds at most `limit` admissions of a key, in every interleaving |
| Denials.DeniedOnlyWhenSpent | internal/limiter/memory.go:91-127 | in every timely run a step that denies a call is taken only when at least `limit` other calls of the key have been admitted with stamps later than its own less window and lag |
| RedisScript.RedisServer.Run | internal/limiter/redis.go:28-58 | the script, command by command, is the atomic step of the model and has these effects: trimming, counting, adding, expiry and reply |
| RedisScript.EvalEffects | internal/limiter/redis.go:36-47 | a script leaves under its key exactly the unexpired members above the cutoff and, if it says yes, its own, to expire one window from now; it says yes with at most `limit` of them and no with at least that many; other keys are left alone |
| RedisScript.RedisServer.First | internal/limiter/redis.go:51-53 | ZRANGE 0 0 finds the lowest score |
| RedisHistory.TailSize | internal/limiter/redis.go:38-44 | with distinct member ids the size of the set is the number of admissions in the window |
| RedisHistory.FindTail | internal/limiter/redis.go:36-47 | what a command finds in the window is what the history has there, so neither trimming nor PEXPIRE ever drops a live member |
| RedisHistory.EvalMirrors | internal/limiter/redis.go:28-58 | one evaluation replies what the history demands and leaves a set that mirrors the extended history |
| Bisimulation.RedisRefinesFullHistory | internal/limiter/redis.go:93-148 | in every run at whatever instants, with whatever windows, whichever instances call with the ids they generate, every reply of the Redis limiter is that of the limiter that forgets nothing to the calls cut to whole milliseconds, with the caller's own window and the reset time counted from the caller's own instant, whatever the skew of the server's clock (a last Peek whose window has a larger fraction of a millisecond than its instant is the subject of RedisPeek) |
| Bisimulation.Bisimilar | internal/limiter/redis.go:28-137 | both backends give equal Allowed, Limit, Used, Remaining and RetryAfter in every such run, memory to the calls cut to whole milliseconds |
| Replies.RedisReplyIsRight | internal/limiter/redis.go:93-148 | every reply of Redis is right field by field in the same sense, counting the milliseconds in which it has itself admitted the key |
| Replies.RedisRemainingIsExact | internal/limiter/limiter.go:69-70 | of the key's further requests in the same millisecond Redis admits exactly the first `remaining` |
| RedisPeek.PeekIsRightExactlyWhen | internal/limiter/redis.go:140-149 | after every run in order a Peek at any instant under any window counts what Redis itself has admitted since the start of its window, but for what the key's last Allow has trimmed or let expire, and is right if and only if none of that is in the window |
| Members.Base36Injective | internal/limiter/redis.go:238-240 | distinct numbers print differently in base 36 |
| Members.RenderInjective | internal/limiter/redis.go:233-242 | instance, time and counter can be read back from a member id when instances have no dash |
| Members.RenderTells | internal/limiter/redis.go:233-242 | split at its dashes, an id tells the instance, then the time, then the counter, as numerals in base 36 |
| Members.MemberSource.Member | internal/limiter/redis.go:233-242 | the id written piece by piece is the rendering of the instance, the time and the next counter value, which wraps at 2^64, and reads back as these three |
| Members.NamesAreDistinct | internal/limiter/redis.go:231-242 | ids are pairwise distinct over every run of at most 2^64 calls per instance |
| Breaker.Config.WithDefaults | internal/limiter/manager.go:29-42 | each of the four settings is kept if usable and otherwise becomes its default, and the initial policy is clamped |
| Breaker.OpenAtThreshold | internal/limiter/manager.go:230-257 | in every run failures is the number since the last success or successful ping, and the circuit is open exactly when it has reached the threshold; cancelled callers and failed pings count for nothing |
| Breaker.RecoveryClearsExactlyWhen | internal/limiter/manager.go:249-258 | in every run a success or successful ping leaves lastErr empty if and only if it takes the error off (a success with any failure outstanding, a ping with at least the threshold) or none was standing |
| Breaker.ErrorOutlivesPing | internal/limiter/manager.go:286-294 | a failure short of the threshold and an answered ping leave the circuit closed, no failure counted, and the error on display |
| Breaker.LoadOnDeadRedis | internal/limiter/manager.go:212-247 | from the trip at t0, without a recovery, at most (t - t0) / cooldown requests reach Redis by t, whoever calls |
| Breaker.TurnedAwayMeansRecentProbe | internal/limiter/manager.go:212-228 | after a trip and without a recovery a request is let through if and only if more than a cooldown has passed since the trip or the last one let through |
| Outcomes.CircuitInEveryRun | internal/limiter/manager.go:121-136 | in every such run failures is the number of requests Redis has failed since it last answered a request or a ping, a caller who goes away counting for nothing, and the circuit is open until one cooldown after it was last armed exactly when they have reached the threshold |
| Outcomes.GrantedExactlyWhen | internal/limiter/manager.go:212-228 | in every run from the start, however requests, outcomes and pings interleave, a request is let through to Redis if and only if fewer than `threshold` failures are outstanding or more than a cooldown has passed since the circuit was last armed |
| Breaker.FlagWrongExactlyWhen | internal/limiter/manager.go:239-263 | with sections and flag writes interleaved and none outstanding, degraded disagrees with failures > 0 if and only if the last write was made for a report before the last one, of the opposite kind, whose own write came earlier |
| Breaker.InOrderFlagIsRight | internal/limiter/manager.go:239-263 | writes made in the order of their sections leave degraded equal to failures > 0 |
| Breaker.FlagCanBeLeftWrong | internal/limiter/manager.go:239-262 | four steps that leave degraded set with nothing failing and nothing pending |
| Breaker.DegradedMeansFailing | internal/limiter/manager.go:230-263 | when each record runs to its end first, degraded holds exactly when failures are outstanding |
| Breaker.Manager.TryPrimary | internal/limiter/manager.go:214-228 | granted if and only if the circuit is closed or its time has passed, when the cooldown starts anew |
| Breaker.Manager.RecordFailure | internal/limiter/manager.go:230-247 | one more failure and its error on display, the circuit open for a cooldown if that reaches the threshold, both flags, and that the failover is announced exactly when it starts or the circuit trips |
| Breaker.Manager.RecordSuccess | internal/limiter/manager.go:249-263 | no failure, a closed circuit, the error taken off if there was anything to recover from, both flags, and that recovery is announced exactly when there was |
| Breaker.Manager.ProbeLoop | internal/limiter/manager.go:267-300 | a series of pings moves the circuit as their events do; any answer clears the failures and closes the circuit, otherwise both are left alone; degraded survives only if no ping was answered |
| Breaker.Manager.AllowPolicy | internal/limiter/manager.go:121-142 | Redis is asked if and only if it is configured and the circuit closed or its time passed; its answer is returned and counted once and clears the breaker; a failure is counted and may open the circuit; a caller that went away leaves failures, error, flags and health alone; without an answer the fallback's decision is returned and counted once |
| SharedRedis.ExecDoes | internal/limiter/redis.go:28-58 | a script that runs, whenever it does, has its effects on the server and nothing else, and its answer, yes or no, goes to its own caller, who may take it until the deadline |
| SharedRedis.ExecKeeps | internal/limiter/redis.go:28-58 | a script that runs at any time, for the first or any further time, keeps every key's set covering its true window and every positive reply that came in time on record |
| SharedRedis.ServerWindow | internal/limiter/redis.go:60-62 | Redis tells at most `limit` callers of the whole fleet yes within the lag in any window shorter by the lag |
| RedisDenials.RedisDeniesOnlyWhenSpent | internal/limiter/redis.go:36-48 | the script says no only if at least `limit` callers of the key have been told yes, in time or late, with stamps in its window |
| RedisDenials.FleetDeniesOnlyWhenSpent | internal/limiter/manager.go:121-142 | that holds after every timely run of the fleet |
| Fleet.StepKeeps | internal/limiter/manager.go:121-142 | every step of the fleet keeps all invariants: servers, limiters, records of calls, served counters |
| Fleet.FleetBound | internal/limiter/manager.go:121-142 | in every run of n instances whose callers take a reply within the lag, any window shorter by the lag holds at most (n + 1) * limit allowed calls of a key, beyond those on detached entries, however breakers flap, replies are lost or resent, callers give up, and however late scripts run |
| OrderlyFleet.ExactFleetBound | internal/limiter/manager.go:121-142 | where every janitor is orderly the same window holds at most (n + 1) * limit allowed calls, and none beside them |
| Fleet.ServedAddsUp | internal/limiter/manager.go:127-140 | in every run redisServed + fallbackServed is the number of finished calls of an instance, each counted where it was served |
| Fleet.AnswersInEveryRun | internal/limiter/manager.go:121-142 | in every timely run a finished call has the answer that Redis gave in time to the message sent for it, yes or no, or that of its own limiter |
| FleetCircuits.TriesRedisExactlyWhen | internal/limiter/manager.go:121-142 | in every run of the fleet a call may try Redis if and only if, of what its own instance has seen, fewer than `threshold` failures are outstanding or more than a cooldown has passed since its circuit was last armed |
| Series.Ring.Record | internal/metrics/metrics.go:140-159 | the ring changes in the slot of its second only, starting afresh when the slot held another second, where the total rises by one, allowed or blocked by one according to the verdict, and errors by one for an error; for every second the program can index |
| Series.Ring.Series | internal/metrics/metrics.go:276-292 | the loop returns the window of the ring, for seconds before 1970 too |
| Series.SeriesAgrees | internal/metrics/metrics.go:140-159 | in every run of records less than n seconds late, a query not before the newest returns n contiguous seconds, each with the number of its requests in the whole history, of those allowed, of those blocked and of those that failed |
| Series.HarmlessExactlyWhen | internal/metrics/metrics.go:145-148 | a record keeps the ring right if and only if it does not overwrite a later second that can still be asked for |
| Series.LateRecordErases | internal/metrics/metrics.go:146-148 | after any run, one record a lap behind the newest second empties that second in what the series returns, though its requests are on record |
| Series.ShiftedRemainder | internal/metrics/metrics.go:284 | the doubled remainder finds the slot of any second with a truncating operator |
| Clients.RecordOutcome | internal/metrics/metrics.go:161-214 | a known key, or one that fits, gets its row updated; otherwise exactly maxClients of the old rows stay, none dropped was seen later than one kept, and the new key gets no row |
| Clients.TableInEveryRun | internal/metrics/metrics.go:161-214 | in every run at most maxClients + 64 rows; each row has a creating record, since which its key has been in the table, and counts exactly the requests of its key since then, by verdict and latency, with the last one's time, kind, limits and backend |
| Clients.RowsAddUp | internal/metrics/metrics.go:170-175 | in every row of every run requests == allowed + blocked |
| Clients.SweepInEveryRun | internal/metrics/metrics.go:342-357 | in every run a sweep leaves a row alone if and only if its key's last request came at or after the cutoff |
| Clients.SumAtMostTotal | internal/metrics/metrics.go:111-138 | in every run the rows together account for at most the global total |
| Clients.TopIsUnique | internal/metrics/metrics.go:329-337 | the order is strict, so there is only one listing of a given length |
| Collector.Collector.Record | internal/metrics/metrics.go:111-138 | totals, series and client table each take the event once, at the same instant |
| Collector.Collector.EnforceClientCap | internal/metrics/metrics.go:190-214 | with at most 64 rows above maxClients nothing happens; beyond that exactly maxClients rows stay, none of them seen earlier than one that goes |
| Collector.Collector.Clients | internal/metrics/metrics.go:296-339 | the number of keys, and up to `limit` lines, each with the kind, counts, limits and backend of its key's row and its times in whole milliseconds; more requests come first, among equals the key that is a beginning of the other or smaller in the first character that differs, and every row not shown comes after those that are |
| Collector.Collector.Sweep | internal/metrics/metrics.go:342-357 | a row stays, as it is, if and only if it was last seen no longer ago than the time to live; the others are counted |
| Hub.NeverPanics | internal/metrics/hub.go:55-101 | no step of any run sends on a closed channel or closes one twice |
| Hub.EveryFrameAccountedFor | internal/metrics/hub.go:42-101 | in every run the frames whose broadcasts began during membership are, frame by frame, those offered and those under way; each offered frame was queued or dropped, each queued one read or waiting, at most the buffer; what was read is an in-order subsequence of what was offered; open exactly while a member |
| Hub.ReadsBroadcastsInOrder | internal/metrics/hub.go:69-79 | with one broadcaster what a client has read is an in-order subsequence of the frames broadcast during its membership, and once no broadcast is under way all of them have been offered |
| Hub.DropsInEveryRun | internal/metrics/hub.go:69-79 | in every run a subscriber's drop count is the number of frames offered to it while its queue was full, and its queue is as long as the offers and reads before make it |
| HubObjects.Broadcaster.Subscribe | internal/metrics/hub.go:42-52 | a fresh subscriber, registered and open, or closed if the hub is |
| HubObjects.Broadcaster.Unsubscribe | internal/metrics/hub.go:55-66 | a registered subscriber is gone and closed; one that is not, or nil, is left as it is |
| HubObjects.Broadcaster.Broadcast | internal/metrics/hub.go:69-79 | every subscriber is offered the frame exactly once, queued or counted as dropped |
| HubObjects.Broadcaster.Close | internal/metrics/hub.go:90-101 | every channel closed once, its queue kept; a second call changes nothing more |
| Sse.EncodeFrame | internal/api/sse.go:47-61 | the pieces written are one event line, one data line and an empty one |
| Sse.Stream | internal/api/sse.go:80-123 | the stream is the first frame, if it could be encoded, followed by a frame or a keepalive for each wake-up, in order, up to and including what got out of the first write that failed |
| Sse.RoundTrip | internal/api/sse.go:47-123 | a conforming reader dispatches exactly the events sent, in order, whatever keepalives are between them, when no name or body has a line break |
| Sse.CutShort | internal/api/sse.go:83-121 | a stream that breaks off anywhere has shown the page the events written before, and nothing but a prefix of the events due |
| Sse.SurvivesExactlyWhen | internal/api/sse.go:53-59 | what the page reads of a stream, with whatever keepalives, is what was sent if and only if no name and no body of its frames contains a line break |

## Left out

- MemoryLimiter.MemoryLimiter.Allow: one caller at a time; what several callers, the janitor and Reset do to shared entries is the subject of `Eviction.dfy`.
- Series.Ring.Record: seconds before 1970 that are no multiple of the ring's length, which the program indexes below zero.
- Clients.RecordOutcome: one goroutine at a time; with several, a new row may survive a pass or the table may briefly exceed its budget.
- The lag in the window theorems is the code's: `Allow` reads the clock before it locks. That callers keep within it, and take a reply from Redis within it, is an assumption (the configured timeout is what enforces the latter); when scripts run is not restricted.
- Instance ids are assumed distinct and free of dashes in `Members.NamesAreDistinct` and everything about the fleet; the program draws 32 random bits for each, or the time if that fails (`internal/limiter/redis.go:259-268`), so two instances may, rarely, share one.
- The janitor's pace and Range meeting each key at most once are assumptions of `Janitor.NeverDetached` and what rests on it; the ticker is not modelled.
- The window theorems assume no Reset, no loss of data inside Redis (restart, memory eviction), and clocks of the instances that agree; the server's clock may differ by a fixed amount.
- Every instance of the fleet has Redis configured; one without it is its own in-memory limiter and nothing else.
- Bisimulation.Bisimilar: the in-memory side is given the calls cut to whole milliseconds, since the script knows no finer time; a last Peek whose window has a larger fraction of a millisecond than its instant is left to `RedisPeek.PeekIsRightExactlyWhen`.
- Integers do not overflow: nanosecond instants and 64-bit counters are unbounded, except the member counter, whose wrap-around is modelled.
- `errors`, `latSumNS` and the four totals are modelled between records only, not while several are in flight; floating-point averages and rates in `Snapshot` are not modelled.
- `redisHealthy` is modelled in the manager's methods, not in the interleaving of the degraded flag.
- Reply decoding, `Ping`, `ActiveKeys`, `RedisLimiter.Reset`, pipelines and contexts: a Redis call is a step that runs the script or not, and replies or not.
- Growth of a slice by `append` is any capacity within `MostCapacity`; Go's exact growth policy is not part of this model.
- `policystore.go`, `upstreamstore.go`, HTTP handlers, token checks, the dashboard and configuration: thin wrappers or single branches that would only add easy members.
- Logging, tickers, and starting and stopping goroutines.

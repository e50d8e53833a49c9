# Gateway rate limiter and metrics registry in Dafny

This project models two pieces of in-memory state of an HTTP API gateway and proves properties of them.

- **Sliding-window rate limiter.** The limiter keeps, per user id, the timestamps of that user's admitted requests. An admission check does three things in order. It drops every timestamp at or before `now - WINDOW_SIZE`. It denies, recording nothing, when `MAX_REQUESTS` or more timestamps remain. Otherwise it appends `now` and admits.
- **Metrics registry.** Named counters spring into existence at zero on their first increment. A snapshot copies them.

Both components keep module-level globals in the source. Here that state is threaded explicitly.
- The limiter's table is a `RequestLog = map<string, seq<Time>>`. A check returns a `Decision(allowed, log)`.
- The counters are a `Counters = map<string, nat>`. An increment returns the new map. A snapshot returns a `Reading(view, registry)`.
- The clock reading is an argument of every check.
- Time is a Dafny `real` (seconds).
- `WINDOW_SIZE = 60` and `MAX_REQUESTS = 5` are the constants `WindowSize` and `MaxRequests`. They are bundled as `Limits` in `Default`. The proofs hold for any `Limits` with a positive window and a positive quota.

Files:
- `rate_limiter.dfy` holds module `RateLimiter`. It contains pruning, the per-user check `Admit`, the table-level check `Allow`, and the properties of a single check.
- `rate_limiter_trace.dfy` holds module `RateLimiterTrace`. It covers repeated checks: exact sliding-window counting, the burst behaviour and the concrete six-call scenario.
- `metrics.dfy` holds module `Metrics`. It contains `Inc`, `Snapshot` and the counter properties.

The check for one user is written twice. `Admit` works on one user's stored list. `Allow` lifts it to the whole table: the checked user's entry is created if absent and replaced, and every other entry is left alone. This mirrors the `defaultdict` access in the source. The run-level lemmas are proved on per-user lists. `RunIsPerUser` carries them over to the table.

## Model

| member | source | states |
|---|---|---|
| RateLimiter.Prune | app/rate_limiter.py:12-17 | Keeps exactly the timestamps strictly after the cutoff. Each one is kept as often as it occurs, and the kept list is a subsequence of the old one, so relative order is preserved. |
| RateLimiter.Admit | app/rate_limiter.py:12-23 | Admits exactly when fewer than the quota remain after pruning. On denial the list becomes the pruned list with nothing added. On admission it becomes the pruned list with `now` appended, so it is exactly one longer. Every remaining timestamp is after `now - window`. After an admission the list holds at most the quota. |
| RateLimiter.Allow | app/rate_limiter.py:10-23 | The checked user's entry always exists afterwards and is the per-user check's result on its stored list. An absent user reads as empty. No other user's entry is created, removed or changed. |
| RateLimiter.FirstCallAllowed | app/rate_limiter.py:15-23 | A user with no stored timestamps is admitted. Afterwards that user holds exactly `[now]`. |
| RateLimiter.PruneKeepsAll | app/rate_limiter.py:15-17 | Pruning a list whose timestamps all lie after the cutoff returns the list unchanged. |
| RateLimiter.PruneDropsExpired | app/rate_limiter.py:15-17 | If any timestamp is at or before the cutoff, pruning makes the list strictly shorter. |
| RateLimiter.PruneTwice | app/rate_limiter.py:12-17 | Pruning at one cutoff and then at a later cutoff equals pruning once at the later cutoff. |
| RateLimiter.PruneAppend | app/rate_limiter.py:15-17 | Pruning a concatenation equals pruning each part and concatenating the results. |
| RateLimiter.PruneSorted | app/rate_limiter.py:15-17 | Pruning a time-ordered list gives a time-ordered list. |
| RateLimiter.PruneIsSuffix | app/rate_limiter.py:15-17 | On a time-ordered list, pruning removes a prefix. What remains is the newest part of the list. |
| RateLimiter.AdmitsAgainAfterWindow | app/rate_limiter.py:12-23 | A list within the quota that holds a timestamp at or before `now - window` is admitted. |
| RateLimiter.AllowPreservesQuota | app/rate_limiter.py:19-23 | If no user holds more than the quota before a check, none does after it. |
| RateLimiter.AllowKeepsOrder | app/rate_limiter.py:11-23 | If every list is time-ordered and the clock has not gone back behind the checked user's entries, every list is still time-ordered after the check. |
| RateLimiter.CheckLeavesOthers | app/rate_limiter.py:15-22 | A check for one user leaves every other user's stored list as it was. |
| RateLimiter.ChecksOfDifferentUsersCommute | app/rate_limiter.py:15-22 | Checks for two different users commute. Each user gets the same answer in either order, and the final table is the same. |
| RateLimiter.SlidingWindowStep | app/rate_limiter.py:12-23 | Suppose the stored list is all admitted timestamps pruned at an earlier cutoff, and holds at most the quota. Then a request is admitted exactly when fewer than the quota of all admitted requests fall in its window. Afterwards the relation holds again at the new cutoff, still within the quota. |
| RateLimiterTrace.RunIsPerUser | app/rate_limiter.py:15-23 | Repeated checks for one user against the table give the same answers and the same final list as the same checks against that user's list alone. Every other user's list is unchanged. |
| RateLimiterTrace.RunKeepsAdmittedInWindow | app/rate_limiter.py:12-23 | Start from no history with a clock that never goes backwards. After any run of checks, the stored list is exactly the admitted timestamps inside the last window, and there are at most the quota of them. |
| RateLimiterTrace.RunAdmitsByWindowCount | app/rate_limiter.py:12-23 | Under the same conditions, each request is admitted exactly when fewer than the quota of earlier admitted requests lie in the window ending at it. |
| RateLimiterTrace.BurstWithinWindow | app/rate_limiter.py:19-23 | Start from no history and take any checks whose readings all lie in one window-long interval. The first quota-many are admitted and every later one is denied. The stored list is the admitted readings. |
| RateLimiterTrace.SixCallsWithinOneSecond | app/rate_limiter.py:7-23 | With a 60-second window and a quota of 5, six checks for one user within one second answer true, true, true, true, true, false. |
| Metrics.Inc | app/metrics.py:6-7 | The incremented counter exists afterwards with exactly one more than before. An absent counter counts as zero. No other counter is created, removed or changed. |
| Metrics.Snapshot | app/metrics.py:9-10 | The snapshot has the same names and values as the registry. Taking it leaves the registry unchanged. |
| Metrics.IncAll | app/metrics.py:6-7 | A sequence of increments creates exactly the counters it names and removes none. |
| Metrics.IncFromAbsent | app/metrics.py:4-7 | The first increment of an absent counter leaves it at 1. |
| Metrics.IncMonotone | app/metrics.py:6-7 | No counter reads lower after an increment, and every counter other than the incremented one reads the same. |
| Metrics.IncAllCounts | app/metrics.py:4-7 | After any sequence of increments, each counter has grown by exactly the number of times its name occurs in the sequence. |
| Metrics.IncAllOrderIrrelevant | app/metrics.py:4-7 | Two increment sequences that name the same counters equally often give the same registry, whatever their order. |
| Metrics.SnapshotTwice | app/metrics.py:9-10 | Two snapshots with no increment between them are equal. |
| Metrics.SnapshotIsACopy | app/metrics.py:9-10 | An increment after a snapshot raises the registry's counter one above the snapshot's value and leaves the other counters equal to the snapshot. The snapshot is a copy, not a live view. |

## Left out

- Wall-clock time (`time.time()` in app/rate_limiter.py:11): the reading is a parameter. Time is an exact `real`, so floating-point rounding of `now - WINDOW_SIZE` is not modelled.
- Token creation and verification (app/auth.py): both are thin wrappers over an external JWT library whose code is not part of this model. They also read the wall clock.
- The HTTP middleware, routes and application object (app/main.py, app/routes/auth.py, app/routes/test.py): framework plumbing, float timing and constant responses. The source code does not wire authentication, rate limiting, metrics and access logging into a request pipeline, so that orchestration is not modelled.
- Access logging (app/logger.py): JSON serialisation and output only.
- Concurrency: the source has no locking, and the model is sequential. Atomicity of increments and per-user exclusion are not modelled.
- RateLimiterTrace.RunKeepsAdmittedInWindow: stated only for a clock that never goes backwards and a user with no history. If the clock regresses, the source can keep stale timestamps past the window, and this documented limitation is not a modelled guarantee.
- RateLimiterTrace.RunAdmitsByWindowCount: stated under the same two conditions, for the same reason.
- RateLimiter.AllowKeepsOrder: requires that the clock has not gone back behind the checked user's entries. Otherwise the appended timestamp can be older than stored ones.

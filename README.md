# Sliding-window-log rate limiter

This project models the rate limiter of a small Express server
(`rateLimit(windowMs, max)` in `src/server.ts`) and proves properties about it.
The limiter is a closure over a process-wide map from a client key to the
timestamps of that client's recently admitted requests. For each request the
handler does the following:

1. It resolves the client key: `req.ip`, else `req.socket.remoteAddress`, else `"unknown"`.
2. It reads that key's list. A missing key counts as an empty list.
3. It keeps only the timestamps `t` with `now - t < windowMs`.
4. If `max` or more remain, it rejects with HTTP 429 and the message
   "Too many requests, please try again later.".
5. Otherwise it appends `now` to the kept list, stores that list and admits.

Files:

- `rate_limit.dfy`, module `RateLimit`, holds the model itself:
  - the data: `Decision`, `Outcome`, `RequestLog` and the constants;
  - `ResolveKey`, the client-key choice;
  - `Live`, the window filter;
  - `Step`, one admission step written as a function of the log;
  - the class `Limiter`. Its field `requests` is the closure's map, and its
    methods `Check` and `Handle` update that field in place.
- `rate_limit_proofs.dfy`, module `RateLimitProofs`, holds the lemmas:
  - lemmas about a single step;
  - `Run`, which feeds a sequence of requests through `Step`;
  - lemmas about whole runs: the admission ceiling, independence across
    clients, expiry recovery, repeated rejects at the ceiling and a worked trace.

The comment at `src/server.ts:28` says old requests are removed. The code
prunes only on an admit: on a reject the handler returns at `src/server.ts:33`,
before `requests.set` at line 37, and the filtered list is discarded, so a
rejected request leaves the map exactly as it was (`Step`, `Limiter.Check`,
`RejectsAtCeiling`). In every state the limiter can reach, this makes no
difference. The map starts empty, and no stored list ever holds more than
`max` timestamps. A reject needs at least `max` of them inside the window, so
at a reject every stored timestamp of the key is still inside it, and the
discarded list equals the stored one (`RejectFindsNothingExpired`,
`RunRejectFindsNothingExpired`). The comment is therefore accurate in effect.

## Model

| member | source | states |
|---|---|---|
| RateLimit.ResolveKey | src/server.ts:25 | The key is never empty. It is `req.ip` when that is present and non-empty. Otherwise it is `remoteAddress` when that is present and non-empty. Otherwise it is the shared `"unknown"` key. |
| RateLimitProofs.UnknownCollapse | src/server.ts:25 | Any two requests without a usable address resolve to the same `"unknown"` bucket. |
| RateLimitProofs.ResolveKeyIsCandidate | src/server.ts:25 | The resolved key is one of the request's own addresses or the `"unknown"` sentinel. |
| RateLimit.Live | src/server.ts:29 | The filtered list is never longer than the original. A timestamp is in it exactly when it is in the original list and `now - t < windowMs` holds (a strict comparison). |
| RateLimitProofs.LiveMultiplicity | src/server.ts:29 | A timestamp inside the window keeps its exact multiplicity. A timestamp outside the window occurs zero times. |
| RateLimitProofs.LiveAppend | src/server.ts:29 | Filtering a concatenation gives the concatenation of the filtered parts, so the filter keeps order. |
| RateLimitProofs.LiveLater | src/server.ts:29 | Filtering at `now` and then at a time `later >= now` gives the same list as filtering once at `later`. |
| RateLimitProofs.LiveSorted | src/server.ts:29 | Filtering a list whose timestamps are in nondecreasing order leaves them in nondecreasing order. |
| RateLimitProofs.LiveFullLength | src/server.ts:29 | If the filter keeps as many timestamps as the list holds, it returns the list unchanged. |
| RateLimitProofs.LiveAllIn | src/server.ts:29 | A list whose timestamps are all inside the window is left as it is. |
| RateLimitProofs.LiveAllOut | src/server.ts:29 | A list whose timestamps are all outside the window becomes empty. |
| RateLimit.Step | src/server.ts:26-37 | A key absent from the map counts as an empty list. The request is rejected exactly when at least `max` of that key's timestamps are in the window. A reject returns 429 with the fixed message and leaves the whole map unchanged. An admit adds the key if it was absent, and the key's entry becomes the filtered old list with `now` appended last. No other key's entry ever changes. |
| RateLimit.Limiter.constructor | src/server.ts:20-21 | A new limiter keeps `windowMs` and `max`, starts with an empty map and satisfies the bound invariant. |
| RateLimit.Limiter.Check | src/server.ts:26-38 | It rejects exactly when the in-window count is at least `max`. On reject the map is unchanged. On admit only the key's entry is replaced, by the filtered list followed by `now`. The decision and the new map equal `Step` of the old map. It preserves the invariant that every stored list holds at most `max` timestamps. |
| RateLimit.Limiter.Handle | src/server.ts:23-39 | The full handler resolves the key with `ResolveKey` and then does one `Step` on the map, keeping the invariant. |
| RateLimitProofs.StepKeepsBounded | src/server.ts:31-37 | If every stored list holds at most `max` timestamps before a step, that still holds after it. |
| RateLimitProofs.RunKeepsBounded | src/server.ts:31-37 | The same bound holds after any sequence of requests. |
| RateLimitProofs.AdmitKeepsOnlyLive | src/server.ts:29-36 | With `windowMs > 0`, after an admit every timestamp stored for the key satisfies `now - t < windowMs`, and `now` is stored at the position right after the surviving old entries. This is a position only: `now` is not necessarily the largest value (see `RunSorted` for when it is). |
| RateLimitProofs.StepKeepsSorted | src/server.ts:29-37 | Suppose a key's entry is sorted and holds no timestamp later than `now`. After one step the entry is still sorted, and still holds nothing later than `now`. |
| RateLimitProofs.RejectFindsNothingExpired | src/server.ts:29-33 | In a map where no list holds more than `max` timestamps, a rejected request finds every stored timestamp of its key inside the window. The filtered list the handler discards is the stored list itself. |
| RateLimitProofs.StepDependsOnOwnEntry | src/server.ts:26-37 | The decision and the key's new entry depend only on that key's old entry. |
| RateLimitProofs.RunIndependent | src/server.ts:26-37 | Interleaving other clients' requests changes none of three things: the client's final entry, the decision taken for each of its requests (position by position) and the timestamps of its admitted requests, in order. |
| RateLimitProofs.RunRejectFindsNothingExpired | src/server.ts:21-33 | Start from the empty map and send any requests. A later reject finds every stored timestamp of its key inside the window, so not pruning on a reject loses nothing. |
| RateLimitProofs.RunSorted | src/server.ts:29-37 | Start from an empty map, with a clock that never goes backwards. After any run, every key's entry is in nondecreasing order, and no stored timestamp is later than the run's clock readings. |
| RateLimitProofs.ClientLogSorted | src/server.ts:29-37 | A key's entry is sorted as soon as that key's own requests arrive in clock order. Other clients' clock readings do not matter. |
| RateLimitProofs.StoredMatchesAdmitted | src/server.ts:29-37 | Start from an empty map and take any time no earlier than every request of the run. At that time the in-window part of a key's stored list equals the in-window part of the key's admitted timestamps, so pruning never loses a live admission. |
| RateLimitProofs.WindowCountAtMostLive | src/server.ts:29 | Suppose every admitted time is at most `now` and `now <= s`. Then the window ending at `s` holds no more of them than the window ending at `now`. |
| RateLimitProofs.RoomForOneMore | src/server.ts:29-37 | Start from the empty map, with earlier requests no later than `now`. If a request at `now` is admitted, then fewer than `max` earlier admissions of its key lie in any window ending at a time `s >= now`. |
| RateLimitProofs.AdmissionCeiling | src/server.ts:20-40 | Assume the clock never goes backwards and `max >= 0`. Then for every client and every window of length `windowMs`, at most `max` requests inside it are admitted. |
| RateLimitProofs.ClientCeiling | src/server.ts:20-40 | Assume `max >= 0` and that the client's own requests arrive in clock order. Then in every window of length `windowMs`, at most `max` of that client's requests are admitted. Other clients' requests may carry any clock readings. |
| RateLimitProofs.RejectsAtCeiling | src/server.ts:31-33 | Once a key's in-window count has reached `max`, any number `n` of repeated requests at the same instant are all rejected. The decisions are exactly `n` times the 429 reject, and the map never changes. |
| RateLimitProofs.BurstAdmitted | src/server.ts:29-37 | For a key with no entry, a burst of up to `max` requests at `t0` is admitted in full, provided `windowMs > 0`. The key's list then holds one `t0` per request. |
| RateLimitProofs.BurstOneMore | src/server.ts:29-37 | Suppose `windowMs > 0` and the key holds `n < max` copies of `t0`. Then one more request at `t0` is admitted, and the key ends with `n + 1` copies. |
| RateLimitProofs.ExpiryRecovery | src/server.ts:29-33 | Take `windowMs > 0` and `max > 0`. Start a new limiter (empty map) and send `max` requests of one key at `t0`. Then a request at any `u` is admitted exactly when `u - t0 >= windowMs`. An entry exactly `windowMs` old has already expired, and a reading before `t0` is rejected. |
| RateLimitProofs.ClockJumpsBackRun | src/server.ts:29-37 | With `windowMs = 1000` and `max = 2`, any one key sends requests at 0, 1, 5000 and then 2. All four are admitted, and the map ends with only that key, holding `[5000, 2]`. |
| RateLimitProofs.CeilingNeedsMonotoneClock | src/server.ts:29-37 | That run is not chronological, and three of its admissions (0, 1 and 2) fall in the window ending at 2. So the admission ceiling fails when the clock goes backwards. |
| RateLimitProofs.WorkedTrace | src/server.ts:20-40 | The settings are `windowMs = 1000` and `max = 2`. Key "A" sends requests at 0, 100, 200 and 1001. They are admitted, admitted, rejected (429) and admitted, and the map ends as `{"A": [100, 1001]}`. |
| RateLimitProofs.WorkedTraceOnLimiter | src/server.ts:20-40 | The same trace, driven through `Limiter.Check`, gives the same decisions and the stored list `[100, 1001]`. |

## Left out

- Express set-up, CORS, JSON body parsing, the routes, the health endpoint, the 500 error handler and `app.listen` (src/server.ts:9-17, 54-69) are left out. They are framework plumbing with no logic.
- The MongoDB connection and console logging (src/server.ts:49-51) are left out. They are external I/O.
- The environment settings and `parseInt` (src/server.ts:43-46) are left out. `windowMs` and `max` are constructor parameters. The defaults 900000 and 100 are kept as the constants `DefaultWindowMs` and `DefaultMax`. A non-numeric setting, which makes `parseInt` return NaN, is not modelled.
- `Date.now()` is left out as a clock read. The time is the integer parameter `now`.
- JavaScript numbers are modelled as unbounded integers. Floating-point rounding of very large timestamps is not modelled.
- The HTTP reply `res.status(429).json(...)` becomes the value `Reject(429, message)`. Calling `next()` becomes `Admit`.
- `Array.prototype.filter` is modelled by the function `Live`, not by a loop. The in-place `push` onto the freshly filtered array becomes `+ [now]`. That array is new and has no other alias, so nothing observable is lost.
- Concurrency is left out. Node runs each handler call to completion, so `Check` is atomic.
- The code does not evict keys, sweep empty lists or validate non-positive settings, so the model does none of these either.
- RateLimitProofs.AdmissionCeiling: this theorem assumes the clock never goes backwards and `max >= 0` (`ClientCeiling` needs the order only among the client's own requests). The code guarantees neither. `CeilingNeedsMonotoneClock` shows that the clock assumption is needed: when the clock steps back, three admissions fall in one window with `max = 2`.
- RateLimitProofs.ClientCeiling: like `AdmissionCeiling`, it assumes `max >= 0` and that the client's own clock readings are in order. The code guarantees neither.
- RateLimitProofs.ClientLogSorted: a stored entry is sorted only when the client's clock readings are in order, and `RunSorted` carries the same condition. When the clock steps back the entry is not sorted: `ClockJumpsBackRun` ends with `[5000, 2]`.

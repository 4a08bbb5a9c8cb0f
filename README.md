# Per-key fixed-window rate limiter with punitive lockout

This project models `InMemoryRateLimiter` from `ratelimiter/ratelimiter.go`. It is an
in-memory admission-control primitive. Each request carries a key, such as a
client IP. The limiter admits at most `MaxCount` requests per key in a window of
length `Interval`. The call that goes over the quota locks the key out for one
further interval, counted from that call.

The model has two modules.

- `Decision` (`decision.dfy`) states the decision on values:
  - `Record` holds one key's fields.
  - `Process` is one call of `processRequest`. It applies the block check, then
    the window reset, then the count and threshold, in that order.
  - `Replay` is a run of calls for one key.
  - The lemmas state the properties of one call and of runs of calls.
- `RateLimiter` (`ratelimiter.dfy`) is the limiter in its imperative form:
  - `RateLimitData` is a class whose fields `ProcessRequest` updates in place.
  - `InMemoryRateLimiter` is a class that holds the `store` map from key to
    record. Records are created lazily and are never removed.
  - Each method is proved against `Process` and `Lookup`. The ghost field
    `entries` holds the store's contents as values.
  - `Valid()` says each record is filed under its own key. It also says each
    record keeps the invariant `Consistent`: `RequestCount >= 0`, and a blocked
    key has `RequestCount > MaxCount`.

Time is an integer (nanoseconds). Each operation receives the current time as a
parameter `now`.

Two boundary cases of the code are worth stating:

- The window is measured from `LastAllowedTime`, and the reset needs strictly more
  than `Interval` to have passed (`ratelimiter.go:86`). Suppose a block was
  triggered at the instant its window began. A call at exactly `BlockedUntil`
  then clears the block, but the window does not reset. The call is rejected
  and the key is blocked again (`ExactExpiryRejectsAgain`). `Test_RateLimiter`
  sleeps exactly `interval` (`ratelimiter_test.go:44`, `50`) and expects the
  next calls to be admitted (`ratelimiter_test.go:45-48`, `51-54`). That holds
  only because real time passes during each round: the window start (read at
  `ratelimiter.go:54` or `89`) is earlier than the blocking call's clock read
  (`ratelimiter.go:73`), and the reset check reads the clock again later still
  (`ratelimiter.go:86`). With one `now` per call and three calls at the same
  instant, `BlockAndResetFlow` spaces its rounds one interval plus 1 ns apart.
- Because Go's clock never goes backwards, a blocked record's window always
  ends no later than its lockout (`WindowBeforeBlock`). So every call strictly
  after `BlockedUntil` both clears the block and resets the window
  (`ExpiryClearsAndResets`, `ExpiryAfterRun`). Only the exact instant
  `BlockedUntil` can miss the reset.
- The constructor does not check that `MaxCount` and `Interval` are positive, so
  the model does not require it either. The lemmas that depend on the sign of
  either value require it explicitly.

## Model

| member | source | states |
|---|---|---|
| `RateLimiter.InMemoryRateLimiter.constructor` | ratelimiter/ratelimiter.go:27-33 | a new limiter has an empty store and keeps the given `maxCount` and `interval` |
| `RateLimiter.RateLimitData.constructor` | ratelimiter/ratelimiter.go:53-60 | a new record has the key as IP, `LastAllowedTime = now`, count 0, and is not blocked |
| `RateLimiter.InMemoryRateLimiter.GetRateLimitData` | ratelimiter/ratelimiter.go:46-69 | an existing key yields its own record object and the store is unchanged; an unseen key gets a fresh record dated `now`, inserted under that key only; the record invariant is kept |
| `RateLimiter.InMemoryRateLimiter.ProcessRequest` | ratelimiter/ratelimiter.go:72-107 | updating the record in place leaves exactly the fields `Process` gives, and returns its verdict |
| `RateLimiter.InMemoryRateLimiter.IsAllowed` | ratelimiter/ratelimiter.go:36-43 | only the entry for `key` changes (created if new, existing record objects kept); it becomes the `Process` of the looked-up record, the verdict is `Process`'s, and the invariant (Blocked implies count above `MaxCount`, count never negative) is preserved |
| `RateLimiter.InMemoryRateLimiter.GetStats` | ratelimiter/ratelimiter.go:110-131 | an unseen key yields `NoData` for that key; a known key yields its count, the configured max, the block flag, the block expiry and the window's age; no state can change (no `modifies`) |
| `Decision.NewRecord` | ratelimiter/ratelimiter.go:53-60 | no contract of its own: the record created for an unseen key (IP = key, `LastAllowedTime = now`, count 0, unblocked, expiry 0); `RateLimitData.constructor` and `GetRateLimitData` are proved equal to it |
| `Decision.Lookup` | ratelimiter/ratelimiter.go:46-69 | no contract of its own: the stored record of a key, or `NewRecord` for an unseen key; `GetRateLimitData` and `IsAllowed` are proved against it |
| `Decision.Process` | ratelimiter/ratelimiter.go:72-107 | no contract of its own: one decision in the source's order (block check, window reset, count and threshold); `ProcessRequest` is proved equal to it, and the single-call lemmas below state its rules |
| `Decision.Replay` | ratelimiter/ratelimiter_test.go:39-55 | a run of `IsAllowed` calls on one key at the given times yields one verdict per call; the run lemmas below are stated on it |
| `Decision.RejectWhileBlocked` | ratelimiter/ratelimiter.go:76-80 | blocked and `now < BlockedUntil`: rejected, the record completely unchanged |
| `Decision.ExpiredBlockIsCleared` | ratelimiter/ratelimiter.go:76-83 | blocked and `now >= BlockedUntil`: the block is cleared and the same call continues as for an unblocked record |
| `Decision.WindowResetRule` | ratelimiter/ratelimiter.go:85-93 | the window resets (count from 0, `LastAllowedTime = now`) iff `now - LastAllowedTime > Interval`; otherwise `LastAllowedTime` is untouched; either way the count rises by exactly 1 |
| `Decision.ThresholdRule` | ratelimiter/ratelimiter.go:95-106 | past the block check, admitted iff the new count is at most `MaxCount`; a rejection sets `Blocked` and `BlockedUntil = now + Interval` and keeps the increment; an admission leaves the key unblocked |
| `Decision.ProcessKeepsConsistent` | ratelimiter/ratelimiter.go:72-107 | every call preserves "count is not negative, and Blocked implies count above `MaxCount`" |
| `Decision.ExpiryAfterFullWindow` | ratelimiter/ratelimiter.go:76-93 | once the block has expired and a full window has passed, one call both clears the block and resets the window, and is admitted when `MaxCount >= 1` |
| `Decision.ExactExpiryRejectsAgain` | ratelimiter/ratelimiter.go:76-101 | at exactly `BlockedUntil`, with the window exactly `Interval` old, the call is rejected and re-blocks for another interval (strict `Before` and strict `>`) |
| `Decision.ProcessKeepsWindowBeforeBlock` | ratelimiter/ratelimiter.go:86-98 | for a call not earlier than the window start, a blocked record's window still ends no later than its lockout, and the new window start is not later than the call |
| `Decision.ExpiryClearsAndResets` | ratelimiter/ratelimiter.go:76-101 | a call strictly after `BlockedUntil` on such a record clears the block and resets the window (count 1, start `now`); it is admitted iff `MaxCount >= 1`, otherwise blocked again until `now + Interval` |
| `Decision.ReplayKeepsWindowBeforeBlock` | ratelimiter/ratelimiter.go:72-107 | over calls at non-decreasing times not before the window start, the lockout always ends no earlier than the window |
| `Decision.ExpiryAfterRun` | ratelimiter/ratelimiter.go:46-107 | for a key first seen at `t0` and called at non-decreasing times, the first call strictly after a lockout's expiry clears the block, resets the window and is admitted when `MaxCount >= 1` |
| `Decision.ReplayKeepsConsistent` | ratelimiter/ratelimiter.go:72-107 | the record invariant holds after any run of calls |
| `Decision.StaysBlocked` | ratelimiter/ratelimiter.go:76-80 | a blocked key rejects every call before its expiry, however many windows pass, and its record never changes |
| `Decision.AdmitsWithinQuota` | ratelimiter/ratelimiter.go:85-106 | an unblocked key admits calls within its window while the quota lasts; each one is counted and the window start is kept |
| `Decision.FillsThenBlocks` | ratelimiter/ratelimiter.go:93-101 | within one window, the remaining quota is admitted and the next call is rejected; that call blocks until one interval after itself and keeps its increment |
| `Decision.FreshKeyQuota` | ratelimiter/ratelimiter_test.go:39-43 | a new key admits `MaxCount` calls in its first window and rejects the next, with `BlockedUntil` = that call + `Interval` |
| `Decision.RoundAfterExpiry` | ratelimiter/ratelimiter_test.go:44-55 | after the lockout and a full window, the pattern (`MaxCount` admissions, then a blocking rejection) repeats and ends in a state that meets its own preconditions again |
| `RateLimiter.CallThrice` | ratelimiter/ratelimiter_test.go:39-43 | with quota 2, three calls at one instant on a new or expired key give true, true, false, and leave the key blocked until one interval later |
| `RateLimiter.BlockAndResetFlow` | ratelimiter/ratelimiter_test.go:32-58 | the test's flow (quota 2, 5 s window, three rounds one interval + 1 ns apart) gives true, true, false three times |

## Left out

- `sync.RWMutex` locking in `IsAllowed` and `GetStats` (ratelimiter.go:21, 37-38, 111-112). Calls are modelled as sequential, which is what one lock held for the whole call guarantees. Linearizability is not stated.
- Clock reads (`time.Now`, `time.Since`). Each call receives one `now`. Line 86 reads the clock a second time; the model uses the same `now` there.
- All `fmt.Printf` diagnostics. They print and do not affect any decision.
- `GetStats` text rendering (`fmt.Sprintf`, time and duration formatting). `GetStats` returns a `Stats` value with the fields it would print. The "No data" case is `NoData(key)`.
- `main.go`, a demo that sleeps and prints timestamps and does not use the limiter.
- Go's 64-bit `int` and `time.Duration`, and the saturation of `time.Time` arithmetic. Counts and times are unbounded integers, so overflow after 2^63 requests or at the ends of the time range is not modelled.
- The zero `time.Time` of a new record's `BlockedUntil` is the integer 0. The decision reads it only while the record is blocked. `GetStats` reports it for every known key, so a key never blocked reports 0 where Go prints the zero time. In the model 0 is also an ordinary instant.
- The monotonic clock. `now` is not required to be non-decreasing across calls, so the class methods do not keep `WindowBeforeBlock` as part of `Valid()`. The lemmas that rely on a clock that never goes backwards (`ReplayKeepsWindowBeforeBlock`, `ExpiryAfterRun`) take non-decreasing call times as a hypothesis.
- `IP`, `MaxCount` and `Interval` are exported, mutable fields in Go. The package never writes them after construction, so they are constants here.
- `BasicTest` in the test file calls `getRateLimitData` after one call and checks the count is 1. Its name lacks the `Test` prefix, so Go never runs it. Its content is covered by `FreshKeyQuota` and `CallThrice`.

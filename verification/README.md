# TTL cache model

A Dafny model of the Go package `ttl`. The package is a string-keyed cache in which every item
disappears after a time-to-live. Each item records three things:

- the instant it was created or last reset (`Start`);
- the duration captured when it was created (`Duration`);
- its value.

The cache has a default `Duration` for new items and a `ResetOnAdd` policy. When the policy is on,
re-adding a present key restarts that key's countdown. Each item has a timer goroutine that deletes
the key when the timer fires.

The model has two modules:

- `TtlCache` (`ttl.dfy`) holds the data model and the operations. `Cache<V>` holds `duration`,
  `resetOnAdd` and `items: map<string, Item<V>>`. The operations are pure functions: `New`, `Len`,
  `Add`, `Get`, `TTL`, and `Expire`, which is the deletion the timer goroutine performs. Clock reads
  are an explicit `now: Instant` argument, an integer count of nanoseconds. `Duration` is the int64
  range of Go's `time.Duration`. `Get` returns `Option<V>`: `None` stands for `(nil, false)`.
- `CacheTrace` (`trace.dfy`) treats the cache as a sequential state machine. An event is a caller's
  `Add`, a timer firing, or a write to one of the two public configuration fields. Timer firings are
  allowed only once the clock has reached the item's deadline `Start + Duration`, and clock readings
  never decrease. This module also gives an independent reference semantics, which reads each key's
  state from the last event that names it. Lemmas prove that the cache agrees with it after any
  trace.

Because every operation is a pure function of its arguments, `Get`, `TTL` and `Len` cannot modify
the cache. The expiry removal deletes the key unconditionally, exactly as `ttl.go:57` does. It does
not check that the item is still the one its timer was started for. A design with a per-item
generation stamp would check that. The model follows the code, not that design.

## Model

| member | source | states |
|---|---|---|
| TtlCache.New | ttl.go:26-31 | a new cache is empty (`Len` is 0), keeps the given duration, and has the reset policy off |
| TtlCache.Add | ttl.go:43-74 | an absent key gets an item stamped `now` with the cache's current duration, and `Len` grows by one; a present key keeps its captured duration and `Len`, and gets the new value; its start moves to `now` only when `resetOnAdd` is set; no other key and no configuration field changes |
| TtlCache.Get | ttl.go:77-87 | finds a value exactly when the key is present, and that value is the stored one |
| TtlCache.Saturate | ttl.go:100 | a difference of instants converted to a `Duration` is exact inside the int64 range, clamps to the nearer bound outside it, and never changes sign |
| TtlCache.TTL | ttl.go:91-101 | reports found exactly when the key is present, 0 when it is absent, `Start + Duration - now` when that fits a `Duration`, and a non-positive remainder exactly when the deadline has been reached |
| TtlCache.Expire | ttl.go:51-58 | the fired timer removes exactly its key, whatever item is stored there; every other key reads as before; `Len` drops by one when the key was present, and nothing changes when it was absent |
| TtlCache.GetAfterAdd | ttl_test.go:48-56 | right after `Add(k, v)`, `Get(k)` returns `v` and every other key reads as before |
| TtlCache.TtlAfterAdd | ttl.go:64-71 | at the instant of an `Add`, `TTL` reports the cache's duration for a new key and the item's own captured duration after a reset; without a reset it reports the same remainder as before the `Add` |
| TtlCache.LookupsAfterExpire | ttl.go:57 | after expiry `Get` and `TTL` miss the removed key, and `TTL` of every other key is unchanged |
| CacheTrace.GetMatchesLastValue | ttl.go:43-87 | after any trace of adds, timer firings and configuration writes, `Get(k)` is the value of the last add of `k`, or a miss if a timer fired after that add |
| CacheTrace.LenMatchesLiveKeys | ttl.go:34-39 | after any trace, the cache's keys are exactly the keys whose last event is an add, and `Len` is their number |
| CacheTrace.StepKeepsStarts | ttl.go:64-71 | in a valid step, no item's start is ever later than the clock |
| CacheTrace.DeadlineNeverRecedes | ttl.go:64-71 | in a valid trace whose events all happen before a present item's deadline, the item stays present and keeps its captured duration; neither resets nor duration changes bring its deadline forward |
| CacheTrace.DeadlineFixedWithoutReset | ttl.go:60-64 | with the reset policy off and never switched on, re-adding a key leaves its start and captured duration, hence its deadline, unchanged until its timer removes it |
| CacheTrace.DurationChangeOnlyAffectsNewKeys | ttl_test.go:8-40 | raising the cache's duration from one to two seconds gives a later key a two-second deadline, while the earlier key keeps one second and may be removed at two seconds |
| CacheTrace.ResetPostponesExpiry | ttl_test.go:42-63 | with resets on, re-adding after one second returns the new value and moves a two-second deadline to three seconds: the timer may not fire at 2.5 s but may fire at 3 s |

## Left out

- Locking (`sync.Mutex`) and goroutine scheduling: each operation is one atomic step of a sequential state machine.
- `time.Now`, `time.NewTimer`, `Timer.Reset` and the channel receive are runtime calls. The clock is an explicit `now` argument. A timer firing is the `TimerFired` event, which is allowed once the clock reaches the item's deadline.
- The failed `Timer.Reset` at ttl.go:65-68. When `Reset` reports that the timer already fired, a new timer is created, but no goroutine waits on it. The old goroutine can then delete the just-reset item before its new deadline. This depends on how goroutines interleave. The model has no timer-to-goroutine pairing, so its firings always respect the current deadline.
- Liveness: nothing forces a timer to fire once its deadline passes, because traces are finite and carry no fairness assumption. The model proves that no item leaves early, not that it leaves on time.
- `Time.Add` overflow: instants are unbounded integers, so overflow at the ends of Go's time range is not modelled. The saturation of `Time.Sub` in `TTL` is modelled.
- A single `Add` that resets reads the clock twice, once when it resets the timer and once at ttl.go:70. The model reads it once, as `now`.
- The `interface{}` value type is the type parameter `V`.
- The sleep-based timing of the tests becomes explicit instants in `DurationChangeOnlyAffectsNewKeys` and `ResetPostponesExpiry`.

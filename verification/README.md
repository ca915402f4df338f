# Expiring string cache

A Dafny model of a small in-memory key/value store. Keys and values are
strings; each entry may carry an absolute deadline. An entry without a
deadline never expires; an entry with one is expired once its deadline lies
strictly before the current time. Expired entries are not swept: a lookup
(`Get`) that meets one deletes it and reports the key as absent, and `Keys`
looks up every key in turn, so it evicts every expired entry and returns the
live keys.

- `cache.dfy`, module `Cache`: the instant type (`Time`, with `ZeroTime`
  standing for the unset deadline), the entry datatype `Item` (the `item`
  struct of cache.go:5-8, a value and a deadline) with its expiry test
  `IsExpired` (cache.go:10-16; its meaning is stated by the lemmas
  `UnsetDeadlineNeverExpires`, `DeadlineBoundary` and `ExpiryIsPermanent`),
  the class `Cache` whose field `items: map<string, Item>` is updated in
  place by `Get`, `Put`, `PutTill` and `Keys`, and the specification
  functions `LiveKeys` (keys not expired at `now`) and `Evict` (the map with
  the expired entries removed).
- `cache_laws.dfy`, module `CacheLaws`: lemmas relating instants and
  operations (expiry is permanent, live keys only shrink over time, how a
  write changes the live keys, eviction is idempotent), client methods that
  state the laws of repeated calls on an existing cache, and the scenarios
  of the repository's tests on a fresh cache.

The current time is the parameter `now` of `IsExpired`, `Get` and `Keys`.
`Keys` picks its next key with `:|`, so the model fixes no iteration order;
its contract speaks of the set of returned keys, of their number and of
their being distinct.

## Model

| member | source | states |
|---|---|---|
| CacheLaws.UnsetDeadlineNeverExpires | cache.go:10-13 | an entry whose deadline is the zero instant is not expired at any `now` |
| CacheLaws.DeadlineBoundary | cache.go:14-15 | expiry is a strict comparison: an entry is live at `now == deadline` and expired at `deadline + 1` |
| CacheLaws.ExpiryIsPermanent | cache.go:10-16 | an entry expired at `t` is expired at every later `u` |
| CacheLaws.LiveKeysShrinkOverTime | cache.go:43-54 | for `t <= u` the keys live at `u` are a subset of those live at `t` |
| Cache.Cache.constructor | cache.go:22-24 | a new cache holds the empty map |
| Cache.Cache.Get | cache.go:26-36 | found iff the key is present and not expired; not found implies the value `""`; a missing key leaves the map unchanged; an expired key is removed and nothing else; a live key returns its stored value and leaves the map unchanged |
| Cache.Cache.Put | cache.go:38-41 | the map afterwards is the old map with the key bound to the value and no deadline; every other key is unchanged |
| Cache.Cache.PutTill | cache.go:56-59 | the map afterwards is the old map with the key bound to the value and the given deadline, even a past one; every other key is unchanged |
| Cache.Cache.Keys | cache.go:43-54 | the result is duplicate-free, its elements are exactly the keys live at `now`, its length is their number, and the map afterwards is the old map restricted to those keys |
| Cache.DistinctCardinality | cache.go:44-53 | a duplicate-free sequence of keys has as many elements as its set, which gives the length of the `Keys` result |
| CacheLaws.WriteLiveKeys | cache.go:56-59 | writing an entry adds its key to the live keys if the entry is live at `now` and removes it otherwise; no other key's liveness changes |
| CacheLaws.EvictIsIdempotent | cache.go:43-54 | eviction keeps exactly the live keys with their entries, and evicting twice at one instant equals evicting once |
| CacheLaws.PutThenGet | cache.go:38-41 | after `Put(k, v)` a `Get(k)` at any instant returns `(v, true)`, even if `k` had a deadline before |
| CacheLaws.PutTillThenGet | cache.go:56-59 | after `PutTill(k, v, d)`, `Get(k, now)` returns `(v, true)` iff `d` is unset or `now <= d`, leaving the written entry in place; otherwise it returns `("", false)` and removes `k`, with every other key as before |
| CacheLaws.OverwriteWins | cache.go:38-41 | after `PutTill(k, v1, d)` and `Put(k, v2)`, `Get(k)` returns `(v2, true)` and the deadline is cleared |
| CacheLaws.ZeroDeadlineIsPut | cache.go:56-59 | `PutTill` with the zero deadline leaves the same map as `Put` |
| CacheLaws.GetExpiredTwice | cache.go:31-34 | two lookups of an expired key both return `("", false)` and together remove only that key |
| CacheLaws.KeysTwice | cache.go:43-54 | a second `Keys` at the same instant returns the same set of keys, of the same length, and leaves the map as the first left it |
| CacheLaws.EmptyCache | cache_test.go:22-25 | on a new cache `Get` of any key returns `("", false)` and `Keys` returns the empty sequence |
| CacheLaws.OverwriteValue | cache_test.go:169-187 | `Put("key1","value1")` then `Put("key1","value2")` makes `Get("key1")` return `("value2", true)` |
| CacheLaws.ExpiredValues | cache_test.go:79-102 | with `key1` unbounded, `key2` due at start+2 and `key3` at start+120, lookups at start+3 find `key1` and `key3` with their values, miss `key2` and an unknown key, and `Keys` returns exactly `{"key1", "key3"}` |

## Left out

- The wall clock: `time.Now()` (cache.go:14) becomes the parameter `now`. In the source every expiry test reads the clock afresh, so time may advance while `Keys` runs; the model uses one instant per `Keys` call.
- `time.Time` internals (monotonic readings, locations, nanosecond precision): an instant is an integer, and the zero instant `ZeroTime` (0) plays the role of Go's zero `time.Time`. A deadline equal to that instant therefore means "no deadline", exactly as `IsZero` makes it in the source.
- Go's map iteration order in `Keys`: the model chooses keys nondeterministically and states only order-independent properties.
- Concurrency: the source has no locking; the model is single-threaded.
- The zero value of the Go `Cache` struct (a `Cache` declared without `NewCache`) is not modelled: its map is nil, so in the source `Get` on it returns `("", false)` and `Keys` returns an empty slice, but `Put` and `PutTill` panic when they assign into the nil map (cache.go:40, cache.go:58). Every cache in the model is built by the constructor, which stands for `NewCache`, so every operation in the model is total.
- Value semantics of the Go `Cache` struct: it is passed by value but shares its map, so every copy sees every update; the model uses one object reference for that shared map.
- The table-driven test runner, `time.Sleep` and the error reporting of cache_test.go are not modelled; the test scenarios appear as the client methods above, with time units standing for seconds.

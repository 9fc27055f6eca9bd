# go-cache TTL store, modelled in Dafny

The repository is a small Go key-value cache with per-entry time-to-live. Two source files each
carry their own copy of the store, and they cannot be built together:

- `main.go`: `store` maps a key to a `value` record holding the value, the absolute expiry second
  (`Expire`) and a `Writed` flag. Its operations are `set`, `get`, a ticker loop `checkExpired`
  that deletes expired entries, and a ticker loop `writeToFile` that logs each record not yet
  written. HTTP handlers `/set` and `/get` call the store from a worker goroutine.
- `cache.go`: `Store` maps a key to a `Value` record with no flag. Its operations are `Set`, `Get`
  and the sweeper `CheckExpired`.

The model has five modules:

- `GoInt`: the `int64` type and Go's wrapping `+` on it.
- `Wrappers`: `Option`, for Go's nil-able pointer results.
- `Ttl`: the rule both copies share. It gives the default TTL of 10 when a set passes 0, the
  expiry second `now + ttl` in int64 arithmetic, and the strict test `t > Expire` a sweep uses.
  It also defines the map a sweep leaves behind (`Swept`) and the lemmas about sweeping.
- `LogStore`: the store of `main.go`, as a class with a `map` field. `Set`, `Get`, one sweep tick,
  one log pass and the `/set` and `/get` workers are methods on it.
- `Cache`: the store of `cache.go`, as a class with `Set`, `Get` and one sweep tick.

Wall-clock time is a parameter: `now` for `time.Now().Unix()` and `t` for the ticker's
`t.Unix()`. Go's map iteration order is unspecified. The sweep and the log pass therefore pick
the next key with `:|`, and their contracts say what the pass does to the map and to which keys,
not in which order.

Go adds int64 values with wrap-around. A TTL of at least `2^63 - now` therefore stores an
expiry second before `now`, and so does any negative TTL. Such an entry is removed by the very
next sweep tick (`Ttl.ExpiresAtOnce`). The model keeps this behaviour as written.

Three facts about the code shape the model:

- A log line is `k --> value ` followed by a newline, with no timestamp (main.go:281-282).
- The signal handling at main.go:221-232 is commented out, so nothing ever stops the sweeper
  or the log writer.
- `get` never reads `Expire` (main.go:67-75): an expired entry is found until a sweep removes it.

## Model

| member | source | states |
|---|---|---|
| GoInt.Add | main.go:63 | int64 `+` returns the int64 congruent to the true sum modulo 2^64; when the sum fits, the result is the sum; past the maximum, it wraps below both operands |
| Ttl.EffectiveTtl | main.go:60-62 | the TTL a set applies is never 0: it is the default 10 when `exp` is 0, and `exp` otherwise |
| Ttl.ExpireAt | main.go:58-63 | the stored expiry is `now + ttl` in int64; with `exp == 0` it is `now + 10`, otherwise `now + exp` when that fits |
| Ttl.SweptMonotone | main.go:204-208 | a later sweep tick subsumes an earlier one: nothing removed comes back, sweeping twice at one second equals sweeping once, and two ticks commute |
| Ttl.SweptCount | main.go:204-208 | a tick keeps the unexpired entries and removes one entry per expired key, so the two counts add up to the old size |
| Ttl.EntryLifetime | main.go:58-63 | an entry set at `now` with a non-negative TTL that fits is kept by every tick up to and including `now + ttl`, and removed by every later tick |
| Ttl.ExpiresAtOnce | main.go:58-63 | a negative TTL, or one whose sum wraps past the int64 maximum, stores an expiry that the next tick at or after `now` already treats as expired |
| LogStore.Store.New | main.go:250-251 | a new store has an empty map and `checkTime == opt.CheckTime` |
| LogStore.Store.Set | main.go:49-65 | a present key gives `(k + " already added", false)` and leaves the whole map unchanged; an absent key gives `("success", true)` and adds exactly one record: value `v`, expiry `ExpireAt(now, exp)`, not written; all other keys are unchanged |
| LogStore.Store.Get | main.go:67-75 | found iff the key is present, with the stored record whatever its expiry; otherwise `(None, false)`; the map is never changed |
| LogStore.Store.CheckExpiredTick | main.go:204-208 | after a tick at `t`, exactly the keys with `t > Expire` are gone; an entry with `Expire == t` survives; kept entries are unchanged and no key is added |
| LogStore.Store.WriteToFilePass | main.go:277-289 | every record is flagged as written afterwards and nothing else changes; one line `k --> value ` per key whose flag was false beforehand, each key once, no other lines |
| LogStore.FlushIdempotent | main.go:280-287 | after a pass no key is unwritten, so a second pass with no set in between emits no lines and leaves the map unchanged |
| LogStore.FlushSweepCommute | main.go:277-289 | a log pass and a sweep tick commute on the map: flagging never changes which entries a sweep removes |
| LogStore.SweptBeforeLogged | main.go:280-287 | an unwritten entry that a sweep removes before the next log pass is never logged; the keys lost are exactly the expired unwritten ones |
| LogStore.Store.HandleSet | main.go:101-139 | a missing or empty `key` gives "Url Param 'key' is missing", and a missing or empty `value` gives "Url Param 'value' is missing", both with `Success=false` and the store untouched; a conflict gives the set message with `Success=false`; otherwise the response is "success" with the stored record and `Success=true`; the TTL is the parsed `expiration`, or 0 when it is absent |
| LogStore.Store.HandleGet | main.go:165-183 | a missing or empty `key` gives "Url Param 'key' is missing"; an absent key gives "Found nothing"; a present key, expired or not, gives "success" with its record |
| LogStore.FirstWriterWinsScenario | main.go:53-64 | on a fresh store, setting foo=bar succeeds with expiry `now + 10`; setting foo again is refused with "foo already added"; a later get still returns the first record |
| LogStore.ExpiryScenario | main.go:204-208 | an entry set with TTL 0 is still found after a tick at `now + 10` and is gone after a tick at `now + 11` |
| Cache.Store.New | cache.go:162-165 | a new store has an empty map and `checkTime == opt.CheckTime` |
| Cache.Store.Set | cache.go:31-47 | a present key gives `(key + " already added", false)` and leaves the map unchanged; an absent key gives `("success", true)` and adds exactly `Value{ExpireAt(now, exp), value}`; all other keys are unchanged |
| Cache.Store.Get | cache.go:49-57 | found iff the key is present, with the stored record whatever its expiry; otherwise `(None, false)`; the map is never changed |
| Cache.Store.CheckExpiredTick | cache.go:152-157 | after a tick at `t`, exactly the keys with `t > Expire` are gone; kept entries are unchanged and no key is added |

## Left out

- HTTP serving: the server, routing, the `GET`-only method check, JSON encoding and status codes. The `/set` and `/get` workers are modelled only as the `Response` they build.
- The deadline race around each handler of main.go (`context.WithTimeout`, the worker goroutine and the `select`): it is concurrency. One effect is lost with it. The `/get` worker calls `cancel()` only on success (main.go:183). For a missing key or a key not found, the worker still writes its JSON at once (main.go:170, 178), which sends status 200. The later `WriteHeader(http.StatusGatewayTimeout)` (main.go:187) is then a superfluous call that Go ignores. So the caller gets the worker's body with status 200, but the handler returns only when the 2-second deadline fires.
- The handlers of cache.go. Its `/set` (cache.go:79-121) runs a worker that sleeps 4 seconds in all (cache.go:85-89) against a 1-second deadline (cache.go:15, 80). The `ctx.Done()` branch therefore always wins: every `/set` answers status 500, and the `s.Set(key, value, 20)` at cache.go:111 never runs. Its `/get` (cache.go:122-141) has no sleep and no race; it writes plain text and prints the store to stdout.
- Ticker loops, their intervals and `sync.Mutex`: one tick or one pass is one method call, and the model assumes calls are atomic. The source does not make them so. The sweeps of both files take no lock at all (main.go:198-211, cache.go:146-160), so a set that runs during a sweep is a Go fatal concurrent map access. A `checkTime` of 0 or less would make Go's ticker panic; that is not modelled either.
- Unlocked re-reads in the main.go handlers: the `/set` worker reads `s.kv[key]` after `set` has released the lock (main.go:138), and the `/get` worker reads `s.kv[searchKey]` after `get` has (main.go:181). The model returns the record just stored or just found.
- The log file: opening, writing and closing it, the timestamped file name, and the `Println` of every entry (main.go:279). `WriteToFilePass` returns the lines the pass tries to write, and a failed write does not stop that record's flag being set. Three error paths are not modelled:
  - If opening the file failed, the first tick returns at main.go:264-267. That `return` comes after `s.mu.Lock()` at main.go:263 and never unlocks, so every later set or get blocks forever.
  - A failed write assigns the outer `err` (main.go:282). If the last write of a pass fails, the next tick takes the same `return` while holding the lock.
  - The `Close` is deferred inside the loop (main.go:268-275), so it runs only when the writer returns.
- The `fmt.Println(k, v, t)` inside the sweep of cache.go (cache.go:153): it is output to stdout.
- Pointer aliasing: records are values in the map. A record that `Get` or a handler returned earlier does not see a later flip of its `Writed` flag.
- The configuration globals that `New` of main.go assigns (port, logging switch, write interval) and `dialTimeout` of cache.go: they are process configuration and networking.
- `strconv.Atoi`: it is library code, so it is the parameter `atoi` of `HandleSet`. The model assumes a 64-bit `int`.
- `Run` and the commented-out signal handling: they are process lifecycle and goroutines.
- main_test.go: it needs a live server and asserts only that the body is JSON.

# cache2 — a Dafny model of the cache engine and its in-memory backends

cache2 is a small key-value cache with expiry. Each cache instance works on a namespace. A
namespace's record maps every key to an entry `{v, t, n}`:

- `v` is the value;
- `t` is the absolute expiry instant, where `0` means the entry never expires;
- `n` is the instant the entry was last written.

The engine in `src/Cache.ts` has these behaviours:

- **Lazy expiry.** A read that meets an expired entry deletes it. It emits a `del` event and then an
  `expired` event.
- **A capacity bound `max`.** The `'limited'` strategy refuses a new key. The `'replaced'` strategy
  evicts the entry with the smallest `(t, n)`.
- **The public operations:** `get`, `mget`, `getAll`, `set`, `mset`, `del`, `clear`, `keys`, `has`,
  `take`, `ttl`, `getTtl` and `getLastModified`.
- **A sweep.** `startCheckperiod` runs one `keys()` pass.

The record lives in the in-memory backend `src/MemoryStorage.ts`, which keeps a registry of
per-scope tables. The scope is the namespace, and the record is stored in that table under the key
`prefix + namespace` (src/Cache.ts:92-98, src/Storage.ts:59, 71-73, 87). While that record is
stored, every instance with that namespace and the same `prefix` holds the same record object.
`src/memoryStorage.ts` is a second, separate in-memory table with one global map; the cache does
not use it.

The project has these modules:

| file | module | what it holds |
|---|---|---|
| `wrappers.dfy` | `Wrappers` | `Option`, standing in for JavaScript's `undefined` |
| `js_values.dfy` | `JsValues` | the stored JavaScript values and their truthiness |
| `global_memory.dfy` | `GlobalMemory` | `src/memoryStorage.ts`. `Store` holds the module-level table. Its methods change it in place. |
| `scoped_memory.dfy` | `ScopedMemory` | `src/MemoryStorage.ts`, as three classes. `Registry` is the module-level scope registry. `Table` is one scope's table. `MemoryStorage` holds a reference to its scope's table. |
| `cache_types.dfy` | `CacheTypes` | entries, events, options and the record state. It also holds `_wrap`, `_isLimited`, the expiry test and the `_getReplaceKey` comparison. The remaining functions describe what a validity scan keeps (`Live`, `Purge`) and what it emits (`ExpiryEvents`). |
| `cache_spec.dfy` | `CacheSpec` | every engine operation as a pure function of the state before the call. The result is the new record, the event log with the new events appended, and the return value. A `forEach` loop is a fold with an accumulator. Each operation's contract relates its result to the declarative descriptions in `CacheTypes`. |
| `cache_properties.dfy` | `CacheProperties` | lemmas relating several operations: expiry bounds, the capacity bound, which key an eviction removes, idempotence, `mset` as repeated `set`, and the capacity scenarios of `test/cache.test.ts` |
| `cache.dfy` | `CacheEngine` | the imperative engine. `Record` is the namespace's record, shared by reference. `Cache` holds `options` and the emitted events. Each `Cache` method is proved to have exactly the effect of its `CacheSpec` function. |

The model has no clock. Every operation takes `now`, the instant at which it runs.

## Model

| member | source | states |
|---|---|---|
| `GlobalMemory.Store.constructor` | src/memoryStorage.ts:1 | there is one module-level table, and it starts empty |
| `JsValues.Truthy` | src/memoryStorage.ts:5 | the `cache[key] || null` test: `undefined`, `null` and `NaN` are falsy, every object is truthy, a string is truthy iff non-empty and a number iff non-zero |
| `GlobalMemory.Store.GetItem` | src/memoryStorage.ts:4-6 | a present key with a truthy value gives that value. Anything else gives `null`: a missing key, or a stored falsy value (`0`, `''`, `false`, `NaN`, `undefined`, `null`). |
| `GlobalMemory.Store.SetItem` | src/memoryStorage.ts:7-9 | the table becomes the old table with `key` set to `value`. `key` reads back as `value` or `null` depending on its truthiness. Every other key reads as before. |
| `GlobalMemory.Store.RemoveItem` | src/memoryStorage.ts:10-12 | `key` alone is deleted and then reads as `null`. Other keys read as before, and an absent key leaves the table as it was. |
| `ScopedMemory.Registry.constructor` | src/MemoryStorage.ts:2 | the scope registry starts empty, and every table in it was made for its own scope |
| `ScopedMemory.Table.constructor` | src/MemoryStorage.ts:11 | a new scope table is empty |
| `ScopedMemory.MemoryStorage.constructor` | src/MemoryStorage.ts:8-14 | a missing scope means `'default'`. A known scope yields the registry's existing table and leaves the registry unchanged. An unknown scope gets a fresh empty table, which is added to the registry. |
| `ScopedMemory.MemoryStorage.GetItem` | src/MemoryStorage.ts:16-18 | an absent key gives `null`. A present key gives the stored value, falsy values included. |
| `ScopedMemory.MemoryStorage.SetItem` | src/MemoryStorage.ts:20-22 | the shared table gets `key := value`. `key` reads back as `value`, and every other key is unchanged. |
| `ScopedMemory.MemoryStorage.RemoveItem` | src/MemoryStorage.ts:24-26 | only `key` is removed, and it then reads as `null`. An absent key is a no-op. |
| `ScopedMemory.MemoryStorage.Clear` | src/MemoryStorage.ts:28-31 | a fresh empty table is installed in the registry for this scope. This instance points at it, so every key reads as `null`. |
| `ScopedMemory.SameScopeShares` | src/MemoryStorage.ts:8-14 | two instances built with the same scope hold one table, so a write through the first is read through the second |
| `ScopedMemory.DistinctScopesIsolated` | src/MemoryStorage.ts:10-13 | instances of different scopes hold different tables, and a write through one leaves the other's table as it was |
| `ScopedMemory.ClearLeavesEarlierInstances` | src/MemoryStorage.ts:28-31 | after `clear`, an instance created earlier for the scope still reads its old table. The clearing instance and later instances read the new empty table. |
| `CacheTypes.FilterOut` | src/Cache.ts:330 | deleting keys from the record keeps an element iff it is not in the deleted set, and no duplicates appear. The order of what is kept is stated by `CacheTypes.FilterOutKeepsOrder`. |
| `CacheTypes.FilterOutAppend` | src/Cache.ts:330 | deleting keys distributes over concatenation: the kept part of `a + b` is the kept part of `a` followed by the kept part of `b` |
| `CacheTypes.FilterOutKeepsOrder` | src/Cache.ts:330 | deleting keys keeps the remaining keys in their relative order: around any element `k`, the kept elements before it come first, then `k` unless it is deleted, then the kept elements after it |
| `CacheTypes.Live` | src/Cache.ts:365-369 | the keys `keys()` keeps are exactly the present keys that are not expired, without duplicates. Their order is stated by `CacheTypes.LiveKeepsOrder`. |
| `CacheTypes.LiveAppend` | src/Cache.ts:365-369 | the `keys()` filter distributes over concatenation: the live keys of `a + b` are those of `a` followed by those of `b` |
| `CacheTypes.LiveKeepsOrder` | src/Cache.ts:365-369 | the `keys()` filter keeps the keys in their original relative order: around any key `k`, the live keys before it come first, then `k` when it is present and valid, then the live keys after it |
| `CacheTypes.LiveIsFilterOut` | src/Cache.ts:368 | when every scanned key is present, the kept keys are the scanned keys with the expired ones filtered out |
| `CacheTypes.TableSize` | src/Cache.ts:257 | `Object.keys(record).length` is the number of entries in the record |
| `CacheTypes.Expired` | src/Cache.ts:113 | an entry is expired only when `t != 0 && t < now`: `t == 0` never expires, and neither does an entry whose `t` has not passed |
| `CacheTypes.EffectiveTtl` | src/Cache.ts:123 | a given `ttl` is used as is, and an absent one falls back to `stdTTL` |
| `CacheTypes.Wrap` | src/Cache.ts:121-130 | `_wrap` keeps the value and sets `n = now`. `t = now + ttl` when the effective ttl is positive, and `t = 0` otherwise. A freshly wrapped entry is never expired at `now`. |
| `CacheTypes.IsLimited` | src/Cache.ts:132-134 | a negative `max` never limits. Otherwise the bound is reached iff `len >= max`. |
| `CacheTypes.Before` | src/Cache.ts:139-142 | the `(t, n)` comparison of `_getReplaceKey` is strict: equal pairs are not before each other. Being before implies the smaller or equal `t`, and a never-expiring entry (`t == 0`) comes before any entry with a positive `t`. |
| `CacheSpec.Del` | src/Cache.ts:322-338 | `del` removes exactly the listed keys that are present, with no expiry check, and keeps the order of the others. It returns their number, counting a duplicate once. It appends one `del` event per removed key, each carrying the value that key held, with no key twice. |
| `CacheSpec.Check` | src/Cache.ts:111-119 | an entry is valid iff not (`t != 0 && t < now`). An expired entry leaves the order and the record, and a `del` event then an `expired` event carry its value. A valid entry changes nothing. |
| `CacheSpec.Lookup` | src/Cache.ts:174-176 | the lookup `data && _check(key, data)` finds an entry iff the key is present and valid, and then it is the stored entry. Otherwise only the lazy expiry of that key happens. |
| `CacheSpec.Get` | src/Cache.ts:174-180 | `get` returns the value iff the key is present and valid. An expired key is deleted with its two events. |
| `CacheSpec.Has` | src/Cache.ts:382-385 | `has` is true iff the key is present and valid, with the same lazy expiry |
| `CacheSpec.Take` | src/Cache.ts:399-407 | `take` returns the value iff the key is present and valid, and then deletes it through `del` with one `del` event. Otherwise it behaves like a read. |
| `CacheSpec.Ttl` | src/Cache.ts:423-432 | `ttl` succeeds iff the key is present and valid. It then rewrites the entry in place with `_wrap(v, ttl)`: same value, new `t`, `n = now`, and no event. A missing key changes nothing, and an expired key is deleted by the lazy check. |
| `CacheSpec.GetTtl` | src/Cache.ts:450-458 | a present, valid key gives its `t`. Otherwise nothing is returned, with lazy expiry. |
| `CacheSpec.GetLastModified` | src/Cache.ts:476-484 | a present, valid key gives its `n`. Otherwise nothing is returned, with lazy expiry. |
| `CacheSpec.ScanStep` | src/Cache.ts:368 | one step of the `keys()` filter: `_check` on the first key leaves the rest of the snapshot present |
| `CacheSpec.Keys` | src/Cache.ts:365-369 | `keys()` returns exactly the valid keys in their original order. The record keeps exactly the valid entries. The log gains, in key order, `del` and `expired` for each expired key. The record stays well formed. |
| `CacheSpec.Clear` | src/Cache.ts:351-353 | after `clear` the namespace holds no key and no entry, and no event is emitted |
| `CacheSpec.Sweep` | src/Cache.ts:503-505 | one sweep keeps exactly the valid keys, in their order and with their entries unchanged. Each expired key gets its `del` and `expired` events, in key order. The record stays well formed. |
| `CacheSpec.MGet` | src/Cache.ts:200-213 | `mget` returns exactly the requested keys that are present and valid, with their values. Exactly the expired keys among them are deleted, with their events in request order. |
| `CacheSpec.GetAll` | src/Cache.ts:233-236 | `getAll` returns exactly the present, valid keys of the record with their values. Exactly the expired entries are deleted, with their events in record order, and the record stays well formed. |
| `CacheSpec.Insert` | src/Cache.ts:274-276 | the write at the end of `set` stores the entry. An existing key keeps its place, a new key is appended, and a `set` event follows. |
| `CacheSpec.ReplaceKey` | src/Cache.ts:136-147 | `_getReplaceKey` returns the first position among the keys whose entry is minimal under the numeric `(t, n)` comparison |
| `CacheSpec.ReplaceFromFirstMinimum` | src/Cache.ts:138-145 | the `forEach` over the keys keeps the first minimum of the prefix it has seen |
| `CacheSpec.Set` | src/Cache.ts:251-278 | with `max == 0`, `set` returns false and changes nothing. Otherwise it succeeds iff any of these holds: the key is present; the raw key count is under the bound; the count of valid keys is under the bound; the strategy is `'replaced'`. On success the key holds `_wrap(value, ttl)` and the last event is `set`. On refusal the record has only been swept. |
| `CacheSpec.SetEach` | src/Cache.ts:296-297 | every item is `set` in turn, with one result per item |
| `CacheSpec.MSetFromEach` | src/Cache.ts:295-302 | `mset`'s loop reaches the state of setting every item in turn. Its flag is true iff no item's `set` returned false; the loop does not stop early. |
| `CacheSpec.MSet` | src/Cache.ts:293-303 | `mset` leaves the state of setting every item in turn, and returns true iff every `set` did |
| `CacheProperties.WrapLifetime` | src/Cache.ts:111-130 | an entry written with a positive effective ttl expires exactly when `now + ttl < later`. With no positive ttl it never expires. It is valid at the instant it is written, including `now == t`. |
| `CacheProperties.SetThenGet` | src/Cache.ts:251-278 | a successful `set` is read back by `get` until the entry expires, and that read changes nothing |
| `CacheProperties.TtlThenGetTtl` | src/Cache.ts:423-432 | after a successful `ttl(key, t)`, `getTtl` gives `now + t` for a positive `t` and `0` otherwise |
| `CacheProperties.DelIdempotent` | src/Cache.ts:322-338 | a second `del` of the same keys returns 0 and changes nothing |
| `CacheProperties.TakeThenHas` | src/Cache.ts:399-407 | `take` returns what `get` would, and afterwards `has` is false for the key |
| `CacheProperties.KeysOfValidRecord` | src/Cache.ts:365-369 | on a record with nothing expired, `keys()` returns the key order and changes nothing |
| `CacheProperties.KeysIdempotent` | src/Cache.ts:365-369 | a second `keys()` at the same instant returns the same keys and changes nothing, so a sweep is idempotent |
| `CacheProperties.SweepLeavesOnlyValid` | src/Cache.ts:503-505 | after a sweep, a key remains iff it was present and valid, and every remaining entry is valid |
| `CacheProperties.GetAllIsKeys` | src/Cache.ts:233-236 | `getAll` has the effect of `keys()` and returns the values of exactly the keys `keys()` returns |
| `CacheProperties.ClearEmpties` | src/Cache.ts:351-353 | after `clear`, no key is present and `keys()` is empty. No event is emitted. |
| `CacheProperties.SweepSize` | src/Cache.ts:261-262 | after the purge, the entries count equals the valid-key count and is at most the raw count |
| `CacheProperties.SetKeepsBound` | src/Cache.ts:260-272 | with `max >= 0`, a record within the bound stays within it after `set`. An eviction leaves exactly `max` entries. |
| `CacheProperties.SetKeepsValidKeys` | src/Cache.ts:251-278 | unless `set` evicts, every key valid before it is still present afterwards, and every key other than the one written keeps its entry |
| `CacheProperties.SetNeverInvents` | src/Cache.ts:251-278 | any key other than the one written that is present after `set` was present before, with the same entry |
| `CacheProperties.SetWithinBound` | src/Cache.ts:260-277 | a present key, or a new key while the raw count is under the bound, is written without a capacity check. An existing key keeps its position and a new key is appended. The only event is `set`. |
| `CacheProperties.SetLimitedRefuses` | src/Cache.ts:260-270 | with `'limited'`, a new key that finds the valid keys at the bound is refused. The record is only swept, the key is not written, and no `set` event is emitted. |
| `CacheProperties.SetAfterSweep` | src/Cache.ts:260-277 | a new key at the raw bound is written after all when the sweep leaves the valid keys under the bound. The expired entries are gone, the key is appended, and the expiry events come before `set`. |
| `CacheProperties.SetEvictionBranch` | src/Cache.ts:261-277 | in the eviction branch, `set` deletes `_getReplaceKey`'s choice among the valid keys from the swept record, then appends the new key. The log gains the sweep's expiry events, then a `del` event for the evicted key with its value, then the `set` event. |
| `CacheProperties.SetEvictionLog` | src/Cache.ts:264-276 | the events of an eviction come in this order: the sweep's `del`/`expired` pairs, the `del` of the evicted key (through `del`, src/Cache.ts:331), and then `set` |
| `CacheProperties.SetEvictsFirstMinimum` | src/Cache.ts:261-266 | an eviction succeeds, drops every expired entry, and removes exactly one valid key: the first valid key, in key order, whose entry is minimal by `(t, n)` |
| `CacheProperties.FirstMinimumSameEntries` | src/Cache.ts:265 | the eviction choice depends only on the entries of the valid keys |
| `CacheProperties.EvictionPrefersNeverExpiring` | src/Cache.ts:139-141 | with non-negative expiry instants, an entry with `t == 0` (never expires) ranks first, so `'replaced'` evicts a never-expiring entry whenever there is one |
| `CacheProperties.MSetAppend` | src/Cache.ts:293-303 | `mset` over `a + b` is `mset` over `a` then over `b`, and returns the conjunction, so a failing item does not stop the ones after it |
| `CacheProperties.SetEachAppend` | src/Cache.ts:296-301 | setting `a + b` item by item is setting `a` then `b` |
| `CacheProperties.MSetSingle` | src/Cache.ts:293-303 | `mset` of one item is `set` of it |
| `CacheProperties.ReplacedScenario` | test/cache.test.ts:292-302 | with `max: 2, stdTTL: 1000, 'replaced'`, `num` and `str` (ttl 500) are written, and `keys()` is `[num, str]`. Writing `obj` succeeds and evicts `str`, leaving `[num, obj]`. |
| `CacheProperties.ReplacedChoice` | test/cache.test.ts:300-301 | of `num` (t = now+1000) and `str` (t = now+500), `_getReplaceKey` picks `str` |
| `CacheProperties.LimitedScenario` | test/cache.test.ts:279-290 | with `max: 1, stdTTL: 1000`, `num` is written and `str` is refused, so `keys()` stays `[num]`. 1001 ms later `num` has expired, `str` is written, and `keys()` is `[str]`. |
| `CacheEngine.Namespace` | src/Cache.ts:75-81 | a non-empty string namespace is used as given. A missing or empty one becomes `'default'`. It stands on its own, because a `Cache` is given its record directly. |
| `CacheEngine.Record.constructor` | src/Cache.ts:152-154 | a namespace with no record reads as the empty record `{}` |
| `CacheEngine.Record.Put` | src/Cache.ts:274 | `record[key] = e`: the entry is stored. A new key is enumerated last and an existing key keeps its place. |
| `CacheEngine.Record.Delete` | src/Cache.ts:330 | `delete record[key]`: the key leaves the entries and the enumeration order |
| `CacheEngine.Record.Clear` | src/Cache.ts:351-353 | the namespace's record is dropped, and it reads as empty from then on |
| `CacheEngine.Cache.constructor` | src/Cache.ts:72-102 | the new instance works on its namespace's record, and the constructor's `startCheckperiod()` sweeps it once |
| `CacheEngine.Cache.Check` | src/Cache.ts:111-119 | `_check` has exactly the effect and result of `CacheSpec.Check`. Its `del` goes through `Del`. |
| `CacheEngine.Cache.GetReplaceKey` | src/Cache.ts:136-147 | the `forEach` loop over the keys returns `CacheSpec.ReplaceKey`, the first minimum by `(t, n)` |
| `CacheEngine.Cache.Get` | src/Cache.ts:174-180 | `get` on the shared record equals `CacheSpec.Get` |
| `CacheEngine.Cache.MGet` | src/Cache.ts:200-213 | the `forEach` loop of `mget` equals `CacheSpec.MGet` |
| `CacheEngine.Cache.GetAll` | src/Cache.ts:233-236 | `getAll` is `mget` over the record's keys |
| `CacheEngine.Cache.Set` | src/Cache.ts:251-278 | `set` on the shared record equals `CacheSpec.Set`, including the writes that `keys()` and `del` make to the record in the middle of it |
| `CacheEngine.Cache.MSet` | src/Cache.ts:293-303 | the `forEach` loop of `mset` equals `CacheSpec.MSet` |
| `CacheEngine.Cache.Del` | src/Cache.ts:322-338 | the counting loop of `del` equals `CacheSpec.Del` |
| `CacheEngine.Cache.Clear` | src/Cache.ts:351-353 | `clear` empties the record and leaves the events as they were |
| `CacheEngine.Cache.Keys` | src/Cache.ts:365-369 | the filter loop of `keys()` over the key snapshot equals `CacheSpec.Keys` |
| `CacheEngine.Cache.Has` | src/Cache.ts:382-385 | `has` equals `CacheSpec.Has` |
| `CacheEngine.Cache.Take` | src/Cache.ts:399-407 | `take` equals `CacheSpec.Take` |
| `CacheEngine.Cache.Ttl` | src/Cache.ts:423-432 | `ttl` rewrites the entry in the shared record with no write-back, and equals `CacheSpec.Ttl` |
| `CacheEngine.Cache.GetTtl` | src/Cache.ts:450-458 | `getTtl` equals `CacheSpec.GetTtl` |
| `CacheEngine.Cache.GetLastModified` | src/Cache.ts:476-484 | `getLastModified` equals `CacheSpec.GetLastModified` |
| `CacheEngine.Cache.StartCheckperiod` | src/Cache.ts:503-506 | one sweep: a `keys()` pass whose result is discarded |
| `CacheEngine.SharedNamespace` | src/Cache.ts:95-100 | for any two distinct instances on one record, any key, value, ttl and instants: `set` through the first succeeds exactly as `CacheSpec.Set` says, and when it does, `get` through the second returns the value until the entry expires |

## Left out

- Three details of the code are followed literally:
  - An entry is expired only when `t != 0 && t < now` (src/Cache.ts:113), so it is still valid at `now == t`.
  - `ttl` on an expired key deletes it through `_check`, with a `del` event and then an `expired` event (src/Cache.ts:427).
  - `ttl` relies on the record being shared by reference and never writes it back (src/Cache.ts:428).
- Eviction compares `t` numerically, so an entry that never expires (`t == 0`) is the first candidate. This is reproduced as written and stated in `EvictionPrefersNeverExpiring`.
- Event listeners (`on`, `once`, the emitter library): emissions are an appended event log.
- Timers: the periodic re-arming in `startCheckperiod` and all of `stopCheckperiod` are not modelled. The clock is the `now` argument, one instant per operation; the source reads `Date.now()` afresh inside an operation.
- The storage adapter `src/Storage.ts` (prefixing, JSON serialisation, backend detection) and `src/utils.ts` are not part of this model. A `Cache` is given its namespace's record directly, as the in-memory backend would hand it out.
- Persistence writes (`setCacheValues`) are not modelled. With the in-memory backend the record is shared by reference, so a write-back to a record that is already stored changes nothing observable. This covers `del`, which writes back only when its count is positive, and that is only possible for a stored record.
- The absent record is not modelled. Before the first write, and after `clear` removes the record (src/Cache.ts:351-353, src/Storage.ts:123-125), every read of `cacheValues` yields a fresh `{}` (src/Cache.ts:153). Only the write-back at the end of `set` (src/Cache.ts:275) stores a record again. In the model a namespace's `Record` always exists and `Record.Clear` empties it in place. Every operation then reads the same: an absent record and an empty one both hold no key, and reads of an absent record write nothing back.
- Constructor option handling: only `max`, `maxStrategy` and `stdTTL` are modelled. `checkperiod`, `prefix`, `storage` and the replacer/reviver options are not, and the options object is passed in already merged.
- `clear` empties the shared record in place, whereas the source deletes it from the storage. The next read of the namespace sees an empty record either way.
- JavaScript objects as maps: inherited keys such as `toString` or `__proto__` and the integer-first key order of `Object.keys` are not modelled. Keys are plain strings, and the record's own keys are enumerated in insertion order.
- `CacheSpec.MGet`, `CacheSpec.GetAll`, `CacheEngine.Cache.MGet`, `CacheEngine.Cache.GetAll`: the object these return is a `map`, so the order of its keys is not modelled. In the source that order is request order for `mget` and record order for `getAll` (src/Cache.ts:201-211, 234-235). The key and value pairs are modelled, and so are the order of the deletions and events on the way.
- `mget` with an argument that is not an array returns `{}` in the source; in the model the argument is always a sequence. `del` with a single key is `del` of a one-element sequence.
- Values are generic and `undefined` is `Option.None`, so a stored `undefined` value cannot be confused with a missing key as it can in the source.
- Numbers are mathematical integers. Fractional, `NaN` or infinite ttls and instants are not modelled. A ttl that is not a number (the source falls back to `stdTTL`) is a missing ttl.
- `ScopedMemory`: symbol scopes are not modelled; scopes are strings.
- `GlobalMemory.Store.GetItem` does not model the prototype lookup of a missing key: for keys such as `toString`, `cache[key] || null` returns an inherited function.

/** Properties of the cache engine that relate several operations, or one operation to an
    independent description of what it should do: expiry boundaries, the capacity bound that
    `set` keeps, which entry `'replaced'` evicts, idempotence of `del` and of the validity scan,
    `getAll` against `keys`, and `mset` as a sequence of `set`s. */
module CacheProperties {
  import opened Wrappers
  import opened CacheTypes
  import opened CacheSpec

  // ---------------------------------------------------------------- expiry

  /** An entry written with a positive lifetime expires strictly after `now + ttl`; one written
      with no positive lifetime never expires; either is valid at the instant it is written.
      (`now` is a clock reading in milliseconds since the epoch, so it is not negative.) */
  lemma WrapLifetime<V>(value: V, ttl: Option<int>, stdTTL: int, now: int, later: int)
    requires now >= 0
    ensures var life := EffectiveTtl(ttl, stdTTL);
            Expired(Wrap(value, ttl, stdTTL, now), later) <==> life > 0 && now + life < later
    ensures !Expired(Wrap(value, ttl, stdTTL, now), now)
  {
  }

  /** A successful `set` is read back by `get` for as long as the new entry has not expired,
      and `get` leaves the state alone meanwhile. */
  lemma SetThenGet<V>(st: State<V>, opts: CacheOptions, key: string, value: V, ttl: Option<int>, now: int, later: int)
    requires Valid(st)
    requires Set(st, opts, key, value, ttl, now).1
    requires !Expired(Wrap(value, ttl, opts.stdTTL, now), later)
    ensures var after := Set(st, opts, key, value, ttl, now).0;
            Get(after, key, later) == (after, Some(value))
  {
  }

  /** Once `ttl(key, t)` has succeeded, `getTtl` reports `now + t` for a positive `t` and `0`
      (never expires) otherwise. */
  lemma TtlThenGetTtl<V>(st: State<V>, stdTTL: int, key: string, ttl: int, now: int)
    requires Ttl(st, stdTTL, key, ttl, now).1
    ensures var after := Ttl(st, stdTTL, key, ttl, now).0;
            GetTtl(after, key, now).1 == Some(if ttl > 0 then now + ttl else 0)
  {
  }

  // ---------------------------------------------------------------- del

  /** A second `del` of the same keys finds none of them and changes nothing. */
  lemma DelIdempotent<V>(st: State<V>, keys: seq<string>)
    ensures var once := Del(st, keys).0;
            Del(once, keys) == (once, 0)
  {
    var once := Del(st, keys).0;
    assert forall k :: k in keys ==> k !in once.entries;
    assert Present(keys, once.entries) == {};
    var twice := Del(once, keys);
    FilterOutNothing(once.order, {});
    assert twice.1 == 0;
    assert twice.0.order == once.order;
    assert twice.0.entries == once.entries;
    assert twice.0.log == twice.0.log[..|once.log|] == once.log;
  }

  /** `take` answers what `get` answers and then leaves the key absent. */
  lemma TakeThenHas<V>(st: State<V>, key: string, now: int, later: int)
    ensures Take(st, key, now).1 == Get(st, key, now).1
    ensures !Has(Take(st, key, now).0, key, later).1
  {
  }

  // ---------------------------------------------------------------- the validity scan

  /** A pass over keys none of which is present and expired emits nothing. */
  lemma {:induction false} ExpiryEventsNone<V>(ks: seq<string>, entries: map<string, Entry<V>>, now: int)
    requires forall k :: k in ks && k in entries ==> !Expired(entries[k], now)
    ensures ExpiryEvents(ks, entries, now) == []
  {
    if ks != [] {
      ExpiryEventsNone(ks[1..], entries, now);
    }
  }

  /** On a record with nothing expired, `keys()` changes nothing and returns the key order. */
  lemma KeysOfValidRecord<V>(st: State<V>, now: int)
    requires Valid(st)
    requires forall k :: k in st.entries ==> !Expired(st.entries[k], now)
    ensures Keys(st, now) == (st, st.order)
  {
    LiveIsFilterOut(st.order, st.entries, now, {});
    FilterOutNothing(st.order, {});
    ExpiryEventsNone(st.order, st.entries, now);
    assert Purge(st.entries, now) == st.entries;
    assert st.log + [] == st.log;
  }

  /** A second `keys()` at the same instant finds nothing more to delete and returns the same
      keys; so a sweep is idempotent. */
  lemma KeysIdempotent<V>(st: State<V>, now: int)
    requires Valid(st)
    ensures var once := Keys(st, now);
            Keys(once.0, now) == once
  {
    var once := Keys(st, now);
    assert forall k :: k in once.0.entries ==> !Expired(once.0.entries[k], now);
    KeysOfValidRecord(once.0, now);
  }

  /** After a sweep every remaining entry is valid, and the sweep kept every valid one. */
  lemma SweepLeavesOnlyValid<V>(st: State<V>, now: int)
    requires Valid(st)
    ensures forall k :: k in Sweep(st, now).entries <==> ValidAt(st, k, now)
    ensures forall k :: k in Sweep(st, now).entries ==> !Expired(Sweep(st, now).entries[k], now)
  {
  }

  /** `getAll()` has the effect of `keys()` and returns the values of exactly the keys it
      returns. */
  lemma GetAllIsKeys<V>(st: State<V>, now: int)
    requires Valid(st)
    ensures GetAll(st, now).0 == Keys(st, now).0
    ensures GetAll(st, now).1 == map k | k in Keys(st, now).1 :: st.entries[k].v
  {
    var X := ExpiredAmong(st.order, st.entries, now);
    LiveIsFilterOut(st.order, st.entries, now, X);
    assert st.entries - X == Purge(st.entries, now);
  }

  /** `clear()` leaves a record in which nothing is present. */
  lemma ClearEmpties<V>(st: State<V>, key: string, now: int)
    ensures Has(Clear(st), key, now) == (Clear(st), false)
    ensures Keys(Clear(st), now) == (Clear(st), [])
    ensures Clear(st).log == st.log
  {
  }

  // ---------------------------------------------------------------- capacity and eviction

  /** `set` takes the `'replaced'` eviction branch. */
  predicate Evicts<V>(st: State<V>, opts: CacheOptions, key: string, now: int) {
    && opts.max != 0
    && key !in st.entries
    && IsLimited(opts.max, |st.order|)
    && IsLimited(opts.max, |Live(st.order, st.entries, now)|)
    && opts.maxStrategy == Replaced
  }

  lemma PurgeSize<V>(entries: map<string, Entry<V>>, now: int)
    ensures |Purge(entries, now)| <= |entries|
  {
    assert Purge(entries, now).Keys <= entries.Keys;
    SubsetSize(Purge(entries, now).Keys, entries.Keys);
  }

  lemma {:induction false} SubsetSize(a: set<string>, b: set<string>)
    requires a <= b
    ensures |a| <= |b|
    decreases b
  {
    if a != {} {
      var x :| x in a;
      SubsetSize(a - {x}, b - {x});
    }
  }

  /** The swept record has as many entries as there are valid keys, and no more than before. */
  lemma SweepSize<V>(st: State<V>, now: int)
    requires Valid(st)
    ensures |Purge(st.entries, now)| == |Live(st.order, st.entries, now)| <= |st.entries|
  {
    var r := Keys(st, now);
    TableSize(r.0.order, r.0.entries);
    PurgeSize(st.entries, now);
  }

  /** With a bound `max >= 0`, a record within the bound stays within it after `set`; an
      eviction leaves it exactly at the bound. */
  lemma SetKeepsBound<V>(st: State<V>, opts: CacheOptions, key: string, value: V, ttl: Option<int>, now: int)
    requires Valid(st) && opts.max >= 0 && |st.entries| <= opts.max
    ensures |Set(st, opts, key, value, ttl, now).0.entries| <= opts.max
    ensures Evicts(st, opts, key, now) ==> |Set(st, opts, key, value, ttl, now).0.entries| == opts.max
  {
    TableSize(st.order, st.entries);
    var after := Set(st, opts, key, value, ttl, now).0;
    var W := Wrap(value, ttl, opts.stdTTL, now);
    if opts.max == 0 {
    } else if key in st.entries || !IsLimited(opts.max, |st.order|) {
      SetWithinBound(st, opts, key, value, ttl, now);
      assert after.entries == st.entries[key := W];
    } else {
      var P := Purge(st.entries, now);
      SweepSize(st, now);
      if !IsLimited(opts.max, |Live(st.order, st.entries, now)|) {
        SetAfterSweep(st, opts, key, value, ttl, now);
        assert after.entries == P[key := W];
      } else if opts.maxStrategy == Replaced {
        assert Evicts(st, opts, key, now);
        SetEvictionState(st, opts, key, value, ttl, now);
        var rk := ReplaceKey(Live(st.order, st.entries, now), P);
        assert rk in P;
        assert |P - {rk}| == |P| - 1;
        assert after.entries == (P - {rk})[key := W];
      } else {
        SetLimitedRefuses(st, opts, key, value, ttl, now);
        assert after == Sweep(st, now);
      }
    }
  }

  /** Unless `set` evicts, every key valid before it is still there afterwards, and every key
      other than the one written keeps its entry. */
  lemma SetKeepsValidKeys<V>(st: State<V>, opts: CacheOptions, key: string, value: V, ttl: Option<int>, now: int)
    requires Valid(st) && !Evicts(st, opts, key, now)
    ensures var after := Set(st, opts, key, value, ttl, now).0;
            forall k :: ValidAt(st, k, now) ==> k in after.entries && (k != key ==> after.entries[k] == st.entries[k])
  {
  }

  /** `set` never makes up an entry: every key other than the one written that is in the record
      afterwards was there before with the same entry. */
  lemma SetNeverInvents<V>(st: State<V>, opts: CacheOptions, key: string, value: V, ttl: Option<int>, now: int)
    requires Valid(st)
    ensures var after := Set(st, opts, key, value, ttl, now).0;
            forall k :: k != key && k in after.entries ==> k in st.entries && after.entries[k] == st.entries[k]
  {
    var after := Set(st, opts, key, value, ttl, now).0;
    var W := Wrap(value, ttl, opts.stdTTL, now);
    var P := Purge(st.entries, now);
    if opts.max == 0 {
    } else if key in st.entries || !IsLimited(opts.max, |st.order|) {
      SetWithinBound(st, opts, key, value, ttl, now);
    } else if !IsLimited(opts.max, |Live(st.order, st.entries, now)|) {
      SetAfterSweep(st, opts, key, value, ttl, now);
      assert after.entries == P[key := W];
    } else if opts.maxStrategy == Replaced {
      assert Evicts(st, opts, key, now);
      SetEvictionState(st, opts, key, value, ttl, now);
      var rk := ReplaceKey(Live(st.order, st.entries, now), P);
      assert after.entries == (P - {rk})[key := W];
    } else {
      SetLimitedRefuses(st, opts, key, value, ttl, now);
      assert after.entries == P;
    }
  }

  /** A key already present, or a new key while the raw key count is under the bound, is
      written without any capacity check: an existing key keeps its place in the key order and a
      new key goes last. */
  lemma SetWithinBound<V>(st: State<V>, opts: CacheOptions, key: string, value: V, ttl: Option<int>, now: int)
    requires Valid(st) && opts.max != 0 && (key in st.entries || !IsLimited(opts.max, |st.order|))
    ensures var r := Set(st, opts, key, value, ttl, now);
            && r.1
            && r.0.order == (if key in st.entries then st.order else st.order + [key])
            && r.0.entries == st.entries[key := Wrap(value, ttl, opts.stdTTL, now)]
            && r.0.log == st.log + [SetEvent(key, value)]
  {
  }

  /** With `'limited'`, a new key that finds the valid keys at the bound is refused: the record
      is only swept, and no `set` event is emitted. */
  lemma SetLimitedRefuses<V>(st: State<V>, opts: CacheOptions, key: string, value: V, ttl: Option<int>, now: int)
    requires Valid(st) && opts.max != 0 && key !in st.entries && IsLimited(opts.max, |st.order|)
    requires IsLimited(opts.max, |Live(st.order, st.entries, now)|) && opts.maxStrategy == Limited
    ensures var r := Set(st, opts, key, value, ttl, now);
            && !r.1
            && key !in r.0.entries
            && r.0.order == Live(st.order, st.entries, now)
            && r.0.log == st.log + ExpiryEvents(st.order, st.entries, now)
  {
  }

  /** A new key at the raw bound is written after all when the sweep it triggers leaves the
      valid keys under the bound: the expired entries are gone and the key goes last. */
  lemma SetAfterSweep<V>(st: State<V>, opts: CacheOptions, key: string, value: V, ttl: Option<int>, now: int)
    requires Valid(st) && opts.max != 0 && key !in st.entries && IsLimited(opts.max, |st.order|)
    requires !IsLimited(opts.max, |Live(st.order, st.entries, now)|)
    ensures var r := Set(st, opts, key, value, ttl, now);
            && r.1
            && r.0.order == Live(st.order, st.entries, now) + [key]
            && r.0.entries == Purge(st.entries, now)[key := Wrap(value, ttl, opts.stdTTL, now)]
            && r.0.log == st.log + ExpiryEvents(st.order, st.entries, now) + [SetEvent(key, value)]
  {
  }

  /** In the eviction branch `set` deletes the `_getReplaceKey` choice among the valid keys from
      the swept record, then writes; the log gains the sweep's expiry events, the `del` of the
      evicted key and the `set`. */
  lemma SetEvictionBranch<V>(st: State<V>, opts: CacheOptions, key: string, value: V, ttl: Option<int>, now: int)
    requires Valid(st) && Evicts(st, opts, key, now)
    ensures var purged := Keys(st, now).0;
            var rk := ReplaceKey(Live(st.order, st.entries, now), purged.entries);
            Set(st, opts, key, value, ttl, now).1
            && Set(st, opts, key, value, ttl, now).0.entries
               == (purged.entries - {rk})[key := Wrap(value, ttl, opts.stdTTL, now)]
            && Set(st, opts, key, value, ttl, now).0.order
               == FilterOut(Live(st.order, st.entries, now), {rk}) + [key]
            && Set(st, opts, key, value, ttl, now).0.log
               == st.log + ExpiryEvents(st.order, st.entries, now)
                  + [DelEvent(rk, st.entries[rk].v), SetEvent(key, value)]
  {
    SetEvictionState(st, opts, key, value, ttl, now);
    SetEvictionLog(st, opts, key, value, ttl, now);
  }

  /** The record after an eviction. */
  lemma SetEvictionState<V>(st: State<V>, opts: CacheOptions, key: string, value: V, ttl: Option<int>, now: int)
    requires Valid(st) && Evicts(st, opts, key, now)
    ensures var purged := Keys(st, now).0;
            var rk := ReplaceKey(Live(st.order, st.entries, now), purged.entries);
            Set(st, opts, key, value, ttl, now).1
            && Set(st, opts, key, value, ttl, now).0.entries
               == (purged.entries - {rk})[key := Wrap(value, ttl, opts.stdTTL, now)]
            && Set(st, opts, key, value, ttl, now).0.order
               == FilterOut(Live(st.order, st.entries, now), {rk}) + [key]
  {
    var purged := Keys(st, now).0;
    var rk := ReplaceKey(Live(st.order, st.entries, now), purged.entries);
    assert Present([rk], purged.entries) == {rk};
  }

  /** The events of an eviction, in emission order. */
  lemma SetEvictionLog<V>(st: State<V>, opts: CacheOptions, key: string, value: V, ttl: Option<int>, now: int)
    requires Valid(st) && Evicts(st, opts, key, now)
    ensures var rk := ReplaceKey(Live(st.order, st.entries, now), Keys(st, now).0.entries);
            Set(st, opts, key, value, ttl, now).0.log
            == st.log + ExpiryEvents(st.order, st.entries, now) + [DelEvent(rk, st.entries[rk].v), SetEvent(key, value)]
  {
    var purged := Keys(st, now).0;
    var rk := ReplaceKey(Live(st.order, st.entries, now), purged.entries);
    SetEvictionSteps(st, opts, key, value, ttl, now);
    DelThenInsertLog(purged, rk, key, Wrap(value, ttl, opts.stdTTL, now));
  }

  /** Deleting one present key and then writing another logs a `del` and then a `set`. */
  lemma DelThenInsertLog<V>(st: State<V>, rk: string, key: string, e: Entry<V>)
    requires Valid(st) && rk in st.entries
    ensures Insert(Del(st, [rk]).0, key, e).log == st.log + [DelEvent(rk, st.entries[rk].v), SetEvent(key, e.v)]
  {
    DelOne(st, rk);
    assert st.log + [DelEvent(rk, st.entries[rk].v)] + [SetEvent(key, e.v)]
        == st.log + [DelEvent(rk, st.entries[rk].v), SetEvent(key, e.v)];
  }

  /** The eviction branch of `set`, step by step: sweep, `del` of the chosen key, write. */
  lemma SetEvictionSteps<V>(st: State<V>, opts: CacheOptions, key: string, value: V, ttl: Option<int>, now: int)
    requires Valid(st) && Evicts(st, opts, key, now)
    ensures var purged := Keys(st, now).0;
            var rk := ReplaceKey(Live(st.order, st.entries, now), purged.entries);
            && rk in purged.entries && purged.entries[rk] == st.entries[rk]
            && Set(st, opts, key, value, ttl, now).0 == Insert(Del(purged, [rk]).0, key, Wrap(value, ttl, opts.stdTTL, now))
  {
  }

  /** `del` of one present key is one `Remove`. */
  lemma DelOne<V>(st: State<V>, k: string)
    requires k in st.entries
    ensures Del(st, [k]).0 == Remove(st, k)
  {
    assert [k][1..] == [];
    assert DelFrom(st, [k], 0) == DelFrom(Remove(st, k), [], 1);
  }

  /** When `set` evicts, it succeeds, drops every expired entry, and removes exactly one valid
      key: the first of the valid keys, in insertion order, whose entry ranks lowest by `t` and
      then `n`. */
  lemma SetEvictsFirstMinimum<V>(st: State<V>, opts: CacheOptions, key: string, value: V, ttl: Option<int>, now: int)
    requires Valid(st) && Evicts(st, opts, key, now)
    ensures var valid := Live(st.order, st.entries, now);
            var r := Set(st, opts, key, value, ttl, now);
            && r.1
            && exists m :: FirstMinimumAt(valid, st.entries, m)
                           && r.0.entries == (Purge(st.entries, now) - {valid[m]})[key := Wrap(value, ttl, opts.stdTTL, now)]
  {
    var valid := Live(st.order, st.entries, now);
    var P := Purge(st.entries, now);
    var r := Set(st, opts, key, value, ttl, now);
    SetEvictionState(st, opts, key, value, ttl, now);
    var rk := ReplaceKey(valid, P);
    var m :| FirstMinimumAt(valid, P, m) && valid[m] == rk;
    FirstMinimumSameEntries(valid, P, st.entries, m);
    assert r.0.entries == (P - {valid[m]})[key := Wrap(value, ttl, opts.stdTTL, now)];
  }

  /** Where two records agree on `keys`, they have the same first minimum. */
  lemma FirstMinimumSameEntries<V>(keys: seq<string>, e1: map<string, Entry<V>>, e2: map<string, Entry<V>>, m: int)
    requires forall k :: k in keys ==> k in e1 && k in e2 && e1[k] == e2[k]
    requires FirstMinimumAt(keys, e1, m)
    ensures FirstMinimumAt(keys, e2, m)
  {
  }

  /** With every expiry instant non-negative, an entry that never expires (`t == 0`) ranks
      before all others, so `'replaced'` evicts a never-expiring entry whenever there is one. */
  lemma EvictionPrefersNeverExpiring<V>(keys: seq<string>, entries: map<string, Entry<V>>, k: string)
    requires |keys| > 0 && forall x :: x in keys ==> x in entries
    requires forall x :: x in keys ==> entries[x].t >= 0
    requires k in keys && entries[k].t == 0
    ensures entries[ReplaceKey(keys, entries)].t == 0
  {
    var r := ReplaceKey(keys, entries);
    var m :| FirstMinimumAt(keys, entries, m) && keys[m] == r;
    var i :| 0 <= i < |keys| && keys[i] == k;
    assert !Before(entries[keys[i]], entries[keys[m]]);
  }

  // ---------------------------------------------------------------- mset

  /** `mset` over a concatenation is `mset` over each part in turn: a failing item does not
      stop the ones after it. */
  lemma {:induction false} MSetAppend<V>(st: State<V>, opts: CacheOptions, a: seq<Item<V>>, b: seq<Item<V>>, now: int)
    requires Valid(st)
    ensures var (mid, okA) := MSet(st, opts, a, now);
            var (fin, okB) := MSet(mid, opts, b, now);
            MSet(st, opts, a + b, now) == (fin, okA && okB)
  {
    SetEachAppend(st, opts, a, b, now);
  }

  lemma {:induction false} SetEachAppend<V>(st: State<V>, opts: CacheOptions, a: seq<Item<V>>, b: seq<Item<V>>, now: int)
    requires Valid(st)
    ensures var mid := SetEach(st, opts, a, now);
            var fin := SetEach(mid.0, opts, b, now);
            SetEach(st, opts, a + b, now) == (fin.0, mid.1 + fin.1)
    decreases |a|
  {
    if a == [] {
      assert a + b == b;
      assert SetEach(st, opts, a, now) == (st, []);
      assert [] + SetEach(st, opts, b, now).1 == SetEach(st, opts, b, now).1;
    } else {
      var step := Set(st, opts, a[0].key, a[0].value, a[0].ttl, now);
      assert (a + b)[0] == a[0] && (a + b)[1..] == a[1..] + b;
      SetEachCons(st, opts, a, now);
      SetEachCons(st, opts, a + b, now);
      SetEachAppend(step.0, opts, a[1..], b, now);
      var restA := SetEach(step.0, opts, a[1..], now);
      var fin := SetEach(restA.0, opts, b, now);
      assert [step.1] + (restA.1 + fin.1) == ([step.1] + restA.1) + fin.1;
    }
  }

  /** `SetEach` on a non-empty list: `set` the first item, then the rest. */
  lemma SetEachCons<V>(st: State<V>, opts: CacheOptions, items: seq<Item<V>>, now: int)
    requires Valid(st) && items != []
    ensures var step := Set(st, opts, items[0].key, items[0].value, items[0].ttl, now);
            var rest := SetEach(step.0, opts, items[1..], now);
            SetEach(st, opts, items, now) == (rest.0, [step.1] + rest.1)
  {
  }

  /** `mset` of one item is `set` of it. */
  lemma MSetSingle<V>(st: State<V>, opts: CacheOptions, item: Item<V>, now: int)
    requires Valid(st)
    ensures MSet(st, opts, [item], now) == Set(st, opts, item.key, item.value, item.ttl, now)
  {
    var step := Set(st, opts, item.key, item.value, item.ttl, now);
    assert [item][1..] == [];
    assert SetEach(st, opts, [item], now) == (step.0, [step.1] + []);
    assert false in [step.1] + [] <==> !step.1;
  }

  // ---------------------------------------------------------------- the capacity scenarios

  /** `max: 2, stdTTL: 1000, maxStrategy: 'replaced'`: `num` (ttl 1000) and `str` (ttl 500) are
      written at `now`; writing `obj` evicts `str`, the one nearer its expiry. */
  lemma ReplacedScenario(now: int)
    requires now > 0
    ensures var opts := CacheOptions(2, Replaced, 1000);
            var empty: State<int> := State([], map[], []);
            var (s1, ok1) := Set(empty, opts, "num", 1, None, now);
            var (s2, ok2) := Set(s1, opts, "str", 2, Some(500), now);
            var (s3, ok3) := Set(s2, opts, "obj", 3, None, now);
            && ok1 && ok2 && ok3
            && Keys(s2, now).1 == ["num", "str"]
            && Keys(s3, now).1 == ["num", "obj"]
  {
    var opts := CacheOptions(2, Replaced, 1000);
    var empty: State<int> := State([], map[], []);
    ReplacedFirstTwo(now);
    var s1 := Set(empty, opts, "num", 1, None, now).0;
    var s2 := Set(s1, opts, "str", 2, Some(500), now).0;
    KeysOfValidRecord(s2, now);
    ReplacedThird(s2, now);
    ReplacedKeysAfter(s2, now);
  }

  lemma ReplacedFirstTwo(now: int)
    requires now > 0
    ensures var opts := CacheOptions(2, Replaced, 1000);
            var empty: State<int> := State([], map[], []);
            var (s1, ok1) := Set(empty, opts, "num", 1, None, now);
            var (s2, ok2) := Set(s1, opts, "str", 2, Some(500), now);
            && ok1 && ok2
            && s2.order == ["num", "str"]
            && s2.entries == map["num" := Entry(1, now + 1000, now), "str" := Entry(2, now + 500, now)]
  {
    var opts := CacheOptions(2, Replaced, 1000);
    var empty: State<int> := State([], map[], []);
    SetWithinBound(empty, opts, "num", 1, None, now);
    var s1 := Set(empty, opts, "num", 1, None, now).0;
    assert s1.order == ["num"];
    SetWithinBound(s1, opts, "str", 2, Some(500), now);
  }

  lemma ReplacedChoice(e: map<string, Entry<int>>, now: int)
    requires e == map["num" := Entry(1, now + 1000, now), "str" := Entry(2, now + 500, now)]
    ensures ReplaceKey(["num", "str"], e) == "str"
  {
    var rk := ReplaceKey(["num", "str"], e);
    var m :| FirstMinimumAt(["num", "str"], e, m) && ["num", "str"][m] == rk;
    assert Before(e["str"], e["num"]);
    assert m == 1;
  }

  lemma ReplacedThird(s2: State<int>, now: int)
    requires now > 0
    requires s2.order == ["num", "str"]
    requires s2.entries == map["num" := Entry(1, now + 1000, now), "str" := Entry(2, now + 500, now)]
    ensures Set(s2, CacheOptions(2, Replaced, 1000), "obj", 3, None, now).1
    ensures Set(s2, CacheOptions(2, Replaced, 1000), "obj", 3, None, now).0.order == ["num", "obj"]
  {
    ReplacedEvicts(s2, now);
    ReplacedChoice(s2.entries, now);
    EvictsOrder(s2, CacheOptions(2, Replaced, 1000), "obj", 3, None, now, "str");
    DropStrFromOrder();
  }

  /** The eviction branch on a record with nothing expired, once the evicted key is known. */
  lemma EvictsOrder<V>(st: State<V>, opts: CacheOptions, key: string, value: V, ttl: Option<int>, now: int, rk: string)
    requires Valid(st) && Evicts(st, opts, key, now)
    requires Keys(st, now) == (st, st.order)
    requires ReplaceKey(st.order, st.entries) == rk
    ensures Set(st, opts, key, value, ttl, now).1
    ensures Set(st, opts, key, value, ttl, now).0.order == FilterOut(st.order, {rk}) + [key]
  {
    SetEvictionState(st, opts, key, value, ttl, now);
  }

  lemma ReplacedEvicts(s2: State<int>, now: int)
    requires now > 0
    requires s2.order == ["num", "str"]
    requires s2.entries == map["num" := Entry(1, now + 1000, now), "str" := Entry(2, now + 500, now)]
    ensures Valid(s2) && Keys(s2, now) == (s2, s2.order)
    ensures Live(s2.order, s2.entries, now) == ["num", "str"]
    ensures Evicts(s2, CacheOptions(2, Replaced, 1000), "obj", now)
  {
    KeysOfValidRecord(s2, now);
  }

  lemma DropStrFromOrder()
    ensures FilterOut(["num", "str"], {"str"}) == ["num"]
  {
    assert ["num", "str"][1..] == ["str"];
    assert ["str"][1..] == [];
  }

  lemma ReplacedKeysAfter(s2: State<int>, now: int)
    requires now > 0
    requires s2.order == ["num", "str"]
    requires s2.entries == map["num" := Entry(1, now + 1000, now), "str" := Entry(2, now + 500, now)]
    ensures Keys(Set(s2, CacheOptions(2, Replaced, 1000), "obj", 3, None, now).0, now).1 == ["num", "obj"]
  {
    var opts := CacheOptions(2, Replaced, 1000);
    ReplacedThird(s2, now);
    SetNeverInvents(s2, opts, "obj", 3, None, now);
    var s3 := Set(s2, opts, "obj", 3, None, now).0;
    forall k | k in s3.entries
      ensures !Expired(s3.entries[k], now)
    {
      if k != "obj" {
        assert k == "num" || k == "str";
      }
    }
    KeysOfValidRecord(s3, now);
  }

  /** `max: 1, stdTTL: 1000` (`'limited'`): `num` is written; `str` is refused while `num` is
      valid; 1001 ms later `num` has expired and `str` is written in its place. */
  lemma LimitedScenario(now: int)
    requires now > 0
    ensures var opts := CacheOptions(1, Limited, 1000);
            var empty: State<int> := State([], map[], []);
            var (s1, ok1) := Set(empty, opts, "num", 1, None, now);
            var (s2, ok2) := Set(s1, opts, "str", 2, None, now);
            var (s3, ok3) := Set(s2, opts, "str", 2, None, now + 1001);
            && ok1 && Keys(s1, now).1 == ["num"]
            && !ok2 && Keys(s2, now).1 == ["num"]
            && ok3 && Keys(s3, now + 1001).1 == ["str"]
  {
    var opts := CacheOptions(1, Limited, 1000);
    var empty: State<int> := State([], map[], []);
    SetWithinBound(empty, opts, "num", 1, None, now);
    var s1 := Set(empty, opts, "num", 1, None, now).0;
    assert s1.order == ["num"] && s1.entries == map["num" := Entry(1, now + 1000, now)];
    KeysOfValidRecord(s1, now);
    var s2 := Set(s1, opts, "str", 2, None, now).0;
    assert s2 == s1;
    LimitedAfterExpiry(s1, now);
  }

  lemma LimitedAfterExpiry(s2: State<int>, now: int)
    requires now > 0
    requires s2.order == ["num"] && s2.entries == map["num" := Entry(1, now + 1000, now)]
    ensures var (s3, ok3) := Set(s2, CacheOptions(1, Limited, 1000), "str", 2, None, now + 1001);
            ok3 && Keys(s3, now + 1001).1 == ["str"]
  {
    var later := now + 1001;
    var opts := CacheOptions(1, Limited, 1000);
    assert Expired(s2.entries["num"], later);
    assert Live(s2.order, s2.entries, later) == [];
    SetAfterSweep(s2, opts, "str", 2, None, later);
    var s3 := Set(s2, opts, "str", 2, None, later).0;
    assert Purge(s2.entries, later) == map[];
    assert s3.entries == map["str" := Entry(2, later + 1000, later)];
    KeysOfValidRecord(s3, later);
  }
}

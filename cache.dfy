/** The cache engine of src/Cache.ts as the objects it is made of: the namespace's record, which
    lives in the memory storage and is shared by reference by every instance with the same
    namespace, and the `Cache` instance, which holds its options and emits events. Every method
    is proved to have exactly the effect that `CacheSpec` gives the operation. */
module CacheEngine {
  import opened Wrappers
  import opened CacheTypes
  import CacheSpec

  const DefaultNamespace := "default"

  /** The constructor's namespace: a non-empty string given as the first argument, else
      `'default'`. It names the record a `Cache` works on; here a `Cache` is given that record
      directly, so this function stands on its own. */
  function Namespace(given: Option<string>): (ns: string)
    ensures ns != ""
    ensures given.Some? && given.value != "" ==> ns == given.value
    ensures given.None? || given.value == "" ==> ns == DefaultNamespace
  {
    if given.Some? && given.value != "" then given.value else DefaultNamespace
  }

  /** A namespace's record `{ [key]: { v, t, n } }`. `order` is the order in which its own keys
      are enumerated: a new key goes last, an overwritten key keeps its place. */
  class Record<V> {
    var order: seq<string>
    var entries: map<string, Entry<V>>

    ghost predicate Valid()
      reads this
    {
      TableValid(order, entries)
    }

    constructor ()
      ensures Valid() && order == [] && entries == map[]
    {
      order := [];
      entries := map[];
    }

    /** `record[key] = e` */
    method Put(key: string, e: Entry<V>)
      requires Valid()
      modifies this
      ensures Valid()
      ensures entries == old(entries)[key := e]
      ensures order == if key in old(entries) then old(order) else old(order) + [key]
    {
      if key !in entries {
        order := order + [key];
      }
      entries := entries[key := e];
    }

    /** `delete record[key]` */
    method Delete(key: string)
      requires Valid()
      modifies this
      ensures Valid()
      ensures entries == old(entries) - {key}
      ensures order == FilterOut(old(order), {key})
    {
      order := FilterOut(order, {key});
      entries := entries - {key};
    }

    /** The record dropped from the storage: the namespace reads as empty from then on. */
    method Clear()
      modifies this
      ensures Valid() && order == [] && entries == map[]
    {
      order := [];
      entries := map[];
    }
  }

  class Cache<V> {
    /** The namespace's record in the memory storage. */
    const rec: Record<V>
    const options: CacheOptions
    /** Every event emitted so far, in order. */
    var events: seq<Event<V>>

    ghost predicate Valid()
      reads this, rec
    {
      rec.Valid()
    }

    /** The instance as `CacheSpec` sees it. */
    function Snapshot(): State<V>
      reads this, rec
    {
      State(rec.order, rec.entries, events)
    }

    /** `new Cache(namespace, options)` on the record of its namespace: the constructor ends
        with `startCheckperiod()`, so the record is swept once. */
    constructor (rec: Record<V>, options: CacheOptions, now: int)
      requires rec.Valid()
      modifies rec
      ensures this.rec == rec && this.options == options
      ensures Valid()
      ensures Snapshot() == CacheSpec.Sweep(State(old(rec.order), old(rec.entries), []), now)
    {
      this.rec := rec;
      this.options := options;
      events := [];
      new;
      StartCheckperiod(now);
    }

    /** `_check(key, data)` */
    method Check(key: string, data: Entry<V>, now: int) returns (valid: bool)
      requires Valid() && key in rec.entries && rec.entries[key] == data
      modifies this, rec
      ensures Valid()
      ensures (Snapshot(), valid) == CacheSpec.Check(old(Snapshot()), key, now)
    {
      valid := true;
      if data.t != 0 && data.t < now {
        valid := false;
        var removed := Del([key]);
        events := events + [ExpiredEvent(key, data.v)];
      }
    }

    /** `_getReplaceKey(keys, cacheValues)` */
    method GetReplaceKey(keys: seq<string>, entries: map<string, Entry<V>>) returns (retkey: string)
      requires |keys| > 0 && forall k :: k in keys ==> k in entries
      ensures retkey == CacheSpec.ReplaceKey(keys, entries)
      ensures exists m :: CacheSpec.FirstMinimumAt(keys, entries, m) && keys[m] == retkey
    {
      retkey := keys[0];
      for i := 0 to |keys|
        invariant retkey in entries
        invariant CacheSpec.ReplaceFrom(keys, entries, retkey, i) == CacheSpec.ReplaceKey(keys, entries)
      {
        var key := keys[i];
        if entries[key].t < entries[retkey].t
           || (entries[key].t == entries[retkey].t && entries[key].n < entries[retkey].n) {
          retkey := key;
        }
      }
    }

    /** `get(key)` */
    method Get(key: string, now: int) returns (r: Option<V>)
      requires Valid()
      modifies this, rec
      ensures Valid()
      ensures (Snapshot(), r) == CacheSpec.Get(old(Snapshot()), key, now)
    {
      r := None;
      if key in rec.entries {
        var data := rec.entries[key];
        var valid := Check(key, data, now);
        if valid {
          r := Some(data.v);
        }
      }
    }

    /** `mget(keys)` */
    method MGet(keys: seq<string>, now: int) returns (ret: map<string, V>)
      requires Valid()
      modifies this, rec
      ensures Valid()
      ensures (Snapshot(), ret) == CacheSpec.MGet(old(Snapshot()), keys, now)
    {
      ret := map[];
      ghost var st0 := Snapshot();
      for i := 0 to |keys|
        invariant Valid()
        invariant CacheSpec.MGetFrom(Snapshot(), keys[i..], now, ret) == CacheSpec.MGetFrom(st0, keys, now, map[])
      {
        var key := keys[i];
        assert keys[i..][1..] == keys[i + 1..];
        if key in rec.entries {
          var data := rec.entries[key];
          var valid := Check(key, data, now);
          if valid {
            ret := ret[key := data.v];
          }
        }
      }
    }

    /** `getAll()` */
    method GetAll(now: int) returns (ret: map<string, V>)
      requires Valid()
      modifies this, rec
      ensures Valid()
      ensures (Snapshot(), ret) == CacheSpec.GetAll(old(Snapshot()), now)
    {
      var keys := rec.order;
      ret := MGet(keys, now);
    }

    /** `set(key, value, ttl)` */
    method Set(key: string, value: V, ttl: Option<int>, now: int) returns (ok: bool)
      requires Valid()
      modifies this, rec
      ensures Valid()
      ensures (Snapshot(), ok) == CacheSpec.Set(old(Snapshot()), options, key, value, ttl, now)
    {
      if options.max == 0 {
        return false;
      }
      if key !in rec.entries && IsLimited(options.max, |rec.order|) {
        var validKeys := Keys(now);
        if IsLimited(options.max, |validKeys|) {
          if options.maxStrategy == Replaced {
            var replaceKey := GetReplaceKey(validKeys, rec.entries);
            var removed := Del([replaceKey]);
          } else {
            return false;
          }
        }
      }
      var e := Wrap(value, ttl, options.stdTTL, now);
      rec.Put(key, e);
      events := events + [SetEvent(key, e.v)];
      ok := true;
    }

    /** `mset(keyValueSet)` */
    method MSet(items: seq<Item<V>>, now: int) returns (ret: bool)
      requires Valid()
      modifies this, rec
      ensures Valid()
      ensures (Snapshot(), ret) == CacheSpec.MSet(old(Snapshot()), options, items, now)
    {
      ret := true;
      ghost var st0 := Snapshot();
      for i := 0 to |items|
        invariant Valid()
        invariant CacheSpec.MSetFrom(Snapshot(), options, items[i..], now, ret)
                  == CacheSpec.MSetFrom(st0, options, items, now, true)
      {
        assert items[i..][1..] == items[i + 1..];
        var itemSetResult := Set(items[i].key, items[i].value, items[i].ttl, now);
        if ret && !itemSetResult {
          ret := false;
        }
      }
    }

    /** `del(key)` with the key or keys as a list. */
    method Del(keys: seq<string>) returns (count: nat)
      requires Valid()
      modifies this, rec
      ensures Valid()
      ensures (Snapshot(), count) == CacheSpec.Del(old(Snapshot()), keys)
    {
      count := 0;
      ghost var st0 := Snapshot();
      for i := 0 to |keys|
        invariant Valid()
        invariant CacheSpec.DelFrom(Snapshot(), keys[i..], count) == CacheSpec.DelFrom(st0, keys, 0)
      {
        var key := keys[i];
        assert keys[i..][1..] == keys[i + 1..];
        if key in rec.entries {
          count := count + 1;
          var oldData := rec.entries[key];
          rec.Delete(key);
          events := events + [DelEvent(key, oldData.v)];
        }
      }
    }

    /** `clear()` */
    method Clear()
      modifies this, rec
      ensures Valid()
      ensures Snapshot() == CacheSpec.Clear(old(Snapshot()))
    {
      rec.Clear();
    }

    /** `keys()` */
    method Keys(now: int) returns (valid: seq<string>)
      requires Valid()
      modifies this, rec
      ensures Valid()
      ensures (Snapshot(), valid) == CacheSpec.Keys(old(Snapshot()), now)
    {
      var keys := rec.order;
      valid := [];
      ghost var st0 := Snapshot();
      for i := 0 to |keys|
        invariant Valid()
        invariant NoDup(keys[i..]) && forall k :: k in keys[i..] ==> k in rec.entries
        invariant CacheSpec.ScanFrom(Snapshot(), keys[i..], now, valid) == CacheSpec.ScanFrom(st0, keys, now, [])
      {
        var key := keys[i];
        assert keys[i..][1..] == keys[i + 1..];
        CacheSpec.ScanStep(Snapshot(), keys[i..], now, valid);
        var ok := Check(key, rec.entries[key], now);
        if ok {
          valid := valid + [key];
        }
      }
    }

    /** `has(key)` */
    method Has(key: string, now: int) returns (r: bool)
      requires Valid()
      modifies this, rec
      ensures Valid()
      ensures (Snapshot(), r) == CacheSpec.Has(old(Snapshot()), key, now)
    {
      r := false;
      if key in rec.entries {
        r := Check(key, rec.entries[key], now);
      }
    }

    /** `take(key)` */
    method Take(key: string, now: int) returns (r: Option<V>)
      requires Valid()
      modifies this, rec
      ensures Valid()
      ensures (Snapshot(), r) == CacheSpec.Take(old(Snapshot()), key, now)
    {
      r := None;
      if key in rec.entries {
        var data := rec.entries[key];
        var valid := Check(key, data, now);
        if valid {
          r := Some(data.v);
          var removed := Del([key]);
        }
      }
    }

    /** `ttl(key, ttl)` */
    method Ttl(key: string, ttl: int, now: int) returns (ok: bool)
      requires Valid()
      modifies this, rec
      ensures Valid()
      ensures (Snapshot(), ok) == CacheSpec.Ttl(old(Snapshot()), options.stdTTL, key, ttl, now)
    {
      ok := false;
      if key in rec.entries {
        var data := rec.entries[key];
        var valid := Check(key, data, now);
        if valid {
          rec.Put(key, Wrap(data.v, Some(ttl), options.stdTTL, now));
          ok := true;
        }
      }
    }

    /** `getTtl(key)` */
    method GetTtl(key: string, now: int) returns (r: Option<int>)
      requires Valid()
      modifies this, rec
      ensures Valid()
      ensures (Snapshot(), r) == CacheSpec.GetTtl(old(Snapshot()), key, now)
    {
      r := None;
      if key in rec.entries {
        var data := rec.entries[key];
        var valid := Check(key, data, now);
        if valid {
          r := Some(data.t);
        }
      }
    }

    /** `getLastModified(key)` */
    method GetLastModified(key: string, now: int) returns (r: Option<int>)
      requires Valid()
      modifies this, rec
      ensures Valid()
      ensures (Snapshot(), r) == CacheSpec.GetLastModified(old(Snapshot()), key, now)
    {
      r := None;
      if key in rec.entries {
        var data := rec.entries[key];
        var valid := Check(key, data, now);
        if valid {
          r := Some(data.n);
        }
      }
    }

    /** `startCheckperiod()`: one sweep; re-arming the timer is not modelled. */
    method StartCheckperiod(now: int)
      requires Valid()
      modifies this, rec
      ensures Valid()
      ensures Snapshot() == CacheSpec.Sweep(old(Snapshot()), now)
    {
      var valid := Keys(now);
    }
  }

  /** Two instances on the same namespace and `prefix` share its record: whatever one sets, the
      other gets for as long as the entry has not expired. */
  method SharedNamespace<V>(a: Cache<V>, b: Cache<V>, key: string, value: V, ttl: Option<int>, now: int, later: int)
    returns (ok: bool, read: Option<V>)
    requires a != b && a.rec == b.rec && a.Valid()
    requires !Expired(Wrap(value, ttl, a.options.stdTTL, now), later)
    modifies a, b, a.rec
    ensures ok ==> read == Some(value)
    ensures ok <==> a.options.max != 0 && (key in old(a.rec.entries) || !IsLimited(a.options.max, |old(a.rec.order)|)
                                          || !IsLimited(a.options.max, |Live(old(a.rec.order), old(a.rec.entries), now)|)
                                          || a.options.maxStrategy == Replaced)
  {
    ok := a.Set(key, value, ttl, now);
    read := b.Get(key, later);
  }
}

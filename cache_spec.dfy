/** What each operation of the cache engine in src/Cache.ts does to a namespace's record and to
    the instance's event log, written as pure functions of the state before the call. A `forEach`
    loop of the source is a fold with an accumulator (`DelFrom`, `ScanFrom`, `MGetFrom`,
    `MSetFrom`, `ReplaceFrom`), so that the methods of `CacheEngine` can be proved against it one
    iteration at a time. */
module CacheSpec {
  import opened Wrappers
  import opened CacheTypes

  // ---------------------------------------------------------------- del

  /** One iteration of `del` on a present key: the key leaves the order and the record, and a
      `del` event carries the value it held. */
  function Remove<V>(st: State<V>, key: string): State<V>
    requires key in st.entries
  {
    State(FilterOut(st.order, {key}), st.entries - {key}, st.log + [DelEvent(key, st.entries[key].v)])
  }

  /** `del`'s loop over the listed keys, `count` being the number removed so far. */
  function DelFrom<V>(st: State<V>, keys: seq<string>, count: nat): (State<V>, nat)
    decreases |keys|
  {
    if keys == [] then (st, count)
    else if keys[0] in st.entries then DelFrom(Remove(st, keys[0]), keys[1..], count + 1)
    else DelFrom(st, keys[1..], count)
  }

  /** The listed keys that are present in `entries`. */
  function Present<V>(keys: seq<string>, entries: map<string, Entry<V>>): set<string> {
    set k | k in keys && k in entries
  }

  lemma PresentStep<V>(keys: seq<string>, entries: map<string, Entry<V>>)
    requires keys != []
    ensures keys[0] in entries ==> Present(keys, entries) == {keys[0]} + Present(keys[1..], entries - {keys[0]})
    ensures keys[0] in entries ==> keys[0] !in Present(keys[1..], entries - {keys[0]})
    ensures keys[0] !in entries ==> Present(keys, entries) == Present(keys[1..], entries)
  {
    assert keys == [keys[0]] + keys[1..];
  }

  lemma {:induction false} DelFromEntries<V>(st: State<V>, keys: seq<string>, count: nat)
    ensures DelFrom(st, keys, count).0.entries == st.entries - Present(keys, st.entries)
    decreases |keys|
  {
    if keys == [] {
      assert Present(keys, st.entries) == {};
    } else {
      var k0 := keys[0];
      PresentStep(keys, st.entries);
      if k0 in st.entries {
        var st1 := Remove(st, k0);
        DelFromEntries(st1, keys[1..], count + 1);
      } else {
        DelFromEntries(st, keys[1..], count);
      }
    }
  }

  lemma {:induction false} DelFromOrder<V>(st: State<V>, keys: seq<string>, count: nat)
    ensures DelFrom(st, keys, count).0.order == FilterOut(st.order, Present(keys, st.entries))
    decreases |keys|
  {
    if keys == [] {
      assert Present(keys, st.entries) == {};
      FilterOutNothing(st.order, {});
    } else {
      var k0 := keys[0];
      PresentStep(keys, st.entries);
      if k0 in st.entries {
        var st1 := Remove(st, k0);
        DelFromOrder(st1, keys[1..], count + 1);
        FilterOutTwice(st.order, {k0}, Present(keys[1..], st1.entries));
      } else {
        DelFromOrder(st, keys[1..], count);
      }
    }
  }
  lemma {:induction false} DelFromCount<V>(st: State<V>, keys: seq<string>, count: nat)
    ensures DelFrom(st, keys, count).1 == count + |Present(keys, st.entries)|
    decreases |keys|
  {
    if keys == [] {
      assert Present(keys, st.entries) == {};
    } else {
      var k0 := keys[0];
      PresentStep(keys, st.entries);
      if k0 in st.entries {
        var st1 := Remove(st, k0);
        DelFromCount(st1, keys[1..], count + 1);
      } else {
        DelFromCount(st, keys[1..], count);
      }
    }
  }

  lemma {:induction false} DelFromLogPrefix<V>(st: State<V>, keys: seq<string>, count: nat)
    ensures var log := DelFrom(st, keys, count).0.log;
            |log| == |st.log| + |Present(keys, st.entries)| && log[..|st.log|] == st.log
    decreases |keys|
  {
    if keys == [] {
      assert Present(keys, st.entries) == {};
    } else {
      var k0 := keys[0];
      PresentStep(keys, st.entries);
      if k0 in st.entries {
        var st1 := Remove(st, k0);
        DelFromLogPrefix(st1, keys[1..], count + 1);
        var log := DelFrom(st, keys, count).0.log;
        assert log[..|st1.log|] == st1.log;
        assert log[..|st.log|] == log[..|st1.log|][..|st.log|];
      } else {
        DelFromLogPrefix(st, keys[1..], count);
      }
    }
  }
  lemma {:induction false} DelFromLogEvents<V>(st: State<V>, keys: seq<string>, count: nat)
    ensures var log := DelFrom(st, keys, count).0.log;
            forall i :: |st.log| <= i < |log| ==>
              log[i].DelEvent? && log[i].key in Present(keys, st.entries) && log[i].value == st.entries[log[i].key].v
    decreases |keys|
  {
    if keys != [] {
      var k0 := keys[0];
      PresentStep(keys, st.entries);
      if k0 in st.entries {
        var st1 := Remove(st, k0);
        DelFromLogEvents(st1, keys[1..], count + 1);
        DelFromLogPrefix(st1, keys[1..], count + 1);
        var log := DelFrom(st, keys, count).0.log;
        assert log[|st.log|] == st1.log[|st.log|];
      } else {
        DelFromLogEvents(st, keys[1..], count);
        assert DelFrom(st, keys, count) == DelFrom(st, keys[1..], count);
      }
    }
  }
  lemma {:induction false} DelFromLogDistinct<V>(st: State<V>, keys: seq<string>, count: nat)
    ensures var log := DelFrom(st, keys, count).0.log;
            forall i, j :: |st.log| <= i < j < |log| ==> log[i].key != log[j].key
    decreases |keys|
  {
    if keys != [] {
      var k0 := keys[0];
      PresentStep(keys, st.entries);
      if k0 in st.entries {
        var st1 := Remove(st, k0);
        DelFromLogDistinct(st1, keys[1..], count + 1);
        DelFromLogEvents(st1, keys[1..], count + 1);
        DelFromLogPrefix(st1, keys[1..], count + 1);
        var log := DelFrom(st, keys, count).0.log;
        assert log[|st.log|] == st1.log[|st.log|];
      } else {
        DelFromLogDistinct(st, keys[1..], count);
        assert DelFrom(st, keys, count) == DelFrom(st, keys[1..], count);
      }
    }
  }

  /** `del(keys)`: removes every listed key that is present, with no expiry check, and returns
      how many distinct listed keys were present; one `del` event per removed key. */
  function Del<V>(st: State<V>, keys: seq<string>): (r: (State<V>, nat))
    ensures r.0.order == FilterOut(st.order, Present(keys, st.entries))
    ensures r.0.entries == st.entries - Present(keys, st.entries)
    ensures r.1 == |Present(keys, st.entries)|
    ensures |r.0.log| == |st.log| + r.1 && r.0.log[..|st.log|] == st.log
    ensures forall i :: |st.log| <= i < |r.0.log| ==>
              && r.0.log[i].DelEvent?
              && r.0.log[i].key in Present(keys, st.entries)
              && r.0.log[i].value == st.entries[r.0.log[i].key].v
    ensures forall i, j :: |st.log| <= i < j < |r.0.log| ==> r.0.log[i].key != r.0.log[j].key
    ensures Valid(st) ==> Valid(r.0)
  {
    DelFromEntries(st, keys, 0);
    DelFromOrder(st, keys, 0);
    DelFromCount(st, keys, 0);
    DelFromLogPrefix(st, keys, 0);
    DelFromLogEvents(st, keys, 0);
    DelFromLogDistinct(st, keys, 0);
    DelFrom(st, keys, 0)
  }

  // ---------------------------------------------------------------- lazy expiry

  /** The state after `_check` has found `key` expired: the key is gone from the order and the
      record, and a `del` then an `expired` event carry the value it held. */
  function Expire<V>(st: State<V>, key: string): State<V>
    requires key in st.entries
  {
    var v := st.entries[key].v;
    State(FilterOut(st.order, {key}), st.entries - {key}, st.log + [DelEvent(key, v), ExpiredEvent(key, v)])
  }

  /** Whether `key` holds an entry that is valid at `now`. */
  predicate ValidAt<V>(st: State<V>, key: string, now: int) {
    key in st.entries && !Expired(st.entries[key], now)
  }

  /** The state a single-key read leaves behind: an expired key is deleted, nothing else changes. */
  function AfterRead<V>(st: State<V>, key: string, now: int): State<V> {
    if key in st.entries && Expired(st.entries[key], now) then Expire(st, key) else st
  }

  /** `_check(key, data)`: an expired entry is deleted through `del` (a `del` event) and then an
      `expired` event is emitted with the same value; the result says whether it was valid. */
  function Check<V>(st: State<V>, key: string, now: int): (r: (State<V>, bool))
    requires key in st.entries
    ensures r.1 == !Expired(st.entries[key], now)
    ensures r.0 == AfterRead(st, key, now)
  {
    var data := st.entries[key];
    if Expired(data, now) then
      assert [key][1..] == [];
      assert DelFrom(st, [key], 0) == DelFrom(Remove(st, key), [], 1);
      var deleted := Del(st, [key]).0;
      assert deleted == Remove(st, key);
      (deleted.(log := deleted.log + [ExpiredEvent(key, data.v)]), false)
    else (st, true)
  }

  /** The read every single-key operation starts with: `data && this._check(key, data)`. */
  function Lookup<V>(st: State<V>, key: string, now: int): (r: (State<V>, Option<Entry<V>>))
    ensures r.1.Some? <==> ValidAt(st, key, now)
    ensures r.1.Some? ==> r.1.value == st.entries[key]
    ensures r.0 == AfterRead(st, key, now)
  {
    if key !in st.entries then (st, None)
    else
      var (checked, valid) := Check(st, key, now);
      (checked, if valid then Some(st.entries[key]) else None)
  }

  // ---------------------------------------------------------------- single-key reads

  /** `get(key)`: the value of a present, valid key; nothing otherwise. */
  function Get<V>(st: State<V>, key: string, now: int): (r: (State<V>, Option<V>))
    ensures r.1.Some? <==> ValidAt(st, key, now)
    ensures r.1.Some? ==> r.1.value == st.entries[key].v
    ensures r.0 == AfterRead(st, key, now)
  {
    var (after, found) := Lookup(st, key, now);
    (after, if found.Some? then Some(found.value.v) else None)
  }

  /** `has(key)`: whether the key is present and valid. */
  function Has<V>(st: State<V>, key: string, now: int): (r: (State<V>, bool))
    ensures r.1 <==> ValidAt(st, key, now)
    ensures r.0 == AfterRead(st, key, now)
  {
    var (after, found) := Lookup(st, key, now);
    (after, found.Some?)
  }

  /** `take(key)`: a valid key's value, after which the key is deleted through `del`. */
  function Take<V>(st: State<V>, key: string, now: int): (r: (State<V>, Option<V>))
    ensures r.1.Some? <==> ValidAt(st, key, now)
    ensures r.1.Some? ==> r.1.value == st.entries[key].v
    ensures r.1.Some? ==> r.0 == Remove(st, key)
    ensures r.1.None? ==> r.0 == AfterRead(st, key, now)
  {
    var (after, found) := Lookup(st, key, now);
    if found.Some? then
      assert [key][1..] == [];
      assert DelFrom(after, [key], 0) == DelFrom(Remove(after, key), [], 1);
      (Del(after, [key]).0, Some(found.value.v))
    else (after, None)
  }

  /** `ttl(key, ttl)`: a valid key's entry is rewritten by `_wrap` with the same value and the
      new `ttl`, in place and without an event. */
  function Ttl<V>(st: State<V>, stdTTL: int, key: string, ttl: int, now: int): (r: (State<V>, bool))
    ensures r.1 <==> ValidAt(st, key, now)
    ensures r.1 ==> r.0 == st.(entries := st.entries[key := Wrap(st.entries[key].v, Some(ttl), stdTTL, now)])
    ensures !r.1 ==> r.0 == AfterRead(st, key, now)
  {
    var (after, found) := Lookup(st, key, now);
    if found.Some? then
      (after.(entries := after.entries[key := Wrap(found.value.v, Some(ttl), stdTTL, now)]), true)
    else (after, false)
  }

  /** `getTtl(key)`: the expiry instant of a present, valid key. */
  function GetTtl<V>(st: State<V>, key: string, now: int): (r: (State<V>, Option<int>))
    ensures r.1.Some? <==> ValidAt(st, key, now)
    ensures r.1.Some? ==> r.1.value == st.entries[key].t
    ensures r.0 == AfterRead(st, key, now)
  {
    var (after, found) := Lookup(st, key, now);
    (after, if found.Some? then Some(found.value.t) else None)
  }

  /** `getLastModified(key)`: the last-modified instant of a present, valid key. */
  function GetLastModified<V>(st: State<V>, key: string, now: int): (r: (State<V>, Option<int>))
    ensures r.1.Some? <==> ValidAt(st, key, now)
    ensures r.1.Some? ==> r.1.value == st.entries[key].n
    ensures r.0 == AfterRead(st, key, now)
  {
    var (after, found) := Lookup(st, key, now);
    (after, if found.Some? then Some(found.value.n) else None)
  }

  // ---------------------------------------------------------------- keys, mget, getAll

  /** `keys()`'s filter over the snapshot `ks` of the key order, `acc` being the keys kept so far. */
  function ScanFrom<V>(st: State<V>, ks: seq<string>, now: int, acc: seq<string>): (State<V>, seq<string>)
    requires NoDup(ks) && forall k :: k in ks ==> k in st.entries
    decreases |ks|
  {
    if ks == [] then (st, acc)
    else
      var (checked, valid) := Check(st, ks[0], now);
      assert ks[0] !in ks[1..];
      ScanFrom(checked, ks[1..], now, if valid then acc + [ks[0]] else acc)
  }

  /** One iteration of the scan: `_check` on the first key, the rest of the snapshot still
      present and without duplicates. */
  lemma ScanStep<V>(st: State<V>, ks: seq<string>, now: int, acc: seq<string>)
    requires ks != [] && NoDup(ks) && forall k :: k in ks ==> k in st.entries
    ensures var step := Check(st, ks[0], now);
            && NoDup(ks[1..]) && (forall k :: k in ks[1..] ==> k in step.0.entries)
            && ScanFrom(st, ks, now, acc) == ScanFrom(step.0, ks[1..], now, if step.1 then acc + [ks[0]] else acc)
  {
    assert ks[0] !in ks[1..];
  }

  lemma ExpiredAmongStep<V>(ks: seq<string>, entries: map<string, Entry<V>>, now: int)
    requires ks != []
    ensures ks[0] in entries && Expired(entries[ks[0]], now) ==>
              ExpiredAmong(ks, entries, now) == {ks[0]} + ExpiredAmong(ks[1..], entries - {ks[0]}, now)
    ensures !(ks[0] in entries && Expired(entries[ks[0]], now)) ==>
              ExpiredAmong(ks, entries, now) == ExpiredAmong(ks[1..], entries, now)
  {
    assert ks == [ks[0]] + ks[1..];
  }

  lemma {:induction false} ScanFromOrder<V>(st: State<V>, ks: seq<string>, now: int, acc: seq<string>)
    requires NoDup(ks) && forall k :: k in ks ==> k in st.entries
    ensures ScanFrom(st, ks, now, acc).0.order == FilterOut(st.order, ExpiredAmong(ks, st.entries, now))
    decreases |ks|
  {
    if ks == [] {
      assert ExpiredAmong(ks, st.entries, now) == {};
      FilterOutNothing(st.order, {});
    } else {
      var k0 := ks[0];
      assert k0 !in ks[1..];
      ExpiredAmongStep(ks, st.entries, now);
      var (checked, valid) := Check(st, k0, now);
      ScanFromOrder(checked, ks[1..], now, if valid then acc + [k0] else acc);
      if !valid {
        FilterOutTwice(st.order, {k0}, ExpiredAmong(ks[1..], checked.entries, now));
      }
    }
  }

  lemma {:induction false} ScanFromEntries<V>(st: State<V>, ks: seq<string>, now: int, acc: seq<string>)
    requires NoDup(ks) && forall k :: k in ks ==> k in st.entries
    ensures ScanFrom(st, ks, now, acc).0.entries == st.entries - ExpiredAmong(ks, st.entries, now)
    decreases |ks|
  {
    if ks == [] {
      assert ExpiredAmong(ks, st.entries, now) == {};
    } else {
      var k0 := ks[0];
      assert k0 !in ks[1..];
      ExpiredAmongStep(ks, st.entries, now);
      var (checked, valid) := Check(st, k0, now);
      ScanFromEntries(checked, ks[1..], now, if valid then acc + [k0] else acc);
    }
  }

  lemma {:induction false} ScanFromLog<V>(st: State<V>, ks: seq<string>, now: int, acc: seq<string>)
    requires NoDup(ks) && forall k :: k in ks ==> k in st.entries
    ensures ScanFrom(st, ks, now, acc).0.log == st.log + ExpiryEvents(ks, st.entries, now)
    decreases |ks|
  {
    if ks != [] {
      var k0 := ks[0];
      var step := Check(st, k0, now);
      ScanStep(st, ks, now, acc);
      ScanFromLog(step.0, ks[1..], now, if step.1 then acc + [k0] else acc);
      var rest := ExpiryEvents(ks[1..], step.0.entries, now);
      if step.1 {
        assert step.0 == st;
        assert ExpiryEvents(ks, st.entries, now) == rest;
      } else {
        var expiry := [DelEvent(k0, st.entries[k0].v), ExpiredEvent(k0, st.entries[k0].v)];
        assert step.0.log == st.log + expiry;
        assert step.0.entries == st.entries - {k0};
        assert ExpiryEvents(ks, st.entries, now) == expiry + rest;
        assert step.0.log + rest == st.log + (expiry + rest);
      }
    }
  }

  lemma {:induction false} ScanFromKept<V>(st: State<V>, ks: seq<string>, now: int, acc: seq<string>)
    requires NoDup(ks) && forall k :: k in ks ==> k in st.entries
    ensures ScanFrom(st, ks, now, acc).1 == acc + Live(ks, st.entries, now)
    decreases |ks|
  {
    if ks != [] {
      var k0 := ks[0];
      assert k0 !in ks[1..];
      var (checked, valid) := Check(st, k0, now);
      var rest := Live(ks[1..], st.entries, now);
      assert Live(ks, st.entries, now) == (if valid then [k0] else []) + rest;
      if valid {
        ScanFromKept(st, ks[1..], now, acc + [k0]);
        assert acc + [k0] + rest == acc + ([k0] + rest);
      } else {
        ScanFromKept(checked, ks[1..], now, acc);
        LiveIgnoresOtherKeys(ks[1..], st.entries, now, k0);
        assert [] + rest == rest;
      }
    }
  }

  /** `keys()`: the valid keys in their original order; every expired key is deleted on the way
      with a `del` and an `expired` event. */
  function Keys<V>(st: State<V>, now: int): (r: (State<V>, seq<string>))
    requires Valid(st)
    ensures r.1 == Live(st.order, st.entries, now)
    ensures r.0 == State(r.1, Purge(st.entries, now), st.log + ExpiryEvents(st.order, st.entries, now))
    ensures Valid(r.0)
  {
    ScanFromWhole(st, now);
    LivePurgeValid(st.order, st.entries, now);
    ScanFrom(st, st.order, now, [])
  }

  /** The scan over the whole key order, in terms of `Live`, `Purge` and `ExpiryEvents`. */
  lemma ScanFromWhole<V>(st: State<V>, now: int)
    requires Valid(st)
    ensures var r := ScanFrom(st, st.order, now, []);
            && r.1 == Live(st.order, st.entries, now)
            && r.0 == State(r.1, Purge(st.entries, now), st.log + ExpiryEvents(st.order, st.entries, now))
  {
    var X := ExpiredAmong(st.order, st.entries, now);
    ScanFromOrder(st, st.order, now, []);
    ScanFromEntries(st, st.order, now, []);
    ScanFromLog(st, st.order, now, []);
    ScanFromKept(st, st.order, now, []);
    LiveIsFilterOut(st.order, st.entries, now, X);
    assert st.entries - X == Purge(st.entries, now);
  }

  /** The valid keys and the valid entries of a well-formed record form a well-formed record. */
  lemma LivePurgeValid<V>(order: seq<string>, entries: map<string, Entry<V>>, now: int)
    requires TableValid(order, entries)
    ensures TableValid(Live(order, entries, now), Purge(entries, now))
  {
  }

  /** `mget`'s loop over the requested keys, `acc` being the result object built so far. */
  function MGetFrom<V>(st: State<V>, ks: seq<string>, now: int, acc: map<string, V>): (State<V>, map<string, V>)
    decreases |ks|
  {
    if ks == [] then (st, acc)
    else
      var (after, found) := Lookup(st, ks[0], now);
      MGetFrom(after, ks[1..], now, if found.Some? then acc[ks[0] := found.value.v] else acc)
  }

  lemma LiveValuesStep<V>(ks: seq<string>, entries: map<string, Entry<V>>, now: int, acc: map<string, V>)
    requires ks != []
    ensures ks[0] !in entries ==>
              acc + LiveValues(ks, entries, now) == acc + LiveValues(ks[1..], entries, now)
    ensures ks[0] in entries && Expired(entries[ks[0]], now) ==>
              acc + LiveValues(ks, entries, now) == acc + LiveValues(ks[1..], entries - {ks[0]}, now)
    ensures ks[0] in entries && !Expired(entries[ks[0]], now) ==>
              acc + LiveValues(ks, entries, now) == acc[ks[0] := entries[ks[0]].v] + LiveValues(ks[1..], entries, now)
  {
    var k0 := ks[0];
    assert forall k :: k in ks <==> k == k0 || k in ks[1..];
    var all := LiveValues(ks, entries, now);
    if k0 !in entries {
      assert all == LiveValues(ks[1..], entries, now);
    } else if Expired(entries[k0], now) {
      assert all == LiveValues(ks[1..], entries - {k0}, now);
    } else {
      var rest := LiveValues(ks[1..], entries, now);
      assert all == rest[k0 := entries[k0].v];
      assert acc + rest[k0 := entries[k0].v] == acc[k0 := entries[k0].v] + rest;
    }
  }

  lemma {:induction false} MGetFromOrder<V>(st: State<V>, ks: seq<string>, now: int, acc: map<string, V>)
    ensures MGetFrom(st, ks, now, acc).0.order == FilterOut(st.order, ExpiredAmong(ks, st.entries, now))
    decreases |ks|
  {
    if ks == [] {
      assert ExpiredAmong(ks, st.entries, now) == {};
      FilterOutNothing(st.order, {});
    } else {
      var k0 := ks[0];
      ExpiredAmongStep(ks, st.entries, now);
      var (after, found) := Lookup(st, k0, now);
      MGetFromOrder(after, ks[1..], now, if found.Some? then acc[k0 := found.value.v] else acc);
      if k0 in st.entries && Expired(st.entries[k0], now) {
        FilterOutTwice(st.order, {k0}, ExpiredAmong(ks[1..], after.entries, now));
      }
    }
  }

  lemma {:induction false} MGetFromEntries<V>(st: State<V>, ks: seq<string>, now: int, acc: map<string, V>)
    ensures MGetFrom(st, ks, now, acc).0.entries == st.entries - ExpiredAmong(ks, st.entries, now)
    decreases |ks|
  {
    if ks == [] {
      assert ExpiredAmong(ks, st.entries, now) == {};
    } else {
      var k0 := ks[0];
      ExpiredAmongStep(ks, st.entries, now);
      var (after, found) := Lookup(st, k0, now);
      MGetFromEntries(after, ks[1..], now, if found.Some? then acc[k0 := found.value.v] else acc);
    }
  }

  lemma {:induction false} MGetFromLog<V>(st: State<V>, ks: seq<string>, now: int, acc: map<string, V>)
    ensures MGetFrom(st, ks, now, acc).0.log == st.log + ExpiryEvents(ks, st.entries, now)
    decreases |ks|
  {
    if ks != [] {
      var k0 := ks[0];
      var (after, found) := Lookup(st, k0, now);
      MGetFromLog(after, ks[1..], now, if found.Some? then acc[k0 := found.value.v] else acc);
    }
  }

  lemma {:induction false} MGetFromValues<V>(st: State<V>, ks: seq<string>, now: int, acc: map<string, V>)
    ensures MGetFrom(st, ks, now, acc).1 == acc + LiveValues(ks, st.entries, now)
    decreases |ks|
  {
    if ks == [] {
      assert LiveValues(ks, st.entries, now) == map[];
    } else {
      var k0 := ks[0];
      LiveValuesStep(ks, st.entries, now, acc);
      var (after, found) := Lookup(st, k0, now);
      MGetFromValues(after, ks[1..], now, if found.Some? then acc[k0 := found.value.v] else acc);
    }
  }

  /** `mget(keys)`: the values of the requested keys that are present and valid; the expired
      ones among them are deleted with a `del` and an `expired` event each. */
  function MGet<V>(st: State<V>, ks: seq<string>, now: int): (r: (State<V>, map<string, V>))
    ensures var X := ExpiredAmong(ks, st.entries, now);
            && r.0.order == FilterOut(st.order, X)
            && r.0.entries == st.entries - X
            && r.0.log == st.log + ExpiryEvents(ks, st.entries, now)
            && r.1 == LiveValues(ks, st.entries, now)
    ensures Valid(st) ==> Valid(r.0)
  {
    MGetFromOrder(st, ks, now, map[]);
    MGetFromEntries(st, ks, now, map[]);
    MGetFromLog(st, ks, now, map[]);
    MGetFromValues(st, ks, now, map[]);
    assert map[] + LiveValues(ks, st.entries, now) == LiveValues(ks, st.entries, now);
    MGetFrom(st, ks, now, map[])
  }

  /** `getAll()`: `mget` over every key of the record. */
  function GetAll<V>(st: State<V>, now: int): (r: (State<V>, map<string, V>))
    ensures r.1 == LiveValues(st.order, st.entries, now)
    ensures r.0.entries == st.entries - ExpiredAmong(st.order, st.entries, now)
    ensures r.0.log == st.log + ExpiryEvents(st.order, st.entries, now)
    ensures Valid(st) ==> Valid(r.0)
  {
    MGet(st, st.order, now)
  }

  // ---------------------------------------------------------------- set, mset

  /** The write at the end of `set`: the entry is stored (a new key goes to the end of the order,
      an existing key keeps its place) and a `set` event is emitted. */
  function Insert<V>(st: State<V>, key: string, e: Entry<V>): (r: State<V>)
    requires Valid(st)
    ensures Valid(r)
    ensures r.entries == st.entries[key := e]
    ensures key in st.entries ==> r.order == st.order
    ensures key !in st.entries ==> r.order == st.order + [key]
    ensures r.log == st.log + [SetEvent(key, e.v)]
  {
    var order := if key in st.entries then st.order else st.order + [key];
    assert key !in st.entries ==> key !in st.order;
    State(order, st.entries[key := e], st.log + [SetEvent(key, e.v)])
  }

  /** `m` is the first position of `keys` whose entry ranks lowest under `Before`: nothing ranks
      before it, and everything ahead of it ranks strictly after it. */
  ghost predicate FirstMinimumAt<V>(keys: seq<string>, entries: map<string, Entry<V>>, m: int)
    requires forall k :: k in keys ==> k in entries
  {
    && 0 <= m < |keys|
    && (forall j :: 0 <= j < |keys| ==> !Before(entries[keys[j]], entries[keys[m]]))
    && (forall j :: 0 <= j < m ==> Before(entries[keys[m]], entries[keys[j]]))
  }

  /** `_getReplaceKey`'s fold over `keys`, `retkey` being the candidate so far. */
  function ReplaceFrom<V>(keys: seq<string>, entries: map<string, Entry<V>>, retkey: string, i: nat): string
    requires i <= |keys| && retkey in entries && forall k :: k in keys ==> k in entries
    decreases |keys| - i
  {
    if i == |keys| then retkey
    else ReplaceFrom(keys, entries, if Before(entries[keys[i]], entries[retkey]) then keys[i] else retkey, i + 1)
  }

  /** The fold keeps the first minimum of the prefix it has seen. */
  lemma {:induction false} ReplaceFromFirstMinimum<V>(keys: seq<string>, entries: map<string, Entry<V>>, m: nat, i: nat)
    requires forall k :: k in keys ==> k in entries
    requires m < |keys| && m <= i <= |keys|
    requires forall j :: 0 <= j < i ==> !Before(entries[keys[j]], entries[keys[m]])
    requires forall j :: 0 <= j < m ==> Before(entries[keys[m]], entries[keys[j]])
    ensures exists m' :: FirstMinimumAt(keys, entries, m') && keys[m'] == ReplaceFrom(keys, entries, keys[m], i)
    decreases |keys| - i
  {
    if i == |keys| {
      assert FirstMinimumAt(keys, entries, m);
    } else if Before(entries[keys[i]], entries[keys[m]]) {
      ReplaceFromFirstMinimum(keys, entries, i, i + 1);
    } else {
      ReplaceFromFirstMinimum(keys, entries, m, i + 1);
    }
  }

  /** `_getReplaceKey(keys, cacheValues)`: the first key whose entry has the smallest `t`, ties
      broken by the smallest `n`. */
  function ReplaceKey<V>(keys: seq<string>, entries: map<string, Entry<V>>): (r: string)
    requires |keys| > 0 && forall k :: k in keys ==> k in entries
    ensures r in keys
    ensures exists m :: FirstMinimumAt(keys, entries, m) && keys[m] == r
  {
    ReplaceFromFirstMinimum(keys, entries, 0, 0);
    ReplaceFrom(keys, entries, keys[0], 0)
  }

  /** `set(key, value, ttl)`. With `max == 0` nothing is written. A new key that meets the bound
      first triggers a validity scan; if the valid keys still meet it, `'replaced'` evicts the
      first minimum of `_getReplaceKey` and `'limited'` gives up. */
  function Set<V>(st: State<V>, opts: CacheOptions, key: string, value: V, ttl: Option<int>, now: int): (r: (State<V>, bool))
    requires Valid(st)
    ensures Valid(r.0)
    ensures opts.max == 0 ==> r == (st, false)
    ensures r.1 <==> opts.max != 0 && (key in st.entries || !IsLimited(opts.max, |st.order|)
                                      || !IsLimited(opts.max, |Live(st.order, st.entries, now)|)
                                      || opts.maxStrategy == Replaced)
    ensures r.1 ==> key in r.0.entries && r.0.entries[key] == Wrap(value, ttl, opts.stdTTL, now)
    ensures r.1 ==> |r.0.log| > 0 && r.0.log[|r.0.log| - 1] == SetEvent(key, value)
    ensures !r.1 && opts.max != 0 ==> r.0 == Sweep(st, now)
  {
    var e := Wrap(value, ttl, opts.stdTTL, now);
    if opts.max == 0 then (st, false)
    else if key !in st.entries && IsLimited(opts.max, |st.order|) then
      var (purged, validKeys) := Keys(st, now);
      if IsLimited(opts.max, |validKeys|) then
        if opts.maxStrategy == Replaced then
          var replaceKey := ReplaceKey(validKeys, purged.entries);
          (Insert(Del(purged, [replaceKey]).0, key, e), true)
        else (purged, false)
      else (Insert(purged, key, e), true)
    else (Insert(st, key, e), true)
  }

  /** `mset`'s loop: every item is set, whatever the earlier results; `ret` is their conjunction
      so far. */
  function MSetFrom<V>(st: State<V>, opts: CacheOptions, items: seq<Item<V>>, now: int, ret: bool): (r: (State<V>, bool))
    requires Valid(st)
    ensures Valid(r.0)
    decreases |items|
  {
    if items == [] then (st, ret)
    else
      var (next, ok) := Set(st, opts, items[0].key, items[0].value, items[0].ttl, now);
      MSetFrom(next, opts, items[1..], now, ret && ok)
  }

  /** Every item set in turn, each `set`'s own result recorded in order. */
  function SetEach<V>(st: State<V>, opts: CacheOptions, items: seq<Item<V>>, now: int): (r: (State<V>, seq<bool>))
    requires Valid(st)
    ensures Valid(r.0) && |r.1| == |items|
    decreases |items|
  {
    if items == [] then (st, [])
    else
      var (next, ok) := Set(st, opts, items[0].key, items[0].value, items[0].ttl, now);
      var rest := SetEach(next, opts, items[1..], now);
      (rest.0, [ok] + rest.1)
  }

  lemma {:induction false} MSetFromEach<V>(st: State<V>, opts: CacheOptions, items: seq<Item<V>>, now: int, ret: bool)
    requires Valid(st)
    ensures var each := SetEach(st, opts, items, now);
            MSetFrom(st, opts, items, now, ret) == (each.0, ret && false !in each.1)
    decreases |items|
  {
    if items != [] {
      var (next, ok) := Set(st, opts, items[0].key, items[0].value, items[0].ttl, now);
      MSetFromEach(next, opts, items[1..], now, ret && ok);
      var rest := SetEach(next, opts, items[1..], now).1;
      assert false in [ok] + rest <==> !ok || false in rest;
    }
  }

  /** `mset(items)`: every item is set, in order, and the result says whether all of them were. */
  function MSet<V>(st: State<V>, opts: CacheOptions, items: seq<Item<V>>, now: int): (r: (State<V>, bool))
    requires Valid(st)
    ensures Valid(r.0)
    ensures var each := SetEach(st, opts, items, now);
            r.0 == each.0 && (r.1 <==> false !in each.1)
  {
    MSetFromEach(st, opts, items, now, true);
    MSetFrom(st, opts, items, now, true)
  }

  // ---------------------------------------------------------------- clear, sweep

  /** `clear()`: the namespace's record is dropped as a whole; no events. */
  function Clear<V>(st: State<V>): (r: State<V>)
    ensures Valid(r) && r.entries == map[] && r.order == []
    ensures r.log == st.log
  {
    State([], map[], st.log)
  }

  /** One pass of the sweeper (`startCheckperiod`): a `keys()` pass whose result is discarded. */
  function Sweep<V>(st: State<V>, now: int): (r: State<V>)
    requires Valid(st)
    ensures Valid(r)
    ensures forall k :: k in r.entries <==> ValidAt(st, k, now)
    ensures forall k :: k in r.entries ==> k in st.entries && r.entries[k] == st.entries[k]
    ensures r.order == Live(st.order, st.entries, now)
    ensures r.log == st.log + ExpiryEvents(st.order, st.entries, now)
  {
    Keys(st, now).0
  }
}

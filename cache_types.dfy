/** The data of the cache engine of src/Cache.ts: entries `{v, t, n}`, the events it emits, its
    options, and declarative descriptions of what a validity scan keeps and drops. */
module CacheTypes {
  import opened Wrappers

  /** One stored entry: the value `v`, the absolute expiry instant `t` (`0` = never expires) and
      the last-modified instant `n`. */
  datatype Entry<V> = Entry(v: V, t: int, n: int)

  /** What the cache emits, in emission order. */
  datatype Event<V> =
    | SetEvent(key: string, value: V)
    | DelEvent(key: string, value: V)
    | ExpiredEvent(key: string, value: V)

  /** `maxStrategy`: any value other than `'replaced'` behaves as `'limited'`. */
  datatype Strategy = Limited | Replaced

  /** The options the engine reads: `max` (`-1` = unlimited), `maxStrategy`, `stdTTL`. */
  datatype CacheOptions = CacheOptions(max: int, maxStrategy: Strategy, stdTTL: int)

  /** One element of the `mset` argument; `ttl` may be left out. */
  datatype Item<V> = Item(key: string, value: V, ttl: Option<int>)

  /** A namespace's record as one cache instance sees it: the keys in insertion order, the
      entries by key, and the events this instance has emitted so far. */
  datatype State<V> = State(order: seq<string>, entries: map<string, Entry<V>>, log: seq<Event<V>>)

  predicate NoDup(s: seq<string>) {
    forall i, j :: 0 <= i < j < |s| ==> s[i] != s[j]
  }

  /** The key order lists every key of the record exactly once. */
  ghost predicate TableValid<V>(order: seq<string>, entries: map<string, Entry<V>>) {
    NoDup(order) && forall k :: k in entries <==> k in order
  }

  ghost predicate Valid<V>(st: State<V>) {
    TableValid(st.order, st.entries)
  }

  /** `_check`'s test: a strict `t < now`, so an entry is still valid at `now == t`. */
  predicate Expired<V>(e: Entry<V>, now: int): (r: bool)
    ensures e.t == 0 ==> !r
    ensures now <= e.t ==> !r
    ensures r ==> e.t != 0 && e.t < now
  {
    e.t != 0 && e.t < now
  }

  /** The explicit `ttl` when one is given, else the instance's `stdTTL`. */
  function EffectiveTtl(ttl: Option<int>, stdTTL: int): (r: int)
    ensures ttl.Some? ==> r == ttl.value
    ensures ttl.None? ==> r == stdTTL
  {
    if ttl.Some? then ttl.value else stdTTL
  }

  /** `_wrap`: the entry written for `value` at `now`. */
  function Wrap<V>(value: V, ttl: Option<int>, stdTTL: int, now: int): (r: Entry<V>)
    ensures r.v == value && r.n == now
    ensures EffectiveTtl(ttl, stdTTL) > 0 ==> r.t == now + EffectiveTtl(ttl, stdTTL)
    ensures EffectiveTtl(ttl, stdTTL) <= 0 ==> r.t == 0
    ensures !Expired(r, now)
  {
    var currentTtl := EffectiveTtl(ttl, stdTTL);
    Entry(value, if currentTtl > 0 then now + currentTtl else 0, now)
  }

  /** `_isLimited`: a table of `len` keys has reached the bound `max` (`-1` = unlimited). */
  predicate IsLimited(max: int, len: int): (r: bool)
    ensures max < 0 ==> !r
    ensures max >= 0 ==> (r <==> len >= max)
  {
    max > -1 && len >= max
  }

  /** The comparison of `_getReplaceKey`: `a` ranks before `b` by `t`, then by `n`, numerically. */
  predicate Before<V>(a: Entry<V>, b: Entry<V>): (r: bool)
    ensures a.t == b.t && a.n == b.n ==> !r
    ensures r ==> a.t <= b.t
    ensures a.t == 0 && b.t > 0 ==> r
  {
    a.t < b.t || (a.t == b.t && a.n < b.n)
  }

  /** `s` without the elements of `X`, in their original order. */
  function FilterOut(s: seq<string>, X: set<string>): (r: seq<string>)
    ensures forall k :: k in r <==> k in s && k !in X
    ensures NoDup(s) ==> NoDup(r)
  {
    if s == [] then []
    else
      var rest := FilterOut(s[1..], X);
      assert NoDup(s) ==> s[0] !in s[1..];
      (if s[0] in X then [] else [s[0]]) + rest
  }

  /** The keys of `ks` that are present and not expired at `now`, in their order in `ks`. */
  function Live<V>(ks: seq<string>, entries: map<string, Entry<V>>, now: int): (r: seq<string>)
    ensures forall k :: k in r <==> k in ks && k in entries && !Expired(entries[k], now)
    ensures NoDup(ks) ==> NoDup(r)
  {
    if ks == [] then []
    else
      var rest := Live(ks[1..], entries, now);
      assert NoDup(ks) ==> ks[0] !in ks[1..];
      (if ks[0] in entries && !Expired(entries[ks[0]], now) then [ks[0]] else []) + rest
  }

  /** The entries that are not expired at `now`. */
  function Purge<V>(entries: map<string, Entry<V>>, now: int): map<string, Entry<V>> {
    map k | k in entries && !Expired(entries[k], now) :: entries[k]
  }

  /** The keys of `ks` that are present and expired at `now`. */
  function ExpiredAmong<V>(ks: seq<string>, entries: map<string, Entry<V>>, now: int): set<string> {
    set k | k in ks && k in entries && Expired(entries[k], now)
  }

  /** The values of the keys of `ks` that are present and not expired at `now`. */
  function LiveValues<V>(ks: seq<string>, entries: map<string, Entry<V>>, now: int): map<string, V> {
    map k | k in ks && k in entries && !Expired(entries[k], now) :: entries[k].v
  }

  /** The events a pass over `ks` emits: for the first occurrence of each present, expired key,
      a `del` and then an `expired` event, both with the value it held. */
  function ExpiryEvents<V>(ks: seq<string>, entries: map<string, Entry<V>>, now: int): seq<Event<V>> {
    if ks == [] then []
    else if ks[0] in entries && Expired(entries[ks[0]], now) then
      [DelEvent(ks[0], entries[ks[0]].v), ExpiredEvent(ks[0], entries[ks[0]].v)]
        + ExpiryEvents(ks[1..], entries - {ks[0]}, now)
    else ExpiryEvents(ks[1..], entries, now)
  }

  lemma {:induction false} FilterOutNothing(s: seq<string>, X: set<string>)
    requires forall k :: k in s ==> k !in X
    ensures FilterOut(s, X) == s
  {
    if s != [] {
      FilterOutNothing(s[1..], X);
    }
  }

  /** Filtering twice is filtering once by the union. */
  lemma {:induction false} FilterOutTwice(s: seq<string>, X: set<string>, Y: set<string>)
    ensures FilterOut(FilterOut(s, X), Y) == FilterOut(s, X + Y)
  {
    if s != [] {
      var rest := FilterOut(s[1..], X);
      FilterOutTwice(s[1..], X, Y);
      if s[0] in X {
        assert FilterOut(s, X) == rest;
      } else {
        var once := [s[0]] + rest;
        assert FilterOut(s, X) == once;
        assert once[0] == s[0] && once[1..] == rest;
        assert FilterOut(once, Y) == (if s[0] in Y then [] else [s[0]]) + FilterOut(rest, Y);
      }
    }
  }

  /** Filtering distributes over concatenation. */
  lemma {:induction false} FilterOutAppend(a: seq<string>, b: seq<string>, X: set<string>)
    ensures FilterOut(a + b, X) == FilterOut(a, X) + FilterOut(b, X)
  {
    if a != [] {
      assert (a + b)[0] == a[0] && (a + b)[1..] == a[1..] + b;
      FilterOutAppend(a[1..], b, X);
    } else {
      assert a + b == b;
    }
  }

  /** Filtering keeps the relative order: the kept elements before `k` come first, then `k`
      unless it is filtered out, then the kept elements after it. */
  lemma {:induction false} FilterOutKeepsOrder(a: seq<string>, k: string, b: seq<string>, X: set<string>)
    ensures FilterOut(a + [k] + b, X) == FilterOut(a, X) + (if k in X then [] else [k]) + FilterOut(b, X)
  {
    var ak := a + [k];
    FilterOutAppend(ak, b, X);
    FilterOutAppend(a, [k], X);
    FilterOutSingle(k, X);
  }

  lemma FilterOutSingle(k: string, X: set<string>)
    ensures FilterOut([k], X) == (if k in X then [] else [k])
  {
    assert [k][1..] == [];
  }

  /** The live keys of a concatenation are the live keys of each part, in turn. */
  lemma {:induction false} LiveAppend<V>(a: seq<string>, b: seq<string>, entries: map<string, Entry<V>>, now: int)
    ensures Live(a + b, entries, now) == Live(a, entries, now) + Live(b, entries, now)
  {
    if a != [] {
      assert (a + b)[0] == a[0] && (a + b)[1..] == a[1..] + b;
      LiveAppend(a[1..], b, entries, now);
    } else {
      assert a + b == b;
    }
  }

  /** `Live` keeps the relative order of the keys it is given: the live keys before `k` come
      first, then `k` when it is present and valid, then the live keys after it. */
  lemma {:induction false} LiveKeepsOrder<V>(a: seq<string>, k: string, b: seq<string>, entries: map<string, Entry<V>>, now: int)
    ensures Live(a + [k] + b, entries, now)
         == Live(a, entries, now) + (if k in entries && !Expired(entries[k], now) then [k] else []) + Live(b, entries, now)
  {
    var ak := a + [k];
    LiveAppend(ak, b, entries, now);
    LiveAppend(a, [k], entries, now);
    LiveSingle(k, entries, now);
  }

  lemma LiveSingle<V>(k: string, entries: map<string, Entry<V>>, now: int)
    ensures Live([k], entries, now) == (if k in entries && !Expired(entries[k], now) then [k] else [])
  {
    assert [k][1..] == [];
  }

  /** When every key of `ks` is present, the live keys are `ks` without the expired ones. */
  lemma {:induction false} LiveIsFilterOut<V>(ks: seq<string>, entries: map<string, Entry<V>>, now: int, X: set<string>)
    requires forall k :: k in ks ==> k in entries
    requires forall k :: k in ks ==> (k in X <==> Expired(entries[k], now))
    ensures Live(ks, entries, now) == FilterOut(ks, X)
  {
    if ks != [] {
      LiveIsFilterOut(ks[1..], entries, now, X);
    }
  }

  /** `Live` looks only at the keys it is given. */
  lemma {:induction false} LiveIgnoresOtherKeys<V>(ks: seq<string>, entries: map<string, Entry<V>>, now: int, x: string)
    requires x !in ks
    ensures Live(ks, entries - {x}, now) == Live(ks, entries, now)
  {
    if ks != [] {
      LiveIgnoresOtherKeys(ks[1..], entries, now, x);
    }
  }

  /** A sequence without duplicates has as many distinct elements as it has elements. */
  lemma {:induction false} DistinctCount(s: seq<string>)
    requires NoDup(s)
    ensures |set k | k in s| == |s|
  {
    if s != [] {
      DistinctCount(s[1..]);
      assert (set k | k in s) == {s[0]} + (set k | k in s[1..]);
      assert s[0] !in s[1..];
    }
  }

  /** In a valid table the record has exactly as many entries as the key order has keys. */
  lemma TableSize<V>(order: seq<string>, entries: map<string, Entry<V>>)
    requires TableValid(order, entries)
    ensures |entries| == |order|
  {
    DistinctCount(order);
    assert entries.Keys == set k | k in order;
  }
}

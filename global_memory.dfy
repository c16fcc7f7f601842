/** The single module-level table of src/memoryStorage.ts and the `memoryStorage` object over it.
    Dafny has no module-level mutable state, so the table lives in one `Store` object that every
    caller shares by reference. */
module GlobalMemory {
  import opened JsValues

  class Store {
    /** The module-level `cache` record */
    var cache: map<string, JsValue>

    constructor ()
      ensures cache == map[]
    {
      cache := map[];
    }

    /** `getItem`: the stored value when it is truthy, and `null` otherwise, so a stored falsy value
        reads back as `null` exactly like a missing key. */
    function GetItem(key: string): (r: JsValue)
      reads this
      ensures r == Null || (key in cache && r == cache[key])
      ensures Truthy(r) <==> key in cache && Truthy(cache[key])
      ensures key in cache && Truthy(cache[key]) ==> r == cache[key]
      ensures !(key in cache && Truthy(cache[key])) ==> r == Null
    {
      if key in cache && Truthy(cache[key]) then cache[key] else Null
    }

    /** `setItem`: the entry for `key` becomes `value`; every other key keeps its entry. */
    method SetItem(key: string, value: JsValue)
      modifies this
      ensures cache == old(cache)[key := value]
      ensures GetItem(key) == if Truthy(value) then value else Null
      ensures forall k :: k != key ==> GetItem(k) == old(GetItem(k))
    {
      cache := cache[key := value];
    }

    /** `removeItem`: deletes `key` only; a missing key is a no-op. */
    method RemoveItem(key: string)
      modifies this
      ensures cache == old(cache) - {key}
      ensures GetItem(key) == Null
      ensures forall k :: k != key ==> GetItem(k) == old(GetItem(k))
      ensures key !in old(cache) ==> cache == old(cache)
    {
      cache := cache - {key};
    }
  }
}

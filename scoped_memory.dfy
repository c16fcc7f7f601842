/** The in-memory backend of src/MemoryStorage.ts: a module-level registry from scope to table,
    and `MemoryStorage` instances that hold a reference to their scope's table. Instances built for
    the same scope share one table; `clear` installs a fresh table for the scope. */
module ScopedMemory {
  import opened Wrappers
  import opened JsValues

  /** The scope a constructor called without one uses */
  const DefaultScope: string := "default"

  /** One table object `{}`; `scope` records, for the proofs only, which scope it was created for. */
  class Table {
    var items: map<string, JsValue>
    ghost const scope: string

    constructor (ghost scope: string)
      ensures items == map[] && this.scope == scope
    {
      items := map[];
      this.scope := scope;
    }
  }

  /** The module-level `cache`: scope to table. */
  class Registry {
    var tables: map<string, Table>

    ghost predicate Valid()
      reads this
    {
      forall s :: s in tables ==> tables[s].scope == s
    }

    constructor ()
      ensures Valid() && tables == map[]
    {
      tables := map[];
    }
  }

  class MemoryStorage {
    const scope: string
    const registry: Registry
    var data: Table

    /** The table an instance holds was created for its own scope. */
    ghost predicate Valid()
      reads this
    {
      data.scope == scope
    }

    /** `new MemoryStorage(scope)`: a missing scope means "default"; the scope's table is created on
        first use and shared afterwards. */
    constructor (registry: Registry, scope: Option<string>)
      requires registry.Valid()
      modifies registry
      ensures Valid() && registry.Valid() && this.registry == registry
      ensures this.scope == if scope.Some? then scope.value else DefaultScope
      ensures this.scope in old(registry.tables) ==>
                data == old(registry.tables)[this.scope] && registry.tables == old(registry.tables)
      ensures this.scope !in old(registry.tables) ==>
                fresh(data) && data.items == map[] && registry.tables == old(registry.tables)[this.scope := data]
    {
      var s := if scope.Some? then scope.value else DefaultScope;
      if s !in registry.tables {
        var t := new Table(s);
        registry.tables := registry.tables[s := t];
      }
      this.scope := s;
      this.registry := registry;
      this.data := registry.tables[s];
    }

    /** `getItem`: `null` for an absent key, otherwise the stored value, falsy values included. */
    function GetItem(key: string): (r: JsValue)
      reads this, data
      ensures key !in data.items ==> r == Null
      ensures key in data.items ==> r == data.items[key]
    {
      if key in data.items then data.items[key] else Null
    }

    /** `setItem`: writes into the shared table; `key` reads back as `value`, other keys unchanged. */
    method SetItem(key: string, value: JsValue)
      modifies data
      ensures data.items == old(data.items)[key := value]
      ensures GetItem(key) == value
      ensures forall k :: k != key ==> GetItem(k) == old(GetItem(k))
    {
      data.items := data.items[key := value];
    }

    /** `removeItem`: removes `key` only; a no-op when it is absent. */
    method RemoveItem(key: string)
      modifies data
      ensures data.items == old(data.items) - {key}
      ensures GetItem(key) == Null
      ensures forall k :: k != key ==> GetItem(k) == old(GetItem(k))
      ensures key !in old(data.items) ==> data.items == old(data.items)
    {
      data.items := data.items - {key};
    }

    /** `clear`: installs a fresh empty table for the scope and points this instance at it; other
        instances keep whatever table they already hold. */
    method Clear()
      requires Valid() && registry.Valid()
      modifies this, registry
      ensures Valid() && registry.Valid()
      ensures fresh(data) && data.items == map[]
      ensures registry.tables == old(registry.tables)[scope := data]
      ensures forall k :: GetItem(k) == Null
    {
      var t := new Table(scope);
      registry.tables := registry.tables[scope := t];
      data := registry.tables[scope];
    }
  }

  /** Two instances constructed with the same scope share one table: a write through the first is
      read back through the second. */
  method SameScopeShares(registry: Registry, scope: Option<string>, key: string, value: JsValue)
    returns (a: MemoryStorage, b: MemoryStorage)
    requires registry.Valid()
    modifies registry, registry.tables.Values
    ensures a.scope == b.scope && a.data == b.data
    ensures b.GetItem(key) == value
  {
    a := new MemoryStorage(registry, scope);
    b := new MemoryStorage(registry, scope);
    a.SetItem(key, value);
  }

  /** Instances with different scopes hold different tables, so a write through one leaves the
      other's table as it was. */
  method DistinctScopesIsolated(a: MemoryStorage, b: MemoryStorage, key: string, value: JsValue)
    requires a.Valid() && b.Valid() && a.scope != b.scope
    modifies a.data
    ensures a.data != b.data
    ensures a.GetItem(key) == value
    ensures b.data.items == old(b.data.items)
  {
    a.SetItem(key, value);
  }

  /** After `clear` on one instance, an instance created earlier for the same scope still reads its
      old table, while the cleared instance and any instance created afterwards read the new one. */
  method ClearLeavesEarlierInstances(registry: Registry, scope: string, key: string, value: JsValue)
    returns (early: MemoryStorage, clearer: MemoryStorage, late: MemoryStorage)
    requires registry.Valid()
    modifies registry, registry.tables.Values
    ensures early.GetItem(key) == value
    ensures clearer.GetItem(key) == Null && late.GetItem(key) == Null
    ensures late.data == clearer.data != early.data
  {
    early := new MemoryStorage(registry, Some(scope));
    early.SetItem(key, value);
    clearer := new MemoryStorage(registry, Some(scope));
    clearer.Clear();
    late := new MemoryStorage(registry, Some(scope));
  }
}

/**
 * DataCache: an in-memory map in front of a key-value store (the DAO's
 * table). Reads fill the cache from the store; writes go to the store only
 * through save.
 */
module Cache {
  import opened Wrappers

  /** The entries of the store, the cached entries winning (loadAll(true)) or losing (loadAll(false)). */
  function LoadedAll<K, V>(cache: map<K, V>, store: map<K, V>, ignoreCached: bool): (r: map<K, V>)
    ensures r.Keys == cache.Keys + store.Keys
  {
    map k | k in cache.Keys + store.Keys :: if k in store && (!ignoreCached || k !in cache) then store[k] else cache[k]
  }

  /** loadAll(true) only adds the entries that are not cached yet. */
  lemma LoadAllIgnoringCached<K, V>(cache: map<K, V>, store: map<K, V>)
    ensures LoadedAll(cache, store, true) == store + cache
    ensures forall k :: k in cache ==> LoadedAll(cache, store, true)[k] == cache[k]
  {
    var r := LoadedAll(cache, store, true);
    assert r.Keys == (store + cache).Keys;
    forall k | k in r.Keys ensures r[k] == (store + cache)[k] {
    }
  }

  /** loadAll(false) overwrites every cached entry the store also has. */
  lemma LoadAllOverwriting<K, V>(cache: map<K, V>, store: map<K, V>)
    ensures LoadedAll(cache, store, false) == cache + store
    ensures forall k :: k in store ==> LoadedAll(cache, store, false)[k] == store[k]
  {
    var r := LoadedAll(cache, store, false);
    assert r.Keys == (cache + store).Keys;
    forall k | k in r.Keys ensures r[k] == (cache + store)[k] {
    }
  }

  class DataCache<K(==), V(==)> {
    var cache: map<K, V>
    /** The DAO's table: each entity under its id. */
    var store: map<K, V>
    /** dao.extractId: the id an entity is stored under. */
    const idOf: V -> K

    /** The table keeps every entity under its own id. */
    predicate Valid()
      reads this
    {
      forall k :: k in store ==> idOf(store[k]) == k
    }

    /** The cached keys whose values carry their own key as id, as set and load leave them. */
    predicate CacheKeyedById()
      reads this
    {
      forall k :: k in cache ==> idOf(cache[k]) == k
    }

    constructor(table: map<K, V>, extractId: V -> K)
      requires forall k :: k in table ==> extractId(table[k]) == k
      ensures Valid() && cache == map[] && store == table && idOf == extractId
    {
      cache := map[];
      store := table;
      idOf := extractId;
    }

    /** contains: the key is cached. */
    predicate Contains(key: K)
      reads this
    {
      key in cache
    }

    /** exists: the key is cached or the table has it. */
    predicate Exists(key: K)
      reads this
    {
      Contains(key) || key in store
    }

    /** get: the cached value, or else the loaded one. */
    method Get(key: K) returns (value: Option<V>)
      requires Valid()
      modifies this
      ensures Valid() && store == old(store)
      ensures key in old(cache) ==> value == Some(old(cache)[key]) && cache == old(cache)
      ensures key !in old(cache) && key in store ==> value == Some(store[key]) && cache == old(cache)[key := store[key]]
      ensures key !in old(cache) && key !in store ==> value == None && cache == old(cache)
      ensures value.Some? <==> old(Exists(key))
    {
      if Contains(key) {
        value := Some(cache[key]);
      } else {
        value := Load(key);
      }
    }

    /** set: caches the value; the table is not touched. */
    method Set(key: K, value: V)
      modifies this
      ensures cache == old(cache)[key := value] && store == old(store)
    {
      cache := cache[key := value];
    }

    /** invalidate: forgets the cached entry. */
    method Invalidate(key: K)
      modifies this
      ensures cache == old(cache) - {key} && store == old(store)
    {
      cache := cache - {key};
    }

    /** invalidateAll: forgets every cached entry. */
    method InvalidateAll()
      modifies this
      ensures cache == map[] && store == old(store)
    {
      cache := map[];
    }

    /** remove: deletes the row; a cached copy survives. */
    method Remove(key: K)
      requires Valid()
      modifies this
      ensures Valid() && store == old(store) - {key} && cache == old(cache)
    {
      store := store - {key};
    }

    /** removeAll: empties the table; the cache survives. */
    method RemoveAll()
      modifies this
      ensures Valid() && store == map[] && cache == old(cache)
    {
      store := map[];
    }

    /** load: reads the row and caches it; a missing row gives null and leaves the cache alone. */
    method Load(key: K) returns (value: Option<V>)
      requires Valid()
      modifies this
      ensures Valid() && store == old(store)
      ensures key in store ==> value == Some(store[key]) && cache == old(cache)[key := store[key]]
      ensures key !in store ==> value == None && cache == old(cache)
    {
      if key !in store {
        return None;
      }
      value := Some(store[key]);
      cache := cache[key := store[key]];
    }

    /** loadAll(ignoreCached): caches every row (only the uncached ones when asked), then returns all cached values. */
    method LoadAll(ignoreCached: bool) returns (values: set<V>)
      requires Valid()
      modifies this
      ensures Valid() && store == old(store)
      ensures cache == LoadedAll(old(cache), store, ignoreCached)
      ensures values == cache.Values
    {
      var rows := store.Keys;
      ghost var done: set<K> := {};
      ghost var before := cache;
      while rows != {}
        invariant Valid() && store == old(store)
        invariant rows + done == store.Keys && rows !! done
        invariant cache.Keys == before.Keys + done
        invariant forall k :: k in cache ==> cache[k] == if k in done && (!ignoreCached || k !in before) then store[k] else before[k]
        decreases rows
      {
        var entity :| entity in rows;
        var row := store[entity];
        assert idOf(row) == entity;
        if !ignoreCached || !Contains(idOf(row)) {
          cache := cache[idOf(row) := row];
        }
        rows := rows - {entity};
        done := done + {entity};
      }
      values := cache.Values;
    }

    /**
     * modify: applies the action to the value (the consumer changes it in
     * place); an entry that was not cached is saved and then dropped from the cache.
     */
    method Modify(key: K, action: V -> V)
      requires Valid()
      modifies this
      ensures Valid()
      ensures !old(Exists(key)) ==> cache == old(cache) && store == old(store)
      ensures key in old(cache) ==> cache == old(cache)[key := action(old(cache)[key])] && store == old(store)
      ensures key !in old(cache) && key in old(store) ==>
        var changed := action(old(store)[key]);
        cache == old(cache) && store == old(store)[idOf(changed) := changed]
    {
      var contains := Contains(key);
      if !Exists(key) && !contains {
        return;
      }
      var value := Get(key);
      cache := cache[key := action(value.value)];
      if !contains {
        Save(key);
        Invalidate(key);
      }
    }

    /** save: writes the cached value of the key; an uncached key writes nothing. */
    method Save(key: K)
      requires Valid()
      modifies this
      ensures Valid() && cache == old(cache)
      ensures key in cache ==> store == old(store)[idOf(cache[key]) := cache[key]]
      ensures key !in cache ==> store == old(store)
    {
      if !Contains(key) {
        return;
      }
      var value := Get(key);
      SaveValue(value.value);
    }

    /** saveValue: creates or updates the entity's row. */
    method SaveValue(value: V)
      requires Valid()
      modifies this
      ensures Valid() && cache == old(cache) && store == old(store)[idOf(value) := value]
    {
      store := store[idOf(value) := value];
    }

    /** The ids the cached values are stored under. */
    function CachedIds(keys: set<K>): set<K>
      reads this
      requires keys <= cache.Keys
    {
      set k | k in keys :: idOf(cache[k])
    }

    /** saveAll: saves every cached key; with every cached value under its own id, the table takes the whole cache. */
    method SaveAll()
      requires Valid()
      modifies this
      ensures Valid() && cache == old(cache)
      ensures store.Keys == old(store).Keys + CachedIds(cache.Keys)
      ensures forall i :: i in store && i !in CachedIds(cache.Keys) ==> store[i] == old(store)[i]
      ensures forall i :: i in CachedIds(cache.Keys) ==> exists k :: k in cache && idOf(cache[k]) == i && store[i] == cache[k]
      ensures CacheKeyedById() ==> store == old(store) + cache
    {
      var keys := cache.Keys;
      ghost var done: set<K> := {};
      while keys != {}
        invariant Valid() && cache == old(cache)
        invariant keys + done == cache.Keys && keys !! done
        invariant store.Keys == old(store).Keys + CachedIds(done)
        invariant forall i :: i in store && i !in CachedIds(done) ==> store[i] == old(store)[i]
        invariant forall i :: i in CachedIds(done) ==> exists k :: k in done && idOf(cache[k]) == i && store[i] == cache[k]
        decreases keys
      {
        var key :| key in keys;
        ghost var id := idOf(cache[key]);
        ghost var prev := store;
        Save(key);
        assert CachedIds(done + {key}) == CachedIds(done) + {id};
        forall i | i in CachedIds(done + {key})
          ensures exists k :: k in done + {key} && idOf(cache[k]) == i && store[i] == cache[k]
        {
          if i == id {
            assert key in done + {key} && idOf(cache[key]) == i && store[i] == cache[key];
          } else {
            var k :| k in done && idOf(cache[k]) == i && prev[i] == cache[k];
            assert k in done + {key};
          }
        }
        keys := keys - {key};
        done := done + {key};
      }
      if CacheKeyedById() {
        forall i | i in cache ensures i in CachedIds(cache.Keys) {
          assert idOf(cache[i]) == i;
        }
        assert store.Keys == (old(store) + cache).Keys;
        forall i | i in store ensures store[i] == (old(store) + cache)[i] {
          if i in CachedIds(cache.Keys) {
            var k :| k in cache && idOf(cache[k]) == i && store[i] == cache[k];
          }
        }
      }
    }
  }
}

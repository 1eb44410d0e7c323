/**
 * The reference-counted cache every storage component builds on
 * (`AbstractCache`). The two hooks a concrete cache supplies are outside the
 * class: what the loader (`getForCache`) yields on a miss is a parameter of
 * `Get`, and every value handed to the evict hook (`releaseForCache`) is
 * returned to the caller.
 */
module AbstractCache {
  import opened Outcomes

  /** What the locked half of `get` decided. */
  datatype Lookup<T> = Hit(value: T) | Full | Miss

  class Cache<T> {
    /** The cached values by key. */
    var cache: map<int, T>
    /** How many holders each cached key has. */
    var references: map<int, int>
    /** Keys whose load is in progress. */
    var getting: set<int>
    /** Most keys cached at once; 0 means unbounded. */
    const capacity: int
    /** Number of keys cached or being loaded. */
    var count: int

    /** What holds between any two calls. */
    ghost predicate Valid()
      reads this
    {
      && cache.Keys == references.Keys
      && getting == {}
      && count == |cache.Keys|
      && (forall k :: k in references ==> references[k] >= 1)
      && (capacity > 0 ==> count <= capacity)
    }

    constructor (capacity: int)
      ensures Valid()
      ensures this.capacity == capacity
      ensures cache == map[] && references == map[] && count == 0
    {
      this.capacity := capacity;
      count := 0;
      cache := map[];
      references := map[];
      getting := {};
    }

    /** A load of `key` is in progress: it is counted but not yet cached. */
    ghost predicate Loading(key: int)
      reads this
    {
      && cache.Keys == references.Keys
      && getting == {key}
      && key !in cache
      && count == |cache.Keys| + 1
      && (forall k :: k in references ==> references[k] >= 1)
      && (capacity > 0 ==> count <= capacity)
    }

    /**
     * The first, locked half of `get`: a hit hands out the cached value and
     * takes one more reference; a miss on a full cache fails; any other miss
     * counts the key and marks it as being loaded.
     */
    method Reserve(key: int) returns (l: Lookup<T>)
      requires Valid()
      modifies this
      ensures key in old(cache) ==>
        && l == Hit(old(cache)[key])
        && Valid()
        && cache == old(cache)
        && references == old(references)[key := old(references)[key] + 1]
        && count == old(count)
      ensures key !in old(cache) && capacity > 0 && old(count) == capacity ==>
        && l == Full
        && Valid()
        && cache == old(cache) && references == old(references) && count == old(count)
      ensures key !in old(cache) && !(capacity > 0 && old(count) == capacity) ==>
        && l == Miss
        && Loading(key)
        && cache == old(cache) && references == old(references) && count == old(count) + 1
    {
      if key in cache {
        references := references[key := references[key] + 1];
        return Hit(cache[key]);
      }
      if capacity > 0 && count == capacity {
        return Full;
      }
      count := count + 1;
      getting := getting + {key};
      l := Miss;
    }

    /** The loader failed: the reservation is undone and nothing is cached. */
    method CancelLoad(key: int)
      requires Loading(key)
      modifies this
      ensures Valid()
      ensures cache == old(cache) && references == old(references) && count == old(count) - 1
    {
      count := count - 1;
      getting := getting - {key};
    }

    /** The loader succeeded: its value is cached with one reference. */
    method Install(key: int, val: T)
      requires Loading(key)
      modifies this
      ensures Valid()
      ensures cache == old(cache)[key := val]
      ensures references == old(references)[key := 1]
      ensures count == old(count)
    {
      cache := cache[key := val];
      getting := getting - {key};
      references := references[key := 1];
    }

    /**
     * `get`, with the loader's outcome on a miss given as `loaded`: a hit
     * returns the cached value, a full cache fails, and otherwise the
     * loader's value is installed, or its failure passed on with the
     * reservation undone.
     */
    method Get(key: int, loaded: Result<T>) returns (r: Result<T>)
      requires Valid()
      modifies this
      ensures Valid()
      ensures key in old(cache) ==>
        && r == Ok(old(cache)[key])
        && cache == old(cache)
        && references == old(references)[key := old(references)[key] + 1]
        && count == old(count)
      ensures key !in old(cache) && capacity > 0 && old(count) == capacity ==>
        && r == Err(CacheFull)
        && cache == old(cache) && references == old(references) && count == old(count)
      ensures key !in old(cache) && !(capacity > 0 && old(count) == capacity) ==>
        && r == loaded
        && (loaded.Ok? ==>
              && cache == old(cache)[key := loaded.value]
              && references == old(references)[key := 1]
              && count == old(count) + 1)
        && (loaded.Err? ==>
              cache == old(cache) && references == old(references) && count == old(count))
    {
      var l := Reserve(key);
      match l {
        case Hit(v) => r := Ok(v);
        case Full => r := Err(CacheFull);
        case Miss =>
          if loaded.Err? {
            CancelLoad(key);
          } else {
            Install(key, loaded.value);
          }
          r := loaded;
      }
    }

    /**
     * `release`: dropping the last reference evicts the key and returns its
     * value for the evict hook; otherwise one reference is dropped.
     */
    method Release(key: int) returns (evicted: Option<T>)
      requires Valid()
      requires key in references
      modifies this
      ensures Valid()
      ensures old(references)[key] == 1 ==>
        && evicted == Some(old(cache)[key])
        && cache == old(cache) - {key}
        && references == old(references) - {key}
        && count == old(count) - 1
      ensures old(references)[key] != 1 ==>
        && evicted == None
        && cache == old(cache)
        && references == old(references)[key := old(references)[key] - 1]
        && count == old(count)
    {
      var cnt := references[key];
      if cnt == 1 {
        evicted := Some(cache[key]);
        references := references - {key};
        cache := cache - {key};
        count := count - 1;
      } else {
        references := references[key := cnt - 1];
        evicted := None;
      }
    }

    /**
     * `close`: hands every cached value to the evict hook, in the map's
     * iteration order `order`, and forgets every cached key, but leaves
     * `count` as it was.
     */
    method Close(order: seq<int>) returns (evicted: seq<T>)
      requires cache.Keys == references.Keys
      requires forall i, j :: 0 <= i < j < |order| ==> order[i] != order[j]
      requires forall i :: 0 <= i < |order| ==> order[i] in cache
      requires forall k :: k in cache ==> k in order
      modifies this
      ensures cache == map[]
      ensures references == map[]
      ensures count == old(count)
      ensures |evicted| == |order|
      ensures forall i :: 0 <= i < |order| ==> evicted[i] == old(cache)[order[i]]
    {
      evicted := [];
      var i := 0;
      while i < |order|
        invariant 0 <= i <= |order|
        invariant cache.Keys == references.Keys
        invariant cache.Keys <= old(cache).Keys
        invariant forall j :: 0 <= j < i ==> order[j] !in cache
        invariant forall j :: i <= j < |order| ==> order[j] in cache && cache[order[j]] == old(cache)[order[j]]
        invariant |evicted| == i
        invariant forall j :: 0 <= j < i ==> evicted[j] == old(cache)[order[j]]
        invariant count == old(count)
      {
        var key := order[i];
        evicted := evicted + [cache[key]];
        references := references - {key};
        cache := cache - {key};
        i := i + 1;
      }
      assert forall k :: k in cache ==> k in order;
      assert cache.Keys == {};
      assert cache == map[];
    }
  }
}

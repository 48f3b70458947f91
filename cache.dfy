/** CacheWithSingleton: a string-to-string cache over one map field. */
module CacheWithSingleton {

  class Cache {
    var cache: map<string, string>

    constructor ()
      ensures cache == map[]
    {
      cache := map[];
    }

    /** `cache[key] = value`: inserts or overwrites; every other key keeps its value. */
    method Put(key: string, value: string)
      modifies this
      ensures cache == old(cache)[key := value]
      ensures key in cache && cache[key] == value
      ensures forall k :: k != key ==> (k in cache <==> k in old(cache)) && (k in cache ==> cache[k] == old(cache)[k])
    {
      cache := cache[key := value];
    }

    /** The stored value, or "" for an absent key; the cache is left as it is. */
    method Get(key: string) returns (value: string)
      ensures key in cache ==> value == cache[key]
      ensures key !in cache ==> value == ""
    {
      value := if key in cache then cache[key] else "";
    }

    /** `cache.erase(key)`: the key is gone afterwards, an absent key changes nothing, other keys keep their values. */
    method Remove(key: string)
      modifies this
      ensures cache == old(cache) - {key}
      ensures key !in cache
      ensures key !in old(cache) ==> cache == old(cache)
      ensures forall k :: k != key ==> (k in cache <==> k in old(cache)) && (k in cache ==> cache[k] == old(cache)[k])
    {
      cache := cache - {key};
    }

    /** Empties the cache, after which every Get yields "". */
    method Clear()
      modifies this
      ensures cache == map[]
      ensures forall k :: k !in cache
    {
      cache := map[];
    }
  }
}

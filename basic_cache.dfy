/**
 * `BasicCache`: the dictionary of `BaseCaching` with no limit and no
 * eviction. `put` stores an item unless the key or the item is None; `get`
 * reads.
 */
module Basic {
  import opened BaseCaching

  /** `BasicCache.put(key, item)` as a transition of `cache_data`. */
  function PutStep<K(==), V>(data: map<K, V>, key: Option<K>, item: Option<V>): map<K, V>
  {
    if key.Some? && item.Some? then data[key.value := item.value] else data
  }

  /** A `put` with a None key or item changes nothing; otherwise the item is
      stored under the key, the key set gains exactly that key, and every
      other key keeps its value. */
  lemma PutStores<K, V>(data: map<K, V>, key: Option<K>, item: Option<V>)
    ensures var r := PutStep(data, key, item);
      (key.None? || item.None? ==> r == data) &&
      (key.Some? && item.Some? ==>
        key.value in r && r[key.value] == item.value && r.Keys == data.Keys + {key.value}) &&
      forall x | x in data && key != Some(x) :: x in r && r[x] == data[x]
  {
  }

  /** Nothing is ever discarded: the dictionary grows by one exactly when a
      new key is stored, and otherwise keeps its size. */
  lemma PutGrowsOnlyOnNewKey<K, V>(data: map<K, V>, key: Option<K>, item: Option<V>)
    ensures var r := PutStep(data, key, item);
      data.Keys <= r.Keys &&
      |r| == |data| + (if key.Some? && item.Some? && key.value !in data then 1 else 0)
  {
    var r := PutStep(data, key, item);
    if key.Some? && item.Some? {
      var k := key.value;
      if k in data {
        assert r.Keys == data.Keys;
        assert |r| == |r.Keys|;
      } else {
        assert r.Keys == data.Keys + {k};
        assert |r.Keys| == |data.Keys| + 1;
        assert |r| == |r.Keys|;
      }
    }
  }

  /** Storing the same item under the same key twice is the same as storing
      it once. */
  lemma PutIdempotent<K, V>(data: map<K, V>, key: Option<K>, item: Option<V>)
    ensures PutStep(PutStep(data, key, item), key, item) == PutStep(data, key, item)
  {
    if key.Some? && item.Some? {
      var once := PutStep(data, key, item);
      assert once[key.value := item.value] == once;
    }
  }

  /** Reading a key right after storing it returns the stored item, and a
      None key reads None. */
  lemma GetAfterPut<K, V>(data: map<K, V>, k: K, v: V)
    ensures Lookup(PutStep(data, Some(k), Some(v)), Some(k)) == Some(v)
    ensures Lookup(data, None) == None
  {
  }

  class BasicCache<K(==), V> {
    /** `BaseCaching.cache_data`. */
    var cacheData: map<K, V>

    constructor ()
      ensures cacheData == map[]
    {
      cacheData := map[];
    }

    /** `put`. */
    method Put(key: Option<K>, item: Option<V>)
      modifies this
      ensures cacheData == PutStep(old(cacheData), key, item)
    {
      if key.Some? && item.Some? {
        cacheData := cacheData[key.value := item.value];
      }
    }

    /** `get`: the value stored under `key`; None when `key` is None or
        absent. Nothing changes. */
    method Get(key: Option<K>) returns (value: Option<V>)
      ensures value.Some? <==> key.Some? && key.value in cacheData
      ensures value.Some? ==> value.value == cacheData[key.value]
    {
      value := Lookup(cacheData, key);
    }
  }

  /** Put A, B, C, D and E, and a None key and a None item in between: all
      five keys stay, beyond the four of `BaseCaching.MAX_ITEMS`, and `get`
      of D returns what was stored. */
  method Scenario() returns (keys: set<char>, d: Option<string>)
    ensures keys == {'A', 'B', 'C', 'D', 'E'} && d == Some("School")
  {
    var cache := new BasicCache<char, string>();
    cache.Put(Some('A'), Some("Hello"));
    cache.Put(Some('B'), Some("World"));
    cache.Put(None, Some("Nothing"));
    cache.Put(Some('C'), Some("Holberton"));
    cache.Put(Some('D'), Some("School"));
    cache.Put(Some('Z'), None);
    cache.Put(Some('E'), Some("Battery"));
    keys := cache.cacheData.Keys;
    d := cache.Get(Some('D'));
  }
}

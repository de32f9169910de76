/**
 * `MRUCache`: a bounded cache that evicts the most recently used key.
 *
 * The bookkeeping is that of the LRU cache: `usage` lists the resident keys
 * from least to most recently used, and every `put` with a key and an item
 * that are not None, and every `get` that finds its key, moves that key to
 * the tail. When a new key arrives at a full cache, the TAIL of `usage` is
 * reported and deleted -- before the new key is appended, so the victim is
 * the most recently used key already resident, never the incoming one.
 */
module MRU {
  import opened BaseCaching

  /** `MRUCache.put(key, item)` as a transition of (`cache_data`, `usage`). */
  function PutStep<K(==), V>(cap: nat, data: map<K, V>, usage: seq<K>, key: Option<K>, item: Option<V>): Step<K, V>
    requires cap >= 1 && Consistent(data, usage)
  {
    if key.None? || item.None? then Step(data, usage, None)
    else if |data| >= cap && key.value !in data then
      FullHasVictim(cap, data, usage);
      var mruKey := usage[|usage| - 1];
      Step((data - {mruKey})[key.value := item.value], MoveToTail(usage[..|usage| - 1], key.value), Some(mruKey))
    else
      Step(data[key.value := item.value], MoveToTail(usage, key.value), None)
  }

  /** `put` keeps `usage` a duplicate-free list of exactly the resident keys
      and keeps the number of entries within the capacity. */
  lemma PutKeepsInvariant<K, V>(cap: nat, data: map<K, V>, usage: seq<K>, key: Option<K>, item: Option<V>)
    requires cap >= 1 && Invariant(cap, data, usage)
    ensures var r := PutStep(cap, data, usage, key, item);
      Invariant(cap, r.data, r.order)
  {
    if key.Some? && item.Some? {
      var k, v := key.value, item.value;
      if |data| >= cap && k !in data {
        FullHasVictim(cap, data, usage);
        assert usage[..|usage| - 1] == DropAt(usage, |usage| - 1);
        EvictThenWriteKeepsInvariant(cap, data, usage, |usage| - 1, k, v);
      } else {
        WriteKeepsInvariant(cap, data, usage, k, v);
      }
    }
  }

  /** Counting a stored key as touched, `put` keeps `usage` ordered by the
      latest touch of each key. */
  lemma PutKeepsRecency<K, V>(cap: nat, data: map<K, V>, usage: seq<K>, h: seq<K>, key: Option<K>, item: Option<V>)
    requires cap >= 1 && Consistent(data, usage) && RecencyOrdered(usage, h)
    ensures var r := PutStep(cap, data, usage, key, item);
      RecencyOrdered(r.order, if key.Some? && item.Some? then h + [key.value] else h)
  {
    if key.Some? && item.Some? {
      var k := key.value;
      if |data| >= cap && k !in data {
        FullHasVictim(cap, data, usage);
        var last := |usage| - 1;
        DropAtFacts(usage, last);
        DropKeepsRecency(usage, h, last);
        assert usage[..last] == DropAt(usage, last);
        MoveToTailKeepsRecency(usage[..last], h, k);
      } else {
        MoveToTailKeepsRecency(usage, h, k);
      }
    }
  }

  /** A None key or item changes nothing and discards nothing.
      Eviction fires exactly when key and item are not None, the cache is full
      and the key is new. The victim is `usage[-1]`: a key resident when it is
      reported, never the incoming key, gone afterwards, and the resident key
      touched most recently. */
  lemma PutEvictsMostRecentlyUsed<K, V>(cap: nat, data: map<K, V>, usage: seq<K>, h: seq<K>, key: Option<K>, item: Option<V>)
    requires cap >= 1 && Consistent(data, usage) && RecencyOrdered(usage, h)
    ensures var r := PutStep(cap, data, usage, key, item);
      (key.None? || item.None? ==> r == Step(data, usage, None)) &&
      (r.discarded.Some? <==> key.Some? && item.Some? && |data| >= cap && key.value !in data) &&
      (r.discarded.Some? ==>
        |usage| >= 1 && r.discarded.value == usage[|usage| - 1] &&
        r.discarded != key && r.discarded.value in data && r.discarded.value !in r.data &&
        forall x | x in data :: x in h && LastUse(h, x) <= LastUse(h, r.discarded.value))
  {
    var r := PutStep(cap, data, usage, key, item);
    if r.discarded.Some? {
      FullHasVictim(cap, data, usage);
      EvictKeepsConsistent(data, usage, |usage| - 1);
      TailIsMostRecent(usage, h);
      forall x | x in data
        ensures x in usage
      {
        assert x in Elems(usage);
      }
    }
  }

  /** A `put` whose key and item are not None stores the item under the key;
      every other resident key except the victim keeps its value. */
  lemma PutStores<K, V>(cap: nat, data: map<K, V>, usage: seq<K>, k: K, v: V)
    requires cap >= 1 && Consistent(data, usage)
    ensures var r := PutStep(cap, data, usage, Some(k), Some(v));
      k in r.data && r.data[k] == v &&
      r.data.Keys == data.Keys - (if r.discarded.Some? then {r.discarded.value} else {}) + {k} &&
      forall x | x in data && x != k && r.discarded != Some(x) :: x in r.data && r.data[x] == data[x]
  {
    if |data| >= cap && k !in data {
      FullHasVictim(cap, data, usage);
    }
  }

  /** A `put` whose key and item are not None leaves the key last in `usage`
      and the other keys in their relative order: an overwritten key is cut
      out of its old place, and a new key is appended after the victim (if
      any) has left the tail. */
  lemma PutMovesToTail<K, V>(cap: nat, data: map<K, V>, usage: seq<K>, k: K, v: V)
    requires cap >= 1 && Consistent(data, usage)
    ensures var r := PutStep(cap, data, usage, Some(k), Some(v));
      |r.order| >= 1 && r.order[|r.order| - 1] == k &&
      (forall i | 0 <= i < |usage| && usage[i] == k :: r.order == DropAt(usage, i) + [k]) &&
      (r.discarded.Some? ==> |usage| >= 1 && r.order == usage[..|usage| - 1] + [k]) &&
      (k !in data && r.discarded.None? ==> r.order == usage + [k])
  {
    var r := PutStep(cap, data, usage, Some(k), Some(v));
    if |data| >= cap && k !in data {
      FullHasVictim(cap, data, usage);
      assert k !in usage by {
        assert k !in Elems(usage);
      }
      assert k !in usage[..|usage| - 1];
      assert r.order == usage[..|usage| - 1] + [k];
    } else {
      MoveToTailFacts(usage, k);
      if k !in data {
        assert k !in usage by {
          assert k !in Elems(usage);
        }
      }
    }
  }

  /** Reading a key right after storing it returns the stored item. */
  lemma GetAfterPut<K, V>(cap: nat, data: map<K, V>, usage: seq<K>, k: K, v: V)
    requires cap >= 1 && Invariant(cap, data, usage)
    ensures var r := PutStep(cap, data, usage, Some(k), Some(v));
      Consistent(r.data, r.order) && GetStep(r.data, r.order, Some(k)).value == Some(v)
  {
    PutKeepsInvariant(cap, data, usage, Some(k), Some(v));
    PutStores(cap, data, usage, k, v);
  }

  class MRUCache<K(==), V> {
    /** `BaseCaching.MAX_ITEMS`. */
    const maxItems: nat
    /** `cache_data`. */
    var cacheData: map<K, V>
    /** `usage`: the resident keys, least recently used first. */
    var usage: seq<K>

    ghost predicate Valid()
      reads this
    {
      maxItems >= 1 && Invariant(maxItems, cacheData, usage)
    }

    constructor (maxItems: nat)
      requires maxItems >= 1
      ensures Valid() && this.maxItems == maxItems
      ensures cacheData == map[] && usage == []
    {
      this.maxItems := maxItems;
      cacheData := map[];
      usage := [];
    }

    /** `put`; `discarded` is the key printed as `DISCARD:`, if any. */
    method Put(key: Option<K>, item: Option<V>) returns (discarded: Option<K>)
      requires Valid()
      modifies this
      ensures Valid()
      ensures Step(cacheData, usage, discarded) == PutStep(maxItems, old(cacheData), old(usage), key, item)
    {
      PutKeepsInvariant(maxItems, cacheData, usage, key, item);
      discarded := None;
      if key.Some? && item.Some? {
        var k := key.value;
        if |cacheData| >= maxItems && k !in cacheData {
          FullHasVictim(maxItems, cacheData, usage);
          var mruKey := usage[|usage| - 1];
          discarded := Some(mruKey);
          cacheData := cacheData - {mruKey};
          usage := usage[..|usage| - 1];
        }
        if k in usage {
          usage := RemoveFirst(usage, k);
        }
        usage := usage + [k];
        cacheData := cacheData[k := item.value];
      }
    }

    /** `get`: the value stored under `key`, or None; a hit marks the key as
        most recently used. */
    method Get(key: Option<K>) returns (value: Option<V>)
      requires Valid()
      modifies this
      ensures Valid() && cacheData == old(cacheData)
      ensures Read(value, usage) == GetStep(old(cacheData), old(usage), key)
    {
      GetMovesToTail(cacheData, usage, key);
      value := None;
      if key.Some? && key.value in cacheData {
        var k := key.value;
        assert k in Elems(usage);
        usage := RemoveFirst(usage, k);
        usage := usage + [k];
        value := Some(cacheData[k]);
      }
    }
  }

  /** `put` of a key not yet listed while there is room: nothing is
      discarded, and the key joins the tail of `usage`. */
  method PutNew<K(==), V>(cache: MRUCache<K, V>, k: K, v: V)
    requires cache.Valid() && k !in cache.usage && |cache.usage| < cache.maxItems
    modifies cache
    ensures cache.Valid()
    ensures cache.usage == old(cache.usage) + [k]
  {
    ConsistentSize(cache.cacheData, cache.usage);
    PutMovesToTail(cache.maxItems, cache.cacheData, cache.usage, k, v);
    var discarded := cache.Put(Some(k), Some(v));
  }

  /** `put` of a key not yet listed into a full cache: the most recently used key is
      discarded and the new key joins the tail of `usage`. */
  method PutFull<K(==), V>(cache: MRUCache<K, V>, k: K, v: V) returns (discarded: Option<K>)
    requires cache.Valid() && k !in cache.usage && |cache.usage| == cache.maxItems
    modifies cache
    ensures cache.Valid()
    ensures old(|cache.usage|) >= 1 && discarded == Some(old(cache.usage[|cache.usage| - 1]))
    ensures cache.usage == old(cache.usage[..|cache.usage| - 1]) + [k]
  {
    ConsistentSize(cache.cacheData, cache.usage);
    assert k !in cache.cacheData by {
      assert k !in Elems(cache.usage);
    }
    PutMovesToTail(cache.maxItems, cache.cacheData, cache.usage, k, v);
    discarded := cache.Put(Some(k), Some(v));
  }

  /** A fresh cache of capacity 4 after `put` of A, B, C and D. */
  method FillFour() returns (cache: MRUCache<char, string>)
    ensures fresh(cache) && cache.Valid() && cache.maxItems == 4
    ensures cache.usage == ['A', 'B', 'C', 'D']
  {
    cache := new MRUCache<char, string>(4);
    PutNew(cache, 'A', "Hello");
    PutNew(cache, 'B', "World");
    PutNew(cache, 'C', "Holberton");
    PutNew(cache, 'D', "School");
  }

  /** A fresh cache of capacity 4 after `put` of A, B, C, D and `get` of A. */
  method FillFourReadA() returns (cache: MRUCache<char, string>)
    ensures fresh(cache) && cache.Valid() && cache.maxItems == 4
    ensures cache.usage == ['B', 'C', 'D', 'A']
  {
    cache := FillFour();
    var hit := cache.Get(Some('A'));
    assert cache.usage == ['B', 'C', 'D'] + ['A'];
  }

  /** With capacity 4: put A, B, C, D, get A, put E. A, the most recently
      used key, is discarded, and B, C, D, E stay. */
  method Scenario() returns (discarded: Option<char>, keys: set<char>)
    ensures discarded == Some('A') && keys == {'B', 'C', 'D', 'E'}
  {
    var cache := FillFourReadA();
    discarded := PutFull(cache, 'E', "Battery");
    assert cache.usage == ['B', 'C', 'D', 'E'];
    keys := cache.cacheData.Keys;
    assert keys == Elems(cache.usage);
  }
}

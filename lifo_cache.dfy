/**
 * `LIFOCache`: a bounded cache that evicts the key written last.
 *
 * `order` lists the resident keys by their latest write, oldest first. Every
 * `put` with a key and an item that are not None moves that key to the tail
 * of `order` (an overwrite cuts it out of its old place first). When a new
 * key arrives at a full cache, the tail of `order` -- the key written most
 * recently -- is reported and deleted before the new key is appended.
 * `get` only reads.
 */
module LIFO {
  import opened BaseCaching

  /** `LIFOCache.put(key, item)` as a transition of (`cache_data`, `order`). */
  function PutStep<K(==), V>(cap: nat, data: map<K, V>, order: seq<K>, key: Option<K>, item: Option<V>): Step<K, V>
    requires cap >= 1 && Consistent(data, order)
  {
    if key.None? || item.None? then Step(data, order, None)
    else if |data| >= cap && key.value !in data then
      FullHasVictim(cap, data, order);
      var lastKey := order[|order| - 1];
      Step((data - {lastKey})[key.value := item.value], MoveToTail(order[..|order| - 1], key.value), Some(lastKey))
    else
      Step(data[key.value := item.value], MoveToTail(order, key.value), None)
  }

  /** `put` keeps `order` a duplicate-free list of exactly the resident keys
      and keeps the number of entries within the capacity. */
  lemma PutKeepsInvariant<K, V>(cap: nat, data: map<K, V>, order: seq<K>, key: Option<K>, item: Option<V>)
    requires cap >= 1 && Invariant(cap, data, order)
    ensures var r := PutStep(cap, data, order, key, item);
      Invariant(cap, r.data, r.order)
  {
    if key.Some? && item.Some? {
      var k, v := key.value, item.value;
      if |data| >= cap && k !in data {
        FullHasVictim(cap, data, order);
        assert order[..|order| - 1] == DropAt(order, |order| - 1);
        EvictThenWriteKeepsInvariant(cap, data, order, |order| - 1, k, v);
      } else {
        WriteKeepsInvariant(cap, data, order, k, v);
      }
    }
  }

  /** With `h` the history of written keys, `put` keeps `order` ordered by
      the latest write of each key. */
  lemma PutKeepsRecency<K, V>(cap: nat, data: map<K, V>, order: seq<K>, h: seq<K>, key: Option<K>, item: Option<V>)
    requires cap >= 1 && Consistent(data, order) && RecencyOrdered(order, h)
    ensures var r := PutStep(cap, data, order, key, item);
      RecencyOrdered(r.order, if key.Some? && item.Some? then h + [key.value] else h)
  {
    if key.Some? && item.Some? {
      var k := key.value;
      if |data| >= cap && k !in data {
        FullHasVictim(cap, data, order);
        var last := |order| - 1;
        DropAtFacts(order, last);
        DropKeepsRecency(order, h, last);
        assert order[..last] == DropAt(order, last);
        MoveToTailKeepsRecency(order[..last], h, k);
      } else {
        MoveToTailKeepsRecency(order, h, k);
      }
    }
  }

  /** A None key or item changes nothing and discards nothing.
      Eviction fires exactly when key and item are not None, the cache is full
      and the key is new. The victim is `order[-1]`: a key resident when it is
      reported, never the incoming key, gone afterwards, and -- with `h` the
      history of written keys -- the resident key written most recently. */
  lemma PutEvictsLastWritten<K, V>(cap: nat, data: map<K, V>, order: seq<K>, h: seq<K>, key: Option<K>, item: Option<V>)
    requires cap >= 1 && Consistent(data, order) && RecencyOrdered(order, h)
    ensures var r := PutStep(cap, data, order, key, item);
      (key.None? || item.None? ==> r == Step(data, order, None)) &&
      (r.discarded.Some? <==> key.Some? && item.Some? && |data| >= cap && key.value !in data) &&
      (r.discarded.Some? ==>
        |order| >= 1 && r.discarded.value == order[|order| - 1] &&
        r.discarded != key && r.discarded.value in data && r.discarded.value !in r.data &&
        forall x | x in data :: x in h && LastUse(h, x) <= LastUse(h, r.discarded.value))
  {
    var r := PutStep(cap, data, order, key, item);
    if r.discarded.Some? {
      FullHasVictim(cap, data, order);
      EvictKeepsConsistent(data, order, |order| - 1);
      TailIsMostRecent(order, h);
      forall x | x in data
        ensures x in order
      {
        assert x in Elems(order);
      }
    }
  }

  /** A `put` whose key and item are not None stores the item under the key;
      every other resident key except the victim keeps its value. */
  lemma PutStores<K, V>(cap: nat, data: map<K, V>, order: seq<K>, k: K, v: V)
    requires cap >= 1 && Consistent(data, order)
    ensures var r := PutStep(cap, data, order, Some(k), Some(v));
      k in r.data && r.data[k] == v &&
      r.data.Keys == data.Keys - (if r.discarded.Some? then {r.discarded.value} else {}) + {k} &&
      forall x | x in data && x != k && r.discarded != Some(x) :: x in r.data && r.data[x] == data[x]
  {
    if |data| >= cap && k !in data {
      FullHasVictim(cap, data, order);
    }
  }

  /** A `put` whose key and item are not None leaves the key last in `order`
      and the other keys in their relative order: an overwritten key is cut
      out of its old place, and a new key is appended after the victim (if
      any) has left the tail. */
  lemma PutMovesToTail<K, V>(cap: nat, data: map<K, V>, order: seq<K>, k: K, v: V)
    requires cap >= 1 && Consistent(data, order)
    ensures var r := PutStep(cap, data, order, Some(k), Some(v));
      |r.order| >= 1 && r.order[|r.order| - 1] == k &&
      (forall i | 0 <= i < |order| && order[i] == k :: r.order == DropAt(order, i) + [k]) &&
      (r.discarded.Some? ==> |order| >= 1 && r.order == order[..|order| - 1] + [k]) &&
      (k !in data && r.discarded.None? ==> r.order == order + [k])
  {
    var r := PutStep(cap, data, order, Some(k), Some(v));
    if |data| >= cap && k !in data {
      FullHasVictim(cap, data, order);
      assert k !in order by {
        assert k !in Elems(order);
      }
      assert k !in order[..|order| - 1];
      assert r.order == order[..|order| - 1] + [k];
    } else {
      MoveToTailFacts(order, k);
      if k !in data {
        assert k !in order by {
          assert k !in Elems(order);
        }
      }
    }
  }

  /** Reading a key right after storing it returns the stored item. */
  lemma GetAfterPut<K, V>(cap: nat, data: map<K, V>, order: seq<K>, k: K, v: V)
    requires cap >= 1 && Consistent(data, order)
    ensures Lookup(PutStep(cap, data, order, Some(k), Some(v)).data, Some(k)) == Some(v)
  {
    PutStores(cap, data, order, k, v);
  }

  class LIFOCache<K(==), V> {
    /** `BaseCaching.MAX_ITEMS`. */
    const maxItems: nat
    /** `cache_data`. */
    var cacheData: map<K, V>
    /** `order`: the resident keys, written least recently first. */
    var order: seq<K>

    ghost predicate Valid()
      reads this
    {
      maxItems >= 1 && Invariant(maxItems, cacheData, order)
    }

    constructor (maxItems: nat)
      requires maxItems >= 1
      ensures Valid() && this.maxItems == maxItems
      ensures cacheData == map[] && order == []
    {
      this.maxItems := maxItems;
      cacheData := map[];
      order := [];
    }

    /** `put`; `discarded` is the key printed as `DISCARD:`, if any. */
    method Put(key: Option<K>, item: Option<V>) returns (discarded: Option<K>)
      requires Valid()
      modifies this
      ensures Valid()
      ensures Step(cacheData, order, discarded) == PutStep(maxItems, old(cacheData), old(order), key, item)
    {
      PutKeepsInvariant(maxItems, cacheData, order, key, item);
      discarded := None;
      if key.Some? && item.Some? {
        var k := key.value;
        if |cacheData| >= maxItems && k !in cacheData {
          FullHasVictim(maxItems, cacheData, order);
          var lastKey := order[|order| - 1];
          discarded := Some(lastKey);
          cacheData := cacheData - {lastKey};
          order := order[..|order| - 1];
        }
        if k in order {
          order := RemoveFirst(order, k);
        }
        order := order + [k];
        cacheData := cacheData[k := item.value];
      }
    }

    /** `get`: the value stored under `key`; None when `key` is None or
        absent. Nothing changes. */
    method Get(key: Option<K>) returns (value: Option<V>)
      ensures value.Some? <==> key.Some? && key.value in cacheData
      ensures value.Some? ==> value.value == cacheData[key.value]
    {
      value := Lookup(cacheData, key);
    }
  }

  /** `put` of a key not yet listed while there is room: nothing is
      discarded, and the key joins the tail of `order`. */
  method PutNew<K(==), V>(cache: LIFOCache<K, V>, k: K, v: V)
    requires cache.Valid() && k !in cache.order && |cache.order| < cache.maxItems
    modifies cache
    ensures cache.Valid()
    ensures cache.order == old(cache.order) + [k]
  {
    ConsistentSize(cache.cacheData, cache.order);
    PutMovesToTail(cache.maxItems, cache.cacheData, cache.order, k, v);
    var discarded := cache.Put(Some(k), Some(v));
  }

  /** `put` of a key not yet listed into a full cache: the key written last is
      discarded and the new key joins the tail of `order`. */
  method PutFull<K(==), V>(cache: LIFOCache<K, V>, k: K, v: V) returns (discarded: Option<K>)
    requires cache.Valid() && k !in cache.order && |cache.order| == cache.maxItems
    modifies cache
    ensures cache.Valid()
    ensures old(|cache.order|) >= 1 && discarded == Some(old(cache.order[|cache.order| - 1]))
    ensures cache.order == old(cache.order[..|cache.order| - 1]) + [k]
  {
    ConsistentSize(cache.cacheData, cache.order);
    assert k !in cache.cacheData by {
      assert k !in Elems(cache.order);
    }
    PutMovesToTail(cache.maxItems, cache.cacheData, cache.order, k, v);
    discarded := cache.Put(Some(k), Some(v));
  }

  /** A fresh cache of capacity 4 after `put` of A, B, C and D. */
  method FillFour() returns (cache: LIFOCache<char, string>)
    ensures fresh(cache) && cache.Valid() && cache.maxItems == 4
    ensures cache.order == ['A', 'B', 'C', 'D']
  {
    cache := new LIFOCache<char, string>(4);
    PutNew(cache, 'A', "Hello");
    PutNew(cache, 'B', "World");
    PutNew(cache, 'C', "Holberton");
    PutNew(cache, 'D', "School");
  }

  /** With capacity 4: put A, B, C, D, then E. D, the key written last, is
      discarded, and A, B, C, E stay. */
  method Scenario() returns (discarded: Option<char>, keys: set<char>)
    ensures discarded == Some('D') && keys == {'A', 'B', 'C', 'E'}
  {
    var cache := FillFour();
    discarded := PutFull(cache, 'E', "Battery");
    assert cache.order == ['A', 'B', 'C', 'E'];
    keys := cache.cacheData.Keys;
    assert keys == Elems(cache.order);
  }
}

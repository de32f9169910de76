/**
 * `FIFOCache`: a bounded cache that evicts the key admitted first.
 *
 * `order` records keys in the order they were written. When a new key
 * arrives at a full cache, the head of `order` is reported and deleted from
 * both structures before the new key is stored and appended. `get` only
 * reads.
 *
 * The `put` of the source appends the key to `order` on EVERY write, an
 * overwrite of a resident key included, so `order` can hold a key twice.
 * Once the first copy has been evicted, the stale second copy reaches the
 * head, and the next eviction deletes a key that is no longer in the
 * dictionary: Python raises `KeyError` after `DISCARD:` has been printed.
 * `PutAsWritten` and `FIFOCacheAsWritten` model that code; `PutStep` and
 * `FIFOCache` model the evidently intended policy. The class documents
 * `order` as the insertion order of the keys and the victim as the entry
 * inserted first; an overwrite of a Python dictionary key keeps that key's
 * insertion position, so only the admission of a new key appends it.
 */
module FIFO {
  import opened BaseCaching

  /** ---------------- The `put` of the source, as written ---------------- */

  /** What a `put` of the source ends in: a new state, or the `KeyError`
      raised by deleting the stale key `missing` from the dictionary. */
  datatype Attempt<K, V> = Done(step: Step<K, V>) | KeyError(missing: K)

  /** What survives between calls of the code as written: the dictionary
      stays within the capacity and every resident key is listed in `order`
      (which may also list evicted keys, and list a key twice). */
  predicate Covers<K(==), V>(cap: nat, data: map<K, V>, order: seq<K>)
  {
    |data| <= cap && data.Keys <= Elems(order)
  }

  /** `FIFOCache.put(key, item)` as written: every write appends the key. */
  function PutAsWritten<K(==), V>(cap: nat, data: map<K, V>, order: seq<K>, key: Option<K>, item: Option<V>): Attempt<K, V>
    requires cap >= 1 && Covers(cap, data, order)
  {
    if key.None? || item.None? then Done(Step(data, order, None))
    else if |data| >= cap && key.value !in data then
      FullHasVictim(cap, data, order);
      var head := order[0];
      if head in data then
        Done(Step((data - {head})[key.value := item.value], order[1..] + [key.value], Some(head)))
      else
        KeyError(head)
    else
      Done(Step(data[key.value := item.value], order + [key.value], None))
  }

  /** A `put` of the code as written that returns keeps the capacity bound
      and keeps every resident key listed. */
  lemma PutAsWrittenKeepsCover<K, V>(cap: nat, data: map<K, V>, order: seq<K>, key: Option<K>, item: Option<V>)
    requires cap >= 1 && Covers(cap, data, order)
    ensures var a := PutAsWritten(cap, data, order, key, item);
      a.Done? ==> Covers(cap, a.step.data, a.step.order)
  {
    var a := PutAsWritten(cap, data, order, key, item);
    if a.Done? && key.Some? && item.Some? {
      var k := key.value;
      if |data| >= cap && k !in data {
        FullHasVictim(cap, data, order);
        var head := order[0];
        var d := data - {head};
        assert |d| == |data| - 1;
        forall x | x in a.step.data
          ensures x in Elems(a.step.order)
        {
          if x != k {
            assert x in data && x != head;
            assert x in Elems(order);
            var i :| 0 <= i < |order| && order[i] == x;
            assert a.step.order[i - 1] == x;
          }
        }
      } else {
        forall x | x in a.step.data
          ensures x in Elems(a.step.order)
        {
          if x != k {
            assert x in Elems(order);
            var i :| 0 <= i < |order| && order[i] == x;
            assert a.step.order[i] == x;
          }
        }
      }
    }
  }

  /** A `put` of the code as written with a None key or item changes nothing.
      Otherwise, when it returns, the item is stored and the key is last in
      `order`, resident before or not; it discards exactly when the cache
      was full and the key new, and then the victim is the head of `order`,
      resident when reported, gone afterwards and cut from the head. */
  lemma PutAsWrittenStores<K, V>(cap: nat, data: map<K, V>, order: seq<K>, key: Option<K>, item: Option<V>)
    requires cap >= 1 && Covers(cap, data, order)
    ensures var a := PutAsWritten(cap, data, order, key, item);
      (key.None? || item.None? ==> a == Done(Step(data, order, None))) &&
      (a.Done? && key.Some? && item.Some? ==>
        key.value in a.step.data && a.step.data[key.value] == item.value &&
        |a.step.order| >= 1 && a.step.order[|a.step.order| - 1] == key.value &&
        (a.step.discarded.Some? <==> |data| >= cap && key.value !in data) &&
        (a.step.discarded.Some? ==>
          |order| >= 1 && a.step.discarded.value == order[0] && order[0] in data &&
          order[0] !in a.step.data && a.step.order == order[1..] + [key.value]))
  {
    if key.Some? && item.Some? && |data| >= cap && key.value !in data {
      FullHasVictim(cap, data, order);
    }
  }

  /** The code as written raises exactly when a new key arrives at a full
      cache whose head of `order` is no longer resident; the key it fails on
      is that head. */
  lemma PutAsWrittenRaises<K, V>(cap: nat, data: map<K, V>, order: seq<K>, key: Option<K>, item: Option<V>)
    requires cap >= 1 && Covers(cap, data, order)
    ensures var a := PutAsWritten(cap, data, order, key, item);
      (a.KeyError? <==>
        key.Some? && item.Some? && |data| >= cap && key.value !in data && |order| >= 1 && order[0] !in data) &&
      (a.KeyError? ==> a.missing == order[0])
  {
    if key.Some? && item.Some? && |data| >= cap && key.value !in data {
      FullHasVictim(cap, data, order);
    }
  }

  /** Overwriting a resident key with the code as written lists that key
      twice: `order` is no longer duplicate-free. */
  lemma OverwriteDuplicatesKey<K, V>(cap: nat, data: map<K, V>, order: seq<K>, k: K, v: V)
    requires cap >= 1 && Covers(cap, data, order) && k in data
    ensures var a := PutAsWritten(cap, data, order, Some(k), Some(v));
      a.Done? && a.step.order == order + [k] && !NoDup(a.step.order)
  {
    var a := PutAsWritten(cap, data, order, Some(k), Some(v));
    assert k in Elems(order);
    var i :| 0 <= i < |order| && order[i] == k;
    assert a.step.order[i] == a.step.order[|order|];
  }

  /** Where no resident key is overwritten, the code as written and the
      corrected policy take the same step from a consistent state. */
  lemma AsWrittenAgreesOnAdmission<K, V>(cap: nat, data: map<K, V>, order: seq<K>, key: Option<K>, item: Option<V>)
    requires cap >= 1 && Invariant(cap, data, order)
    requires key.None? || item.None? || key.value !in data
    ensures Covers(cap, data, order)
    ensures PutAsWritten(cap, data, order, key, item) == Done(PutStep(cap, data, order, key, item))
  {
    if key.Some? && item.Some? && |data| >= cap {
      FullHasVictim(cap, data, order);
      assert order[0] in Elems(order);
    }
  }

  /** ---------------- The corrected `put` ---------------- */

  /** `FIFOCache.put(key, item)` with `order` appended to only when a new key
      is admitted. */
  function PutStep<K(==), V>(cap: nat, data: map<K, V>, order: seq<K>, key: Option<K>, item: Option<V>): Step<K, V>
    requires cap >= 1 && Consistent(data, order)
  {
    if key.None? || item.None? then Step(data, order, None)
    else if key.value in data then Step(data[key.value := item.value], order, None)
    else if |data| >= cap then
      FullHasVictim(cap, data, order);
      var head := order[0];
      Step((data - {head})[key.value := item.value], order[1..] + [key.value], Some(head))
    else
      Step(data[key.value := item.value], order + [key.value], None)
  }

  /** `put` keeps `order` a duplicate-free list of exactly the resident keys
      and keeps the number of entries within the capacity. */
  lemma PutKeepsInvariant<K, V>(cap: nat, data: map<K, V>, order: seq<K>, key: Option<K>, item: Option<V>)
    requires cap >= 1 && Invariant(cap, data, order)
    ensures var r := PutStep(cap, data, order, key, item);
      Invariant(cap, r.data, r.order)
  {
    if key.Some? && item.Some? && key.value !in data {
      var k, v := key.value, item.value;
      if |data| >= cap {
        FullHasVictim(cap, data, order);
        var head := order[0];
        EvictKeepsConsistent(data, order, 0);
        assert order[1..] == DropAt(order, 0);
        AdmitKeepsInvariant(cap, data - {head}, order[1..], k, v);
      } else {
        AdmitKeepsInvariant(cap, data, order, k, v);
      }
    }
  }

  /** With `h` the history of admitted keys, `put` keeps `order` ordered by
      the latest admission of each key; an overwrite admits nothing. */
  lemma PutKeepsAdmissionOrder<K, V>(cap: nat, data: map<K, V>, order: seq<K>, h: seq<K>, key: Option<K>, item: Option<V>)
    requires cap >= 1 && Consistent(data, order) && RecencyOrdered(order, h)
    ensures var r := PutStep(cap, data, order, key, item);
      RecencyOrdered(r.order, if key.Some? && item.Some? && key.value !in data then h + [key.value] else h)
  {
    if key.Some? && item.Some? && key.value !in data {
      var k := key.value;
      assert k !in order by {
        assert k !in Elems(order);
      }
      if |data| >= cap {
        FullHasVictim(cap, data, order);
        var rest := order[1..];
        DropKeepsRecency(order, h, 0);
        assert rest == DropAt(order, 0);
        assert forall a | 0 <= a < |rest| :: rest[a] != k by {
          forall a | 0 <= a < |rest|
            ensures rest[a] != k
          {
            assert rest[a] == order[a + 1];
          }
        }
        AppendKeepsRecency(rest, h, k);
        assert PutStep(cap, data, order, key, item).order == rest + [k];
      } else {
        AppendKeepsRecency(order, h, k);
        assert PutStep(cap, data, order, key, item).order == order + [k];
      }
    }
  }

  /** A None key or item changes nothing and discards nothing.
      Eviction fires exactly when key and item are not None, the cache is full
      and the key is new. The victim is `order[0]`: a key resident when it is
      reported, never the incoming key, gone afterwards, and -- with `h` the
      history of admitted keys -- the resident key admitted longest ago. */
  lemma PutEvictsFirstIn<K, V>(cap: nat, data: map<K, V>, order: seq<K>, h: seq<K>, key: Option<K>, item: Option<V>)
    requires cap >= 1 && Consistent(data, order) && RecencyOrdered(order, h)
    ensures var r := PutStep(cap, data, order, key, item);
      (key.None? || item.None? ==> r == Step(data, order, None)) &&
      (r.discarded.Some? <==> key.Some? && item.Some? && |data| >= cap && key.value !in data) &&
      (r.discarded.Some? ==>
        |order| >= 1 && r.discarded.value == order[0] &&
        r.discarded != key && r.discarded.value in data && r.discarded.value !in r.data &&
        forall x | x in data :: x in h && LastUse(h, r.discarded.value) <= LastUse(h, x))
  {
    var r := PutStep(cap, data, order, key, item);
    if r.discarded.Some? {
      FullHasVictim(cap, data, order);
      EvictKeepsConsistent(data, order, 0);
      HeadIsLeastRecent(order, h);
      forall x | x in data
        ensures x in order
      {
        assert x in Elems(order);
      }
    }
  }

  /** A `put` whose key and item are not None stores the item under the key;
      every other resident key except the victim keeps its value. */
  lemma PutStores<K, V>(cap: nat, data: map<K, V>, order: seq<K>, k: K, v: V)
    requires cap >= 1 && Consistent(data, order)
    ensures var r := PutStep(cap, data, order, Some(k), Some(v));
      k in r.data && r.data[k] == v &&
      r.data.Keys == data.Keys - (if r.discarded.Some? then {r.discarded.value} else {}) + {k} &&
      forall x | x in data && x != k && r.discarded != Some(x) :: x in r.data && r.data[x] == data[x]
  {
    if |data| >= cap && k !in data {
      FullHasVictim(cap, data, order);
    }
  }

  /** An overwrite leaves `order` as it is; a new key goes last, behind the
      keys that were listed before it (less the victim, if any). */
  lemma PutAppendsOnAdmission<K, V>(cap: nat, data: map<K, V>, order: seq<K>, k: K, v: V)
    requires cap >= 1 && Consistent(data, order)
    ensures var r := PutStep(cap, data, order, Some(k), Some(v));
      (k in data ==> r.order == order) &&
      (k !in data ==>
        |r.order| >= 1 && r.order[|r.order| - 1] == k &&
        r.order[..|r.order| - 1] == if r.discarded.Some? then order[1..] else order)
  {
    if k !in data && |data| >= cap {
      FullHasVictim(cap, data, order);
    }
  }

  /** Reading a key right after storing it returns the stored item. */
  lemma GetAfterPut<K, V>(cap: nat, data: map<K, V>, order: seq<K>, k: K, v: V)
    requires cap >= 1 && Consistent(data, order)
    ensures Lookup(PutStep(cap, data, order, Some(k), Some(v)).data, Some(k)) == Some(v)
  {
    PutStores(cap, data, order, k, v);
  }

  /** ---------------- The class as written ---------------- */

  /** How a call of the code as written ends: it returns, having printed
      the discarded key if any, or it raises `KeyError` on `missing`. */
  datatype Outcome<K> = Returned(discarded: Option<K>) | Raised(missing: K)

  class FIFOCacheAsWritten<K(==), V> {
    /** `BaseCaching.MAX_ITEMS`. */
    const maxItems: nat
    /** `BaseCaching.cache_data`. */
    var cacheData: map<K, V>
    /** `order`: every key written, oldest write first. */
    var order: seq<K>

    ghost predicate Valid()
      reads this
    {
      maxItems >= 1 && Covers(maxItems, cacheData, order)
    }

    constructor (maxItems: nat)
      requires maxItems >= 1
      ensures Valid() && this.maxItems == maxItems
      ensures cacheData == map[] && order == []
    {
      this.maxItems := maxItems;
      cacheData := map[];
      order := [];
    }

    /** `put` as written. A raised `KeyError` leaves both structures as they
        were, since `del self.cache_data[...]` fails before anything is
        deleted. */
    method Put(key: Option<K>, item: Option<V>) returns (outcome: Outcome<K>)
      requires Valid()
      modifies this
      ensures Valid()
      ensures var a := PutAsWritten(maxItems, old(cacheData), old(order), key, item);
        if a.Done? then
          outcome == Returned(a.step.discarded) && cacheData == a.step.data && order == a.step.order
        else
          outcome == Raised(a.missing) && cacheData == old(cacheData) && order == old(order)
    {
      PutAsWrittenKeepsCover(maxItems, cacheData, order, key, item);
      outcome := Returned(None);
      if key.Some? && item.Some? {
        var k := key.value;
        if |cacheData| >= maxItems && k !in cacheData {
          FullHasVictim(maxItems, cacheData, order);
          var head := order[0];
          if head !in cacheData {
            outcome := Raised(head);
            return;
          }
          outcome := Returned(Some(head));
          cacheData := cacheData - {head};
          order := order[1..];
        }
        cacheData := cacheData[k := item.value];
        order := order + [k];
      }
    }

    /** `get`: the value stored under `key`; None when `key` is None or
        absent. Nothing changes. */
    method Get(key: Option<K>) returns (value: Option<V>)
      ensures value.Some? <==> key.Some? && key.value in cacheData
      ensures value.Some? ==> value.value == cacheData[key.value]
    {
      value := Lookup(cacheData, key);
    }
  }

  /** A returning `put` of the code as written that evicts nothing: the key
      is stored and appended to `order`, listed already or not. */
  method PutAppendAsWritten<K(==), V>(cache: FIFOCacheAsWritten<K, V>, k: K, v: V)
    requires cache.Valid() && (k in cache.cacheData || |cache.cacheData| < cache.maxItems)
    modifies cache
    ensures cache.Valid()
    ensures cache.order == old(cache.order) + [k]
    ensures cache.cacheData.Keys == old(cache.cacheData.Keys) + {k}
    ensures |cache.cacheData| == old(|cache.cacheData|) + (if k in old(cache.cacheData) then 0 else 1)
  {
    var outcome := cache.Put(Some(k), Some(v));
  }

  /** A `put` of the code as written that evicts the resident head of
      `order` to admit a new key. */
  method PutEvictAsWritten<K(==), V>(cache: FIFOCacheAsWritten<K, V>, k: K, v: V)
    requires cache.Valid() && k !in cache.cacheData && |cache.cacheData| == cache.maxItems
    requires |cache.order| >= 1 && cache.order[0] in cache.cacheData
    modifies cache
    ensures cache.Valid()
    ensures cache.order == old(cache.order[1..]) + [k]
    ensures cache.cacheData.Keys == old(cache.cacheData.Keys) - {old(cache.order[0])} + {k}
    ensures |cache.cacheData| == old(|cache.cacheData|)
  {
    var outcome := cache.Put(Some(k), Some(v));
  }

  /** A `put` of the code as written that meets a stale head of `order`
      when it must evict: `KeyError` on that head, and nothing changes. */
  method PutStaleHeadAsWritten<K(==), V>(cache: FIFOCacheAsWritten<K, V>, k: K, v: V) returns (outcome: Outcome<K>)
    requires cache.Valid() && k !in cache.cacheData && |cache.cacheData| == cache.maxItems
    requires |cache.order| >= 1 && cache.order[0] !in cache.cacheData
    modifies cache
    ensures outcome == Raised(old(cache.order[0]))
    ensures cache.cacheData == old(cache.cacheData) && cache.order == old(cache.order)
  {
    PutAsWrittenRaises(cache.maxItems, cache.cacheData, cache.order, Some(k), Some(v));
    outcome := cache.Put(Some(k), Some(v));
  }

  /** A fresh cache of the code as written, of capacity 2, after `put` of
      A, B and A again: A is listed twice. */
  method RewriteAsWritten() returns (cache: FIFOCacheAsWritten<char, string>)
    ensures fresh(cache) && cache.Valid() && cache.maxItems == 2
    ensures cache.order == ['A', 'B', 'A'] && cache.cacheData.Keys == {'A', 'B'}
    ensures |cache.cacheData| == 2
  {
    cache := new FIFOCacheAsWritten<char, string>(2);
    PutAppendAsWritten(cache, 'A', "Hello");
    PutAppendAsWritten(cache, 'B', "World");
    PutAppendAsWritten(cache, 'A', "Holberton");
  }

  /** Then `put` of C: the first copy of A is evicted, the second stays. */
  method RewriteEvictAsWritten() returns (cache: FIFOCacheAsWritten<char, string>)
    ensures fresh(cache) && cache.Valid() && cache.maxItems == 2
    ensures cache.order == ['B', 'A', 'C'] && cache.cacheData.Keys == {'B', 'C'}
    ensures |cache.cacheData| == 2
  {
    cache := RewriteAsWritten();
    PutEvictAsWritten(cache, 'C', "School");
  }

  /** With capacity 2: put A, B, then A again, then C, D and E. The overwrite
      lists A twice; C evicts the first A, D evicts B, and E finds the stale
      A at the head and raises `KeyError` on it. */
  method RewriteThenOverflowAsWritten() returns (outcome: Outcome<char>)
    ensures outcome == Raised('A')
  {
    var cache := RewriteEvictAsWritten();
    PutEvictAsWritten(cache, 'D', "Mission");
    assert cache.order == ['A', 'C', 'D'] && 'A' !in cache.cacheData;
    outcome := PutStaleHeadAsWritten(cache, 'E', "Battery");
  }

  /** ---------------- The corrected class ---------------- */

  class FIFOCache<K(==), V> {
    /** `BaseCaching.MAX_ITEMS`. */
    const maxItems: nat
    /** `BaseCaching.cache_data`. */
    var cacheData: map<K, V>
    /** `order`: the resident keys, admitted longest ago first. */
    var order: seq<K>

    ghost predicate Valid()
      reads this
    {
      maxItems >= 1 && Invariant(maxItems, cacheData, order)
    }

    constructor (maxItems: nat)
      requires maxItems >= 1
      ensures Valid() && this.maxItems == maxItems
      ensures cacheData == map[] && order == []
    {
      this.maxItems := maxItems;
      cacheData := map[];
      order := [];
    }

    /** `put`; `discarded` is the key printed as `DISCARD:`, if any. */
    method Put(key: Option<K>, item: Option<V>) returns (discarded: Option<K>)
      requires Valid()
      modifies this
      ensures Valid()
      ensures Step(cacheData, order, discarded) == PutStep(maxItems, old(cacheData), old(order), key, item)
    {
      PutKeepsInvariant(maxItems, cacheData, order, key, item);
      discarded := None;
      if key.Some? && item.Some? {
        var k := key.value;
        if k !in cacheData {
          if |cacheData| >= maxItems {
            FullHasVictim(maxItems, cacheData, order);
            var head := order[0];
            discarded := Some(head);
            cacheData := cacheData - {head};
            order := order[1..];
          }
          order := order + [k];
        }
        cacheData := cacheData[k := item.value];
      }
    }

    /** `get`: the value stored under `key`; None when `key` is None or
        absent. Nothing changes. */
    method Get(key: Option<K>) returns (value: Option<V>)
      ensures value.Some? <==> key.Some? && key.value in cacheData
      ensures value.Some? ==> value.value == cacheData[key.value]
    {
      value := Lookup(cacheData, key);
    }
  }

  /** `put` of a key not yet listed while there is room: nothing is
      discarded, and the key joins the tail of `order`. */
  method PutNew<K(==), V>(cache: FIFOCache<K, V>, k: K, v: V)
    requires cache.Valid() && k !in cache.order && |cache.order| < cache.maxItems
    modifies cache
    ensures cache.Valid()
    ensures cache.order == old(cache.order) + [k]
  {
    ConsistentSize(cache.cacheData, cache.order);
    assert k !in cache.cacheData by {
      assert k !in Elems(cache.order);
    }
    var discarded := cache.Put(Some(k), Some(v));
  }

  /** `put` of a listed key: nothing is discarded and `order` stays. */
  method PutResident<K(==), V>(cache: FIFOCache<K, V>, k: K, v: V)
    requires cache.Valid() && k in cache.order
    modifies cache
    ensures cache.Valid()
    ensures cache.order == old(cache.order)
  {
    assert k in cache.cacheData by {
      assert k in Elems(cache.order);
    }
    var discarded := cache.Put(Some(k), Some(v));
  }

  /** `put` of a key not yet listed into a full cache: the key admitted
      longest ago is discarded and the new key joins the tail of `order`. */
  method PutFull<K(==), V>(cache: FIFOCache<K, V>, k: K, v: V) returns (discarded: Option<K>)
    requires cache.Valid() && k !in cache.order && |cache.order| == cache.maxItems
    modifies cache
    ensures cache.Valid()
    ensures old(|cache.order|) >= 1 && discarded == Some(old(cache.order[0]))
    ensures cache.order == old(cache.order[1..]) + [k]
  {
    ConsistentSize(cache.cacheData, cache.order);
    assert k !in cache.cacheData by {
      assert k !in Elems(cache.order);
    }
    discarded := cache.Put(Some(k), Some(v));
  }

  /** A fresh cache of capacity 4 after `put` of A, B, C and D. */
  method FillFour() returns (cache: FIFOCache<char, string>)
    ensures fresh(cache) && cache.Valid() && cache.maxItems == 4
    ensures cache.order == ['A', 'B', 'C', 'D']
  {
    cache := new FIFOCache<char, string>(4);
    PutNew(cache, 'A', "Hello");
    PutNew(cache, 'B', "World");
    PutNew(cache, 'C', "Holberton");
    PutNew(cache, 'D', "School");
  }

  /** With capacity 4: put A, B, C, D, then E. A, the key admitted first, is
      discarded, and B, C, D, E stay. */
  method Scenario() returns (discarded: Option<char>, keys: set<char>)
    ensures discarded == Some('A') && keys == {'B', 'C', 'D', 'E'}
  {
    var cache := FillFour();
    discarded := PutFull(cache, 'E', "Battery");
    assert cache.order == ['B', 'C', 'D', 'E'];
    keys := cache.cacheData.Keys;
    assert keys == Elems(cache.order);
  }

  /** A fresh cache of capacity 2 after `put` of A, B and A again: the
      overwrite leaves `order` as A, B. */
  method Rewrite() returns (cache: FIFOCache<char, string>)
    ensures fresh(cache) && cache.Valid() && cache.maxItems == 2
    ensures cache.order == ['A', 'B']
  {
    cache := new FIFOCache<char, string>(2);
    PutNew(cache, 'A', "Hello");
    PutNew(cache, 'B', "World");
    PutResident(cache, 'A', "Holberton");
  }

  /** The puts that make the code as written raise, on the corrected policy:
      the overwrite of A keeps A first, so C evicts A, D evicts B and E
      evicts C, leaving D and E. */
  method RewriteThenOverflow() returns (discarded: Option<char>, keys: set<char>)
    ensures discarded == Some('C') && keys == {'D', 'E'}
  {
    var cache := Rewrite();
    discarded := PutFull(cache, 'C', "School");
    discarded := PutFull(cache, 'D', "Mission");
    discarded := PutFull(cache, 'E', "Battery");
    assert cache.order == ['D', 'E'];
    keys := cache.cacheData.Keys;
    assert keys == Elems(cache.order);
  }
}

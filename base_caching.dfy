/**
 * Vocabulary shared by the five caching classes.
 *
 * The classes inherit `cache_data` (a key -> value dictionary) and the
 * capacity `MAX_ITEMS` from `BaseCaching`; the policies with an eviction rule
 * also keep a list of keys (`order` or `usage`). This module gives Python's
 * `None`, the list operations the classes call (`del lst[i]`, `lst.remove(x)`,
 * `lst.append(x)`), the consistency relation between the dictionary and the
 * list, and an independent account of recency -- the position of a key's
 * latest touch in a history of accesses -- against which the eviction victims
 * of the policies are proved.
 */
module BaseCaching {

  /** Python's `None`, for keys, items and lookup results. */
  datatype Option<T> = None | Some(value: T)

  /** What one `put` leaves behind: the dictionary, the key list, and the key
      it reported with `DISCARD:` (None when nothing was evicted). */
  datatype Step<K, V> = Step(data: map<K, V>, order: seq<K>, discarded: Option<K>)

  /** `cache_data.get(key)`: None for a None key or an absent one. */
  function Lookup<K(==), V>(data: map<K, V>, key: Option<K>): Option<V>
  {
    if key.Some? && key.value in data then Some(data[key.value]) else None
  }

  /** What `get` of the recency policies (LRU, MRU) returns, with the usage
      list it leaves behind. */
  datatype Read<K, V> = Read(value: Option<V>, usage: seq<K>)

  /** `get(key)` of `LRUCache` and of `MRUCache`, which are the same: a hit
      returns the stored value and moves the key to the tail of `usage`. */
  function GetStep<K(==), V>(data: map<K, V>, usage: seq<K>, key: Option<K>): Read<K, V>
    requires Consistent(data, usage)
  {
    if key.Some? && key.value in data then
      assert key.value in Elems(usage);
      Read(Some(data[key.value]), RemoveFirst(usage, key.value) + [key.value])
    else
      Read(None, usage)
  }

  /** The set of keys a list mentions. */
  function Elems<K(==)>(s: seq<K>): set<K>
  {
    set x | x in s
  }

  predicate NoDup<K(==)>(s: seq<K>)
  {
    forall i, j | 0 <= i < j < |s| :: s[i] != s[j]
  }

  /** The key list names every resident key exactly once, and nothing else. */
  predicate Consistent<K(==), V>(data: map<K, V>, order: seq<K>)
  {
    NoDup(order) && Elems(order) == data.Keys
  }

  /** What every policy that keeps a key list maintains between calls. */
  predicate Invariant<K(==), V>(cap: nat, data: map<K, V>, order: seq<K>)
  {
    Consistent(data, order) && |data| <= cap
  }

  /** `del lst[i]`. */
  function DropAt<K(==)>(s: seq<K>, i: nat): (r: seq<K>)
    requires i < |s|
    ensures |r| == |s| - 1
    ensures forall a | 0 <= a < |r| :: r[a] == if a < i then s[a] else s[a + 1]
  {
    s[..i] + s[i + 1..]
  }

  /** The position of the first occurrence of `x`. */
  function FirstIndex<K(==)>(s: seq<K>, x: K): (i: nat)
    requires x in s
    ensures i < |s| && s[i] == x
    ensures forall a | 0 <= a < i :: s[a] != x
  {
    if s[0] == x then 0 else 1 + FirstIndex(s[1..], x)
  }

  /** `lst.remove(x)` on a list that holds `x`: drops its first occurrence. */
  function RemoveFirst<K(==)>(s: seq<K>, x: K): seq<K>
    requires x in s
  {
    DropAt(s, FirstIndex(s, x))
  }

  /** `if x in lst: lst.remove(x)` followed by `lst.append(x)`. */
  function MoveToTail<K(==)>(s: seq<K>, x: K): seq<K>
  {
    (if x in s then RemoveFirst(s, x) else s) + [x]
  }

  /** The position of the latest occurrence of `x` in the history `h`. */
  function LastUse<K(==)>(h: seq<K>, x: K): (t: nat)
    requires x in h
    ensures t < |h| && h[t] == x
    ensures forall a | t < a < |h| :: h[a] != x
  {
    if h[|h| - 1] == x then |h| - 1
    else
      assert x in h[..|h| - 1] by {
        var a :| 0 <= a < |h| && h[a] == x;
        assert h[..|h| - 1][a] == x;
      }
      LastUse(h[..|h| - 1], x)
  }

  /** `order` lists keys by increasing latest touch in the history `h`: its
      head is the least recently touched key, its tail the most recent one. */
  predicate RecencyOrdered<K(==)>(order: seq<K>, h: seq<K>)
  {
    (forall i | 0 <= i < |order| :: order[i] in h) &&
    forall i, j | 0 <= i < j < |order| :: LastUse(h, order[i]) < LastUse(h, order[j])
  }

  /** `del lst[i]` on a list without duplicates removes exactly `lst[i]`. */
  lemma DropAtFacts<K>(s: seq<K>, i: nat)
    requires NoDup(s) && i < |s|
    ensures NoDup(DropAt(s, i))
    ensures Elems(DropAt(s, i)) == Elems(s) - {s[i]}
  {
    var r := DropAt(s, i);
    forall x | x in r
      ensures x in s && x != s[i]
    {
      var a :| 0 <= a < |r| && r[a] == x;
      if a < i { assert s[a] == x; } else { assert s[a + 1] == x; }
    }
    forall x | x in s && x != s[i]
      ensures x in r
    {
      var b :| 0 <= b < |s| && s[b] == x;
      if b < i { assert r[b] == x; } else { assert r[b - 1] == x; }
    }
  }

  /** Moving `x` to the tail of a duplicate-free list keeps it duplicate-free,
      adds `x` to its elements, and keeps the relative order of the others. */
  lemma MoveToTailFacts<K>(s: seq<K>, x: K)
    requires NoDup(s)
    ensures NoDup(MoveToTail(s, x))
    ensures Elems(MoveToTail(s, x)) == Elems(s) + {x}
    ensures forall i | 0 <= i < |s| && s[i] == x :: MoveToTail(s, x) == DropAt(s, i) + [x]
    ensures x !in s ==> MoveToTail(s, x) == s + [x]
  {
    var rest := if x in s then RemoveFirst(s, x) else s;
    if x in s {
      DropAtFacts(s, FirstIndex(s, x));
    }
    assert x !in rest;
    assert Elems(rest + [x]) == Elems(rest) + {x};
  }

  /** Deleting the key at position `i` of the list from both structures keeps
      them consistent and shrinks the dictionary by one. */
  lemma EvictKeepsConsistent<K, V>(data: map<K, V>, order: seq<K>, i: nat)
    requires Consistent(data, order) && i < |order|
    ensures order[i] in data
    ensures Consistent(data - {order[i]}, DropAt(order, i))
    ensures |data - {order[i]}| == |data| - 1
  {
    DropAtFacts(order, i);
    assert (data - {order[i]}).Keys == data.Keys - {order[i]};
  }

  /** Storing `k` and moving it to the tail of the list keeps the two
      structures consistent. */
  lemma WriteKeepsConsistent<K, V>(data: map<K, V>, order: seq<K>, k: K, v: V)
    requires Consistent(data, order)
    ensures Consistent(data[k := v], MoveToTail(order, k))
  {
    MoveToTailFacts(order, k);
  }

  /** Evicting the key at position `i` of a full cache and then admitting a
      new key `k` at the tail keeps the structures consistent and the size at
      the capacity. */
  lemma EvictThenWriteKeepsInvariant<K, V>(cap: nat, data: map<K, V>, order: seq<K>, i: nat, k: K, v: V)
    requires Invariant(cap, data, order) && |data| >= cap && k !in data && i < |order|
    ensures Invariant(cap, (data - {order[i]})[k := v], MoveToTail(DropAt(order, i), k))
  {
    var d := data - {order[i]};
    EvictKeepsConsistent(data, order, i);
    WriteKeepsConsistent(d, DropAt(order, i), k, v);
    assert k !in d;
  }

  /** Storing under a resident key, or under a new key while there is room,
      keeps the structures consistent and the size within the capacity. */
  lemma WriteKeepsInvariant<K, V>(cap: nat, data: map<K, V>, order: seq<K>, k: K, v: V)
    requires Invariant(cap, data, order) && (k in data || |data| < cap)
    ensures Invariant(cap, data[k := v], MoveToTail(order, k))
  {
    WriteKeepsConsistent(data, order, k, v);
  }

  /** Admitting a new key below capacity at the tail of the list keeps the
      invariant. */
  lemma AdmitKeepsInvariant<K, V>(cap: nat, data: map<K, V>, order: seq<K>, k: K, v: V)
    requires Invariant(cap, data, order) && k !in data && |data| < cap
    ensures Invariant(cap, data[k := v], order + [k])
  {
    assert k !in order by {
      assert k !in Elems(order);
    }
    MoveToTailFacts(order, k);
    WriteKeepsConsistent(data, order, k, v);
  }

  /** A duplicate-free list has as many distinct elements as entries. */
  lemma {:induction false} NoDupCard<K>(s: seq<K>)
    requires NoDup(s)
    ensures |Elems(s)| == |s|
  {
    if s != [] {
      assert Elems(s) == {s[0]} + Elems(s[1..]);
      assert s[0] !in Elems(s[1..]);
      NoDupCard(s[1..]);
    }
  }

  /** A consistent key list is exactly as long as the dictionary is large. */
  lemma ConsistentSize<K, V>(data: map<K, V>, order: seq<K>)
    requires Consistent(data, order)
    ensures |data| == |order|
  {
    NoDupCard(order);
    assert |data| == |data.Keys|;
  }

  /** A full cache (capacity at least one) whose list is consistent has a
      non-empty list, so `lst[0]` and `lst[-1]` exist. */
  lemma FullHasVictim<K, V>(cap: nat, data: map<K, V>, order: seq<K>)
    requires cap >= 1 && |data| >= cap && data.Keys <= Elems(order)
    ensures |order| >= 1
  {
    var k :| k in data;
    assert k in Elems(order);
  }

  /** Appending `k` to the history makes it the latest touch and leaves the
      latest touch of every other key where it was. */
  lemma LastUseAppend<K>(h: seq<K>, k: K, x: K)
    requires x in h || x == k
    ensures x != k ==> x in h && LastUse(h + [k], x) == LastUse(h, x)
    ensures x == k ==> LastUse(h + [k], x) == |h|
  {
    var t := LastUse(h + [k], x);
    if x != k {
      var t0 := LastUse(h, x);
      assert (h + [k])[t0] == x;
    }
  }

  /** Dropping an entry keeps a recency-ordered list ordered. */
  lemma DropKeepsRecency<K>(order: seq<K>, h: seq<K>, i: nat)
    requires RecencyOrdered(order, h) && i < |order|
    ensures RecencyOrdered(DropAt(order, i), h)
  {
    var r := DropAt(order, i);
    forall a, b | 0 <= a < b < |r|
      ensures LastUse(h, r[a]) < LastUse(h, r[b])
    {
      var a' := if a < i then a else a + 1;
      var b' := if b < i then b else b + 1;
      assert r[a] == order[a'] && r[b] == order[b'] && a' < b';
    }
  }

  /** Appending a key that is not in the list, while touching it, keeps a
      recency-ordered list ordered. */
  lemma AppendKeepsRecency<K>(rest: seq<K>, h: seq<K>, k: K)
    requires RecencyOrdered(rest, h)
    requires forall a | 0 <= a < |rest| :: rest[a] != k
    ensures RecencyOrdered(rest + [k], h + [k])
  {
    var r := rest + [k];
    var h' := h + [k];
    forall a | 0 <= a < |r|
      ensures r[a] in h'
    {
      if a < |rest| { assert r[a] == rest[a] && rest[a] in h; }
    }
    forall a, b | 0 <= a < b < |r|
      ensures LastUse(h', r[a]) < LastUse(h', r[b])
    {
      assert r[a] == rest[a];
      LastUseAppend(h, k, r[a]);
      LastUseAppend(h, k, r[b]);
      if b < |rest| {
        assert r[b] == rest[b];
      }
    }
  }

  /** Touching `k` (appending it to the history) while moving it to the tail
      of a duplicate-free, recency-ordered list keeps the list ordered. */
  lemma MoveToTailKeepsRecency<K>(order: seq<K>, h: seq<K>, k: K)
    requires NoDup(order) && RecencyOrdered(order, h)
    ensures RecencyOrdered(MoveToTail(order, k), h + [k])
  {
    if k in order {
      var i := FirstIndex(order, k);
      DropAtFacts(order, i);
      DropKeepsRecency(order, h, i);
      var rest := DropAt(order, i);
      forall a | 0 <= a < |rest|
        ensures rest[a] != k
      {
        assert rest[a] in Elems(rest);
      }
      AppendKeepsRecency(rest, h, k);
    } else {
      AppendKeepsRecency(order, h, k);
    }
  }

  /** The head of a recency-ordered list is its least recently touched key. */
  lemma HeadIsLeastRecent<K>(order: seq<K>, h: seq<K>)
    requires RecencyOrdered(order, h) && |order| >= 1
    ensures forall x | x in order :: x in h && LastUse(h, order[0]) <= LastUse(h, x)
  {
    forall x | x in order
      ensures x in h && LastUse(h, order[0]) <= LastUse(h, x)
    {
      var j :| 0 <= j < |order| && order[j] == x;
    }
  }

  /** The tail of a recency-ordered list is its most recently touched key. */
  lemma TailIsMostRecent<K>(order: seq<K>, h: seq<K>)
    requires RecencyOrdered(order, h) && |order| >= 1
    ensures forall x | x in order :: x in h && LastUse(h, x) <= LastUse(h, order[|order| - 1])
  {
    forall x | x in order
      ensures x in h && LastUse(h, x) <= LastUse(h, order[|order| - 1])
    {
      var j :| 0 <= j < |order| && order[j] == x;
    }
  }

  /** `get` of a resident key returns its value and moves the key to the tail
      of `usage`, keeping the others' relative order and the consistency with
      the dictionary. Any other key, None included, yields None and changes
      nothing. */
  lemma GetMovesToTail<K, V>(data: map<K, V>, usage: seq<K>, key: Option<K>)
    requires Consistent(data, usage)
    ensures var r := GetStep(data, usage, key);
      (key.Some? && key.value in data ==>
        r.value == Some(data[key.value]) &&
        (forall i | 0 <= i < |usage| && usage[i] == key.value :: r.usage == DropAt(usage, i) + [key.value]) &&
        Consistent(data, r.usage)) &&
      (key.None? || key.value !in data ==> r == Read(None, usage))
  {
    if key.Some? && key.value in data {
      var k := key.value;
      assert k in Elems(usage);
      assert GetStep(data, usage, key).usage == MoveToTail(usage, k);
      MoveToTailFacts(usage, k);
      WriteKeepsConsistent(data, usage, k, data[k]);
      assert data[k := data[k]] == data;
    }
  }

  /** Counting a key that `get` finds as touched, `get` keeps `usage` ordered
      by the latest touch of each key. */
  lemma GetKeepsRecency<K, V>(data: map<K, V>, usage: seq<K>, h: seq<K>, key: Option<K>)
    requires Consistent(data, usage) && RecencyOrdered(usage, h)
    ensures RecencyOrdered(GetStep(data, usage, key).usage,
                           if key.Some? && key.value in data then h + [key.value] else h)
  {
    if key.Some? && key.value in data {
      var k := key.value;
      assert k in Elems(usage);
      assert GetStep(data, usage, key).usage == MoveToTail(usage, k);
      MoveToTailKeepsRecency(usage, h, k);
    }
  }
}

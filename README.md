# Bounded caches with eviction policies, in Dafny

This project models the caching classes of `0x01-caching`: five small
state machines over a key-to-value dictionary (`cache_data`) and, for the
bounded ones, a list of keys that decides which key is evicted when a new
key arrives at a full cache.

- `BasicCache` (module `Basic`, `basic_cache.dfy`): an unbounded dictionary.
- `FIFOCache` (module `FIFO`, `fifo_cache.dfy`): evicts the head of `order`.
- `LIFOCache` (module `LIFO`, `lifo_cache.dfy`): evicts the tail of `order`.
  Every write moves its key to the tail.
- `LRUCache` (module `LRU`, `lru_cache.dfy`): every write and every
  successful read moves the key to the tail of `usage`. Evicts the head.
- `MRUCache` (module `MRU`, `mru_cache.dfy`): the same bookkeeping as LRU.
  Evicts the tail before the new key is appended.

Module `BaseCaching` (`base_caching.dfy`) holds what the policies share:
- `Option`, for Python's `None`.
- `Step`: the new dictionary, the new key list, and the key reported as
  `DISCARD:`, if any.
- The list operations: `DropAt` (`del l[i]`), `RemoveFirst` (`list.remove`),
  and `MoveToTail` (remove, then append).
- The invariant `Invariant`: the key list has no duplicates, lists exactly
  the resident keys, and the dictionary holds at most the capacity.
- An independent reference for "recent": `LastUse(h, x)`, the position of
  the last occurrence of `x` in a history `h` of touched keys.
  `RecencyOrdered(order, h)` says that the key list is sorted by that
  position.

Each policy has two layers:
- A pure transition `PutStep` on values (LRU and MRU share
  `BaseCaching.GetStep`, since their `get` is the same code),
  with lemmas for the promised properties: invariant kept, victim chosen,
  item stored, list order, read after write.
- A class with the source's fields. Its `Put` and `Get` update those fields
  in place, and each method's `ensures` ties the new state to the
  transition applied to the old state.

Scenario methods run short sequences of puts and gets on concrete keys.

The base class `BaseCaching` (`base_caching.py`), which supplies
`cache_data` and `MAX_ITEMS`, is not part of this model, and the value of
`MAX_ITEMS` is not visible. The capacity is a constructor parameter
`maxItems`, which must be at least 1.

The FIFO code as written can raise `KeyError`; see "## Findings". Its
class documents `order` as tracking the insertion order of the keys
(0x01-caching/1-fifo_cache.py:22) and the victim as the entry inserted
first (0x01-caching/1-fifo_cache.py:31-33). Overwriting a key of a Python
dictionary keeps that key's insertion position, so an overwrite should not
move the key in `order`. The code appends on every write, and the model
follows the code in `FIFO.PutAsWritten` and `FIFO.FIFOCacheAsWritten`. The
intended policy, in which only the admission of a new key appends it, is
modelled separately as `FIFO.PutStep` and `FIFO.FIFOCache`. No docstring
of the class mentions an exception.

## Model

| member | source | states |
|---|---|---|
| BaseCaching.DropAt | 0x01-caching/1-fifo_cache.py:44 | `del order[i]` shortens the list by one and shifts every later entry down by one place |
| BaseCaching.FirstIndex | 0x01-caching/2-lifo_cache.py:47-48 | the index that `list.remove` deletes holds the key, and no earlier entry does |
| BaseCaching.DropAtFacts | 0x01-caching/4-mru_cache.py:45 | deleting one entry from a duplicate-free list keeps it duplicate-free and removes exactly that element |
| BaseCaching.MoveToTailFacts | 0x01-caching/3-lru_cache.py:48-52 | remove-then-append keeps the list duplicate-free, adds the key, and equals "cut out at its index, append at the end"; a key not listed is just appended |
| BaseCaching.EvictKeepsConsistent | 0x01-caching/3-lru_cache.py:44-45 | deleting a listed key from both the dictionary and the list keeps them consistent, and the victim was resident |
| BaseCaching.WriteKeepsConsistent | 0x01-caching/3-lru_cache.py:48-53 | storing a key and moving it to the tail keeps list and dictionary consistent |
| BaseCaching.EvictThenWriteKeepsInvariant | 0x01-caching/3-lru_cache.py:41-53 | evicting one listed key from a full cache and then admitting a new key keeps the invariant, the capacity bound included |
| BaseCaching.WriteKeepsInvariant | 0x01-caching/3-lru_cache.py:47-53 | a write to a resident key, or to a new key below capacity, keeps the invariant |
| BaseCaching.AdmitKeepsInvariant | 0x01-caching/1-fifo_cache.py:47-48 | storing a new key below capacity and appending it keeps the invariant |
| BaseCaching.ConsistentSize | 0x01-caching/3-lru_cache.py:41 | a consistent key list is exactly as long as the dictionary, so `len(cache_data)` also counts the list |
| BaseCaching.FullHasVictim | 0x01-caching/3-lru_cache.py:41-42 | when the eviction branch is taken with capacity at least 1, the list is non-empty, so `usage[0]` and `usage[-1]` exist |
| BaseCaching.MoveToTailKeepsRecency | 0x01-caching/3-lru_cache.py:48-52 | moving a touched key to the tail keeps the list sorted by latest touch, for the history extended by that key |
| BaseCaching.HeadIsLeastRecent | 0x01-caching/3-lru_cache.py:42 | in a list sorted by latest touch, the head was touched no later than any listed key |
| BaseCaching.TailIsMostRecent | 0x01-caching/4-mru_cache.py:42 | in a list sorted by latest touch, the tail was touched no earlier than any listed key |
| BaseCaching.GetMovesToTail | 0x01-caching/3-lru_cache.py:69-74 | `get` of LRU (and the same code of MRU, 0x01-caching/4-mru_cache.py:69-74): a hit returns the stored value and moves the key to the tail, keeping the rest in order and the structures consistent; a None or absent key returns None and changes nothing |
| BaseCaching.GetKeepsRecency | 0x01-caching/3-lru_cache.py:69-72 | a hit of LRU's or MRU's `get` counts as a touch: `usage` stays sorted by latest touch |
| Basic.PutStores | 0x01-caching/0-basic_cache.py:39-40 | a None key or item leaves `cache_data` unchanged; otherwise the item is stored, the key set gains exactly that key, and every other key keeps its value |
| Basic.PutGrowsOnlyOnNewKey | 0x01-caching/0-basic_cache.py:39-40 | no key is ever lost; the size grows by one exactly when a new key is stored and is unchanged otherwise |
| Basic.PutIdempotent | 0x01-caching/0-basic_cache.py:40 | repeating the same `put` changes nothing further |
| Basic.GetAfterPut | 0x01-caching/0-basic_cache.py:40-56 | `get` of a key just stored returns its item; `get(None)` returns None |
| Basic.BasicCache.constructor | 0x01-caching/0-basic_cache.py:22-27 | a new cache is empty |
| Basic.BasicCache.Put | 0x01-caching/0-basic_cache.py:29-40 | the dictionary afterwards is the guarded store of the item under the key |
| Basic.BasicCache.Get | 0x01-caching/0-basic_cache.py:42-56 | returns a value exactly when the key is not None and resident, and then the stored value; changes nothing |
| Basic.Scenario | 0x01-caching/0-basic_cache.py:39-56 | after five stores and two None-guarded calls, all five keys stay (there is no bound), and `get` returns the stored item |
| FIFO.PutAsWrittenStores | 0x01-caching/1-fifo_cache.py:39-48 | as written: a None key or item changes nothing; a returning `put` stores the item and leaves the key last in `order`, resident before or not; it discards exactly when full with a new key, and the victim is the resident head of `order`, removed from both |
| FIFO.PutAsWrittenKeepsCover | 0x01-caching/1-fifo_cache.py:41-48 | as written: a returning `put` keeps the size within capacity and every resident key listed in `order` |
| FIFO.PutAsWrittenRaises | 0x01-caching/1-fifo_cache.py:41-43 | as written: `put` raises `KeyError` exactly when a new key meets a full cache whose head of `order` is not resident, and it fails on that head |
| FIFO.OverwriteDuplicatesKey | 0x01-caching/1-fifo_cache.py:47-48 | as written: overwriting a resident key appends it again, so `order` has a duplicate |
| FIFO.AsWrittenAgreesOnAdmission | 0x01-caching/1-fifo_cache.py:39-48 | from a consistent state, a `put` that overwrites no resident key takes the same step in the code as written and in the corrected policy |
| FIFO.FIFOCacheAsWritten.constructor | 0x01-caching/1-fifo_cache.py:19-25 | a new cache has an empty dictionary and an empty `order` |
| FIFO.FIFOCacheAsWritten.Put | 0x01-caching/1-fifo_cache.py:27-48 | returns with the as-written step, reporting its victim, or raises `KeyError` on the stale head with both structures unchanged |
| FIFO.FIFOCacheAsWritten.Get | 0x01-caching/1-fifo_cache.py:50-61 | returns a value exactly when the key is not None and resident, and then the stored value; changes nothing |
| FIFO.PutAppendAsWritten | 0x01-caching/1-fifo_cache.py:47-48 | as written, a write that evicts nothing appends the key even when it is resident |
| FIFO.PutEvictAsWritten | 0x01-caching/1-fifo_cache.py:41-48 | as written, a new key at a full cache with a resident head evicts that head from both structures and is appended |
| FIFO.PutStaleHeadAsWritten | 0x01-caching/1-fifo_cache.py:41-43 | as written, a new key at a full cache with a stale head raises `KeyError` on that head and changes nothing |
| FIFO.RewriteAsWritten | 0x01-caching/1-fifo_cache.py:39-48 | capacity 2, puts A, B, A: `order` is A, B, A with two resident keys |
| FIFO.RewriteEvictAsWritten | 0x01-caching/1-fifo_cache.py:41-48 | capacity 2, puts A, B, A, C: C evicts the first A; `order` is B, A, C and B, C are resident |
| FIFO.RewriteThenOverflowAsWritten | 0x01-caching/1-fifo_cache.py:41-48 | capacity 2, puts A, B, A, C, D, E: the last `put` raises `KeyError` on A |
| FIFO.PutKeepsInvariant | 0x01-caching/1-fifo_cache.py:41-48 | corrected: `put` keeps `order` a duplicate-free list of exactly the resident keys and the size within the capacity |
| FIFO.PutKeepsAdmissionOrder | 0x01-caching/1-fifo_cache.py:41-48 | corrected: with a history of admitted keys, `order` stays sorted by admission, and an overwrite admits nothing |
| FIFO.PutEvictsFirstIn | 0x01-caching/1-fifo_cache.py:39-44 | corrected: a None key or item changes nothing; it discards exactly when full with a new key; the victim is `order[0]`, resident, never the incoming key, gone afterwards, and the resident key admitted longest ago |
| FIFO.PutStores | 0x01-caching/1-fifo_cache.py:43-47 | corrected: the item is stored under the key; the key set loses only the victim and gains the key; other keys keep their values |
| FIFO.PutAppendsOnAdmission | 0x01-caching/1-fifo_cache.py:44-48 | corrected: an overwrite leaves `order` as it is; a new key goes last, after the previous keys minus the victim |
| FIFO.GetAfterPut | 0x01-caching/1-fifo_cache.py:47-61 | `get` of a key just stored returns its item |
| FIFO.FIFOCache.constructor | 0x01-caching/1-fifo_cache.py:19-25 | a new cache is empty and satisfies the invariant |
| FIFO.FIFOCache.Put | 0x01-caching/1-fifo_cache.py:27-48 | keeps the invariant; the new state and reported victim are the corrected step of the old state |
| FIFO.FIFOCache.Get | 0x01-caching/1-fifo_cache.py:50-61 | returns a value exactly when the key is not None and resident, and then the stored value; changes nothing |
| FIFO.PutNew | 0x01-caching/1-fifo_cache.py:47-48 | a new key below capacity is appended to `order` |
| FIFO.PutResident | 0x01-caching/1-fifo_cache.py:47 | corrected: an overwrite leaves `order` unchanged |
| FIFO.PutFull | 0x01-caching/1-fifo_cache.py:41-48 | a new key at a full cache discards `order[0]` and is appended behind the rest |
| FIFO.FillFour | 0x01-caching/1-fifo_cache.py:47-48 | capacity 4, puts A, B, C, D: `order` is A, B, C, D |
| FIFO.Scenario | 0x01-caching/1-fifo_cache.py:41-48 | capacity 4, puts A, B, C, D, E: A is discarded and B, C, D, E stay |
| FIFO.Rewrite | 0x01-caching/1-fifo_cache.py:39-48 | corrected, capacity 2, puts A, B, A: `order` stays A, B |
| FIFO.RewriteThenOverflow | 0x01-caching/1-fifo_cache.py:41-48 | corrected, capacity 2, puts A, B, A, C, D, E: E discards C and D, E stay |
| LIFO.PutKeepsInvariant | 0x01-caching/2-lifo_cache.py:41-52 | `put` keeps `order` a duplicate-free list of exactly the resident keys and the size within the capacity |
| LIFO.PutKeepsRecency | 0x01-caching/2-lifo_cache.py:41-52 | with a history of written keys, `order` stays sorted by latest write |
| LIFO.PutEvictsLastWritten | 0x01-caching/2-lifo_cache.py:39-44 | a None key or item changes nothing; discards exactly when full with a new key; the victim is `order[-1]`, resident, never the incoming key, gone afterwards, and the resident key written most recently |
| LIFO.PutStores | 0x01-caching/2-lifo_cache.py:41-52 | the item is stored under the key; the key set loses only the victim and gains the key; other keys keep their values |
| LIFO.PutMovesToTail | 0x01-caching/2-lifo_cache.py:43-51 | the key ends last in `order`; an overwritten key is cut from its place, and a new key is appended after the others (less the victim) in their order |
| LIFO.GetAfterPut | 0x01-caching/2-lifo_cache.py:52-65 | `get` of a key just stored returns its item |
| LIFO.LIFOCache.constructor | 0x01-caching/2-lifo_cache.py:19-25 | a new cache is empty and satisfies the invariant |
| LIFO.LIFOCache.Put | 0x01-caching/2-lifo_cache.py:27-52 | keeps the invariant; the new state and reported victim are the LIFO step of the old state |
| LIFO.LIFOCache.Get | 0x01-caching/2-lifo_cache.py:54-65 | returns a value exactly when the key is not None and resident, and then the stored value; changes nothing |
| LIFO.PutNew | 0x01-caching/2-lifo_cache.py:47-52 | a new key below capacity is appended to `order` |
| LIFO.PutFull | 0x01-caching/2-lifo_cache.py:41-52 | a new key at a full cache discards `order[-1]` and takes its place at the tail |
| LIFO.FillFour | 0x01-caching/2-lifo_cache.py:47-52 | capacity 4, puts A, B, C, D: `order` is A, B, C, D |
| LIFO.Scenario | 0x01-caching/2-lifo_cache.py:41-52 | capacity 4, puts A, B, C, D, E: D is discarded and A, B, C, E stay |
| LRU.PutKeepsInvariant | 0x01-caching/3-lru_cache.py:41-53 | `put` keeps `usage` a duplicate-free list of exactly the resident keys and the size within the capacity |
| LRU.PutKeepsRecency | 0x01-caching/3-lru_cache.py:41-53 | with a history of touched keys, `usage` stays sorted by latest touch after a write |
| LRU.PutEvictsLeastRecentlyUsed | 0x01-caching/3-lru_cache.py:39-45 | a None key or item changes nothing; discards exactly when full with a new key; the victim is `usage[0]`, resident, gone afterwards, and the resident key touched least recently |
| LRU.PutStores | 0x01-caching/3-lru_cache.py:41-53 | the item is stored under the key; the key set loses only the victim and gains the key; other keys keep their values |
| LRU.PutMovesToTail | 0x01-caching/3-lru_cache.py:44-52 | the key ends last in `usage`; an overwritten key is cut from its place, and a new key is appended after the others (less the victim) in their order |
| LRU.GetAfterPut | 0x01-caching/3-lru_cache.py:53-73 | `get` of a key just stored returns its item |
| LRU.LRUCache.constructor | 0x01-caching/3-lru_cache.py:19-25 | a new cache is empty and satisfies the invariant |
| LRU.LRUCache.Put | 0x01-caching/3-lru_cache.py:27-53 | keeps the invariant; the new state and reported victim are the LRU step of the old state |
| LRU.LRUCache.Get | 0x01-caching/3-lru_cache.py:55-74 | keeps the invariant and the dictionary; value and new `usage` are the LRU read of the old state |
| LRU.PutNew | 0x01-caching/3-lru_cache.py:48-53 | a new key below capacity is appended to `usage` |
| LRU.PutFull | 0x01-caching/3-lru_cache.py:41-53 | a new key at a full cache discards `usage[0]` and is appended behind the rest |
| LRU.FillFour | 0x01-caching/3-lru_cache.py:48-53 | capacity 4, puts A, B, C, D: `usage` is A, B, C, D |
| LRU.FillFourReadA | 0x01-caching/3-lru_cache.py:69-73 | then `get(A)`: `usage` is B, C, D, A |
| LRU.Scenario | 0x01-caching/3-lru_cache.py:41-53 | capacity 4, puts A, B, C, D, `get(A)`, put E: B is discarded and A, C, D, E stay |
| MRU.PutKeepsInvariant | 0x01-caching/4-mru_cache.py:41-53 | `put` keeps `usage` a duplicate-free list of exactly the resident keys and the size within the capacity |
| MRU.PutKeepsRecency | 0x01-caching/4-mru_cache.py:41-53 | with a history of touched keys, `usage` stays sorted by latest touch after a write |
| MRU.PutEvictsMostRecentlyUsed | 0x01-caching/4-mru_cache.py:39-45 | a None key or item changes nothing; discards exactly when full with a new key; the victim is `usage[-1]`, resident, never the incoming key, gone afterwards, and the resident key touched most recently |
| MRU.PutStores | 0x01-caching/4-mru_cache.py:41-53 | the item is stored under the key; the key set loses only the victim and gains the key; other keys keep their values |
| MRU.PutMovesToTail | 0x01-caching/4-mru_cache.py:44-52 | the key ends last in `usage`; an overwritten key is cut from its place, and a new key is appended after the others (less the victim) in their order |
| MRU.GetAfterPut | 0x01-caching/4-mru_cache.py:53-73 | `get` of a key just stored returns its item |
| MRU.MRUCache.constructor | 0x01-caching/4-mru_cache.py:19-25 | a new cache is empty and satisfies the invariant |
| MRU.MRUCache.Put | 0x01-caching/4-mru_cache.py:27-53 | keeps the invariant; the new state and reported victim are the MRU step of the old state |
| MRU.MRUCache.Get | 0x01-caching/4-mru_cache.py:55-74 | keeps the invariant and the dictionary; value and new `usage` are the MRU read of the old state |
| MRU.PutNew | 0x01-caching/4-mru_cache.py:48-53 | a new key below capacity is appended to `usage` |
| MRU.PutFull | 0x01-caching/4-mru_cache.py:41-53 | a new key at a full cache discards `usage[-1]` and takes its place at the tail |
| MRU.FillFour | 0x01-caching/4-mru_cache.py:48-53 | capacity 4, puts A, B, C, D: `usage` is A, B, C, D |
| MRU.FillFourReadA | 0x01-caching/4-mru_cache.py:69-73 | then `get(A)`: `usage` is B, C, D, A |
| MRU.Scenario | 0x01-caching/4-mru_cache.py:41-53 | capacity 4, puts A, B, C, D, `get(A)`, put E: A is discarded and B, C, D, E stay |

## Left out

- The `print("DISCARD: ...")` to standard output. `Put` returns the
  reported key instead, and the victim lemmas show it was resident when it
  was reported. The order of the print relative to the deletion is not
  modelled.
- `BaseCaching` (`base_caching.py`) is not part of this model.
  - `MAX_ITEMS` is the constructor parameter `maxItems`, with at least 1
    required. With 0, the source would index an empty list.
  - `print_cache` is not modelled.
- Python's dynamic typing and hashing. Keys are any type with equality, and
  `None` is `Option.None`. The None guards are identity tests, so an empty
  string or zero is a valid key or item.
- The cost of `list.remove` and of linear membership tests. Only the
  resulting list contents are modelled.
- The recency history `h` in the recency lemmas is not a field of the
  classes. The lemmas take it as a parameter of the pure transitions, so
  the classes' `Valid` states consistency and the capacity bound only.
- FIFO.FIFOCacheAsWritten.Put: after `KeyError`, the `DISCARD:` line has
  already been printed. The model only returns the missing key.
- The demo web application in `0x02-i18n` is not part of this model: Flask
  routes, locale and timezone selection. It shares no data with the caches.

## Findings

| source | as written | input that shows it | evidently intended | confidence | as-written member | corrected member |
|---|---|---|---|---|---|---|
| 0x01-caching/1-fifo_cache.py:48 | every `put` appends the key to `order`, an overwrite included; an eviction then leaves the second copy, and `del self.cache_data[self.order[0]]` at line 43 raises `KeyError` once it reaches the head | capacity 2: put A, B, A, C, D, E; the last `put` prints `DISCARD: A` and raises `KeyError('A')` | append only when a new key is admitted; then `order` lists exactly the resident keys, so the head is always resident and E discards C | not executed | FIFO.RewriteThenOverflowAsWritten | FIFO.PutKeepsInvariant |

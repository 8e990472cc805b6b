# LRU cache model

A Dafny model of the templated LRU cache `Cache<key_type, value_type>` in
`include/Cache.h`. The cache keeps two structures in step:

- a table from key to value (a `std::map` whose entries also hold an
  iterator into the recency list);
- a recency list of keys (a `std::list`), with the most recently used key
  at the front and the least recently used key at the back.

It also keeps three live counters: `found_hits` (every lookup), `found`
(lookups that hit) and `removed` (evictions). The derived "missed" count is
`found_hits - found`.

The model is functional. A cache is an immutable value
`Cache(maxSize, table: map<K, V>, lru: seq<K>, stats)`, where index 0 of
`lru` is the front of the list. `find` and `insert` are pure functions from
the old state to the new one. `find` returns the new state together with an
`Option<V>`.

Modules:

- `Wrappers`: the `Option` type.
- `Recency`: the list operations the cache performs, on sequences.
  `Remove` unlinks a key, `MoveToFront` is the `splice` to the front, and a
  slice drops the back key. Also the facts about distinctness and element
  sets that the cache proofs need.
- `LruCache`: the state, the coupling invariant `Inv`, the constructor
  `New`, `Find`, `Insert`, `Statistics`, and `Run`, which applies a sequence
  of calls.
- `CacheProperties`: lemmas that span calls or need the invariant.
  They cover preservation of the invariant, eviction of exactly the least
  recently used key, at most one eviction per insert, counter accounting and
  eviction order.
- `Driver`: the demo program `test/test_cache.cpp`, replayed on the model
  with capacity 4.

Points where the model follows the code closely:

- The constructor takes an `int` and stores it in an `unsigned` field
  without any check. The model reduces the argument modulo 2^32, so it
  assumes a 32-bit `unsigned`. Non-positive capacities are not rejected.
  The invariant holds for every capacity, including 0. With capacity 0,
  every insert evicts the key it has just added (`ZeroCapacityKeepsNothing`).
- `insert` performs its lookup through `find`, so each insert counts one
  lookup, and counts one hit when the key was cached. The demo program
  makes six inserts and one find, so its first report shows 7 lookups.

## Model

| member | source | states |
|---|---|---|
| Recency.Remove | include/Cache.h:158-159 | Unlinking a key from the list leaves exactly the other keys, and the list gets shorter when the key was present |
| Recency.MoveToFront | include/Cache.h:158-159 | The splice puts the key first, adds no new key, and leaves the other keys in their old relative order (deleting the key from the list before and after gives the same sequence) |
| Recency.MoveToFrontDistinct | include/Cache.h:158-159 | Splicing a listed key keeps the list free of duplicates and keeps its length |
| Recency.DropBackElems | include/Cache.h:179-181 | Popping the back of a duplicate-free list removes exactly the back key from its key set |
| LruCache.ToUnsigned | include/Cache.h:69-70 | The constructor's int argument becomes an unsigned value below 2^32 that is congruent to it, and equal to it when it is already in range |
| LruCache.New | include/Cache.h:143 | The constructed cache is empty, has all counters at zero, has as capacity the argument converted to unsigned (wrapped modulo 2^32 when negative), and satisfies the coupling invariant |
| LruCache.Find | include/Cache.h:146-161 | A lookup always adds one to found_hits. It adds one to found and returns the stored value exactly when the key is cached, and then the key is first and the other keys keep their order. A miss returns nothing and leaves the table and the list as they were |
| LruCache.Insert | include/Cache.h:164-186 | An insert counts one lookup, and one hit iff the key was cached. A cached key gets the new value at the front. No other value changes. A new key is pushed to the front. If the list was full, the back key is then dropped, so the list is the new key followed by the old list without its last key. A key disappears only in that case, and removed rises by one exactly then |
| LruCache.Statistics | include/Cache.h:190-198 | The report carries the three counters, and its miss count is lookups minus hits, which is never negative in a cache that satisfies the invariant |
| CacheProperties.TableSize | include/Cache.h:69-73 | Under the invariant the table holds as many entries as the list, and at most the capacity |
| CacheProperties.FindPreservesInv | include/Cache.h:146-161 | find keeps the coupling invariant, the set of listed keys and the list's length |
| CacheProperties.InsertPreservesInv | include/Cache.h:164-186 | insert keeps the coupling invariant whatever the capacity: table keys equal list keys, no key is listed twice, and the size is at most the capacity |
| CacheProperties.InsertExisting | include/Cache.h:168-171 | Inserting a cached key replaces its value and moves it to the front. The key set, the size and removed stay unchanged |
| CacheProperties.InsertNewKeyFront | include/Cache.h:172-176 | With capacity at least one, a new key ends up stored with its value at the front, so it is never the evicted key |
| CacheProperties.EvictsLeastRecentlyUsed | include/Cache.h:172-183 | A new key causes an eviction iff the cache was full. The evicted key is the back of the old list (the least recently used). The new list is the new key followed by the old list without its back key, the table loses that key and gains the new one, and the size stays at the capacity |
| CacheProperties.InsertBelowCapacity | include/Cache.h:172-178 | A new key inserted into a cache that is not full is stored with its value and added in front of the old list. The size grows by one and nothing is evicted |
| CacheProperties.AtMostOneEviction | include/Cache.h:172-183 | Each insert counts at most one removal, and the size change is one for a new key, zero for a cached key, minus the removals counted |
| CacheProperties.ZeroCapacityKeepsNothing | include/Cache.h:178-182 | With capacity 0 every insert leaves the cache empty and counts one removal |
| CacheProperties.FindCountsMiss | include/Cache.h:151-156 | The reported miss count rises by one exactly when find misses |
| CacheProperties.InsertCountsMiss | include/Cache.h:168 | The reported miss count rises by one exactly when insert meets a new key, through its internal find |
| CacheProperties.RunPreservesInv | include/Cache.h:146-186 | Every sequence of find and insert calls keeps the coupling invariant |
| CacheProperties.Reachable | include/Cache.h:143-186 | Every cache reachable from the constructor satisfies the invariant and never holds more entries than its capacity |
| CacheProperties.RunKeepsCapacity | include/Cache.h:69-70 | The capacity fixed at construction never changes |
| CacheProperties.RunCounts | include/Cache.h:151-156 | Over any sequence of calls, found_hits grows by exactly the number of calls, found by at most that, and removed by at most the number of inserts |
| CacheProperties.RepeatedHits | include/Cache.h:146-161 | n lookups of a cached key add n to found_hits and to found, keep the table and removed, and leave the key at the front |
| CacheProperties.UpdateInPlace | include/Cache.h:168-171 | Inserting the same key twice leaves the size as after the first insert, and a lookup then returns the second value |
| CacheProperties.FillWithoutEviction | include/Cache.h:172-178 | Inserting up to capacity distinct keys into a new cache evicts nothing and lists them most recent first |
| CacheProperties.EvictFirstFilled | include/Cache.h:178-182 | A cache filled in order to capacity evicts its first-inserted key on the next new key |
| CacheProperties.LastInsertEvictsFirst | include/Cache.h:172-183 | After distinct keys were inserted in order up to the capacity, one more distinct key evicts the first key and keeps all the others |
| CacheProperties.EvictsOldestFirst | include/Cache.h:172-183 | Inserting capacity + 1 distinct keys into a new cache evicts exactly the first one, which a lookup then misses |
| Driver.DemoReplay | test/test_cache.cpp:19-32 | The model run of the demo's first n calls reaches the cache state expected at that point |
| Driver.DemoEvictsPi | test/test_cache.cpp:19-28 | With capacity 4 the four first inserts fill the cache without eviction, inserting zero evicts pi, and e is still cached with 2.17 |
| Driver.DemoEvictsGold | test/test_cache.cpp:30-32 | The lookup of e moves it to the front, so inserting one evicts gold and keeps e |
| Driver.DemoReports | test/test_cache.cpp:35-40 | The first report shows 7 lookups, 1 hit, 2 removals and 6 misses. After thirty lookups of one it shows 37, 31, 2 and 6 |

## Left out

- The text format of `statistics(std::ostream&)` (include/Cache.h:190-198) is output. Only the counter values and the derived miss count are modelled, by `Statistics`.
- The `miss` field of `cache_statistics` (include/Cache.h:60, 65) is never updated by the code, so it is not modelled.
- `find` returns a raw pointer into the table, and callers can write through it. The model returns the value in an `Option`, and the write inside `insert` is a map update. Writes through the pointer by outside callers are not modelled.
- The `std::list` iterator stored in each table entry, and the constant-time cost of `splice`, `push_front` and `pop_back`, are representation and performance details. A sequence captures the observable order.
- The key ordering of `std::map` and the template machinery are not modelled. Keys are any type with equality.
- The counters are C++ `int`s. The model uses unbounded naturals, so overflow after 2^31 lookups is not modelled.
- The width of `unsigned` is taken to be 32 bits.
- Recency order is stated call by call: `Find` and `Insert` give the whole list after each call, with the other keys in their old order, and `EvictsOldestFirst` covers an insert-only run. There is no general lemma saying that a refreshed key outlives every key left untouched after it.
- The demo `main` is not modelled as executable code. Its call sequence is replayed as lemmas in `Driver`.

/** The LRU cache `Cache<key_type, value_type>`: a table from key to value
    kept in step with a recency list of the same keys (front = most recently
    used), a fixed capacity, and three usage counters. The state is an
    immutable value; `find` and `insert` are functions from the old state to
    the new one. */
module LruCache {
  import opened Wrappers
  import opened Recency

  /** The counters of `cache_statistics` that the cache updates:
      `foundHits` counts every lookup, `found` counts lookups that hit, and
      `removed` counts evictions. */
  datatype Stats = Stats(foundHits: nat, found: nat, removed: nat)

  /** The cache: `maxSize` is the capacity given at construction, `table`
      the stored values, `lru` the keys from most to least recently used. */
  datatype Cache<K, V> = Cache(maxSize: nat, table: map<K, V>, lru: seq<K>, stats: Stats)

  /** What `find` yields: the cache after the lookup, and the stored value
      if the key was cached. */
  datatype Lookup<K, V> = Lookup(cache: Cache<K, V>, value: Option<V>)

  /** One call on the cache's public interface. */
  datatype Call<K, V> = FindCall(key: K) | InsertCall(key: K, value: V)

  /** The counter values the cache reports, with the derived miss count. */
  datatype Report = Report(foundHits: nat, found: nat, removed: nat, missed: int)

  /** The capacity is held in an `unsigned`, assumed 32 bits wide. */
  const UnsignedModulus: int := 0x1_0000_0000

  /** The coupling between the two structures: the table's keys are exactly
      the keys of the recency list, each listed once, no more of them than
      the capacity; and no more hits than lookups have been counted. */
  ghost predicate Inv<K, V>(c: Cache<K, V>)
  {
    && c.table.Keys == Elems(c.lru)
    && Distinct(c.lru)
    && |c.lru| <= c.maxSize
    && c.stats.found <= c.stats.foundHits
  }

  /** Conversion of the constructor's `int` argument to the `unsigned`
      capacity field: reduction modulo 2^32. */
  function ToUnsigned(n: int): (u: nat)
    ensures u < UnsignedModulus
    ensures (n - u) % UnsignedModulus == 0
    ensures 0 <= n < UnsignedModulus ==> u == n
  {
    n % UnsignedModulus
  }

  /** The constructor `Cache(int size)`: an empty cache, zero counters. */
  function New<K, V>(size: int): (c: Cache<K, V>)
    ensures c.maxSize == ToUnsigned(size)
    ensures c.table == map[] && c.lru == []
    ensures c.stats.foundHits == 0 && c.stats.found == 0 && c.stats.removed == 0
    ensures Inv(c)
  {
    Cache(ToUnsigned(size), map[], [], Stats(0, 0, 0))
  }

  /** `find`: every call is counted as a lookup; a hit is counted as found,
      moves the key to the front of the recency list with the other keys
      keeping their order, and yields the stored value; a miss changes
      nothing but the lookup counter. */
  function Find<K(==), V>(c: Cache<K, V>, k: K): (r: Lookup<K, V>)
    ensures r.cache.maxSize == c.maxSize && r.cache.table == c.table
    ensures r.cache.stats.foundHits == c.stats.foundHits + 1
    ensures r.cache.stats.found == c.stats.found + (if k in c.table then 1 else 0)
    ensures r.cache.stats.removed == c.stats.removed
    ensures r.value.Some? <==> k in c.table
    ensures r.value.Some? ==> r.value.value == c.table[k]
    ensures k in c.table ==> |r.cache.lru| > 0 && r.cache.lru[0] == k
    ensures k in c.table ==> Remove(r.cache.lru, k) == Remove(c.lru, k)
    ensures k !in c.table ==> r.cache.lru == c.lru
  {
    var counted := c.stats.(foundHits := c.stats.foundHits + 1);
    if k !in c.table then
      Lookup(c.(stats := counted), None)
    else
      Lookup(c.(lru := MoveToFront(c.lru, k), stats := counted.(found := counted.found + 1)),
             Some(c.table[k]))
  }

  /** `insert`: looks the key up through `find`; a cached key gets the new
      value in place; a new key is pushed to the front and stored, and if
      the list then holds more keys than the capacity the back key is
      evicted from both structures and counted as removed. */
  function Insert<K(==), V>(c: Cache<K, V>, k: K, v: V): (r: Cache<K, V>)
    ensures r.maxSize == c.maxSize
    ensures r.stats.foundHits == c.stats.foundHits + 1
    ensures r.stats.found == c.stats.found + (if k in c.table then 1 else 0)
    ensures r.stats.removed == c.stats.removed + (if k !in c.table && |c.lru| >= c.maxSize then 1 else 0)
    ensures k in c.table ==> r.table == c.table[k := v]
    ensures k in c.table ==> |r.lru| > 0 && r.lru[0] == k && Remove(r.lru, k) == Remove(c.lru, k)
    ensures forall x :: x in r.table && x != k ==> x in c.table && r.table[x] == c.table[x]
    ensures forall x :: x in c.table && x !in r.table ==>
              k !in c.table && |c.lru| >= c.maxSize && x == ([k] + c.lru)[|c.lru|]
    ensures k !in c.table && |c.lru| < c.maxSize ==> r.lru == [k] + c.lru && r.table == c.table[k := v]
    ensures k !in c.table && |c.lru| >= c.maxSize ==>
              && r.lru == ([k] + c.lru)[..|c.lru|]
              && r.table == c.table[k := v] - {([k] + c.lru)[|c.lru|]}
  {
    var looked := Find(c, k);
    var d := looked.cache;
    if looked.value.Some? then
      d.(table := d.table[k := v])
    else
      var lru := [k] + d.lru;
      var table := d.table[k := v];
      if |lru| > d.maxSize then
        var back := lru[|lru| - 1];
        d.(table := table - {back}, lru := lru[..|lru| - 1],
           stats := d.stats.(removed := d.stats.removed + 1))
      else
        d.(table := table, lru := lru)
  }

  /** The `statistics` report: the three counters and the miss count,
      lookups minus hits. */
  function Statistics<K, V>(c: Cache<K, V>): (r: Report)
    ensures r.foundHits == c.stats.foundHits && r.found == c.stats.found
    ensures r.removed == c.stats.removed
    ensures r.missed + r.found == r.foundHits
    ensures Inv(c) ==> r.missed >= 0
  {
    Report(c.stats.foundHits, c.stats.found, c.stats.removed,
           c.stats.foundHits - c.stats.found)
  }

  /** The cache after one public call. */
  function Step<K(==), V>(c: Cache<K, V>, call: Call<K, V>): Cache<K, V>
  {
    match call
    case FindCall(k) => Find(c, k).cache
    case InsertCall(k, v) => Insert(c, k, v)
  }

  /** The cache after a sequence of public calls, made in order. */
  function Run<K(==), V>(c: Cache<K, V>, calls: seq<Call<K, V>>): Cache<K, V>
  {
    if |calls| == 0 then c
    else Step(Run(c, calls[..|calls| - 1]), calls[|calls| - 1])
  }
}

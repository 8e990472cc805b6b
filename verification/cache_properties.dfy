/** Properties of the LRU cache that relate several calls or need the
    coupling invariant: the invariant is kept by every call, eviction takes
    exactly the least recently used key and at most one per insert, and the
    counters add up over any sequence of calls. */
module CacheProperties {
  import opened Wrappers
  import opened Recency
  import opened LruCache

  /** Under the invariant the table holds as many entries as the recency
      list, and no more than the capacity. */
  lemma TableSize<K, V>(c: Cache<K, V>)
    requires Inv(c)
    ensures |c.table| == |c.lru| <= c.maxSize
  {
    DistinctCard(c.lru);
    assert |c.table| == |c.table.Keys|;
  }

  /** `find` keeps the invariant, and keeps the set of listed keys and the
      list's length. */
  lemma FindPreservesInv<K, V>(c: Cache<K, V>, k: K)
    requires Inv(c)
    ensures Inv(Find(c, k).cache)
    ensures Elems(Find(c, k).cache.lru) == Elems(c.lru)
    ensures |Find(c, k).cache.lru| == |c.lru|
  {
    if k in c.table {
      MoveToFrontDistinct(c.lru, k);
    }
  }

  /** `insert` keeps the invariant, whatever the capacity. */
  lemma InsertPreservesInv<K, V>(c: Cache<K, V>, k: K, v: V)
    requires Inv(c)
    ensures Inv(Insert(c, k, v))
  {
    FindPreservesInv(c, k);
    if k !in c.table {
      var lru := [k] + c.lru;
      DistinctCons(k, c.lru);
      ElemsCons(k, c.lru);
      if |lru| > c.maxSize {
        DropBackElems(lru);
      }
    }
  }

  /** Inserting a key that is cached replaces its value and moves it to the
      front; the key set, the size and the eviction count stay as they were. */
  lemma InsertExisting<K, V>(c: Cache<K, V>, k: K, v: V)
    requires Inv(c) && k in c.table
    ensures Insert(c, k, v).table.Keys == c.table.Keys
    ensures |Insert(c, k, v).table| == |c.table|
    ensures |Insert(c, k, v).lru| == |c.lru|
    ensures k in Insert(c, k, v).table && Insert(c, k, v).table[k] == v
    ensures Insert(c, k, v).lru[0] == k
    ensures Insert(c, k, v).stats.removed == c.stats.removed
  {
    MoveToFrontDistinct(c.lru, k);
  }

  /** With a capacity of at least one, a newly inserted key is stored with
      its value at the front of the recency list: it is never the key that
      gets evicted. */
  lemma InsertNewKeyFront<K, V>(c: Cache<K, V>, k: K, v: V)
    requires Inv(c) && k !in c.table && c.maxSize >= 1
    ensures k in Insert(c, k, v).table && Insert(c, k, v).table[k] == v
    ensures Insert(c, k, v).lru[0] == k
  {
  }

  /** Inserting a new key evicts exactly when the cache was full. The
      evicted key is then the back of the recency list, the least recently
      used one: the new list is the new key followed by the old list without
      its back key, the table loses that key and gains the new one, and the
      size stays at the capacity. */
  lemma EvictsLeastRecentlyUsed<K, V>(c: Cache<K, V>, k: K, v: V)
    requires Inv(c) && k !in c.table && c.maxSize >= 1
    ensures Insert(c, k, v).stats.removed == c.stats.removed + 1 <==> |c.table| == c.maxSize
    ensures |c.table| == c.maxSize ==>
              && c.lru[|c.lru| - 1] in c.table
              && Insert(c, k, v).lru == [k] + c.lru[..|c.lru| - 1]
              && Insert(c, k, v).table == (c.table - {c.lru[|c.lru| - 1]})[k := v]
              && |Insert(c, k, v).table| == c.maxSize
  {
    TableSize(c);
    if |c.table| == c.maxSize {
      PushDropBack(k, c.lru);
      var back := c.lru[|c.lru| - 1];
      assert back in c.table && back != k;
      assert c.table[k := v] - {back} == (c.table - {back})[k := v];
      assert |c.table - {back}| == |c.table| - 1;
    }
  }

  /** Inserting a new key into a cache that is not full evicts nothing: the
      key is added in front and the size grows by one. */
  lemma InsertBelowCapacity<K, V>(c: Cache<K, V>, k: K, v: V)
    requires Inv(c) && k !in c.table && |c.table| < c.maxSize
    ensures Insert(c, k, v).table == c.table[k := v]
    ensures Insert(c, k, v).lru == [k] + c.lru
    ensures |Insert(c, k, v).table| == |c.table| + 1
    ensures Insert(c, k, v).stats.removed == c.stats.removed
  {
    TableSize(c);
  }

  /** At most one eviction per insert: the size grows by one for a new key
      and by nothing for a cached key, less the evictions counted. */
  lemma AtMostOneEviction<K, V>(c: Cache<K, V>, k: K, v: V)
    requires Inv(c)
    ensures Insert(c, k, v).stats.removed <= c.stats.removed + 1
    ensures |Insert(c, k, v).table| + (Insert(c, k, v).stats.removed - c.stats.removed)
            == |c.table| + (if k in c.table then 0 else 1)
  {
  }

  /** With capacity zero every new key is evicted as soon as it is stored:
      the cache stays empty and each insert counts one removal. */
  lemma ZeroCapacityKeepsNothing<K, V>(c: Cache<K, V>, k: K, v: V)
    requires Inv(c) && c.maxSize == 0
    ensures Insert(c, k, v).table == map[]
    ensures Insert(c, k, v).lru == []
    ensures Insert(c, k, v).stats.removed == c.stats.removed + 1
  {
  }

  /** The reported miss count rises by one exactly when `find` misses. */
  lemma FindCountsMiss<K, V>(c: Cache<K, V>, k: K)
    ensures Statistics(Find(c, k).cache).missed
            == Statistics(c).missed + (if k in c.table then 0 else 1)
  {
  }

  /** The miss count rises by one exactly when `insert` meets a new key. */
  lemma InsertCountsMiss<K, V>(c: Cache<K, V>, k: K, v: V)
    ensures Statistics(Insert(c, k, v)).missed
            == Statistics(c).missed + (if k in c.table then 0 else 1)
  {
  }

  /** Every sequence of calls keeps the invariant. */
  lemma {:induction false} RunPreservesInv<K, V>(c: Cache<K, V>, calls: seq<Call<K, V>>)
    requires Inv(c)
    ensures Inv(Run(c, calls))
    decreases |calls|
  {
    if |calls| > 0 {
      var before := calls[..|calls| - 1];
      RunPreservesInv(c, before);
      match calls[|calls| - 1]
      case FindCall(k) => FindPreservesInv(Run(c, before), k);
      case InsertCall(k, v) => InsertPreservesInv(Run(c, before), k, v);
    }
  }

  /** Every cache reachable from the constructor satisfies the invariant,
      so it never holds more entries than its capacity. */
  lemma Reachable<K, V>(size: int, calls: seq<Call<K, V>>)
    ensures Inv(Run(New(size), calls))
    ensures |Run(New(size), calls).table| <= ToUnsigned(size)
  {
    RunPreservesInv(New(size), calls);
    RunKeepsCapacity(New(size), calls);
    TableSize(Run(New(size), calls));
  }

  /** The number of insert calls in a sequence of calls. */
  function InsertCount<K, V>(calls: seq<Call<K, V>>): (n: nat)
    ensures n <= |calls|
  {
    if |calls| == 0 then 0
    else InsertCount(calls[..|calls| - 1]) + (if calls[|calls| - 1].InsertCall? then 1 else 0)
  }

  /** The capacity never changes. */
  lemma {:induction false} RunKeepsCapacity<K, V>(c: Cache<K, V>, calls: seq<Call<K, V>>)
    ensures Run(c, calls).maxSize == c.maxSize
    decreases |calls|
  {
    if |calls| > 0 {
      RunKeepsCapacity(c, calls[..|calls| - 1]);
    }
  }

  /** Counter accounting over any sequence of calls: every call, find or
      insert, counts exactly one lookup and at most one hit, and only
      inserts count removals, at most one each. */
  lemma {:induction false} RunCounts<K, V>(c: Cache<K, V>, calls: seq<Call<K, V>>)
    ensures Run(c, calls).stats.foundHits == c.stats.foundHits + |calls|
    ensures c.stats.found <= Run(c, calls).stats.found <= c.stats.found + |calls|
    ensures c.stats.removed <= Run(c, calls).stats.removed <= c.stats.removed + InsertCount(calls)
    decreases |calls|
  {
    if |calls| > 0 {
      RunCounts(c, calls[..|calls| - 1]);
    }
  }

  /** `n` copies of one call. */
  function Repeat<K, V>(call: Call<K, V>, n: nat): (calls: seq<Call<K, V>>)
    ensures |calls| == n
    ensures forall i :: 0 <= i < n ==> calls[i] == call
  {
    seq(n, _ => call)
  }

  /** Looking up a cached key `n` times counts `n` lookups and `n` hits,
      keeps the table and the eviction count, and leaves the key in front. */
  lemma {:induction false} RepeatedHits<K, V>(c: Cache<K, V>, k: K, n: nat)
    requires k in c.table
    ensures Run(c, Repeat(FindCall(k), n)).table == c.table
    ensures Run(c, Repeat(FindCall(k), n)).stats
            == Stats(c.stats.foundHits + n, c.stats.found + n, c.stats.removed)
    ensures n > 0 ==> Run(c, Repeat(FindCall(k), n)).lru[0] == k
  {
    if n > 0 {
      assert Repeat<K, V>(FindCall(k), n)[..n - 1] == Repeat(FindCall(k), n - 1);
      RepeatedHits(c, k, n - 1);
    }
  }

  /** Inserting `k` twice leaves one entry for it, holding the second value. */
  lemma UpdateInPlace<K, V>(c: Cache<K, V>, k: K, v1: V, v2: V)
    requires Inv(c) && c.maxSize >= 1
    ensures |Insert(Insert(c, k, v1), k, v2).table| == |Insert(c, k, v1).table|
    ensures Find(Insert(Insert(c, k, v1), k, v2), k).value == Some(v2)
  {
  }

  /** One insert call per key, all with value `v`. */
  function InsertAll<K, V>(ks: seq<K>, v: V): (calls: seq<Call<K, V>>)
    ensures |calls| == |ks|
    ensures forall i :: 0 <= i < |ks| ==> calls[i] == InsertCall(ks[i], v)
  {
    seq(|ks|, i requires 0 <= i < |ks| => InsertCall(ks[i], v))
  }

  /** A cache filled in order with the keys of `front`, not yet full, takes
      one more new key at the front without evicting. */
  lemma AddToFilled<K, V>(p: Cache<K, V>, front: seq<K>, k: K, v: V)
    requires Inv(p) && |front| < p.maxSize
    requires p.lru == Reverse(front) && p.table.Keys == Elems(front) && k !in Elems(front)
    ensures Insert(p, k, v).lru == Reverse(front + [k])
    ensures Insert(p, k, v).table.Keys == Elems(front + [k])
    ensures Insert(p, k, v).stats.removed == p.stats.removed
  {
  }

  /** Inserting up to `size` distinct keys into a new cache evicts nothing
      and lists them most recent first. */
  lemma {:induction false} FillWithoutEviction<K, V>(size: int, ks: seq<K>, v: V)
    requires 0 <= size < UnsignedModulus && Distinct(ks) && |ks| <= size
    ensures Run(New(size), InsertAll(ks, v)).lru == Reverse(ks)
    ensures Run(New(size), InsertAll(ks, v)).table.Keys == Elems(ks)
    ensures Run(New(size), InsertAll(ks, v)).stats.removed == 0
    decreases |ks|
  {
    var n := |ks|;
    if n > 0 {
      var front := ks[..n - 1];
      var k := ks[n - 1];
      var calls := InsertAll(ks, v);
      assert calls[..n - 1] == InsertAll(front, v);
      assert Distinct(front);
      FillWithoutEviction(size, front, v);
      var p := Run(New<K, V>(size), InsertAll(front, v));
      assert Run(New<K, V>(size), calls) == Insert(p, k, v);
      RunPreservesInv(New<K, V>(size), InsertAll(front, v));
      RunKeepsCapacity(New<K, V>(size), InsertAll(front, v));
      assert k !in Elems(front) by {
        forall i | 0 <= i < n - 1
          ensures front[i] != k
        {
          assert front[i] == ks[i];
        }
      }
      SplitLast(ks);
      AddToFilled(p, front, k, v);
    }
  }

  /** A cache filled in order with the keys of `front` and then given one
      more new key evicts the first key of `front`. */
  lemma EvictFirstFilled<K, V>(p: Cache<K, V>, front: seq<K>, k: K, v: V)
    requires Inv(p) && |front| >= 1 && p.maxSize == |front|
    requires p.lru == Reverse(front) && k !in p.table
    ensures Insert(p, k, v).table.Keys == p.table.Keys - {front[0]} + {k}
    ensures Insert(p, k, v).stats.removed == p.stats.removed + 1
  {
  }

  /** The last of `size + 1` distinct keys, inserted into a cache filled
      in order with the others, evicts the first key and keeps the rest. */
  lemma LastInsertEvictsFirst<K, V>(p: Cache<K, V>, ks: seq<K>, v: V)
    requires |ks| > 0 && Distinct(ks) && Inv(p) && p.maxSize == |ks| - 1
    requires p.lru == Reverse(ks[..|ks| - 1]) && p.table.Keys == Elems(ks[..|ks| - 1])
    ensures Insert(p, ks[|ks| - 1], v).table.Keys == Elems(ks[1..])
    ensures Insert(p, ks[|ks| - 1], v).stats.removed == p.stats.removed + 1
  {
  }

  /** Inserting `size + 1` distinct keys into a new cache evicts the first
      one, which was never looked up again, and only that one. */
  lemma EvictsOldestFirst<K, V>(size: int, ks: seq<K>, v: V)
    requires 0 <= size < UnsignedModulus && Distinct(ks) && |ks| == size + 1
    ensures ks[0] !in Run(New(size), InsertAll(ks, v)).table
    ensures Find(Run(New(size), InsertAll(ks, v)), ks[0]).value == None
    ensures Run(New(size), InsertAll(ks, v)).table.Keys == Elems(ks[1..])
    ensures Run(New(size), InsertAll(ks, v)).stats.removed == 1
  {
    var front := ks[..size];
    var calls := InsertAll(ks, v);
    assert calls[..size] == InsertAll(front, v);
    FillWithoutEviction(size, front, v);
    var p := Run(New<K, V>(size), InsertAll(front, v));
    assert Run(New<K, V>(size), calls) == Insert(p, ks[size], v);
    RunPreservesInv(New<K, V>(size), InsertAll(front, v));
    RunKeepsCapacity(New<K, V>(size), InsertAll(front, v));
    LastInsertEvictsFirst(p, ks, v);
    ElemsTail(ks);
  }
}

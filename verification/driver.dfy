/** The demonstration program shipped with the cache, replayed on the model:
    a cache of capacity 4 from strings to reals, six inserts and one lookup,
    then thirty lookups of the same key. */
module Driver {
  import opened Wrappers
  import opened Recency
  import opened LruCache
  import opened CacheProperties

  /** The calls the program makes before it first prints the statistics. */
  function DemoCalls(): seq<Call<string, real>>
  {
    [ InsertCall("pi", 3.14), InsertCall("e", 2.17), InsertCall("gold", 1.61),
      InsertCall("sq2", 1.14), InsertCall("zero", 0.0), FindCall("e"),
      InsertCall("one", 1.0) ]
  }

  /** The cache after the first `n` calls of the program. */
  function After(n: nat): Cache<string, real>
    requires n <= |DemoCalls()|
  {
    Run(New(4), DemoCalls()[..n])
  }

  /** Each state of the program is the previous one after its next call. */
  lemma AfterStep(n: nat)
    requires 0 < n <= |DemoCalls()|
    ensures After(n) == Step(After(n - 1), DemoCalls()[n - 1])
  {
    assert DemoCalls()[..n][..n - 1] == DemoCalls()[..n - 1];
  }

  /** The cache the program should hold after its first `n` calls. */
  function Expected(n: nat): Cache<string, real>
    requires n <= |DemoCalls()|
  {
    if n == 0 then Cache(4, map[], [], Stats(0, 0, 0))
    else if n == 1 then Cache(4, map["pi" := 3.14], ["pi"], Stats(1, 0, 0))
    else if n == 2 then Cache(4, map["pi" := 3.14, "e" := 2.17], ["e", "pi"], Stats(2, 0, 0))
    else if n == 3 then
      Cache(4, map["pi" := 3.14, "e" := 2.17, "gold" := 1.61], ["gold", "e", "pi"], Stats(3, 0, 0))
    else if n == 4 then
      Cache(4, map["pi" := 3.14, "e" := 2.17, "gold" := 1.61, "sq2" := 1.14],
            ["sq2", "gold", "e", "pi"], Stats(4, 0, 0))
    else if n == 5 then
      Cache(4, map["e" := 2.17, "gold" := 1.61, "sq2" := 1.14, "zero" := 0.0],
            ["zero", "sq2", "gold", "e"], Stats(5, 0, 1))
    else if n == 6 then
      Cache(4, map["e" := 2.17, "gold" := 1.61, "sq2" := 1.14, "zero" := 0.0],
            ["e", "zero", "sq2", "gold"], Stats(6, 1, 1))
    else
      Cache(4, map["e" := 2.17, "sq2" := 1.14, "zero" := 0.0, "one" := 1.0],
            ["one", "e", "zero", "sq2"], Stats(7, 1, 2))
  }

  /** Inserting `pi`, `e` and `gold` into a cache with room to spare. */
  lemma StepsBelowCapacity()
    ensures Step(Expected(0), DemoCalls()[0]) == Expected(1)
    ensures Step(Expected(1), DemoCalls()[1]) == Expected(2)
    ensures Step(Expected(2), DemoCalls()[2]) == Expected(3)
  {
  }

  /** Inserting `sq2` fills the cache without evicting. */
  lemma StepFill()
    ensures Step(Expected(3), DemoCalls()[3]) == Expected(4)
  {
  }

  /** Inserting `zero` into the full cache evicts `pi`, its back key. */
  lemma StepEvictPi()
    ensures Step(Expected(4), DemoCalls()[4]) == Expected(5)
  {
    var c := Expected(4);
    assert "zero" !in c.table && |c.lru| == 4;
    assert (["zero"] + c.lru)[4] == "pi";
  }

  /** The lookup of `e` hits and moves `e` to the front. */
  lemma StepFindE()
    ensures Step(Expected(5), DemoCalls()[5]) == Expected(6)
  {
  }

  /** Inserting `one` evicts `gold`, now the back key. */
  lemma StepEvictGold()
    ensures Step(Expected(6), DemoCalls()[6]) == Expected(7)
  {
    var c := Expected(6);
    assert "one" !in c.table && |c.lru| == 4;
    assert (["one"] + c.lru)[4] == "gold";
  }

  /** Each expected state is the previous one after the program's next call. */
  lemma ExpectedStep(n: nat)
    requires 0 < n <= |DemoCalls()|
    ensures Step(Expected(n - 1), DemoCalls()[n - 1]) == Expected(n)
  {
    if n <= 3 {
      StepsBelowCapacity();
    } else if n == 4 {
      StepFill();
    } else if n == 5 {
      StepEvictPi();
    } else if n == 6 {
      StepFindE();
    } else {
      StepEvictGold();
    }
  }

  /** The model run of the program's first `n` calls reaches the expected
      state. */
  lemma {:induction false} DemoReplay(n: nat)
    requires n <= |DemoCalls()|
    ensures After(n) == Expected(n)
  {
    if n == 0 {
      assert DemoCalls()[..0] == [];
    } else {
      DemoReplay(n - 1);
      AfterStep(n);
      ExpectedStep(n);
    }
  }

  /** The four first inserts fill the cache; `zero` then evicts `pi`, the
      least recently used key, and `e` is still cached with its value. */
  lemma DemoEvictsPi()
    ensures After(4).table.Keys == {"pi", "e", "gold", "sq2"} && After(4).stats.removed == 0
    ensures "pi" in After(4).table && "pi" !in After(5).table
    ensures Find(After(5), "e").value == Some(2.17)
  {
    DemoReplay(4);
    DemoReplay(5);
  }

  /** The lookup of `e` refreshes it, so `one` evicts `gold` rather than
      `e`. */
  lemma DemoEvictsGold()
    ensures |After(6).lru| > 0 && After(6).lru[0] == "e"
    ensures "gold" in After(6).table && "gold" !in After(7).table
    ensures "e" in After(7).table
  {
    DemoReplay(6);
    DemoReplay(7);
  }

  /** The program's two reports: first 7 lookups (6 inserts and 1 find),
      1 hit, 2 removals and 6 misses; after thirty more hits on `one`,
      37 lookups and 31 hits, with nothing more removed. */
  lemma DemoReports()
    ensures Statistics(Run(New(4), DemoCalls())) == Report(7, 1, 2, 6)
    ensures Statistics(Run(Run(New(4), DemoCalls()), Repeat(FindCall("one"), 30)))
            == Report(37, 31, 2, 6)
  {
    DemoReplay(7);
    assert DemoCalls()[..7] == DemoCalls();
    RepeatedHits(Expected(7), "one", 30);
  }
}

/** A run of the cache on concrete values: with capacity 2 and factor 1/2 one
    key is evicted at a time, and the key evicted on a full insert is the one
    used least. */
module LfuScenario {
  import opened LfuErrors
  import opened LfuConfig
  import opened Eviction
  import opened LfuInvariant
  import opened LfuCaches

  /** A cache of capacity 2 evicting one key at a time, holding keys 1 and 2
      with values 10 and 20, key 1 used twice and key 2 once. */
  ghost predicate TwoKeys(cache: LfuCache<int, int>)
    reads cache
  {
    cache.Valid() && cache.capacity == 2 && cache.evictNumber == 1 &&
    cache.Data == map[1 := 10, 2 := 20] && cache.Freq == map[1 := 2, 2 := 1]
  }

  /** Creates the cache, inserts 1 and 2, and accesses 1. */
  method InsertTwoUseOne() returns (cache: LfuCache<int, int>)
    ensures fresh(cache) && TwoKeys(cache)
  {
    hide CacheInv;
    var created := Create<int, int>(2, Ratio(1, 2));
    assert InRange(Ratio(1, 2));
    cache := created.value;
    var r, evicted := cache.Insert(1, 10);
    assert evicted == [] && cache.Data == map[1 := 10] && cache.Freq == map[1 := 1];
    r, evicted := cache.Insert(2, 20);
    assert evicted == [] && cache.Data == map[1 := 10, 2 := 20] && cache.Freq == map[1 := 1, 2 := 1];
    var v := cache.Access(1);
  }

  /** Inserting key 3 into that full cache evicts key 2, the one used least. */
  method InsertEvictsLeastUsed(cache: LfuCache<int, int>)
    requires TwoKeys(cache)
    modifies cache
    ensures cache.Valid() && cache.Data == map[1 := 10, 3 := 30]
  {
    hide CacheInv;
    var r, evicted := cache.Insert(3, 30);
    OneEvictionOfTwoKeys(evicted);
  }

  /** Evicting one key from keys 1 (used twice) and 2 (used once) removes 2. */
  lemma OneEvictionOfTwoKeys(evicted: seq<int>)
    requires |evicted| == 1 && EvictionOrder(map[1 := 2, 2 := 1], evicted)
    ensures evicted == [2]
    ensures (map[1 := 10, 2 := 20] - Elems(evicted))[3 := 30] == map[1 := 10, 3 := 30]
  {
    var freq := map[1 := 2, 2 := 1];
    assert IsLeast(freq, evicted[0]);
    var e := evicted[0];
    assert e in freq && freq[e] <= freq[2];
    assert e == 2 && evicted == [e];
    assert Elems(evicted) == {2};
  }

  /** After that insert an access of 2 fails and one of 1 still returns its
      value. */
  method LeastUsedIsEvicted() returns (missing: Result<int>, kept: Result<int>)
    ensures missing == Err(KeyNotFound) && kept == Ok(10)
  {
    hide CacheInv;
    var cache := InsertTwoUseOne();
    InsertEvictsLeastUsed(cache);
    missing := cache.Access(2);
    kept := cache.Access(1);
  }
}

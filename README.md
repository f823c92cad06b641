# LFU cache with constant-time operations

A model of `LfuCache`, a least-frequently-used cache after the design of
Shah, Mitra and Matani (an LFU cache with O(1) operations). The cache has a
fixed capacity. Each resident key has a value and a use count: the count
starts at 1 when the key is inserted and goes up by one on each access.
When an insert finds the cache full, it first evicts `evictNumber` keys of
least use count. `evictNumber` is `min(capacity, ceil(capacity * evictFactor))`.
The constructor refuses a factor with `evictFactor <= 0 || evictFactor > 1`
(the default is 0.05). That test does not refuse NaN, since both comparisons
are false for it (see "## Findings"). The model's constructors use the
corrected check, which refuses every factor outside (0, 1].

The cache keeps two structures:

- a key map (`mapCache`) from each key to an item, which holds the key's value and its parent frequency node;
- a circular doubly-linked list of frequency nodes, anchored by a head node of frequency 0.

Each node after the head holds the set of keys used exactly its frequency many times. Frequencies increase along the list, so the node after the head always holds the least-used keys.

Modules:

- `LfuErrors`: the failure results. Each exception of the source is an `Err`/`Fail` value here, and a failing call leaves the cache unchanged.
- `LfuConfig`: the constructors' validation and the `evictNumber` arithmetic. A factor is an exact ratio or NaN.
- `FreqRing`: the frequency list. Nodes are records in a pool, a map from handles to nodes, and a link is a handle. The module defines linking a new node in (`getNewFreqNode`) and unlinking one (`deleteNode`), over the ghost sequence of handles in list order.
- `Eviction`: the abstract order of an eviction. Keys are removed one at a time, each of least count among the keys still resident.
- `BucketSizes`: sizes of unions of disjoint sets.
- `LfuInvariant`: the representation invariant (`CacheInv`) and one preservation lemma for each kind of change to the list, the buckets and the key map.
- `LfuCaches`: the class `LfuCache` with the source's fields. Its methods change them in place. Ghost fields `nodes`, `Freq` and `Data` give the list order and the abstract map of key to use count and key to value.
- `LfuScenario`: a concrete run, showing that the key evicted is the least-used one.

In Java, `insert` tests `headFreqNode.next.frequency != 1`. The model reaches the same node through the test `access` uses (`next == head || next.frequency != prev.frequency + 1`), with the head as `prev`. The two tests agree because the head's frequency is 0.

## Model

| member | source | states |
|---|---|---|
| LfuCaches.Create | src/main/java/LFU_CES/LfuCache.java:24-33 | with the corrected check of `LfuConfig.MakeConfig`: refuses exactly when the capacity is at most 0 or the factor is outside (0, 1] (NaN included), with `InvalidConfiguration`; otherwise a fresh, valid, empty cache with that capacity and the computed `evictNumber` |
| LfuCaches.CreateDefault | src/main/java/LFU_CES/LfuCache.java:40-42 | with factor 0.05: refuses exactly the non-positive capacities, with `InvalidConfiguration`; otherwise a fresh, valid, empty cache |
| LfuCaches.LfuCache.constructor | src/main/java/LFU_CES/LfuCache.java:28-31 | an empty valid cache (no keys, no counts) with the given capacity and evictNumber |
| LfuCaches.LfuCache.Size | src/main/java/LFU_CES/LfuCache.java:122-124 | the number of resident keys, never above the capacity |
| LfuCaches.LfuCache.GetCapacity | src/main/java/LFU_CES/LfuCache.java:131-133 | the capacity: at least 1, and at least the number of resident keys |
| LfuCaches.LfuCache.GetEvictNumber | src/main/java/LFU_CES/LfuCache.java:140-142 | the eviction count, between 1 and the capacity |
| LfuCaches.LfuCache.Access | src/main/java/LFU_CES/LfuCache.java:54-74 | a missing key gives `KeyNotFound` and changes nothing; a resident key gives its value, the values stay the same, and that key's count (only its count) goes up by exactly one; the invariant holds after |
| LfuCaches.LfuCache.SuccessorNode | src/main/java/LFU_CES/LfuCache.java:59-64 | returns the node right after `prev` in list order, with frequency `prev`'s plus one. It reuses the next node when that node already has this frequency and otherwise links in a new node; the invariant holds with the new node as the one empty node |
| LfuCaches.LfuCache.MoveToNext | src/main/java/LFU_CES/LfuCache.java:65-71 | moving the key to the next bucket and deleting its old bucket once empty raises that key's count by one and restores the full invariant |
| LfuCaches.LfuCache.Insert | src/main/java/LFU_CES/LfuCache.java:84-100 | a resident key gives `KeyAlreadyExists` and changes nothing. Otherwise: a full cache first evicts exactly `evictNumber` keys in least-count order; the new key has count 1 and its value, and the other keys keep theirs; the size ends at `capacity - evictNumber + 1` when the cache was full and one more than before otherwise; the key sits in the frequency-1 bucket right after the head |
| LfuCaches.LfuCache.InsertAbsent | src/main/java/LFU_CES/LfuCache.java:89-99 | the same as `Insert` for a key that is not resident |
| LfuCaches.LfuCache.AddToFirstBucket | src/main/java/LFU_CES/LfuCache.java:98-99 | adding the key to the frequency-1 bucket after the head gives it count 1 and its value, changes no other key, and restores the invariant |
| LfuCaches.LfuCache.GetLfuData | src/main/java/LFU_CES/LfuCache.java:107-113 | errs (with `EmptyCache`) exactly when the cache is empty; otherwise returns the value of a resident key whose count is least |
| LfuCaches.LfuCache.GetNewFreqNode | src/main/java/LFU_CES/LfuCache.java:171-179 | takes a fresh handle, links an empty node of the given frequency between `prev` and `next` (as `FreqRing.LinkIn` states), inserts it after `prev` in list order, and keeps the invariant with the new node as the one empty node |
| LfuCaches.LfuCache.DeleteNode | src/main/java/LFU_CES/LfuCache.java:185-188 | unlinking an empty node removes it from list order and from the pool and restores the full invariant |
| LfuCaches.LfuCache.EvictLfuItems | src/main/java/LFU_CES/LfuCache.java:193-206 | removes exactly `evictNumber` distinct keys, each of least count among those still left when removed, from both counts and values; nothing else changes, and the size drops by `evictNumber` |
| LfuCaches.LfuCache.EvictOne | src/main/java/LFU_CES/LfuCache.java:197-204 | removes one resident key of least count from counts and values (and its bucket once that is empty); the size drops by one |
| LfuConfig.MakeConfig | src/main/java/LFU_CES/LfuCache.java:25-31 | none exactly when capacity <= 0 or the factor is outside (0, 1] (NaN included); otherwise `1 <= evictNumber <= capacity` and `evictNumber` is the ceiling of `capacity * factor` |
| LfuConfig.CeilDivIsCeiling | src/main/java/LFU_CES/LfuCache.java:31 | the integer `CeilDiv(a, b)` is the least integer not below `a / b` |
| LfuConfig.EvictNumberInRange | src/main/java/LFU_CES/LfuCache.java:31-32 | for a factor in (0, 1] the ceiling lies between 1 and the capacity, so the `min` never binds |
| LfuConfig.MakeConfigAsWritten | src/main/java/LFU_CES/LfuCache.java:25-31 | the source's own check (`<= 0` and `> 1`, both false for NaN) refuses exactly those factors; an accepted configuration keeps the capacity and has `evictNumber <= capacity` |
| LfuConfig.NaNFactorGivesZeroEvictNumber | src/main/java/LFU_CES/LfuCache.java:25-32 | as written, a NaN factor is accepted and gives evictNumber 0; the corrected check refuses it |
| LfuConfig.AsWrittenAgreesOnRatios | src/main/java/LFU_CES/LfuCache.java:25-31 | on every factor other than NaN, the source's check and formula agree with the corrected constructor |
| LfuConfig.FortyTimesOneTenth | src/test/java/LFU_CES/LfuCacheTest.java:72-85 | capacity 40 with factor 0.1 gives evictNumber 4 |
| LfuConfig.TenTimesOneHalf | src/main/java/LFU_CES/LfuCache.java:31 | capacity 10 with factor 0.5 gives evictNumber 5 |
| LfuConfig.DefaultFactorConfig | src/main/java/LFU_CES/LfuCache.java:40-42 | with factor 0.05 every positive capacity is accepted, and capacities up to 20 evict one key at a time |
| FreqRing.LinkIn | src/main/java/LFU_CES/LfuCache.java:171-179 | the new node is in the pool, empty, of the given frequency, with `prev`/`next` links; `prev.next` and `next.prev` point at it; no other link, frequency or bucket changes |
| FreqRing.Unlink | src/main/java/LFU_CES/LfuCache.java:185-188 | the node's neighbours point at each other and the node leaves the pool; no other link, frequency or bucket changes |
| FreqRing.SetItems | src/main/java/LFU_CES/LfuCache.java:65-68 | replacing one node's key set changes no frequency, no link and no other node's keys |
| FreqRing.SpliceLinked | src/main/java/LFU_CES/LfuCache.java:173-176 | after linking a new node in after position `i`, every `next` and `prev` link follows list order with the new node in position `i + 1` |
| FreqRing.RemoveLinked | src/main/java/LFU_CES/LfuCache.java:186-187 | after unlinking the node at position `i`, the links follow list order without it |
| FreqRing.SpliceIncreasing | src/main/java/LFU_CES/LfuCache.java:62-63 | a node whose frequency lies strictly between its neighbours' keeps frequencies increasing along the list |
| LfuInvariant.HeadFreqNode | src/main/java/LFU_CES/LfuCache.java:153-159 | the head node, of frequency 0 and linked to itself, forms a valid frequency list by itself |
| LfuInvariant.EmptyCacheInv | src/main/java/LFU_CES/LfuCache.java:28-29 | the empty key map with the lone head node satisfies the invariant |
| LfuInvariant.FirstBucket | src/main/java/LFU_CES/LfuCache.java:112 | in a non-empty cache the head's next node is a listed bucket and holds at least one key |
| LfuInvariant.FirstBucketLeast | src/main/java/LFU_CES/LfuCache.java:197-198 | every key in the bucket after the head has the least use count in the cache |
| LfuInvariant.LinkInKeepsInv | src/main/java/LFU_CES/LfuCache.java:171-179 | linking in a fresh node whose frequency lies between its neighbours' keeps the invariant, with the new node as the one allowed empty node |
| LfuInvariant.UnlinkKeepsInv | src/main/java/LFU_CES/LfuCache.java:185-188 | unlinking the one empty node keeps the invariant with no empty node left |
| LfuInvariant.MoveKeyKeepsInv | src/main/java/LFU_CES/LfuCache.java:65-68 | moving a key to the next bucket, which has frequency one higher, keeps the invariant, with its count raised by one and its old bucket as the possibly empty node |
| LfuInvariant.EvictKeyKeepsInv | src/main/java/LFU_CES/LfuCache.java:199-200 | removing a key of the first bucket from both the map and the bucket keeps the invariant for the keys left |
| LfuInvariant.InsertKeyKeepsInv | src/main/java/LFU_CES/LfuCache.java:98-99 | adding a new key to the frequency-1 bucket after the head, with a new item, keeps the invariant with count 1 and its value |
| LfuInvariant.PoolIsList | src/main/java/LFU_CES/LfuCache.java:185-188 | under the invariant the pool holds exactly the listed nodes, so a node that `deleteNode` unlinks is gone from the pool |
| LfuInvariant.BucketsDisjoint | src/main/java/LFU_CES/LfuCache.java:216-226 | no key is in two buckets |
| LfuInvariant.BucketsCover | src/main/java/LFU_CES/LfuCache.java:234-242 | the union of the buckets is exactly the set of keys of the key map |
| LfuInvariant.SizeIsSumOfBuckets | src/main/java/LFU_CES/LfuCache.java:122-124 | the size of the key map equals the sum of the sizes of the buckets |
| Eviction.EvictionOrderSnoc | src/main/java/LFU_CES/LfuCache.java:196-205 | one more round, removing a least key of what is left, extends a valid eviction order |
| Eviction.EvictionOrderRemoves | src/main/java/LFU_CES/LfuCache.java:196-205 | an eviction order removes distinct resident keys, exactly as many as its length |
| Eviction.EvictedAreLeast | src/main/java/LFU_CES/LfuCache.java:190-206 | no key that survives an eviction has a smaller count than any key it removed |
| Eviction.EvictionOrderSorted | src/main/java/LFU_CES/LfuCache.java:196-205 | keys are evicted in order of non-decreasing count |
| LfuScenario.InsertTwoUseOne | src/main/java/LFU_CES/LfuCache.java:84-100 | after creating a cache of capacity 2 (factor 0.5), inserting keys 1 and 2 and accessing 1, key 1 has count 2 and key 2 has count 1 |
| LfuScenario.InsertEvictsLeastUsed | src/main/java/LFU_CES/LfuCache.java:89-91 | inserting key 3 into that full cache leaves keys 1 and 3 |
| LfuScenario.OneEvictionOfTwoKeys | src/main/java/LFU_CES/LfuCache.java:193-206 | of key 1 (count 2) and key 2 (count 1), a one-key eviction removes only key 2 |
| LfuScenario.LeastUsedIsEvicted | src/main/java/LFU_CES/LfuCache.java:54-58 | after that insert, accessing key 2 fails with `KeyNotFound` and accessing key 1 still returns 10 |

The data model follows the source's inner classes:

- `FreqRing.FreqNode` is the frequency node (`LfuCache.java:216-226`): frequency, `prev`/`next` handles and a key set.
- `LfuInvariant.Item` is the item (`LfuCache.java:234-242`): the value and the parent node's handle.

## Left out

- The `synchronized` modifier on `access`, `insert` and `getLfuData`: the model is sequential.
- Nodes are handles into a pool, not object references. `deleteNode` leaves the unlinked node's own links in place and lets it be collected. The model drops it from the pool, since nothing refers to it any longer; the invariant keeps the pool equal to the listed nodes (`LfuInvariant.PoolIsList`).
- Items are values in the key map. The source updates `item.parent` in place. No item is shared between keys, so replacing the entry is equivalent.
- `LfuCaches.Create`: implements the corrected check of `LfuConfig.MakeConfig`, so it refuses a NaN factor that the source's constructor accepts (with evictNumber 0). The source's behaviour is modelled separately by `LfuConfig.MakeConfigAsWritten`; see the row under "## Findings".
- `LfuConfig.MakeConfig`: the factor is an exact ratio (or NaN), not a Java `double`. The source's double product can round past an integer: `100 * 0.07` is `7.000000000000001` in double arithmetic, which gives evictNumber 8 where the exact ceiling is 7.
- `LfuCaches.LfuCache.Access`: use counts are unbounded integers. In the source, a Java `int` frequency overflows after 2^31 - 1 accesses, which would break the increasing order of the list.
- `LfuCaches.LfuCache.GetLfuData`: returns the value of some least-used key. Which one depends on `HashSet` iteration order, which the model leaves open.
- `LfuCaches.LfuCache.EvictLfuItems`: each round removes some key of least count (the same open choice). The model then states the order abstractly as `Eviction.EvictionOrder`.
- `LfuCaches.LfuCache.EvictOne`: the same open choice among tied keys.
- Exceptions are results: `IllegalArgumentException` is `Err(InvalidConfiguration)`, and the `RuntimeException`s of `access`, `insert` and `getLfuData` are `KeyNotFound`, `KeyAlreadyExists` and `EmptyCache`. Exception messages are not modelled.
- The list of evicted keys returned by `Insert` and `EvictLfuItems` is ghost: the source returns nothing.
- The JUnit tests in `src/test/java/LFU_CES/LfuCacheTest.java` are not modelled as a suite. Only the evictNumber example (capacity 40, factor 0.1) is restated, as `LfuConfig.FortyTimesOneTenth`.

## Findings

| source | as written | input that shows it | evidently intended | confidence | as-written member | corrected member |
|---|---|---|---|---|---|---|
| src/main/java/LFU_CES/LfuCache.java:25-31 | `evictFactor <= 0 \|\| evictFactor > 1` is false for NaN, so NaN passes validation; `(int) Math.ceil(capacity * NaN)` is 0, so `evictNumber` is 0 | `new LfuCache<>(10, Double.NaN)`: accepted with evictNumber 0, so a full cache never evicts and `insert` grows it past its capacity | refuse every factor outside (0, 1], NaN included, so that `1 <= evictNumber <= capacity` as the comment on line 32 says | not executed | LfuConfig.NaNFactorGivesZeroEvictNumber | LfuConfig.MakeConfig |

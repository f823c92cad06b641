/** The constant-time LFU cache: a map from each key to an item (its value and
    the handle of its frequency node), and a circular doubly-linked list of
    frequency nodes anchored by a head node of frequency 0. Each other node
    holds the keys used exactly its frequency many times.

    Frequency nodes live in a pool `freqNodes` from handles to node records
    (module FreqRing); a link is a handle, and changing a link or the keys of
    a node, like changing an item's parent, reassigns the record in its map.
    The ghost fields give the abstract view: `nodes` lists the handles in
    list order from the head, `Freq` maps each resident key to its use count
    and `Data` maps it to its value. */
module LfuCaches {
  import opened LfuErrors
  import opened LfuConfig
  import opened Eviction
  import opened FreqRing
  import opened LfuInvariant

  class LfuCache<K(==), V> {
    var mapCache: map<K, Item<V>>
    var freqNodes: map<Handle, FreqNode<K>>
    /** The handle the next new frequency node gets. */
    var freeHandle: Handle
    const head: Handle
    const capacity: int
    const evictNumber: int

    ghost var nodes: seq<Handle>
    ghost var Freq: map<K, int>
    ghost var Data: map<K, V>

    /** The invariant, with `spare` allowed to be an empty node. */
    ghost predicate Inv(spare: Handle)
      reads this
    {
      CacheInv(freqNodes, nodes, mapCache, Freq, Data, head, freeHandle, spare) &&
      1 <= evictNumber <= capacity && |mapCache| <= capacity
    }

    ghost predicate Valid()
      reads this
    {
      Inv(head)
    }

    /** An empty cache with a checked configuration; the head node comes
        from `HeadFreqNode`. */
    constructor (config: Config)
      requires 1 <= config.evictNumber <= config.capacity
      ensures Valid() && Data == map[] && Freq == map[]
      ensures capacity == config.capacity && evictNumber == config.evictNumber
    {
      mapCache := map[];
      head := 0;
      freqNodes := map[0 := HeadFreqNode(0)];
      freeHandle := 1;
      capacity := config.capacity;
      evictNumber := config.evictNumber;
      nodes := [0];
      Freq := map[];
      Data := map[];
      new;
      EmptyCacheInv<K, V>(0);
    }

    function Size(): (n: int)
      reads this
      ensures Valid() ==> n == |Data| && n <= capacity
    {
      |mapCache|
    }

    function GetCapacity(): (c: int)
      reads this
      ensures Valid() ==> 1 <= c && |Data| <= c
    {
      capacity
    }

    function GetEvictNumber(): (e: int)
      reads this
      ensures Valid() ==> 1 <= e <= capacity
    {
      evictNumber
    }

    /** Returns the value of `key` and raises its use count by one; a missing
        key is an error and changes nothing. */
    method Access(key: K) returns (r: Result<V>)
      requires Valid()
      modifies this
      ensures Valid()
      ensures key !in old(Data) ==> r == Err(KeyNotFound) && unchanged(this)
      ensures key in old(Data) ==>
                r == Ok(old(Data)[key]) && Data == old(Data) && Freq == old(Freq)[key := old(Freq)[key] + 1]
    {
      hide CacheInv;
      HeadFacts(freqNodes, nodes, mapCache, Freq, Data, head, freeHandle, head);
      if key !in mapCache {
        return Err(KeyNotFound);
      }
      var item := mapCache[key];
      var parentNode := item.parent;
      ItemFacts(freqNodes, nodes, mapCache, Freq, Data, head, freeHandle, head, key);
      ghost var i :| 0 <= i < |nodes| && nodes[i] == parentNode;
      NodeFacts(freqNodes, nodes, mapCache, Freq, Data, head, freeHandle, head, i);
      var nextFreqNode, spare := SuccessorNode(parentNode, i);
      MoveToNext(key, i, spare);
      return Ok(item.data);
    }

    /** The second half of `Access`: moves `key` from its bucket at position
        `i` to the next one, whose frequency is one higher, and deletes the
        old bucket once it is empty. */
    method MoveToNext(key: K, ghost i: nat, ghost spare: Handle)
      requires Inv(spare) && i + 1 < |nodes| && (spare == head || spare == nodes[i + 1])
      requires key in mapCache && mapCache[key].parent == nodes[i]
      requires freqNodes[nodes[i + 1]].frequency == freqNodes[nodes[i]].frequency + 1
      modifies this`freqNodes, this`mapCache, this`Freq, this`nodes
      ensures Valid() && Freq == old(Freq)[key := old(Freq)[key] + 1]
    {
      hide CacheInv;
      HeadFacts(freqNodes, nodes, mapCache, Freq, Data, head, freeHandle, spare);
      ItemFacts(freqNodes, nodes, mapCache, Freq, Data, head, freeHandle, spare, key);
      NodeFacts(freqNodes, nodes, mapCache, Freq, Data, head, freeHandle, spare, i);
      var parentNode, nextFreqNode := mapCache[key].parent, freqNodes[mapCache[key].parent].next;
      MoveKeyKeepsInv(freqNodes, nodes, mapCache, Freq, Data, head, freeHandle, spare, i, key);
      var moved := SetItems(freqNodes, nextFreqNode, freqNodes[nextFreqNode].items + {key});
      moved := SetItems(moved, parentNode, moved[parentNode].items - {key});
      freqNodes, mapCache, Freq := moved, mapCache[key := mapCache[key].(parent := nextFreqNode)], Freq[key := Freq[key] + 1];
      if |moved[parentNode].items| == 0 {
        DeleteNode(parentNode, i);
      } else {
        SpareFilled(freqNodes, nodes, mapCache, Freq, Data, head, freeHandle, parentNode);
      }
    }

    /** Adds `key` with use count 1 to the bucket after the head. An existing
        key is an error and changes nothing; a full cache first evicts
        `evictNumber` keys of least use count. */
    method Insert(key: K, data: V) returns (r: Outcome, ghost evicted: seq<K>)
      requires Valid()
      modifies this
      ensures Valid()
      ensures key in old(Data) ==> r == Fail(KeyAlreadyExists) && evicted == [] && unchanged(this)
      ensures key !in old(Data) ==> r == Pass
      ensures key !in old(Data) ==>
                if |old(Data)| >= capacity then |evicted| == evictNumber && EvictionOrder(old(Freq), evicted)
                else evicted == []
      ensures key !in old(Data) ==>
                Freq == (old(Freq) - Elems(evicted))[key := 1] && Data == (old(Data) - Elems(evicted))[key := data]
      ensures key !in old(Data) ==>
                |Data| == if |old(Data)| >= capacity then capacity - evictNumber + 1 else |old(Data)| + 1
      ensures key !in old(Data) ==>
                var first := freqNodes[head].next;
                first in freqNodes && freqNodes[first].frequency == 1 && key in freqNodes[first].items
    {
      hide CacheInv;
      HeadFacts(freqNodes, nodes, mapCache, Freq, Data, head, freeHandle, head);
      if key in mapCache {
        return Fail(KeyAlreadyExists), [];
      }
      evicted := InsertAbsent(key, data);
      r := Pass;
    }

    /** `Insert` past its check for an existing key: evicts when full, then
        adds `key` to the bucket of frequency 1 right after the head. */
    method InsertAbsent(key: K, data: V) returns (ghost evicted: seq<K>)
      requires Valid() && key !in Data
      modifies this`mapCache, this`freqNodes, this`freeHandle, this`nodes, this`Freq, this`Data
      ensures Valid()
      ensures if |old(Data)| >= capacity then |evicted| == evictNumber && EvictionOrder(old(Freq), evicted)
              else evicted == []
      ensures Freq == (old(Freq) - Elems(evicted))[key := 1] && Data == (old(Data) - Elems(evicted))[key := data]
      ensures |Data| == if |old(Data)| >= capacity then capacity - evictNumber + 1 else |old(Data)| + 1
      ensures var first := freqNodes[head].next;
              first in freqNodes && freqNodes[first].frequency == 1 && key in freqNodes[first].items
    {
      hide CacheInv;
      HeadFacts(freqNodes, nodes, mapCache, Freq, Data, head, freeHandle, head);
      evicted := [];
      if |mapCache| >= capacity {
        evicted := EvictLfuItems();
      } else {
        RemoveNothing(Freq);
        RemoveNothing(Data);
      }
      HeadFacts(freqNodes, nodes, mapCache, Freq, Data, head, freeHandle, head);
      var firstFreqNode, spare := SuccessorNode(head, 0);
      HeadFacts(freqNodes, nodes, mapCache, Freq, Data, head, freeHandle, spare);
      AddToFirstBucket(key, data, spare);
    }

    /** The node right after `prev` whose frequency is one above `prev`'s:
        the next node when it already has that frequency, else a new node
        linked in by `GetNewFreqNode` (also when the next node is the head,
        that is, `prev` is the last node). `spare` is the new node, empty
        until a key moves in, or the head when none was made. */
    method SuccessorNode(prev: Handle, ghost i: nat) returns (node: Handle, ghost spare: Handle)
      requires Valid() && i < |nodes| && prev == nodes[i]
      modifies this`freqNodes, this`freeHandle, this`nodes
      ensures Inv(spare) && (spare == head || spare == node)
      ensures i + 1 < |nodes| && nodes[i] == prev && nodes[i + 1] == node
      ensures prev in freqNodes && node in freqNodes && freqNodes[node].frequency == freqNodes[prev].frequency + 1
    {
      hide CacheInv;
      HeadFacts(freqNodes, nodes, mapCache, Freq, Data, head, freeHandle, head);
      NodeFacts(freqNodes, nodes, mapCache, Freq, Data, head, freeHandle, head, i);
      node, spare := freqNodes[prev].next, head;
      if node == head || freqNodes[node].frequency != freqNodes[prev].frequency + 1 {
        if i + 1 < |nodes| {
          OrderFacts(freqNodes, nodes, mapCache, Freq, Data, head, freeHandle, head, i, i + 1);
        }
        node := GetNewFreqNode(freqNodes[prev].frequency + 1, prev, node, i);
        spare := node;
      }
    }

    /** The second half of `Insert`: adds the absent `key` to the bucket of
        frequency 1 right after the head. */
    method AddToFirstBucket(key: K, data: V, ghost spare: Handle)
      requires Inv(spare) && key !in Data && |Data| < capacity
      requires |nodes| >= 2 && (spare == head || spare == nodes[1]) && freqNodes[nodes[1]].frequency == 1
      modifies this`freqNodes, this`mapCache, this`Freq, this`Data
      ensures Valid() && Freq == old(Freq)[key := 1] && Data == old(Data)[key := data]
      ensures var first := freqNodes[head].next;
              first in freqNodes && freqNodes[first].frequency == 1 && key in freqNodes[first].items
    {
      hide CacheInv;
      HeadFacts(freqNodes, nodes, mapCache, Freq, Data, head, freeHandle, spare);
      NodeFacts(freqNodes, nodes, mapCache, Freq, Data, head, freeHandle, spare, 0);
      var firstFreqNode := freqNodes[head].next;
      InsertKeyKeepsInv(freqNodes, nodes, mapCache, Freq, Data, head, freeHandle, spare, key, data);
      var added := SetItems(freqNodes, firstFreqNode, freqNodes[firstFreqNode].items + {key});
      freqNodes, mapCache, Freq, Data := added, mapCache[key := Item(data, firstFreqNode)], Freq[key := 1], Data[key := data];
      NodeFacts(freqNodes, nodes, mapCache, Freq, Data, head, freeHandle, head, 0);
    }

    /** The value of a key of least use count; an empty cache is an error. */
    method GetLfuData() returns (r: Result<V>)
      requires Valid()
      ensures r.Err? <==> |Data| == 0
      ensures r.Err? ==> r.error == EmptyCache
      ensures r.Ok? ==> exists k :: IsLeast(Freq, k) && k in Data && Data[k] == r.value
    {
      hide CacheInv;
      HeadFacts(freqNodes, nodes, mapCache, Freq, Data, head, freeHandle, head);
      if |mapCache| == 0 {
        return Err(EmptyCache);
      }
      FirstBucket(freqNodes, nodes, mapCache, Freq, Data, head, freeHandle);
      var key :| key in freqNodes[freqNodes[head].next].items;
      FirstBucketLeast(freqNodes, nodes, mapCache, Freq, Data, head, freeHandle, head, key);
      ItemFacts(freqNodes, nodes, mapCache, Freq, Data, head, freeHandle, head, key);
      return Ok(mapCache[key].data);
    }

    /** Creates a node of the given frequency, with no keys, and links it in
        between `prev`, at position `i` of the list, and its successor `next`. */
    method GetNewFreqNode(frequency: int, prev: Handle, next: Handle, ghost i: nat) returns (freqNode: Handle)
      requires Valid() && i < |nodes| && prev == nodes[i] && next == nodes[Succ(i, |nodes|)]
      requires freqNodes[prev].frequency < frequency
      requires i + 1 < |nodes| ==> frequency < freqNodes[next].frequency
      modifies this`freqNodes, this`freeHandle, this`nodes
      ensures freqNode == old(freeHandle) && freeHandle == freqNode + 1
      ensures freqNodes == LinkIn(old(freqNodes), prev, next, freqNode, frequency)
      ensures nodes == Spliced(old(nodes), i, freqNode)
      ensures Inv(freqNode)
    {
      hide CacheInv, LinkIn, Spliced;
      HeadFacts(freqNodes, nodes, mapCache, Freq, Data, head, freeHandle, head);
      NodeFacts(freqNodes, nodes, mapCache, Freq, Data, head, freeHandle, head, i);
      var fn, free := freqNodes, freeHandle;
      ghost var ns := nodes;
      LinkInKeepsInv(fn, ns, mapCache, Freq, Data, head, free, i, frequency);
      freqNode := free;
      freqNodes, nodes, freeHandle := LinkIn(fn, prev, next, free, frequency), Spliced(ns, i, free), free + 1;
    }

    /** Unlinks the node at position `i`, which holds no keys, from its
        neighbours; the pool then drops it, as nothing refers to it. */
    method DeleteNode(freqNode: Handle, ghost i: nat)
      requires 1 <= i < |nodes| && freqNode == nodes[i] && Inv(freqNode) && freqNodes[freqNode].items == {}
      modifies this`freqNodes, this`nodes
      ensures nodes == Removed(old(nodes), i) && freqNode !in freqNodes
      ensures Valid()
    {
      hide CacheInv;
      NodeFacts(freqNodes, nodes, mapCache, Freq, Data, head, freeHandle, freqNode, i);
      UnlinkKeepsInv(freqNodes, nodes, mapCache, Freq, Data, head, freeHandle, i);
      freqNodes := Unlink(freqNodes, freqNode);
      nodes := Removed(nodes, i);
    }

    /** Removes `evictNumber` keys one at a time, each from the bucket after
        the head, so each of least use count among those left. */
    method EvictLfuItems() returns (ghost evicted: seq<K>)
      requires Valid() && |Data| >= evictNumber
      modifies this`mapCache, this`freqNodes, this`nodes, this`Freq, this`Data
      ensures Valid()
      ensures |evicted| == evictNumber && EvictionOrder(old(Freq), evicted)
      ensures Freq == old(Freq) - Elems(evicted) && Data == old(Data) - Elems(evicted)
      ensures |Data| == |old(Data)| - evictNumber
    {
      hide CacheInv;
      evicted := [];
      assert Freq - Elems(evicted) == Freq && Data - Elems(evicted) == Data;
      for i := 0 to evictNumber
        invariant Valid()
        invariant |evicted| == i && EvictionOrder(old(Freq), evicted)
        invariant Freq == old(Freq) - Elems(evicted) && Data == old(Data) - Elems(evicted)
        invariant |Data| == |old(Data)| - i
      {
        var key := EvictOne();
        EvictionOrderSnoc(old(Freq), evicted, key);
        RemoveOneMore(old(Freq), evicted, key);
        RemoveOneMore(old(Data), evicted, key);
        evicted := evicted + [key];
      }
    }

    /** One round of eviction: removes some key of the bucket after the head,
        which is a key of least use count, and deletes that bucket once it is
        empty. */
    method EvictOne() returns (ghost key: K)
      requires Valid() && |Data| > 0
      modifies this`mapCache, this`freqNodes, this`nodes, this`Freq, this`Data
      ensures Valid() && IsLeast(old(Freq), key)
      ensures Freq == old(Freq) - {key} && Data == old(Data) - {key}
      ensures key in old(Data) && |Data| == |old(Data)| - 1
    {
      hide CacheInv;
      HeadFacts(freqNodes, nodes, mapCache, Freq, Data, head, freeHandle, head);
      FirstBucket(freqNodes, nodes, mapCache, Freq, Data, head, freeHandle);
      var lfuNode := freqNodes[head].next;
      var k :| k in freqNodes[lfuNode].items;
      FirstBucketLeast(freqNodes, nodes, mapCache, Freq, Data, head, freeHandle, head, k);
      EvictKeyKeepsInv(freqNodes, nodes, mapCache, Freq, Data, head, freeHandle, k);
      var rest := SetItems(freqNodes, lfuNode, freqNodes[lfuNode].items - {k});
      mapCache, freqNodes, Freq, Data := mapCache - {k}, rest, Freq - {k}, Data - {k};
      key := k;
      if |rest[lfuNode].items| == 0 {
        DeleteNode(lfuNode, 1);
      } else {
        SpareFilled(freqNodes, nodes, mapCache, Freq, Data, head, freeHandle, lfuNode);
      }
    }
  }

  /** The two-argument constructor: a non-positive capacity or a factor
      outside (0, 1] is refused; otherwise an empty cache with the computed
      eviction count. */
  method Create<K(==), V>(capacity: int, factor: EvictFactor) returns (r: Result<LfuCache<K, V>>)
    ensures r.Err? <==> capacity <= 0 || !InRange(factor)
    ensures r.Err? ==> r.error == InvalidConfiguration
    ensures r.Ok? ==>
              fresh(r.value) && r.value.Valid() && r.value.Data == map[] && r.value.Freq == map[] &&
              r.value.capacity == capacity && r.value.evictNumber == MakeConfig(capacity, factor).value.evictNumber
  {
    var config := MakeConfig(capacity, factor);
    if config.None? {
      return Err(InvalidConfiguration);
    }
    var cache := new LfuCache(config.value);
    return Ok(cache);
  }

  /** The one-argument constructor, with the default factor 0.05. */
  method CreateDefault<K(==), V>(capacity: int) returns (r: Result<LfuCache<K, V>>)
    ensures r.Err? <==> capacity <= 0
    ensures r.Err? ==> r.error == InvalidConfiguration
    ensures r.Ok? ==>
              fresh(r.value) && r.value.Valid() && r.value.Data == map[] && r.value.Freq == map[] &&
              r.value.capacity == capacity && r.value.evictNumber == MakeConfig(capacity, DefaultFactor).value.evictNumber
  {
    r := Create(capacity, DefaultFactor);
  }
}

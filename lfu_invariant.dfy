/** The representation invariant of the LFU cache, over values: the pool
    `fn` of frequency nodes, the ghost list `ns` of their handles in list
    order from the head, the key map `mc` of items, and the abstract view
    `freq`/`data` (use count and value of each resident key). Each change the
    cache makes to these is proved here, one part of the invariant at a time,
    to keep it. */
module LfuInvariant {
  import opened Eviction
  import opened BucketSizes
  import opened FreqRing

  /** A cache entry: the value and the node that holds its key. */
  datatype Item<V> = Item(data: V, parent: Handle)

  /** The frequency list: a circle through `ns` from the head, an empty
      node of frequency 0, with frequencies increasing along it. */
  ghost predicate Ring<K>(fn: map<Handle, FreqNode<K>>, ns: seq<Handle>, head: Handle) {
    |ns| >= 1 && ns[0] == head && InPool(fn, ns) && Linked(fn, ns) && Increasing(fn, ns) &&
    fn[head].frequency == 0 && fn[head].items == {}
  }

  /** No listed node after the head is empty, except possibly `spare`. */
  ghost predicate NoEmptyBuckets<K>(fn: map<Handle, FreqNode<K>>, ns: seq<Handle>, spare: Handle) {
    forall j | 1 <= j < |ns| && ns[j] != spare :: ns[j] in fn && fn[ns[j]].items != {}
  }

  /** Items and buckets agree: each resident key's parent is a listed node
      holding it, and each key a listed node holds is resident with that node
      as its parent. */
  ghost predicate Owned<K, V>(fn: map<Handle, FreqNode<K>>, ns: seq<Handle>, mc: map<K, Item<V>>) {
    (forall k | k in mc :: mc[k].parent in ns && mc[k].parent in fn && k in fn[mc[k].parent].items) &&
    (forall j, k | 0 <= j < |ns| && ns[j] in fn && k in fn[ns[j]].items :: k in mc && mc[k].parent == ns[j])
  }

  /** The abstract view: exactly the resident keys, each with the frequency
      of its bucket as its use count and its item's value. */
  ghost predicate Abstracts<K, V>(fn: map<Handle, FreqNode<K>>, mc: map<K, Item<V>>, freq: map<K, int>, data: map<K, V>) {
    freq.Keys == mc.Keys && data.Keys == mc.Keys &&
    forall k | k in mc :: mc[k].parent in fn && freq[k] == fn[mc[k].parent].frequency && data[k] == mc[k].data
  }

  /** Every node of the pool is listed: the pool holds the list and no
      node beside it. */
  ghost predicate Listed<K>(fn: map<Handle, FreqNode<K>>, ns: seq<Handle>) {
    forall h | h in fn :: h in ns
  }

  /** The representation invariant, with `spare` the one node allowed to be
      empty for the moment (the head when there is none) and `free` above
      every handle in use. */
  ghost predicate CacheInv<K, V>(fn: map<Handle, FreqNode<K>>, ns: seq<Handle>, mc: map<K, Item<V>>,
                                 freq: map<K, int>, data: map<K, V>, head: Handle, free: Handle, spare: Handle)
  {
    Ring(fn, ns, head) && Listed(fn, ns) && (forall h | h in fn :: h < free) &&
    NoEmptyBuckets(fn, ns, spare) && Owned(fn, ns, mc) && Abstracts(fn, mc, freq, data)
  }

  /** The head node the cache starts with: frequency 0, no keys, both links
      to itself; alone it forms a valid frequency list. */
  function HeadFreqNode<K>(h: Handle): (r: FreqNode<K>)
    ensures Ring(map[h := r], [h], h)
  {
    FreqNode(0, h, h, {})
  }

  /** The empty cache satisfies the invariant. */
  lemma EmptyCacheInv<K, V>(h: Handle)
    ensures var mc: map<K, Item<V>>, freq: map<K, int>, data: map<K, V> := map[], map[], map[];
            CacheInv(map[h := HeadFreqNode<K>(h)], [h], mc, freq, data, h, h + 1, h)
  {
  }

  /** What the invariant says of the head, of fresh handles and of the
      abstract view's keys. */
  lemma HeadFacts<K, V>(fn: map<Handle, FreqNode<K>>, ns: seq<Handle>, mc: map<K, Item<V>>,
                        freq: map<K, int>, data: map<K, V>, head: Handle, free: Handle, spare: Handle)
    requires CacheInv(fn, ns, mc, freq, data, head, free, spare)
    ensures |ns| >= 1 && ns[0] == head && head in fn && fn[head].frequency == 0 && fn[head].items == {}
    ensures UniqueAt(ns, 0) && free !in fn
    ensures freq.Keys == mc.Keys && data.Keys == mc.Keys && |data| == |mc| && |freq| == |mc|
  {
    DistinctFrom(fn, ns, 0);
    assert |data| == |data.Keys| && |mc| == |mc.Keys| && |freq| == |freq.Keys|;
  }

  /** What the invariant says of the node at position `i`: it is in the
      pool, and so are its neighbours, which are the adjacent positions. */
  lemma NodeFacts<K, V>(fn: map<Handle, FreqNode<K>>, ns: seq<Handle>, mc: map<K, Item<V>>,
                        freq: map<K, int>, data: map<K, V>, head: Handle, free: Handle, spare: Handle, i: nat)
    requires CacheInv(fn, ns, mc, freq, data, head, free, spare) && i < |ns|
    ensures ns[i] in fn && fn[ns[i]].next == ns[Succ(i, |ns|)] && fn[ns[i]].next in fn && fn[ns[i]].prev in fn
    ensures 0 < i ==> fn[ns[i]].prev == ns[i - 1]
  {
    Neighbours(fn, ns, i);
  }

  /** What the invariant says of a resident key: its parent is a listed node
      other than the head, holding the key, and the abstract view agrees. */
  lemma ItemFacts<K, V>(fn: map<Handle, FreqNode<K>>, ns: seq<Handle>, mc: map<K, Item<V>>,
                        freq: map<K, int>, data: map<K, V>, head: Handle, free: Handle, spare: Handle, key: K)
    requires CacheInv(fn, ns, mc, freq, data, head, free, spare) && key in mc
    ensures mc[key].parent in ns && mc[key].parent in fn && mc[key].parent != head
    ensures key in fn[mc[key].parent].items
    ensures key in freq && freq[key] == fn[mc[key].parent].frequency
    ensures key in data && data[key] == mc[key].data
  {
  }

  /** Frequencies increase along the list. */
  lemma OrderFacts<K, V>(fn: map<Handle, FreqNode<K>>, ns: seq<Handle>, mc: map<K, Item<V>>,
                         freq: map<K, int>, data: map<K, V>, head: Handle, free: Handle, spare: Handle, a: nat, b: nat)
    requires CacheInv(fn, ns, mc, freq, data, head, free, spare) && a < b < |ns|
    ensures ns[a] in fn && ns[b] in fn && fn[ns[a]].frequency < fn[ns[b]].frequency
  {
    IncreasingPairwise(fn, ns, a, b);
  }

  /** A spare node that holds keys again needs no exception. */
  lemma SpareFilled<K, V>(fn: map<Handle, FreqNode<K>>, ns: seq<Handle>, mc: map<K, Item<V>>,
                          freq: map<K, int>, data: map<K, V>, head: Handle, free: Handle, spare: Handle)
    requires CacheInv(fn, ns, mc, freq, data, head, free, spare)
    requires spare in fn && fn[spare].items != {}
    ensures CacheInv(fn, ns, mc, freq, data, head, free, head)
  {
  }

  /** The use counts depend on the frequencies of the parents only. */
  lemma AbstractsFrame<K, V>(fn: map<Handle, FreqNode<K>>, fn': map<Handle, FreqNode<K>>, mc: map<K, Item<V>>,
                             freq: map<K, int>, data: map<K, V>)
    requires Abstracts(fn, mc, freq, data)
    requires forall k | k in mc :: mc[k].parent in fn' && fn'[mc[k].parent].frequency == fn[mc[k].parent].frequency
    ensures Abstracts(fn', mc, freq, data)
  {
  }

  /** Changing only the keys of non-head nodes keeps the frequency list. */
  lemma RingItemsFrame<K>(fn: map<Handle, FreqNode<K>>, fn': map<Handle, FreqNode<K>>, ns: seq<Handle>, head: Handle)
    requires Ring(fn, ns, head)
    requires fn'.Keys == fn.Keys
    requires forall h {:trigger fn'[h]} | h in fn ::
               fn'[h].frequency == fn[h].frequency && fn'[h].prev == fn[h].prev && fn'[h].next == fn[h].next
    requires fn'[head].items == {}
    ensures Ring(fn', ns, head)
  {
    IncreasingFrame(fn, fn', ns);
  }

  /** Keys of the first bucket after the head have the least use count. */
  lemma FirstBucketLeast<K, V>(fn: map<Handle, FreqNode<K>>, ns: seq<Handle>, mc: map<K, Item<V>>,
                               freq: map<K, int>, data: map<K, V>, head: Handle, free: Handle, spare: Handle, key: K)
    requires CacheInv(fn, ns, mc, freq, data, head, free, spare)
    requires |ns| >= 2 && key in fn[ns[1]].items
    ensures IsLeast(freq, key)
  {
    forall k | k in freq ensures freq[key] <= freq[k] {
      var j :| 0 <= j < |ns| && ns[j] == mc[k].parent;
      if j > 1 {
        IncreasingPairwise(fn, ns, 1, j);
      }
    }
  }

  /** A non-empty cache has a first bucket after the head, the head's next,
      and it is not empty. */
  lemma FirstBucket<K, V>(fn: map<Handle, FreqNode<K>>, ns: seq<Handle>, mc: map<K, Item<V>>,
                          freq: map<K, int>, data: map<K, V>, head: Handle, free: Handle)
    requires CacheInv(fn, ns, mc, freq, data, head, free, head) && |mc| > 0
    ensures |ns| >= 2 && fn[head].next == ns[1] && ns[1] in fn && fn[ns[1]].items != {}
  {
    var k :| k in mc;
    var j :| 0 <= j < |ns| && ns[j] == mc[k].parent;
    DistinctFrom(fn, ns, 0);
  }

  // Linking a fresh node in after position i.

  lemma RingLinkIn<K>(fn: map<Handle, FreqNode<K>>, ns: seq<Handle>, head: Handle, i: nat, node: Handle, f: int)
    requires Ring(fn, ns, head) && i < |ns| && node !in fn
    requires fn[ns[i]].frequency < f && (i + 1 < |ns| ==> f < fn[ns[i + 1]].frequency)
    ensures Ring(LinkIn(fn, ns[i], ns[Succ(i, |ns|)], node, f), Spliced(ns, i, node), head)
  {
    var fn' := LinkIn(fn, ns[i], ns[Succ(i, |ns|)], node, f);
    DistinctFrom(fn, ns, i);
    DistinctFrom(fn, ns, Succ(i, |ns|));
    SpliceLinked(fn, ns, i, node, f);
    IncreasingFrame(fn, fn', ns);
    SpliceIncreasing(fn', ns, i, node);
  }

  lemma NoEmptyLinkIn<K>(fn: map<Handle, FreqNode<K>>, ns: seq<Handle>, head: Handle, i: nat, node: Handle, f: int)
    requires InPool(fn, ns) && NoEmptyBuckets(fn, ns, head) && UniqueAt(ns, 0) && ns[0] == head
    requires i < |ns| && node !in fn
    ensures NoEmptyBuckets(LinkIn(fn, ns[i], ns[Succ(i, |ns|)], node, f), Spliced(ns, i, node), node)
  {
    var fn' := LinkIn(fn, ns[i], ns[Succ(i, |ns|)], node, f);
    var ns' := Spliced(ns, i, node);
    forall j | 1 <= j < |ns'| && ns'[j] != node ensures ns'[j] in fn' && fn'[ns'[j]].items != {} {
      if j <= i { assert ns'[j] == ns[j]; } else { assert ns'[j] == ns[j - 1]; }
    }
  }

  lemma OwnedLinkIn<K, V>(fn: map<Handle, FreqNode<K>>, ns: seq<Handle>, mc: map<K, Item<V>>, i: nat, node: Handle, f: int)
    requires InPool(fn, ns) && Owned(fn, ns, mc) && i < |ns| && node !in fn
    ensures Owned(LinkIn(fn, ns[i], ns[Succ(i, |ns|)], node, f), Spliced(ns, i, node), mc)
  {
    var fn' := LinkIn(fn, ns[i], ns[Succ(i, |ns|)], node, f);
    var ns' := Spliced(ns, i, node);
    SpliceMembers(ns, i, node);
    forall j, k | 0 <= j < |ns'| && ns'[j] in fn' && k in fn'[ns'[j]].items
      ensures k in mc && mc[k].parent == ns'[j]
    {
      if j <= i { assert ns'[j] == ns[j]; } else if j > i + 1 { assert ns'[j] == ns[j - 1]; }
    }
  }

  /** Linking a fresh node in after position `i`, its frequency strictly
      between its neighbours', keeps the invariant with the new, empty node
      as the spare. */
  lemma LinkInKeepsInv<K, V>(fn: map<Handle, FreqNode<K>>, ns: seq<Handle>, mc: map<K, Item<V>>,
                             freq: map<K, int>, data: map<K, V>, head: Handle, free: Handle, i: nat, f: int)
    requires CacheInv(fn, ns, mc, freq, data, head, free, head)
    requires i < |ns| && fn[ns[i]].frequency < f
    requires i + 1 < |ns| ==> f < fn[ns[i + 1]].frequency
    ensures CacheInv(LinkIn(fn, ns[i], ns[Succ(i, |ns|)], free, f), Spliced(ns, i, free),
                     mc, freq, data, head, free + 1, free)
  {
    DistinctFrom(fn, ns, 0);
    SpliceMembers(ns, i, free);
    RingLinkIn(fn, ns, head, i, free, f);
    NoEmptyLinkIn(fn, ns, head, i, free, f);
    OwnedLinkIn(fn, ns, mc, i, free, f);
    AbstractsFrame(fn, LinkIn(fn, ns[i], ns[Succ(i, |ns|)], free, f), mc, freq, data);
  }

  // Unlinking the node at position i.

  lemma RingUnlink<K>(fn: map<Handle, FreqNode<K>>, ns: seq<Handle>, head: Handle, i: nat)
    requires Ring(fn, ns, head) && 1 <= i < |ns|
    ensures Ring(Unlink(fn, ns[i]), Removed(ns, i), head)
  {
    var fn' := Unlink(fn, ns[i]);
    var ns' := Removed(ns, i);
    DistinctFrom(fn, ns, i - 1);
    DistinctFrom(fn, ns, i);
    DistinctFrom(fn, ns, Succ(i, |ns|));
    RemoveLinked(fn, ns, i);
    RemoveIncreasing(fn, ns, i);
    IncreasingFrame(fn, fn', ns');
  }

  lemma NoEmptyUnlink<K>(fn: map<Handle, FreqNode<K>>, ns: seq<Handle>, head: Handle, i: nat)
    requires InPool(fn, ns) && 1 <= i < |ns| && NoEmptyBuckets(fn, ns, ns[i]) && UniqueAt(ns, i)
    requires fn[ns[i]].prev in fn && fn[ns[i]].next in fn
    ensures NoEmptyBuckets(Unlink(fn, ns[i]), Removed(ns, i), head)
  {
    var fn' := Unlink(fn, ns[i]);
    var ns' := Removed(ns, i);
    forall j | 1 <= j < |ns'| && ns'[j] != head ensures ns'[j] in fn' && fn'[ns'[j]].items != {} {
      if j < i { assert ns'[j] == ns[j]; } else { assert ns'[j] == ns[j + 1]; }
    }
  }

  lemma OwnedUnlink<K, V>(fn: map<Handle, FreqNode<K>>, ns: seq<Handle>, mc: map<K, Item<V>>, i: nat)
    requires InPool(fn, ns) && Owned(fn, ns, mc) && 1 <= i < |ns| && UniqueAt(ns, i)
    requires fn[ns[i]].items == {} && fn[ns[i]].prev in fn && fn[ns[i]].next in fn
    ensures Owned(Unlink(fn, ns[i]), Removed(ns, i), mc)
  {
    var fn' := Unlink(fn, ns[i]);
    var ns' := Removed(ns, i);
    RemoveMembers(ns, i);
    forall j, k | 0 <= j < |ns'| && ns'[j] in fn' && k in fn'[ns'[j]].items
      ensures k in mc && mc[k].parent == ns'[j]
    {
      if j < i { assert ns'[j] == ns[j]; } else { assert ns'[j] == ns[j + 1]; }
    }
  }

  /** Unlinking the empty spare node at position `i` restores the invariant
      with no exception. */
  lemma UnlinkKeepsInv<K, V>(fn: map<Handle, FreqNode<K>>, ns: seq<Handle>, mc: map<K, Item<V>>,
                             freq: map<K, int>, data: map<K, V>, head: Handle, free: Handle, i: nat)
    requires 1 <= i < |ns| && CacheInv(fn, ns, mc, freq, data, head, free, ns[i])
    requires fn[ns[i]].items == {}
    ensures CacheInv(Unlink(fn, ns[i]), Removed(ns, i), mc, freq, data, head, free, head)
  {
    DistinctFrom(fn, ns, i);
    RemoveMembers(ns, i);
    RingUnlink(fn, ns, head, i);
    NoEmptyUnlink(fn, ns, head, i);
    OwnedUnlink(fn, ns, mc, i);
    AbstractsFrame(fn, Unlink(fn, ns[i]), mc, freq, data);
  }

  // Moving a key to the next bucket.

  lemma NoEmptyMove<K>(fn: map<Handle, FreqNode<K>>, fn': map<Handle, FreqNode<K>>, ns: seq<Handle>,
                       head: Handle, spare: Handle, parent: Handle, next: Handle, key: K)
    requires InPool(fn, ns) && NoEmptyBuckets(fn, ns, spare) && UniqueAt(ns, 0) && ns[0] == head
    requires spare == head || spare == next
    requires fn'.Keys == fn.Keys && next in fn && key in fn'[next].items
    requires forall h {:trigger fn'[h]} | h in fn && h != parent && h != next :: fn'[h].items == fn[h].items
    ensures NoEmptyBuckets(fn', ns, parent)
  {
  }

  lemma OwnedMove<K, V>(fn: map<Handle, FreqNode<K>>, fn': map<Handle, FreqNode<K>>, ns: seq<Handle>,
                        mc: map<K, Item<V>>, parent: Handle, next: Handle, key: K)
    requires Owned(fn, ns, mc) && key in mc && mc[key].parent == parent && next in fn && next in ns && next != parent
    requires fn'.Keys == fn.Keys
    requires fn'[next].items == fn[next].items + {key} && fn'[parent].items == fn[parent].items - {key}
    requires forall h {:trigger fn'[h]} | h in fn && h != parent && h != next :: fn'[h].items == fn[h].items
    ensures Owned(fn', ns, mc[key := mc[key].(parent := next)])
  {
  }

  lemma AbstractsMove<K, V>(fn: map<Handle, FreqNode<K>>, fn': map<Handle, FreqNode<K>>, mc: map<K, Item<V>>,
                            freq: map<K, int>, data: map<K, V>, parent: Handle, next: Handle, key: K)
    requires Abstracts(fn, mc, freq, data) && key in mc && mc[key].parent == parent && next in fn
    requires fn[next].frequency == fn[parent].frequency + 1
    requires fn'.Keys == fn.Keys
    requires forall h {:trigger fn'[h]} | h in fn :: fn'[h].frequency == fn[h].frequency
    ensures Abstracts(fn', mc[key := mc[key].(parent := next)], freq[key := freq[key] + 1], data)
  {
  }

  /** Moving `key` from its bucket at position `i` to the next bucket, whose
      frequency is one higher, keeps the invariant once the key's use count
      goes up by one; the old bucket becomes the spare. */
  lemma MoveKeyKeepsInv<K, V>(fn: map<Handle, FreqNode<K>>, ns: seq<Handle>, mc: map<K, Item<V>>,
                              freq: map<K, int>, data: map<K, V>, head: Handle, free: Handle, spare: Handle,
                              i: nat, key: K)
    requires CacheInv(fn, ns, mc, freq, data, head, free, spare)
    requires i + 1 < |ns| && (spare == head || spare == ns[i + 1])
    requires key in mc && mc[key].parent == ns[i]
    requires fn[ns[i + 1]].frequency == fn[ns[i]].frequency + 1
    ensures var next, parent := ns[i + 1], ns[i];
            var fn1 := SetItems(fn, next, fn[next].items + {key});
            var fn2 := SetItems(fn1, parent, fn1[parent].items - {key});
            CacheInv(fn2, ns, mc[key := mc[key].(parent := next)], freq[key := freq[key] + 1], data, head, free, parent)
  {
    var next, parent := ns[i + 1], ns[i];
    var fn1 := SetItems(fn, next, fn[next].items + {key});
    var fn2 := SetItems(fn1, parent, fn1[parent].items - {key});
    DistinctFrom(fn, ns, 0);
    assert parent != head && next != head && next != parent;
    RingItemsFrame(fn, fn2, ns, head);
    NoEmptyMove(fn, fn2, ns, head, spare, parent, next, key);
    OwnedMove(fn, fn2, ns, mc, parent, next, key);
    AbstractsMove(fn, fn2, mc, freq, data, parent, next, key);
  }

  // Evicting a key of the first bucket.

  lemma OwnedRemove<K, V>(fn: map<Handle, FreqNode<K>>, fn': map<Handle, FreqNode<K>>, ns: seq<Handle>,
                          mc: map<K, Item<V>>, lfu: Handle, key: K)
    requires Owned(fn, ns, mc) && lfu in fn && key in fn[lfu].items && lfu in ns
    requires fn'.Keys == fn.Keys && fn'[lfu].items == fn[lfu].items - {key}
    requires forall h {:trigger fn'[h]} | h in fn && h != lfu :: fn'[h].items == fn[h].items
    ensures Owned(fn', ns, mc - {key})
  {
    var mc' := mc - {key};
    var i :| 0 <= i < |ns| && ns[i] == lfu;
    assert mc[key].parent == lfu;
    forall j, k | 0 <= j < |ns| && ns[j] in fn' && k in fn'[ns[j]].items
      ensures k in mc' && mc'[k].parent == ns[j]
    {
      assert k in fn[ns[j]].items;
    }
  }

  /** Removing a key from the first bucket keeps the invariant for what is
      left, with that bucket as the spare. */
  lemma EvictKeyKeepsInv<K, V>(fn: map<Handle, FreqNode<K>>, ns: seq<Handle>, mc: map<K, Item<V>>,
                               freq: map<K, int>, data: map<K, V>, head: Handle, free: Handle, key: K)
    requires CacheInv(fn, ns, mc, freq, data, head, free, head)
    requires |ns| >= 2 && key in fn[ns[1]].items
    ensures var lfu := ns[1];
            CacheInv(SetItems(fn, lfu, fn[lfu].items - {key}), ns, mc - {key}, freq - {key}, data - {key},
                     head, free, lfu)
  {
    var lfu := ns[1];
    var fn' := SetItems(fn, lfu, fn[lfu].items - {key});
    DistinctFrom(fn, ns, 0);
    assert lfu != head;
    RingItemsFrame(fn, fn', ns, head);
    OwnedRemove(fn, fn', ns, mc, lfu, key);
    assert NoEmptyBuckets(fn', ns, lfu);
    assert Abstracts(fn', mc - {key}, freq - {key}, data - {key});
  }

  // Inserting a key into the first bucket.

  lemma OwnedAdd<K, V>(fn: map<Handle, FreqNode<K>>, fn': map<Handle, FreqNode<K>>, ns: seq<Handle>,
                       mc: map<K, Item<V>>, first: Handle, key: K, d: V)
    requires Owned(fn, ns, mc) && first in fn && first in ns && key !in mc
    requires fn'.Keys == fn.Keys && fn'[first].items == fn[first].items + {key}
    requires forall h {:trigger fn'[h]} | h in fn && h != first :: fn'[h].items == fn[h].items
    ensures Owned(fn', ns, mc[key := Item(d, first)])
  {
  }

  /** Adding a new key to the first bucket, of frequency 1, keeps the
      invariant and fills that bucket if it was the spare. */
  lemma InsertKeyKeepsInv<K, V>(fn: map<Handle, FreqNode<K>>, ns: seq<Handle>, mc: map<K, Item<V>>,
                                freq: map<K, int>, data: map<K, V>, head: Handle, free: Handle, spare: Handle,
                                key: K, d: V)
    requires CacheInv(fn, ns, mc, freq, data, head, free, spare)
    requires |ns| >= 2 && (spare == head || spare == ns[1])
    requires fn[ns[1]].frequency == 1 && key !in mc
    ensures var first := ns[1];
            CacheInv(SetItems(fn, first, fn[first].items + {key}), ns, mc[key := Item(d, first)],
                     freq[key := 1], data[key := d], head, free, head)
  {
    var first := ns[1];
    var fn' := SetItems(fn, first, fn[first].items + {key});
    DistinctFrom(fn, ns, 0);
    assert first != head;
    RingItemsFrame(fn, fn', ns, head);
    OwnedAdd(fn, fn', ns, mc, first, key, d);
    NoEmptyAdd(fn, fn', ns, head, spare, first, key);
    AbstractsAdd(fn, fn', mc, freq, data, first, key, d);
  }

  lemma NoEmptyAdd<K>(fn: map<Handle, FreqNode<K>>, fn': map<Handle, FreqNode<K>>, ns: seq<Handle>,
                      head: Handle, spare: Handle, first: Handle, key: K)
    requires NoEmptyBuckets(fn, ns, spare) && (spare == head || spare == first)
    requires fn'.Keys == fn.Keys && first in fn && key in fn'[first].items
    requires forall h {:trigger fn'[h]} | h in fn && h != first :: fn'[h].items == fn[h].items
    ensures NoEmptyBuckets(fn', ns, head)
  {
  }

  lemma AbstractsAdd<K, V>(fn: map<Handle, FreqNode<K>>, fn': map<Handle, FreqNode<K>>, mc: map<K, Item<V>>,
                           freq: map<K, int>, data: map<K, V>, first: Handle, key: K, d: V)
    requires Abstracts(fn, mc, freq, data) && first in fn && fn[first].frequency == 1 && key !in mc
    requires fn'.Keys == fn.Keys
    requires forall h {:trigger fn'[h]} | h in fn :: fn'[h].frequency == fn[h].frequency
    ensures Abstracts(fn', mc[key := Item(d, first)], freq[key := 1], data[key := d])
  {
  }

  /** The buckets of the listed nodes, in list order. */
  ghost function Buckets<K>(fn: map<Handle, FreqNode<K>>, ns: seq<Handle>): (bs: seq<set<K>>)
    requires InPool(fn, ns)
    ensures |bs| == |ns| && forall j | 0 <= j < |ns| :: bs[j] == fn[ns[j]].items
  {
    seq(|ns|, j requires 0 <= j < |ns| => fn[ns[j]].items)
  }

  lemma BucketsDisjoint<K, V>(fn: map<Handle, FreqNode<K>>, ns: seq<Handle>, mc: map<K, Item<V>>)
    requires InPool(fn, ns) && Increasing(fn, ns) && Owned(fn, ns, mc)
    ensures PairwiseDisjoint(Buckets(fn, ns))
  {
    var bs := Buckets(fn, ns);
    forall a, b | 0 <= a < b < |bs| ensures bs[a] * bs[b] == {} {
      DistinctFrom(fn, ns, a);
      forall k | k in bs[a] ensures k !in bs[b] {
        assert mc[k].parent == ns[a];
      }
    }
  }

  lemma BucketsCover<K, V>(fn: map<Handle, FreqNode<K>>, ns: seq<Handle>, mc: map<K, Item<V>>)
    requires InPool(fn, ns) && Owned(fn, ns, mc)
    ensures UnionAll(Buckets(fn, ns)) == mc.Keys
  {
    var bs := Buckets(fn, ns);
    forall k: K | k in UnionAll(bs) ensures k in mc.Keys {
      InUnionAll(bs, k);
      var j :| 0 <= j < |bs| && k in bs[j];
      assert k in fn[ns[j]].items;
    }
    forall k: K | k in mc.Keys ensures k in UnionAll(bs) {
      InUnionAll(bs, k);
      var j :| 0 <= j < |ns| && ns[j] == mc[k].parent;
      assert k in bs[j];
    }
  }

  /** The number of resident keys is the sum of the bucket sizes: no key is
      in two buckets, and the buckets hold exactly the resident keys. */
  lemma SizeIsSumOfBuckets<K, V>(fn: map<Handle, FreqNode<K>>, ns: seq<Handle>, mc: map<K, Item<V>>,
                                 freq: map<K, int>, data: map<K, V>, head: Handle, free: Handle)
    requires CacheInv(fn, ns, mc, freq, data, head, free, head)
    ensures |mc| == SumSizes(Buckets(fn, ns))
  {
    BucketsDisjoint(fn, ns, mc);
    BucketsCover(fn, ns, mc);
    DisjointUnionSize(Buckets(fn, ns));
    assert |mc| == |mc.Keys|;
  }

  /** The pool holds exactly the listed nodes, so a node unlinked from the
      list is no longer in the pool. */
  lemma PoolIsList<K, V>(fn: map<Handle, FreqNode<K>>, ns: seq<Handle>, mc: map<K, Item<V>>,
                         freq: map<K, int>, data: map<K, V>, head: Handle, free: Handle, spare: Handle)
    requires CacheInv(fn, ns, mc, freq, data, head, free, spare)
    ensures fn.Keys == set h | h in ns
  {
  }
}

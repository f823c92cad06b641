/** The abstract LFU state is a map from each resident key to its use count.
    This module states which keys an eviction may remove: one after another,
    each a key of least count among those still resident. Ties are left open,
    as they are in the cache, where the choice comes from hash-set order. */
module Eviction {

  /** `k` is resident and no resident key has a smaller count. */
  ghost predicate IsLeast<K>(freq: map<K, int>, k: K) {
    k in freq && forall k' | k' in freq :: freq[k] <= freq[k']
  }

  function Elems<K>(ks: seq<K>): set<K> {
    set k | k in ks
  }

  /** Removing a resident key leaves one key fewer. */
  lemma RemoveOne<K, X>(m: map<K, X>, k: K)
    requires k in m
    ensures (m - {k}).Keys == m.Keys - {k} && |m - {k}| == |m| - 1
  {
    assert |(m - {k}).Keys| == |m.Keys - {k}| == |m.Keys| - 1;
  }

  /** Removing the keys of the empty sequence removes nothing. */
  lemma RemoveNothing<K, X>(m: map<K, X>)
    ensures m - Elems([]) == m
  {
    assert Elems<K>([]) == {};
  }

  /** Removing the keys of `ks` and then `k` removes the keys of `ks + [k]`. */
  lemma RemoveOneMore<K, X>(m: map<K, X>, ks: seq<K>, k: K)
    ensures (m - Elems(ks)) - {k} == m - Elems(ks + [k])
  {
    assert Elems(ks + [k]) == Elems(ks) + {k};
  }

  /** Removing the first key of `ks` and then the others removes the keys
      of `ks`. */
  lemma RemoveFirst<K, X>(m: map<K, X>, ks: seq<K>)
    requires ks != []
    ensures (m - {ks[0]}) - Elems(ks[1..]) == m - Elems(ks)
  {
    ElemsCons(ks);
  }

  lemma ElemsCons<K>(ks: seq<K>)
    requires ks != []
    ensures Elems(ks) == {ks[0]} + Elems(ks[1..])
  {
    assert forall k :: k in ks <==> k == ks[0] || k in ks[1..];
  }

  /** `ks` lists keys removed one at a time from `freq`, each of them least
      among the keys left when it is removed. */
  ghost predicate EvictionOrder<K>(freq: map<K, int>, ks: seq<K>)
    decreases |ks|
  {
    ks == [] || (IsLeast(freq, ks[0]) && EvictionOrder(freq - {ks[0]}, ks[1..]))
  }

  /** One more least key of what is left extends an eviction order. */
  lemma {:induction false} EvictionOrderSnoc<K>(freq: map<K, int>, ks: seq<K>, k: K)
    requires EvictionOrder(freq, ks)
    requires IsLeast(freq - Elems(ks), k)
    ensures EvictionOrder(freq, ks + [k])
    decreases |ks|
  {
    if ks == [] {
      assert freq - Elems(ks) == freq;
      assert [k][1..] == [];
    } else {
      var rest := freq - {ks[0]};
      RemoveFirst(freq, ks);
      EvictionOrderSnoc(rest, ks[1..], k);
      assert (ks + [k])[1..] == ks[1..] + [k];
    }
  }

  /** An eviction order removes distinct resident keys, so exactly |ks| of
      them. */
  lemma {:induction false} EvictionOrderRemoves<K>(freq: map<K, int>, ks: seq<K>)
    requires EvictionOrder(freq, ks)
    ensures Elems(ks) <= freq.Keys
    ensures |freq - Elems(ks)| == |freq| - |ks|
    decreases |ks|
  {
    if ks != [] {
      var rest := freq - {ks[0]};
      EvictionOrderRemoves(rest, ks[1..]);
      RemoveOne(freq, ks[0]);
      RemoveFirst(freq, ks);
      ElemsCons(ks);
    } else {
      RemoveNothing(freq);
    }
  }

  /** The LFU guarantee: no key that survives an eviction has a smaller count
      than a key the eviction removed. */
  lemma {:induction false} EvictedAreLeast<K>(freq: map<K, int>, ks: seq<K>, r: K, k: K)
    requires EvictionOrder(freq, ks)
    requires r in ks && k in freq - Elems(ks)
    ensures r in freq && freq[r] <= freq[k]
    decreases |ks|
  {
    if r != ks[0] {
      var rest := freq - {ks[0]};
      RemoveFirst(freq, ks);
      EvictedAreLeast(rest, ks[1..], r, k);
    }
  }

  /** Keys are evicted in order of non-decreasing count. */
  lemma {:induction false} EvictionOrderSorted<K>(freq: map<K, int>, ks: seq<K>, i: nat, j: nat)
    requires EvictionOrder(freq, ks)
    requires i < j < |ks|
    ensures ks[i] in freq && ks[j] in freq && freq[ks[i]] <= freq[ks[j]]
    decreases |ks|
  {
    var rest := freq - {ks[0]};
    EvictionOrderRemoves(rest, ks[1..]);
    assert ks[j] == ks[1..][j - 1];
    if i == 0 {
      assert ks[j] in rest;
    } else {
      EvictionOrderSorted(rest, ks[1..], i - 1, j - 1);
    }
  }
}

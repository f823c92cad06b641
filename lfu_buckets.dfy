/** Sizes of a list of key sets: when no key is in two of them, the size of
    their union is the sum of their sizes. The cache uses this to relate the
    size of its map to the sizes of its frequency buckets. */
module BucketSizes {

  function SumSizes<K>(ss: seq<set<K>>): nat {
    if ss == [] then 0 else |ss[0]| + SumSizes(ss[1..])
  }

  function UnionAll<K>(ss: seq<set<K>>): set<K> {
    if ss == [] then {} else ss[0] + UnionAll(ss[1..])
  }

  ghost predicate PairwiseDisjoint<K>(ss: seq<set<K>>) {
    forall i, j | 0 <= i < j < |ss| :: ss[i] * ss[j] == {}
  }

  lemma {:induction false} InUnionAll<K>(ss: seq<set<K>>, k: K)
    ensures k in UnionAll(ss) <==> exists i :: 0 <= i < |ss| && k in ss[i]
  {
    if ss != [] {
      InUnionAll(ss[1..], k);
      if k in UnionAll(ss[1..]) {
        var i :| 0 <= i < |ss[1..]| && k in ss[1..][i];
        assert k in ss[i + 1];
      }
      if exists i :: 0 <= i < |ss| && k in ss[i] {
        var i :| 0 <= i < |ss| && k in ss[i];
        if i > 0 { assert k in ss[1..][i - 1]; }
      }
    }
  }

  lemma {:induction false} DisjointUnionSize<K>(ss: seq<set<K>>)
    requires PairwiseDisjoint(ss)
    ensures |UnionAll(ss)| == SumSizes(ss)
  {
    if ss != [] {
      assert PairwiseDisjoint(ss[1..]) by {
        forall i, j | 0 <= i < j < |ss[1..]| ensures ss[1..][i] * ss[1..][j] == {} {
          assert ss[1..][i] == ss[i + 1] && ss[1..][j] == ss[j + 1];
        }
      }
      DisjointUnionSize(ss[1..]);
      forall k | k in ss[0] ensures k !in UnionAll(ss[1..]) {
        forall i | 0 <= i < |ss[1..]| ensures k !in ss[1..][i] {
          assert ss[1..][i] == ss[i + 1];
          assert ss[0] * ss[i + 1] == {};
          assert k !in ss[0] * ss[i + 1];
        }
        InUnionAll(ss[1..], k);
      }
      assert ss[0] * UnionAll(ss[1..]) == {};
    }
  }
}

/** The frequency list of the LFU cache as a circular doubly-linked list.
    Nodes live in a pool, a map from handles to node records; a link is a
    handle. A ghost sequence of handles lists the nodes in list order from
    the head. This module states when the links of the pool follow such a
    sequence around the circle, and what linking a node in and unlinking
    one do to the pool and to the sequence. */
module FreqRing {

  type Handle = nat

  /** A frequency node: the keys whose use count is `frequency`, with the
      handles of its neighbours. */
  datatype FreqNode<K> = FreqNode(frequency: int, prev: Handle, next: Handle, items: set<K>)

  /** Position after `i` in a circle of `n` positions. */
  function Succ(i: nat, n: nat): nat {
    if i + 1 < n then i + 1 else 0
  }

  /** Every handle of `ns` names a node of the pool. */
  ghost predicate InPool<K>(fn: map<Handle, FreqNode<K>>, ns: seq<Handle>) {
    forall j | 0 <= j < |ns| :: ns[j] in fn
  }

  /** The `next` and `prev` links follow `ns` around the circle: each node's
      `next` is the following handle and the last one's is the first, and
      the `prev` links go the other way. */
  ghost predicate Linked<K>(fn: map<Handle, FreqNode<K>>, ns: seq<Handle>)
    requires InPool(fn, ns)
  {
    (forall j {:trigger fn[ns[j]].next} | 0 <= j < |ns| - 1 :: fn[ns[j]].next == ns[j + 1]) &&
    (forall j {:trigger fn[ns[j]].prev} | 0 < j < |ns| :: fn[ns[j]].prev == ns[j - 1]) &&
    (|ns| > 0 ==> fn[ns[|ns| - 1]].next == ns[0] && fn[ns[0]].prev == ns[|ns| - 1])
  }

  /** Each node's frequency is below its successor's in `ns`. */
  ghost predicate Increasing<K>(fn: map<Handle, FreqNode<K>>, ns: seq<Handle>)
    decreases |ns|
  {
    |ns| <= 1 ||
    (ns[0] in fn && ns[1] in fn && fn[ns[0]].frequency < fn[ns[1]].frequency && Increasing(fn, ns[1..]))
  }

  /** No other position of `ns` holds the handle at position `i`. */
  ghost predicate UniqueAt(ns: seq<Handle>, i: nat) {
    i < |ns| && forall j | 0 <= j < |ns| && j != i :: ns[j] != ns[i]
  }

  /** `ns` with `node` inserted after position `i`. */
  function Spliced(ns: seq<Handle>, i: nat, node: Handle): (ms: seq<Handle>)
    requires i < |ns|
    ensures |ms| == |ns| + 1 && ms[i + 1] == node
    ensures forall j | 0 <= j <= i :: ms[j] == ns[j]
    ensures forall j | i + 1 < j < |ms| :: ms[j] == ns[j - 1]
  {
    ns[..i + 1] + [node] + ns[i + 1..]
  }

  /** `ns` without position `i`. */
  function Removed(ns: seq<Handle>, i: nat): (ms: seq<Handle>)
    requires i < |ns|
    ensures |ms| == |ns| - 1
    ensures forall j | 0 <= j < i :: ms[j] == ns[j]
    ensures forall j | i <= j < |ms| :: ms[j] == ns[j + 1]
  {
    ns[..i] + ns[i + 1..]
  }

  /** Adjacent increase gives increase between any two positions. */
  lemma {:induction false} IncreasingPairwise<K>(fn: map<Handle, FreqNode<K>>, ns: seq<Handle>, a: nat, b: nat)
    requires Increasing(fn, ns) && a < b < |ns|
    ensures ns[a] in fn && ns[b] in fn && fn[ns[a]].frequency < fn[ns[b]].frequency
    decreases |ns|
  {
    if a == 0 {
      if b > 1 {
        IncreasingPairwise(fn, ns[1..], 0, b - 1);
      }
    } else {
      IncreasingPairwise(fn, ns[1..], a - 1, b - 1);
    }
  }

  /** The neighbours of the node at position `i` of a linked circle. */
  lemma Neighbours<K>(fn: map<Handle, FreqNode<K>>, ns: seq<Handle>, i: nat)
    requires InPool(fn, ns) && Linked(fn, ns) && i < |ns|
    ensures fn[ns[i]].next == ns[Succ(i, |ns|)] && fn[ns[i]].next in fn
    ensures 0 < i ==> fn[ns[i]].prev == ns[i - 1]
    ensures fn[ns[i]].prev in fn
  {
  }

  /** Increasing frequencies rule out a handle occurring twice. */
  lemma DistinctFrom<K>(fn: map<Handle, FreqNode<K>>, ns: seq<Handle>, i: nat)
    requires Increasing(fn, ns) && i < |ns|
    ensures UniqueAt(ns, i)
  {
    forall j | 0 <= j < |ns| && j != i ensures ns[j] != ns[i] {
      if j < i { IncreasingPairwise(fn, ns, j, i); } else { IncreasingPairwise(fn, ns, i, j); }
    }
  }

  /** Only the frequencies of the listed nodes matter for `Increasing`. */
  lemma {:induction false} IncreasingFrame<K>(fn: map<Handle, FreqNode<K>>, fn': map<Handle, FreqNode<K>>, ns: seq<Handle>)
    requires Increasing(fn, ns) && InPool(fn, ns)
    requires forall j | 0 <= j < |ns| :: ns[j] in fn' && fn'[ns[j]].frequency == fn[ns[j]].frequency
    ensures Increasing(fn', ns)
    decreases |ns|
  {
    if |ns| > 1 {
      IncreasingFrame(fn, fn', ns[1..]);
    }
  }

  /** Splicing a node in after position `i` keeps the frequencies increasing
      when its frequency lies strictly between its neighbours'. */
  lemma {:induction false} SpliceIncreasing<K>(fn: map<Handle, FreqNode<K>>, ns: seq<Handle>, i: nat, node: Handle)
    requires Increasing(fn, ns) && i < |ns| && InPool(fn, ns) && node in fn
    requires fn[ns[i]].frequency < fn[node].frequency
    requires i + 1 < |ns| ==> fn[node].frequency < fn[ns[i + 1]].frequency
    ensures Increasing(fn, Spliced(ns, i, node))
    decreases i
  {
    var ms := Spliced(ns, i, node);
    if i == 0 {
      assert ms[1..] == [node] + ns[1..];
      assert ms[1..][1..] == ns[1..];
    } else {
      SpliceIncreasing(fn, ns[1..], i - 1, node);
      assert ms[1..] == Spliced(ns[1..], i - 1, node);
    }
  }

  /** Removing a position keeps the frequencies increasing. */
  lemma {:induction false} RemoveIncreasing<K>(fn: map<Handle, FreqNode<K>>, ns: seq<Handle>, i: nat)
    requires Increasing(fn, ns) && i < |ns|
    ensures Increasing(fn, Removed(ns, i))
    decreases i
  {
    var ms := Removed(ns, i);
    if i == 0 {
      assert ms == ns[1..];
    } else if i == 1 {
      assert ms == [ns[0]] + ns[2..];
      if 2 < |ns| {
        IncreasingPairwise(fn, ns, 0, 2);
        assert ns[2..] == ns[1..][1..];
      }
    } else {
      RemoveIncreasing(fn, ns[1..], i - 1);
      assert ms[1..] == Removed(ns[1..], i - 1);
    }
  }

  /** The handles after a splice are the old ones and the new one. */
  lemma SpliceMembers(ns: seq<Handle>, i: nat, node: Handle)
    requires i < |ns|
    ensures forall h :: h in Spliced(ns, i, node) <==> h in ns || h == node
  {
    var ms := Spliced(ns, i, node);
    forall h | h in ns ensures h in ms {
      var j :| 0 <= j < |ns| && ns[j] == h;
      if j <= i { assert ms[j] == h; } else { assert ms[j + 1] == h; }
    }
    forall h | h in ms ensures h in ns || h == node {
      var j :| 0 <= j < |ms| && ms[j] == h;
      if j <= i { assert ns[j] == h; } else if j > i + 1 { assert ns[j - 1] == h; }
    }
  }

  /** The handles after removing a position whose handle occurs only there
      are the others. */
  lemma RemoveMembers(ns: seq<Handle>, i: nat)
    requires UniqueAt(ns, i)
    ensures forall h :: h in Removed(ns, i) <==> h in ns && h != ns[i]
  {
    var ms := Removed(ns, i);
    forall h | h in ns && h != ns[i] ensures h in ms {
      var j :| 0 <= j < |ns| && ns[j] == h;
      if j < i { assert ms[j] == h; } else { assert ms[j - 1] == h; }
    }
    forall h | h in ms ensures h in ns && h != ns[i] {
      var j :| 0 <= j < |ms| && ms[j] == h;
      if j < i { assert ns[j] == h; } else { assert ns[j + 1] == h; }
    }
  }

  /** The pool after the key set of node `h` becomes `s`: its frequency and
      links, and every other node, stay as they were. */
  function SetItems<K>(fn: map<Handle, FreqNode<K>>, h: Handle, s: set<K>): (r: map<Handle, FreqNode<K>>)
    requires h in fn
    ensures r.Keys == fn.Keys && r[h].items == s
    ensures forall h' {:trigger r[h']} | h' in fn ::
              r[h'].frequency == fn[h'].frequency && r[h'].prev == fn[h'].prev && r[h'].next == fn[h'].next
    ensures forall h' {:trigger r[h']} | h' in fn && h' != h :: r[h'].items == fn[h'].items
  {
    fn[h := fn[h].(items := s)]
  }

  /** The pool after a fresh node `node` of frequency `f` is linked in
      between `p` and `q`: the node is added, empty, pointing at `p` and `q`,
      `p` now leads to it and `q` back to it, and nothing else changes. */
  function LinkIn<K>(fn: map<Handle, FreqNode<K>>, p: Handle, q: Handle, node: Handle, f: int): (r: map<Handle, FreqNode<K>>)
    requires p in fn && q in fn && node !in fn
    ensures r.Keys == fn.Keys + {node}
    ensures r[node] == FreqNode(f, p, q, {})
    ensures r[p].next == node && r[q].prev == node
    ensures forall h {:trigger r[h]} | h in fn :: r[h].frequency == fn[h].frequency && r[h].items == fn[h].items
    ensures forall h {:trigger r[h]} | h in fn && h != p :: r[h].next == fn[h].next
    ensures forall h {:trigger r[h]} | h in fn && h != q :: r[h].prev == fn[h].prev
  {
    var fn1 := fn[node := FreqNode(f, p, q, {})];
    var fn2 := fn1[p := fn1[p].(next := node)];
    fn2[q := fn2[q].(prev := node)]
  }

  /** The pool after `node` is unlinked from its neighbours and dropped:
      its neighbours now point at each other (when it has two distinct from
      itself) and no other link changes. */
  function Unlink<K>(fn: map<Handle, FreqNode<K>>, node: Handle): (r: map<Handle, FreqNode<K>>)
    requires node in fn && fn[node].prev in fn && fn[node].next in fn
    ensures r.Keys == fn.Keys - {node}
    ensures fn[node].prev != node && fn[node].next != node ==>
              r[fn[node].prev].next == fn[node].next && r[fn[node].next].prev == fn[node].prev
    ensures forall h {:trigger r[h]} | h in r :: r[h].frequency == fn[h].frequency && r[h].items == fn[h].items
    ensures forall h {:trigger r[h]} | h in r && h != fn[node].prev :: r[h].next == fn[h].next
    ensures forall h {:trigger r[h]} | h in r && h != fn[node].next :: r[h].prev == fn[h].prev
  {
    var n := fn[node];
    var fn1 := fn[n.prev := fn[n.prev].(next := n.next)];
    var fn2 := fn1[n.next := fn1[n.next].(prev := n.prev)];
    fn2 - {node}
  }

  /** Linking a fresh node in after position `i` of a linked circle: the
      `next` links follow the spliced sequence. */
  lemma SpliceNext<K>(fn: map<Handle, FreqNode<K>>, ns: seq<Handle>, i: nat, node: Handle, f: int)
    requires InPool(fn, ns) && Linked(fn, ns) && i < |ns| && node !in fn
    requires UniqueAt(ns, i)
    ensures var r := LinkIn(fn, ns[i], ns[Succ(i, |ns|)], node, f);
            var ms := Spliced(ns, i, node);
            forall j {:trigger r[ms[j]].next} | 0 <= j < |ms| - 1 :: ms[j] in r && r[ms[j]].next == ms[j + 1]
  {
    var r := LinkIn(fn, ns[i], ns[Succ(i, |ns|)], node, f);
    var ms := Spliced(ns, i, node);
    forall j {:trigger r[ms[j]].next} | 0 <= j < |ms| - 1 ensures ms[j] in r && r[ms[j]].next == ms[j + 1] {
      SpliceNextAt(fn, ns, i, node, f, j);
    }
  }

  lemma SpliceNextAt<K>(fn: map<Handle, FreqNode<K>>, ns: seq<Handle>, i: nat, node: Handle, f: int, j: nat)
    requires InPool(fn, ns) && Linked(fn, ns) && i < |ns| && node !in fn
    requires UniqueAt(ns, i) && j < |ns|
    ensures var r := LinkIn(fn, ns[i], ns[Succ(i, |ns|)], node, f);
            var ms := Spliced(ns, i, node);
            ms[j] in r && r[ms[j]].next == ms[j + 1]
  {
    hide Spliced, LinkIn;
    var ms := Spliced(ns, i, node);
    if j < i {
      assert ms[j] != ns[i];
    } else if i + 1 < j {
      assert ms[j] != ns[i];
    }
  }

  /** Linking a fresh node in after position `i` of a linked circle: the
      `prev` links follow the spliced sequence. */
  lemma SplicePrev<K>(fn: map<Handle, FreqNode<K>>, ns: seq<Handle>, i: nat, node: Handle, f: int)
    requires InPool(fn, ns) && Linked(fn, ns) && i < |ns| && node !in fn
    requires UniqueAt(ns, Succ(i, |ns|))
    ensures var r := LinkIn(fn, ns[i], ns[Succ(i, |ns|)], node, f);
            var ms := Spliced(ns, i, node);
            forall j {:trigger r[ms[j]].prev} | 0 < j < |ms| :: ms[j] in r && r[ms[j]].prev == ms[j - 1]
  {
    var r := LinkIn(fn, ns[i], ns[Succ(i, |ns|)], node, f);
    var ms := Spliced(ns, i, node);
    forall j {:trigger r[ms[j]].prev} | 0 < j < |ms| ensures ms[j] in r && r[ms[j]].prev == ms[j - 1] {
      SplicePrevAt(fn, ns, i, node, f, j);
    }
  }

  lemma SplicePrevAt<K>(fn: map<Handle, FreqNode<K>>, ns: seq<Handle>, i: nat, node: Handle, f: int, j: nat)
    requires InPool(fn, ns) && Linked(fn, ns) && i < |ns| && node !in fn
    requires UniqueAt(ns, Succ(i, |ns|)) && 0 < j <= |ns|
    ensures var r := LinkIn(fn, ns[i], ns[Succ(i, |ns|)], node, f);
            var ms := Spliced(ns, i, node);
            ms[j] in r && r[ms[j]].prev == ms[j - 1]
  {
    hide Spliced, LinkIn;
    var ms := Spliced(ns, i, node);
    if j <= i {
      assert ms[j] != ns[Succ(i, |ns|)];
    } else if i + 2 < j {
      assert ms[j] != ns[Succ(i, |ns|)];
    }
  }

  /** Linking a fresh node in after position `i` of a linked circle gives a
      linked circle with the node at position `i + 1`. */
  lemma SpliceLinked<K>(fn: map<Handle, FreqNode<K>>, ns: seq<Handle>, i: nat, node: Handle, f: int)
    requires InPool(fn, ns) && Linked(fn, ns) && i < |ns| && node !in fn
    requires UniqueAt(ns, i) && UniqueAt(ns, Succ(i, |ns|))
    ensures var r := LinkIn(fn, ns[i], ns[Succ(i, |ns|)], node, f);
            var ms := Spliced(ns, i, node);
            InPool(r, ms) && Linked(r, ms)
  {
    SpliceInPool(fn, ns, i, node, f);
    SpliceNext(fn, ns, i, node, f);
    SplicePrev(fn, ns, i, node, f);
    SpliceEnds(fn, ns, i, node, f);
  }

  /** Linking a fresh node in keeps every listed handle in the pool. */
  lemma SpliceInPool<K>(fn: map<Handle, FreqNode<K>>, ns: seq<Handle>, i: nat, node: Handle, f: int)
    requires InPool(fn, ns) && Linked(fn, ns) && i < |ns| && node !in fn
    ensures InPool(LinkIn(fn, ns[i], ns[Succ(i, |ns|)], node, f), Spliced(ns, i, node))
  {
    var r := LinkIn(fn, ns[i], ns[Succ(i, |ns|)], node, f);
    var ms := Spliced(ns, i, node);
    forall j | 0 <= j < |ms| ensures ms[j] in r {
      if j != i + 1 {
        assert ms[j] in ns;
      }
    }
  }

  /** Linking a fresh node in keeps the circle closed: the last listed node
      leads back to the first and the first back to the last. */
  lemma SpliceEnds<K>(fn: map<Handle, FreqNode<K>>, ns: seq<Handle>, i: nat, node: Handle, f: int)
    requires InPool(fn, ns) && Linked(fn, ns) && i < |ns| && node !in fn
    requires UniqueAt(ns, i) && UniqueAt(ns, Succ(i, |ns|))
    ensures var r := LinkIn(fn, ns[i], ns[Succ(i, |ns|)], node, f);
            var ms := Spliced(ns, i, node);
            ms[|ms| - 1] in r && ms[0] in r && r[ms[|ms| - 1]].next == ms[0] && r[ms[0]].prev == ms[|ms| - 1]
  {
    var p, q := ns[i], ns[Succ(i, |ns|)];
    var r := LinkIn(fn, p, q, node, f);
    var ms := Spliced(ns, i, node);
    var last := |ns| - 1;
    if i == last {
      assert q == ns[0] && ms[|ms| - 1] == node && ms[0] == q;
    } else {
      assert ms[|ms| - 1] == ns[last] && ms[0] == ns[0];
      assert ns[last] != p && ns[0] != q;
    }
  }

  /** Unlinking position `i` (not the first) of a linked circle gives a
      linked circle without it. */
  lemma RemoveLinked<K>(fn: map<Handle, FreqNode<K>>, ns: seq<Handle>, i: nat)
    requires InPool(fn, ns) && Linked(fn, ns) && 0 < i < |ns|
    requires UniqueAt(ns, i - 1) && UniqueAt(ns, i) && UniqueAt(ns, Succ(i, |ns|))
    ensures var r := Unlink(fn, ns[i]);
            var ms := Removed(ns, i);
            InPool(r, ms) && Linked(r, ms)
  {
    var r := Unlink(fn, ns[i]);
    var ms := Removed(ns, i);
    assert InPool(r, ms);
    assert forall j {:trigger r[ms[j]].next} | 0 <= j < |ms| - 1 :: r[ms[j]].next == ms[j + 1];
    assert forall j {:trigger r[ms[j]].prev} | 0 < j < |ms| :: r[ms[j]].prev == ms[j - 1];
  }
}

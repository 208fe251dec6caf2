/**
 The routing graph shared by every stage: an adjacency map from node ids to
 ordered neighbour lists, together with walks over it and their cost, which
 is what "shortest path" is measured against.
 */
module Graphs {
  import opened Wrappers

  /** Node ids are strings: the page converts every id with `toString()`. */
  type NodeId = string

  /** One adjacency entry `[neighbour, weight]`. */
  type Entry = (NodeId, real)

  /** The adjacency map; neighbour lists keep arrival order and may repeat a neighbour. */
  type Graph = map<NodeId, seq<Entry>>

  /** A JavaScript number held in a distance table: finite, or `Infinity`. */
  datatype Dist = Fin(r: real) | Inf

  /** JavaScript `a < b` for a finite `a` and a table value `b`. */
  predicate Below(a: real, b: Dist)
  {
    b.Inf? || a < b.r
  }

  /** `u` lists `(v, w)` among its neighbour entries. */
  predicate HasEntry(g: Graph, u: NodeId, v: NodeId, w: real)
  {
    u in g && (v, w) in g[u]
  }

  /** Every neighbour named in an entry is itself a key of the graph. */
  ghost predicate Closed(g: Graph)
  {
    forall u, e :: u in g && e in g[u] ==> e.0 in g
  }

  /** Every entry of `u` towards `v` is mirrored by an entry of `v` towards `u` with the same weight. */
  ghost predicate Symmetric(g: Graph)
  {
    forall u, e :: u in g && e in g[u] ==> HasEntry(g, e.0, u, e.1)
  }

  /** No entry carries a negative weight. */
  ghost predicate NonNegative(g: Graph)
  {
    forall u, e :: u in g && e in g[u] ==> e.1 >= 0.0
  }

  /** The least weight among the entries of `es` that lead to `v`; `None` when none does. */
  function MinWeight(es: seq<Entry>, v: NodeId): (m: Option<real>)
    ensures m.None? <==> forall i :: 0 <= i < |es| ==> es[i].0 != v
    ensures m.Some? ==> (v, m.value) in es
    ensures m.Some? ==> forall i :: 0 <= i < |es| && es[i].0 == v ==> m.value <= es[i].1
  {
    if |es| == 0 then None
    else
      var front := es[..|es| - 1];
      var e := es[|es| - 1];
      var m := MinWeight(front, v);
      assert forall i :: 0 <= i < |es| - 1 ==> es[i] == front[i];
      if e.0 != v then m
      else if m.None? || e.1 < m.value then Some(e.1)
      else m
  }

  /** The node a walk from `src` stands on before taking hop `i`. */
  function Before(src: NodeId, hops: seq<Entry>, i: nat): NodeId
    requires i <= |hops|
  {
    if i == 0 then src else hops[i - 1].0
  }

  /** The node a walk from `src` ends on. */
  function End(src: NodeId, hops: seq<Entry>): NodeId
  {
    Before(src, hops, |hops|)
  }

  /** `hops` is a walk from `src`: each hop is an adjacency entry of the node it leaves. */
  ghost predicate IsWalk(g: Graph, src: NodeId, hops: seq<Entry>)
  {
    forall i :: 0 <= i < |hops| ==> HasEntry(g, Before(src, hops, i), hops[i].0, hops[i].1)
  }

  /** The sum of the weights of a walk's hops. */
  function Cost(hops: seq<Entry>): real
  {
    if |hops| == 0 then 0.0 else Cost(hops[..|hops| - 1]) + hops[|hops| - 1].1
  }

  /** Some walk leads from `src` to `dst`. */
  ghost predicate Reachable(g: Graph, src: NodeId, dst: NodeId)
  {
    exists hops :: IsWalk(g, src, hops) && End(src, hops) == dst
  }

  /** No walk from `src` to `dst` costs less than `d`. */
  ghost predicate LowerBound(g: Graph, src: NodeId, dst: NodeId, d: real)
  {
    forall hops :: IsWalk(g, src, hops) && End(src, hops) == dst ==> d <= Cost(hops)
  }

  /** `d` is the cost of a cheapest walk from `src` to `dst`. */
  ghost predicate IsShortest(g: Graph, src: NodeId, dst: NodeId, d: real)
  {
    && LowerBound(g, src, dst, d)
    && exists hops :: IsWalk(g, src, hops) && End(src, hops) == dst && Cost(hops) == d
  }

  /** Any prefix of a walk is a walk, and ends where its last hop leads. */
  lemma WalkPrefix(g: Graph, src: NodeId, hops: seq<Entry>, k: nat)
    requires IsWalk(g, src, hops) && k <= |hops|
    ensures IsWalk(g, src, hops[..k])
    ensures End(src, hops[..k]) == Before(src, hops, k)
  {
    forall i | 0 <= i < k
      ensures HasEntry(g, Before(src, hops[..k], i), hops[..k][i].0, hops[..k][i].1)
    {
      assert Before(src, hops[..k], i) == Before(src, hops, i);
    }
  }

  /** A walk extended by an entry of the node it ends on is a walk, and costs that entry's weight more. */
  lemma WalkExtend(g: Graph, src: NodeId, hops: seq<Entry>, e: Entry)
    requires IsWalk(g, src, hops) && HasEntry(g, End(src, hops), e.0, e.1)
    ensures IsWalk(g, src, hops + [e])
    ensures End(src, hops + [e]) == e.0
    ensures Cost(hops + [e]) == Cost(hops) + e.1
  {
    var ext := hops + [e];
    assert ext[..|ext| - 1] == hops;
    forall i | 0 <= i < |ext|
      ensures HasEntry(g, Before(src, ext, i), ext[i].0, ext[i].1)
    {
      if i < |hops| {
        assert Before(src, ext, i) == Before(src, hops, i);
      }
    }
  }

  /** With no negative weight, a walk costs at least as much as any of its prefixes. */
  lemma {:induction false} CostMonotone(g: Graph, src: NodeId, hops: seq<Entry>, k: nat)
    requires NonNegative(g) && IsWalk(g, src, hops) && k <= |hops|
    ensures Cost(hops[..k]) <= Cost(hops)
    decreases |hops|
  {
    if k < |hops| {
      var n := |hops| - 1;
      var front := hops[..n];
      WalkPrefix(g, src, hops, n);
      var u := Before(src, hops, n);
      assert HasEntry(g, u, hops[n].0, hops[n].1);
      assert hops[n] in g[u];
      assert hops[n].1 >= 0.0;
      assert Cost(hops) == Cost(front) + hops[n].1;
      assert front[..k] == hops[..k];
      CostMonotone(g, src, front, k);
    } else {
      assert hops[..k] == hops;
    }
  }

  /** A symmetric graph is closed: every neighbour is a key. */
  lemma SymmetricIsClosed(g: Graph)
    requires Symmetric(g)
    ensures Closed(g)
  {
  }
}

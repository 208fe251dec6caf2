/**
 The tail of `dijkstra` (utils/dijkstraFromCSV.js): the predecessor walk that
 spells out the path, and the per-segment distances with their total. The
 segment loop is modelled twice: as written, where a segment takes the weight
 of the FIRST entry of `u` naming `v`, and corrected, where it takes the
 cheapest such entry — the one the search itself relaxed along.
 */
module Assembler {
  import opened Wrappers
  import opened Graphs
  import opened Solver

  /** One element of `segmentDistances`: `{ from, to, distance }`. */
  datatype Segment = Segment(from: NodeId, to: NodeId, distance: real)

  /** Which entry of `u` towards `v` a segment is measured by. */
  datatype Weighing = FirstMatch | Cheapest

  /** `s` backwards. */
  function Reverse<T>(s: seq<T>): (r: seq<T>)
    ensures |r| == |s|
    ensures forall i :: 0 <= i < |s| ==> r[i] == s[|s| - 1 - i]
  {
    if |s| == 0 then [] else Reverse(s[1..]) + [s[0]]
  }

  /** Consecutive path nodes are predecessor and successor in `prev`. */
  predicate Linked(prev: map<NodeId, NodeId>, path: seq<NodeId>)
  {
    forall i :: 0 < i < |path| ==> path[i] in prev && prev[path[i]] == path[i - 1]
  }

  /**
   The predecessor walk: starting from `end`, collect each node and step to its
   predecessor until a node has none, then reverse the collected nodes. The
   result is the chain of predecessors ending at `end`, rooted at a node
   without one. Ranks rise strictly along it, so it never repeats a node.
   */
  method ReconstructPath(prev: map<NodeId, NodeId>, end: NodeId, ghost rank: map<NodeId, nat>, ghost bound: nat)
    returns (path: seq<NodeId>)
    requires Ranked(prev, rank, bound)
    ensures |path| > 0 && path[|path| - 1] == end && path[0] !in prev
    ensures Linked(prev, path)
    ensures forall i, j :: 0 <= i < j < |path| ==> Height(rank, bound, path[i]) < Height(rank, bound, path[j])
  {
    var back: seq<NodeId> := [];
    var node: Option<NodeId> := Some(end);
    while node.Some?
      invariant |back| == 0 ==> node == Some(end)
      invariant |back| > 0 ==> back[0] == end
      invariant |back| > 0 && node.Some? ==> back[|back| - 1] in prev && node.value == prev[back[|back| - 1]]
      invariant node.None? ==> |back| > 0 && back[|back| - 1] !in prev
      invariant forall i :: 0 <= i < |back| - 1 ==> back[i] in prev && prev[back[i]] == back[i + 1]
      invariant forall i, j :: 0 <= i < j < |back| ==> Height(rank, bound, back[j]) < Height(rank, bound, back[i])
      decreases if node.Some? then Height(rank, bound, node.value) + 1 else 0
    {
      var x := node.value;
      if |back| > 0 {
        assert Height(rank, bound, x) < Height(rank, bound, back[|back| - 1]);
      }
      back := back + [x];
      node := if x in prev then Some(prev[x]) else None;
      if node.Some? {
        assert Height(rank, bound, node.value) < Height(rank, bound, x);
      }
    }
    path := Reverse(back);
  }

  /**
   The inner `for (const [neighbor, weight] of neighbors)` with its `break`:
   the weight of the first entry naming `v`, or 0 when none does.
   */
  function FirstWeight(es: seq<Entry>, v: NodeId): (w: real)
    ensures (forall i :: 0 <= i < |es| ==> es[i].0 != v) ==> w == 0.0
    ensures forall i :: 0 <= i < |es| && es[i].0 == v && (forall j :: 0 <= j < i ==> es[j].0 != v) ==> w == es[i].1
  {
    if |es| == 0 then 0.0
    else if es[0].0 == v then es[0].1
    else
      var w := FirstWeight(es[1..], v);
      assert forall i :: 1 <= i < |es| ==> es[i] == es[1..][i - 1];
      w
  }

  /** The distance of the segment `u -> v`: 0 when `graph[u]` is undefined, else by the weighing rule. */
  function SegmentWeight(g: Graph, u: NodeId, v: NodeId, rule: Weighing): real
  {
    if u !in g then 0.0
    else match rule
      case FirstMatch => FirstWeight(g[u], v)
      case Cheapest => (var m := MinWeight(g[u], v); if m.Some? then m.value else 0.0)
  }

  /** `segs` holds one segment per consecutive pair of `path`, weighed by `rule`. */
  predicate Measured(g: Graph, path: seq<NodeId>, rule: Weighing, segs: seq<Segment>)
  {
    && |segs| == (if |path| == 0 then 0 else |path| - 1)
    && forall i :: 0 <= i < |segs| ==> segs[i] == Segment(path[i], path[i + 1], SegmentWeight(g, path[i], path[i + 1], rule))
  }

  /** `totalDistance`: the running sum of the segment distances. */
  function Sum(segs: seq<Segment>): real
  {
    if |segs| == 0 then 0.0 else Sum(segs[..|segs| - 1]) + segs[|segs| - 1].distance
  }

  /** The segment loop: one segment per consecutive pair, pushed in order, and the running total. */
  method Measure(g: Graph, path: seq<NodeId>, rule: Weighing) returns (segs: seq<Segment>, total: real)
    ensures Measured(g, path, rule, segs)
    ensures total == Sum(segs)
  {
    segs, total := [], 0.0;
    var i := 0;
    while i < |path| - 1
      invariant 0 <= i && (|path| > 0 ==> i <= |path| - 1)
      invariant |path| == 0 ==> i == 0
      invariant |segs| == i
      invariant forall k :: 0 <= k < i ==> segs[k] == Segment(path[k], path[k + 1], SegmentWeight(g, path[k], path[k + 1], rule))
      invariant total == Sum(segs)
    {
      var d := SegmentWeight(g, path[i], path[i + 1], rule);
      assert (segs + [Segment(path[i], path[i + 1], d)])[..i] == segs;
      segs := segs + [Segment(path[i], path[i + 1], d)];
      total := total + d;
      i := i + 1;
    }
  }

  /** Measurements of a path restrict to its prefixes. */
  lemma MeasuredPrefix(g: Graph, path: seq<NodeId>, rule: Weighing, segs: seq<Segment>, n: nat)
    requires Measured(g, path, rule, segs) && 0 < n <= |path|
    ensures Measured(g, path[..n], rule, segs[..n - 1])
  {
  }

  /**
   Along a predecessor chain whose links account for the distances, the
   cheapest-entry segments telescope: their sum is the distance gained
   from the first node to the last.
   */
  lemma {:induction false} CheapestTelescopes(g: Graph, dist: map<NodeId, Dist>, prev: map<NodeId, NodeId>, path: seq<NodeId>, segs: seq<Segment>)
    requires forall v :: v in prev ==> ParentWeight(g, dist, v, prev[v])
    requires |path| > 0 && path[0] in dist && dist[path[0]].Fin?
    requires Linked(prev, path) && Measured(g, path, Cheapest, segs)
    ensures path[|path| - 1] in dist && dist[path[|path| - 1]].Fin?
    ensures Sum(segs) == dist[path[|path| - 1]].r - dist[path[0]].r
    decreases |path|
  {
    if |path| > 1 {
      var n := |path| - 1;
      MeasuredPrefix(g, path, Cheapest, segs, n);
      assert Linked(prev, path[..n]);
      CheapestTelescopes(g, dist, prev, path[..n], segs[..n - 1]);
      assert ParentWeight(g, dist, path[n], path[n - 1]);
      assert segs[n - 1].distance == MinWeight(g[path[n - 1]], path[n]).value;
    }
  }

  /** Every entry of `u` naming `v` carries the same weight: no conflicting parallel edge. */
  ghost predicate ParallelConsistent(g: Graph, u: NodeId, v: NodeId)
  {
    u in g && forall i, j :: 0 <= i < |g[u]| && 0 <= j < |g[u]| && g[u][i].0 == v && g[u][j].0 == v ==> g[u][i].1 == g[u][j].1
  }

  /** The first entry towards `v` weighs at least the cheapest one, and the same when the entries agree. */
  lemma FirstNotBelowCheapest(es: seq<Entry>, v: NodeId)
    requires MinWeight(es, v).Some?
    ensures FirstWeight(es, v) >= MinWeight(es, v).value
    ensures (forall i, j :: 0 <= i < |es| && 0 <= j < |es| && es[i].0 == v && es[j].0 == v ==> es[i].1 == es[j].1)
            ==> FirstWeight(es, v) == MinWeight(es, v).value
  {
    var i := FirstIndex(es, v);
    var k :| 0 <= k < |es| && es[k] == (v, MinWeight(es, v).value);
  }

  /** The index of the first entry naming `v`. */
  lemma FirstIndex(es: seq<Entry>, v: NodeId) returns (i: nat)
    requires exists k :: 0 <= k < |es| && es[k].0 == v
    ensures i < |es| && es[i].0 == v && forall j :: 0 <= j < i ==> es[j].0 != v
  {
    i := 0;
    while es[i].0 != v
      invariant i < |es| && forall j :: 0 <= j < i ==> es[j].0 != v
      decreases |es| - i
    {
      i := i + 1;
    }
  }

  /**
   On a path whose every step follows an entry, the as-written total is at
   least the cheapest-entry total, and equal to it when no step has
   conflicting parallel entries.
   */
  lemma {:induction false} FirstMatchVersusCheapest(g: Graph, path: seq<NodeId>, first: seq<Segment>, cheapest: seq<Segment>)
    requires Measured(g, path, FirstMatch, first) && Measured(g, path, Cheapest, cheapest)
    requires forall i :: 0 <= i < |path| - 1 ==> path[i] in g && MinWeight(g[path[i]], path[i + 1]).Some?
    ensures Sum(first) >= Sum(cheapest)
    ensures (forall i :: 0 <= i < |path| - 1 ==> ParallelConsistent(g, path[i], path[i + 1])) ==> Sum(first) == Sum(cheapest)
    decreases |path|
  {
    if |path| > 1 {
      var n := |path| - 1;
      MeasuredPrefix(g, path, FirstMatch, first, n);
      MeasuredPrefix(g, path, Cheapest, cheapest, n);
      FirstMatchVersusCheapest(g, path[..n], first[..n - 1], cheapest[..n - 1]);
      FirstNotBelowCheapest(g[path[n - 1]], path[n]);
      assert first[..n - 1] == first[..|first| - 1];
      assert cheapest[..n - 1] == cheapest[..|cheapest| - 1];
    }
  }

  /** The search and the predecessor walk shared by both segment rules. */
  method Search(g: Graph, start: NodeId, end: NodeId)
    returns (path: seq<NodeId>, ghost dist: map<NodeId, Dist>, ghost prev: map<NodeId, NodeId>)
    requires start in g
    ensures |path| > 0 && path[|path| - 1] == end
    ensures forall i, j :: 0 <= i < j < |path| ==> path[i] != path[j]
    ensures forall i :: 0 <= i < |path| - 1 ==> path[i] in g && MinWeight(g[path[i]], path[i + 1]).Some?
    ensures forall v :: v in prev ==> ParentWeight(g, dist, v, prev[v])
    ensures Linked(prev, path) && dist.Keys == g.Keys
    ensures path[0] == start ==> path[0] in dist && dist[start] == Fin(0.0) && end in dist && dist[end].Fin?
    ensures end in g ==> (path[0] == start <==> Reachable(g, start, end))
    ensures path[0] != start ==> path == [end]
    ensures path[0] == start && NonNegative(g) ==> IsShortest(g, start, end, dist[end].r)
  {
    var d: map<NodeId, Dist>, p: map<NodeId, NodeId>, found: bool;
    ghost var rank: map<NodeId, nat>, bound: nat;
    d, p, found, rank, bound := Solve(g, start, end);
    path := ReconstructPath(p, end, rank, bound);
    dist, prev := d, p;
    forall i | 0 <= i < |path| - 1
      ensures path[i] in g && MinWeight(g[path[i]], path[i + 1]).Some?
    {
      assert ParentWeight(g, dist, path[i + 1], path[i]);
    }
    forall i, j | 0 <= i < j < |path| ensures path[i] != path[j] {
      assert Height(rank, bound, path[i]) < Height(rank, bound, path[j]);
    }
    assert IsWalk(g, start, []) && End(start, []) == start;
    assert forall i :: 0 < i < |path| ==> path[i] in prev;
    if found {
      if |path| > 1 {
        assert ParentWeight(g, dist, path[1], path[0]);
      }
      assert path[0] == start;
    } else {
      assert path == [end];
    }
  }

  /**
   `dijkstra(graph, start, end)` as written: the path, its segments weighed by
   the first matching entry, and their total. An unreachable `end` yields the
   one-node path `[end]` with no segments and total 0.
   */
  method Dijkstra(g: Graph, start: NodeId, end: NodeId) returns (path: seq<NodeId>, segs: seq<Segment>, total: real)
    requires start in g
    ensures |path| > 0 && path[|path| - 1] == end
    ensures forall i, j :: 0 <= i < j < |path| ==> path[i] != path[j]
    ensures forall i :: 0 <= i < |path| - 1 ==> path[i] in g && MinWeight(g[path[i]], path[i + 1]).Some?
    ensures end in g ==> (path[0] == start <==> Reachable(g, start, end))
    ensures path[0] != start ==> path == [end] && segs == [] && total == 0.0
    ensures Measured(g, path, FirstMatch, segs) && total == Sum(segs)
    ensures path[0] == start && NonNegative(g) ==> IsShortest(g, start, end, Sum(CheapestSegments(g, path)))
    ensures path[0] == start && NonNegative(g) ==> exists d :: IsShortest(g, start, end, d) && d <= total
    ensures path[0] == start && NonNegative(g) && (forall i :: 0 <= i < |path| - 1 ==> ParallelConsistent(g, path[i], path[i + 1]))
      ==> IsShortest(g, start, end, total)
  {
    ghost var dist, prev;
    path, dist, prev := Search(g, start, end);
    segs, total := Measure(g, path, FirstMatch);
    if path[0] == start {
      ghost var cheapest := CheapestSegments(g, path);
      CheapestTelescopes(g, dist, prev, path, cheapest);
      FirstMatchVersusCheapest(g, path, segs, cheapest);
    }
  }

  /** The cheapest-entry segments of a path, as a value for proofs. */
  ghost function CheapestSegments(g: Graph, path: seq<NodeId>): (segs: seq<Segment>)
    ensures Measured(g, path, Cheapest, segs)
  {
    if |path| <= 1 then []
    else
      var front := CheapestSegments(g, path[..|path| - 1]);
      var n := |path| - 1;
      front + [Segment(path[n - 1], path[n], SegmentWeight(g, path[n - 1], path[n], Cheapest))]
  }

  /**
   `dijkstra` with each segment weighed by the cheapest entry of `u` towards
   `v`: the reported total is the distance the search found, hence (with
   non-negative weights) the length of a shortest walk.
   */
  method Route(g: Graph, start: NodeId, end: NodeId) returns (path: seq<NodeId>, segs: seq<Segment>, total: real)
    requires start in g
    ensures |path| > 0 && path[|path| - 1] == end
    ensures forall i, j :: 0 <= i < j < |path| ==> path[i] != path[j]
    ensures forall i :: 0 <= i < |path| - 1 ==> path[i] in g && MinWeight(g[path[i]], path[i + 1]).Some?
    ensures end in g ==> (path[0] == start <==> Reachable(g, start, end))
    ensures path[0] != start ==> path == [end] && segs == [] && total == 0.0
    ensures Measured(g, path, Cheapest, segs) && total == Sum(segs)
    ensures path[0] == start ==> exists hops :: IsWalk(g, start, hops) && End(start, hops) == end && Cost(hops) == total
    ensures path[0] == start && NonNegative(g) ==> IsShortest(g, start, end, total)
  {
    ghost var dist, prev;
    path, dist, prev := Search(g, start, end);
    segs, total := Measure(g, path, Cheapest);
    if path[0] == start {
      CheapestTelescopes(g, dist, prev, path, segs);
      ghost var hops := PathWalk(g, start, path, segs);
    }
  }

  /** A path whose steps follow entries, read with its cheapest-entry segments, is a walk costing their sum. */
  lemma {:induction false} PathWalk(g: Graph, start: NodeId, path: seq<NodeId>, segs: seq<Segment>) returns (hops: seq<Entry>)
    requires |path| > 0 && path[0] == start && Measured(g, path, Cheapest, segs)
    requires forall i :: 0 <= i < |path| - 1 ==> path[i] in g && MinWeight(g[path[i]], path[i + 1]).Some?
    ensures IsWalk(g, start, hops) && End(start, hops) == path[|path| - 1] && Cost(hops) == Sum(segs)
    decreases |path|
  {
    if |path| == 1 {
      hops := [];
    } else {
      var n := |path| - 1;
      MeasuredPrefix(g, path, Cheapest, segs, n);
      var front := PathWalk(g, start, path[..n], segs[..n - 1]);
      var w := MinWeight(g[path[n - 1]], path[n]).value;
      WalkExtend(g, start, front, (path[n], w));
      hops := front + [(path[n], w)];
      assert segs[..n - 1] == segs[..|segs| - 1];
    }
  }

  /**
   Two rows joining A and B, weight 100 first and 80 second: the search
   settles B at 80 along the cheaper entry, but the as-written segment loop
   reports the first entry's 100, which no shortest route costs.
   */
  method ParallelEdgeExample() returns (shown: real, cheapest: real)
    ensures shown == 100.0 && cheapest == 80.0
    ensures var g := map["A" := [("B", 100.0), ("B", 80.0)], "B" := [("A", 100.0), ("A", 80.0)]];
      exists hops :: IsWalk(g, "A", hops) && End("A", hops) == "B" && Cost(hops) == cheapest
  {
    var g := map["A" := [("B", 100.0), ("B", 80.0)], "B" := [("A", 100.0), ("A", 80.0)]];
    assert IsWalk(g, "A", [("B", 100.0)]) && End("A", [("B", 100.0)]) == "B";
    var path, segs, total := Dijkstra(g, "A", "B");
    TwoNodePath(g, path);
    shown := total;
    assert shown == FirstWeight(g["A"], "B");
    var path', segs', total' := Route(g, "A", "B");
    TwoNodePath(g, path');
    cheapest := total';
    assert [("B", 100.0), ("B", 80.0)][..1] == [("B", 100.0)];
    assert MinWeight([("B", 100.0)], "B") == Some(100.0);
    assert cheapest == MinWeight(g["A"], "B").value;
  }

  /** In the two-node example graph, a repetition-free path from A to B whose steps follow entries is `[A, B]`. */
  lemma TwoNodePath(g: Graph, path: seq<NodeId>)
    requires g == map["A" := [("B", 100.0), ("B", 80.0)], "B" := [("A", 100.0), ("A", 80.0)]]
    requires |path| > 0 && path[0] == "A" && path[|path| - 1] == "B"
    requires forall i, j :: 0 <= i < j < |path| ==> path[i] != path[j]
    requires forall i :: 0 <= i < |path| - 1 ==> path[i] in g
    ensures path == ["A", "B"]
  {
    assert g.Keys == {"A", "B"};
    forall i | 0 <= i < |path| ensures path[i] in {"A", "B"} {
      if i < |path| - 1 {
        assert path[i] in g.Keys;
      }
    }
    DistinctWithin(path, {"A", "B"});
    assert |{"A", "B"}| == 2;
  }

  /** A repetition-free sequence drawn from `pool` is no longer than `pool` is large. */
  lemma {:induction false} DistinctWithin(s: seq<NodeId>, pool: set<NodeId>)
    requires forall i, j :: 0 <= i < j < |s| ==> s[i] != s[j]
    requires forall i :: 0 <= i < |s| ==> s[i] in pool
    ensures |s| <= |pool|
    decreases |s|
  {
    if |s| > 0 {
      var last := s[|s| - 1];
      var front := s[..|s| - 1];
      forall i | 0 <= i < |front| ensures front[i] in pool - {last} {
        assert front[i] == s[i];
      }
      DistinctWithin(front, pool - {last});
    }
  }
}

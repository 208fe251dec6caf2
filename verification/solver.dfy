/**
 The solver loop of `dijkstra` (utils/dijkstraFromCSV.js): an unsorted-queue
 Dijkstra with a visited set that stops as soon as the target is extracted.
 The state is the four locals `dist`, `prev`, `visited` and `queue`.
 */
module Solver {
  import opened Wrappers
  import opened Graphs
  import opened QueueOrder

  /** The solver's locals: tentative distances, predecessors, the visited set and the queue. */
  datatype State = State(dist: map<NodeId, Dist>, prev: map<NodeId, NodeId>, visited: set<NodeId>, queue: seq<NodeId>)

  /** `a` is no farther than `b`, with `Inf` above every finite distance. */
  predicate DistLe(a: Dist, b: Dist)
  {
    b.Inf? || (a.Fin? && a.r <= b.r)
  }

  /** `a` is strictly closer than `b`. */
  predicate DistLt(a: Dist, b: Dist)
  {
    a.Fin? && Below(a.r, b)
  }

  /**
   The state before the first iteration: every graph key at `Infinity` except
   `start` at 0, no predecessors, nothing visited, and `start` alone queued.
   */
  function Init(g: Graph, start: NodeId): (s: State)
    ensures s.dist.Keys == g.Keys + {start}
    ensures forall k :: k in s.dist && k != start ==> s.dist[k] == Inf
    ensures s.dist[start] == Fin(0.0)
    ensures s.prev == map[] && s.visited == {} && s.queue == [start]
  {
    State((map k | k in g :: Inf)[start := Fin(0.0)], map[], {}, [start])
  }

  /**
   One pass of `for (const [v, w] of graph[u])`: a visited `v` is skipped; else
   `v` is improved, re-parented to `u` and queued when `dist[u] + w` is below
   `dist[v]` (an id without a `dist` entry compares as `undefined` and never is).
   */
  function RelaxEntry(s: State, u: NodeId, du: real, e: Entry): (r: State)
    ensures r.visited == s.visited && r.dist.Keys == s.dist.Keys
    ensures forall x :: x in s.dist ==> DistLe(r.dist[x], s.dist[x])
    ensures e.0 !in s.visited && e.0 in s.dist ==> DistLe(r.dist[e.0], Fin(du + e.1))
  {
    if e.0 in s.visited then s
    else if e.0 in s.dist && Below(du + e.1, s.dist[e.0]) then Lowered(s, u, du, e)
    else s
  }

  /**
   The whole inner loop over `es`, in order; `du` is `dist[u]`, which the loop
   never changes. Distances only fall, and afterwards no entry of `es` towards
   an unvisited node can improve its neighbour.
   */
  function RelaxAll(s: State, u: NodeId, du: real, es: seq<Entry>): (r: State)
    ensures r.visited == s.visited && r.dist.Keys == s.dist.Keys
    ensures forall x :: x in s.dist ==> DistLe(r.dist[x], s.dist[x])
    ensures forall e :: e in es && e.0 !in s.visited && e.0 in s.dist ==> DistLe(r.dist[e.0], Fin(du + e.1))
  {
    if |es| == 0 then s
    else
      var front := es[..|es| - 1];
      var r0 := RelaxAll(s, u, du, front);
      var r := RelaxEntry(r0, u, du, es[|es| - 1]);
      assert forall e :: e in es ==> e in front || e == es[|es| - 1];
      r
  }

  /**
   The predecessor map cannot cycle: every predecessor is ranked below `bound`
   and, when the node it is recorded for is itself ranked, below that node.
   */
  ghost predicate Ranked(prev: map<NodeId, NodeId>, rank: map<NodeId, nat>, bound: nat)
  {
    && (forall k :: k in rank ==> rank[k] < bound)
    && (forall v :: v in prev ==> prev[v] in rank && (v in rank ==> rank[prev[v]] < rank[v]))
  }

  /** The termination measure of a walk along `prev`. */
  function Height(rank: map<NodeId, nat>, bound: nat, x: NodeId): nat
  {
    if x in rank then rank[x] else bound
  }

  /** `dist[v]` is `dist[p]` plus the cheapest entry of `p` towards `v`. */
  ghost predicate ParentWeight(g: Graph, dist: map<NodeId, Dist>, v: NodeId, p: NodeId)
  {
    && p in g && v in dist && p in dist && dist[p].Fin?
    && MinWeight(g[p], v).Some?
    && dist[v] == Fin(dist[p].r + MinWeight(g[p], v).value)
  }

  /** Invariant part: shape of the locals. */
  ghost predicate Shape(g: Graph, start: NodeId, s: State)
  {
    && start in g
    && s.dist.Keys == g.Keys
    && s.dist[start] == Fin(0.0)
    && start !in s.prev
    && s.visited <= g.Keys
    && (s.visited == {} ==> s.queue == [start])
    && (s.visited != {} ==> start in s.visited)
    && (forall x :: x in s.visited ==> x in s.dist && s.dist[x].Fin?)
    && (forall i :: 0 <= i < |s.queue| ==> s.queue[i] in s.dist && s.dist[s.queue[i]].Fin?)
  }

  /** Invariant part: every unvisited node with a finite distance waits in the queue. */
  ghost predicate PendingQueued(g: Graph, s: State)
  {
    forall v :: v in s.dist && v !in s.visited && s.dist[v].Fin? ==> v in s.queue
  }

  /** Invariant part: predecessors are visited and account for the distance through the cheapest entry. */
  ghost predicate PrevSound(g: Graph, s: State)
  {
    forall v :: v in s.prev ==> v in s.dist && s.dist[v].Fin? && s.prev[v] in s.visited && ParentWeight(g, s.dist, v, s.prev[v])
  }

  /** Invariant part: every reached node other than `start` has a predecessor. */
  ghost predicate ReachedHavePrev(start: NodeId, s: State)
  {
    forall v :: v in s.dist && v != start && s.dist[v].Fin? ==> v in s.prev
  }

  /** No entry of `x` can improve its neighbour any further. */
  ghost predicate RelaxedAt(g: Graph, s: State, x: NodeId)
  {
    x in g && x in s.dist && s.dist[x].Fin? &&
    forall e :: e in g[x] ==> e.0 in s.visited || e.0 !in s.dist || DistLe(s.dist[e.0], Fin(s.dist[x].r + e.1))
  }

  /** Invariant part: the distance of a visited node is final — no walk beats it (needs non-negative weights). */
  ghost predicate Optimal(g: Graph, start: NodeId, s: State)
  {
    NonNegative(g) ==> forall x :: x in s.visited ==> x in s.dist && s.dist[x].Fin? && LowerBound(g, start, x, s.dist[x].r)
  }

  /** The loop invariant of the solver. */
  ghost predicate Inv(g: Graph, start: NodeId, s: State, rank: map<NodeId, nat>)
  {
    && Shape(g, start, s)
    && PendingQueued(g, s)
    && PrevSound(g, s)
    && ReachedHavePrev(start, s)
    && (forall x :: x in s.visited ==> RelaxedAt(g, s, x))
    && rank.Keys == s.visited
    && Ranked(s.prev, rank, |s.visited|)
    && Optimal(g, start, s)
  }

  /** The initial state satisfies the invariant. */
  lemma InitInv(g: Graph, start: NodeId)
    requires start in g
    ensures Inv(g, start, Init(g, start), map[])
  {
    var s := Init(g, start);
    assert s.dist.Keys == g.Keys;
  }

  // ---------------------------------------------------------------------------
  // The relaxation loop.

  /** Nodes outside `s0.prev`'s range that the relaxation improved: re-parented to `u`, lowered, queued. */
  ghost predicate Frame(s0: State, s: State, u: NodeId)
  {
    && s.dist.Keys == s0.dist.Keys
    && s.visited == s0.visited
    && s0.queue <= s.queue
    && (forall k :: k in s.prev ==> k in s.dist)
    && forall k :: k in s0.dist ==>
         || (s.dist[k] == s0.dist[k] && (k in s.prev <==> k in s0.prev) && (k in s.prev ==> s.prev[k] == s0.prev[k]))
         || (k in s.prev && s.prev[k] == u && k !in s.visited && DistLt(s.dist[k], s0.dist[k]) && k in s.queue)
  }

  /** The invariant of the relaxation loop after the entries `done` of `u` have been processed. */
  ghost predicate RelaxInv(g: Graph, s0: State, s: State, u: NodeId, du: real, done: seq<Entry>)
  {
    && Frame(s0, s, u)
    && u in s.visited && u in s.dist && s.dist[u] == Fin(du)
    && QueuedReached(s)
    && ChildrenOf(s, u, du, done)
    && Processed(s, du, done)
  }

  /** Every queued node has a finite distance. */
  ghost predicate QueuedReached(s: State)
  {
    forall i :: 0 <= i < |s.queue| ==> s.queue[i] in s.dist && s.dist[s.queue[i]].Fin?
  }

  /** Every node re-parented to `u` is unvisited and sits at `du` plus its cheapest entry among `done`. */
  ghost predicate ChildrenOf(s: State, u: NodeId, du: real, done: seq<Entry>)
  {
    forall v :: v in s.prev && s.prev[v] == u ==>
      v !in s.visited && v in s.dist && MinWeight(done, v).Some? && s.dist[v] == Fin(du + MinWeight(done, v).value)
  }

  /** No entry of `done` can improve its neighbour through `du` any further. */
  ghost predicate Processed(s: State, du: real, done: seq<Entry>)
  {
    forall e :: e in done ==> e.0 in s.visited || e.0 !in s.dist || DistLe(s.dist[e.0], Fin(du + e.1))
  }

  /** `s` with `e.0` lowered to `du + e.1`, re-parented to `u` and queued. */
  function Lowered(s: State, u: NodeId, du: real, e: Entry): State
  {
    s.(dist := s.dist[e.0 := Fin(du + e.1)], prev := s.prev[e.0 := u], queue := s.queue + [e.0])
  }

  /** Before the first entry: nothing is processed yet and no node has `u` as predecessor. */
  lemma RelaxInvStart(g: Graph, s0: State, u: NodeId, du: real)
    requires u in s0.visited && u in s0.dist && s0.dist[u] == Fin(du)
    requires forall v :: v in s0.prev ==> v in s0.dist && s0.prev[v] != u
    requires forall i :: 0 <= i < |s0.queue| ==> s0.queue[i] in s0.dist && s0.dist[s0.queue[i]].Fin?
    ensures RelaxInv(g, s0, s0, u, du, [])
  {
  }

  /** The cheapest entry towards `x` after appending `e`: `e` wins only when strictly cheaper. */
  lemma MinWeightSnoc(done: seq<Entry>, e: Entry, x: NodeId)
    ensures MinWeight(done + [e], x) ==
      if e.0 != x then MinWeight(done, x)
      else if MinWeight(done, x).None? || e.1 < MinWeight(done, x).value then Some(e.1)
      else MinWeight(done, x)
  {
    assert (done + [e])[..|done|] == done;
  }

  /** One entry keeps the relaxation invariant. */
  lemma RelaxInvStep(g: Graph, s0: State, s: State, u: NodeId, du: real, done: seq<Entry>, e: Entry)
    requires RelaxInv(g, s0, s, u, du, done)
    ensures RelaxInv(g, s0, RelaxEntry(s, u, du, e), u, du, done + [e])
  {
    if e.0 in s.visited || e.0 !in s.dist || !Below(du + e.1, s.dist[e.0]) {
      RelaxInvSkip(g, s0, s, u, du, done, e);
    } else {
      RelaxInvLower(g, s0, s, u, du, done, e);
    }
  }

  /** An entry that improves nothing keeps the relaxation invariant. */
  lemma RelaxInvSkip(g: Graph, s0: State, s: State, u: NodeId, du: real, done: seq<Entry>, e: Entry)
    requires RelaxInv(g, s0, s, u, du, done)
    requires e.0 in s.visited || e.0 !in s.dist || !Below(du + e.1, s.dist[e.0])
    ensures RelaxInv(g, s0, s, u, du, done + [e])
  {
    var done' := done + [e];
    forall v | v in s.prev && s.prev[v] == u
      ensures MinWeight(done', v) == MinWeight(done, v)
    {
      MinWeightSnoc(done, e, v);
    }
    forall f | f in done' ensures f.0 in s.visited || f.0 !in s.dist || DistLe(s.dist[f.0], Fin(du + f.1)) {
      if f != e {
        assert f in done;
      }
    }
  }

  /** An entry that lowers its neighbour keeps the relaxation invariant. */
  lemma RelaxInvLower(g: Graph, s0: State, s: State, u: NodeId, du: real, done: seq<Entry>, e: Entry)
    requires RelaxInv(g, s0, s, u, du, done)
    requires e.0 !in s.visited && e.0 in s.dist && Below(du + e.1, s.dist[e.0])
    ensures RelaxInv(g, s0, RelaxEntry(s, u, du, e), u, du, done + [e])
  {
    FrameStep(s0, s, u, du, e);
    LowerKeepsParents(s, u, du, done, e);
    LowerKeepsProcessed(s, u, du, done, e);
    LowerKeepsQueue(s, u, du, e);
  }

  /** After lowering `e.0`, every queued node still has a finite distance. */
  lemma LowerKeepsQueue(s: State, u: NodeId, du: real, e: Entry)
    requires QueuedReached(s) && e.0 in s.dist
    ensures QueuedReached(Lowered(s, u, du, e))
  {
    var s' := Lowered(s, u, du, e);
    forall i | 0 <= i < |s'.queue| ensures s'.queue[i] in s'.dist && s'.dist[s'.queue[i]].Fin? {
      if i < |s.queue| { assert s'.queue[i] == s.queue[i]; }
    }
  }

  /** After lowering `e.0`, every node parented to `u` holds `du` plus its cheapest processed entry. */
  lemma LowerKeepsParents(s: State, u: NodeId, du: real, done: seq<Entry>, e: Entry)
    requires ChildrenOf(s, u, du, done) && Processed(s, du, done)
    requires e.0 !in s.visited && e.0 in s.dist && Below(du + e.1, s.dist[e.0])
    ensures ChildrenOf(Lowered(s, u, du, e), u, du, done + [e])
  {
    var v := e.0;
    MinWeightSnoc(done, e, v);
    if MinWeight(done, v).Some? {
      assert (v, MinWeight(done, v).value) in done;
    }
    forall x | x != v
      ensures MinWeight(done + [e], x) == MinWeight(done, x)
    {
      MinWeightSnoc(done, e, x);
    }
  }

  /** After lowering `e.0`, every processed entry, `e` included, is relaxed. */
  lemma LowerKeepsProcessed(s: State, u: NodeId, du: real, done: seq<Entry>, e: Entry)
    requires Processed(s, du, done)
    requires e.0 !in s.visited && e.0 in s.dist && Below(du + e.1, s.dist[e.0])
    ensures Processed(Lowered(s, u, du, e), du, done + [e])
  {
    forall f | f in done + [e] && f != e
      ensures f in done
    {
    }
  }

  /** Lowering an unvisited node and re-parenting it to `u` keeps the frame. */
  lemma FrameStep(s0: State, s: State, u: NodeId, du: real, e: Entry)
    requires Frame(s0, s, u) && e.0 in s.dist && e.0 !in s.visited && Below(du + e.1, s.dist[e.0])
    ensures Frame(s0, Lowered(s, u, du, e), u)
  {
    var v := e.0;
    var s' := Lowered(s, u, du, e);
    assert s0.queue <= s'.queue;
    forall k | k in s0.dist
      ensures || (s'.dist[k] == s0.dist[k] && (k in s'.prev <==> k in s0.prev) && (k in s'.prev ==> s'.prev[k] == s0.prev[k]))
              || (k in s'.prev && s'.prev[k] == u && k !in s'.visited && DistLt(s'.dist[k], s0.dist[k]) && k in s'.queue)
    {
      if k == v {
        assert DistLe(s.dist[v], s0.dist[v]);
      } else {
        assert s'.dist[k] == s.dist[k];
        if k in s.queue { assert k in s'.queue; }
      }
    }
  }

  /** The whole inner loop keeps the relaxation invariant. */
  lemma {:induction false} RelaxAllInv(g: Graph, s0: State, u: NodeId, du: real, es: seq<Entry>)
    requires RelaxInv(g, s0, s0, u, du, [])
    ensures RelaxInv(g, s0, RelaxAll(s0, u, du, es), u, du, es)
    decreases |es|
  {
    if |es| > 0 {
      var front := es[..|es| - 1];
      RelaxAllInv(g, s0, u, du, front);
      RelaxInvStep(g, s0, RelaxAll(s0, u, du, front), u, du, front, es[|es| - 1]);
      assert front + [es[|es| - 1]] == es;
    }
  }

  /** Re-relaxing an already relaxed node changes nothing. */
  lemma {:induction false} RelaxAllNoOp(g: Graph, s: State, u: NodeId, du: real, es: seq<Entry>)
    requires forall e :: e in es ==> e.0 in s.visited || e.0 !in s.dist || DistLe(s.dist[e.0], Fin(du + e.1))
    ensures RelaxAll(s, u, du, es) == s
    decreases |es|
  {
    if |es| > 0 {
      var front := es[..|es| - 1];
      assert forall e :: e in front ==> e in es;
      RelaxAllNoOp(g, s, u, du, front);
      assert es[|es| - 1] in es;
    }
  }

  // ---------------------------------------------------------------------------
  // Greedy optimality.

  /**
   On any walk from `start` to an unvisited graph node there is a queued
   unvisited node whose distance (given non-negative weights) is at most the
   walk's cost.
   */
  lemma {:induction false} FirstUnvisited(g: Graph, start: NodeId, s: State, rank: map<NodeId, nat>, hops: seq<Entry>) returns (y: NodeId)
    requires Inv(g, start, s, rank)
    requires IsWalk(g, start, hops) && End(start, hops) in g && End(start, hops) !in s.visited
    ensures y in s.dist && y !in s.visited && s.dist[y].Fin? && y in s.queue
    ensures NonNegative(g) ==> s.dist[y].r <= Cost(hops)
    decreases |hops|
  {
    if |hops| == 0 {
      y := start;
      assert s.queue == [start];
    } else {
      var n := |hops| - 1;
      var pre := hops[..n];
      WalkPrefix(g, start, hops, n);
      var x := End(start, pre);
      assert HasEntry(g, x, hops[n].0, hops[n].1);
      if x !in s.visited {
        y := FirstUnvisited(g, start, s, rank, pre);
        if NonNegative(g) {
          CostMonotone(g, start, hops, n);
        }
      } else {
        y := hops[n].0;
        assert RelaxedAt(g, s, x);
        assert hops[n] in g[x];
        assert DistLe(s.dist[y], Fin(s.dist[x].r + hops[n].1));
        if NonNegative(g) {
          assert LowerBound(g, start, x, s.dist[x].r);
          assert s.dist[x].r <= Cost(pre);
          assert Cost(hops) == Cost(pre) + hops[n].1;
        }
      }
    }
  }

  /** The node extracted with the least queued distance has a final distance. */
  lemma ExtractedIsOptimal(g: Graph, start: NodeId, s: State, rank: map<NodeId, nat>, u: NodeId)
    requires Inv(g, start, s, rank) && NonNegative(g)
    requires u in s.queue && forall q :: q in s.queue ==> Key(s.dist, u) <= Key(s.dist, q)
    ensures u in s.dist && s.dist[u].Fin? && LowerBound(g, start, u, s.dist[u].r)
  {
    forall hops | IsWalk(g, start, hops) && End(start, hops) == u
      ensures s.dist[u].r <= Cost(hops)
    {
      if u !in s.visited {
        var y := FirstUnvisited(g, start, s, rank, hops);
        assert Key(s.dist, u) <= Key(s.dist, y);
      }
    }
  }

  /** While a walk leads from `start` to an unvisited graph node, the queue is not empty. */
  lemma PendingWhileReachable(g: Graph, start: NodeId, s: State, rank: map<NodeId, nat>, x: NodeId)
    requires Inv(g, start, s, rank) && x in g && x !in s.visited
    ensures Reachable(g, start, x) ==> |s.queue| > 0
  {
    if Reachable(g, start, x) {
      var hops :| IsWalk(g, start, hops) && End(start, hops) == x;
      var y := FirstUnvisited(g, start, s, rank, hops);
    }
  }

  /** Following predecessors from any reached node spells out a walk from `start` costing exactly its distance. */
  lemma {:induction false} ParentChainWalk(g: Graph, start: NodeId, s: State, rank: map<NodeId, nat>, x: NodeId) returns (hops: seq<Entry>)
    requires Inv(g, start, s, rank)
    requires x in s.dist && s.dist[x].Fin?
    ensures IsWalk(g, start, hops) && End(start, hops) == x && Cost(hops) == s.dist[x].r
    decreases Height(rank, |s.visited|, x)
  {
    if x == start {
      hops := [];
    } else {
      var p := s.prev[x];
      assert ParentWeight(g, s.dist, x, p);
      var w := MinWeight(g[p], x).value;
      var hp := ParentChainWalk(g, start, s, rank, p);
      WalkExtend(g, start, hp, (x, w));
      hops := hp + [(x, w)];
    }
  }

  // ---------------------------------------------------------------------------
  // One iteration of the outer loop.

  /** The state once `u` has been shifted off the sorted queue and marked visited. */
  function Extracted(s: State, sorted: seq<NodeId>): State
    requires |sorted| > 0
  {
    s.(queue := sorted[1..], visited := s.visited + {sorted[0]})
  }

  /** The rank map after visiting `u`: a first visit ranks it above everything visited before. */
  function NextRank(rank: map<NodeId, nat>, visited: set<NodeId>, u: NodeId): map<NodeId, nat>
  {
    if u in visited then rank else rank[u := |visited|]
  }

  /**
   An iteration that does not hit the target keeps the invariant, lets
   distances only fall and `visited` only grow, and shrinks the measure
   (unvisited keys, then queue length).
   */
  lemma IterationKeepsInv(g: Graph, start: NodeId, s: State, rank: map<NodeId, nat>)
    requires Inv(g, start, s, rank) && |s.queue| > 0
    ensures var sorted := SortByDist(s.queue, s.dist);
            var u := sorted[0];
            u in g && u in s.dist && s.dist[u].Fin? &&
            var s' := RelaxAll(Extracted(s, sorted), u, s.dist[u].r, g[u]);
            && Inv(g, start, s', NextRank(rank, s.visited, u))
            && s.visited <= s'.visited
            && (forall k :: k in s.dist ==> k in s'.dist && DistLe(s'.dist[k], s.dist[k]))
            && (|g.Keys - s'.visited| < |g.Keys - s.visited|
                || (|g.Keys - s'.visited| == |g.Keys - s.visited| && |s'.queue| < |s.queue|))
  {
    var sorted := SortByDist(s.queue, s.dist);
    var u := sorted[0];
    ExtractFacts(g, start, s, rank, sorted);
    if u in s.visited {
      RevisitKeepsInv(g, start, s, rank, sorted);
    } else {
      FirstVisitStep(g, start, s, rank, sorted);
    }
  }

  /** The head of the sorted queue is a queued node of least distance; the tail holds every other pending node. */
  lemma ExtractFacts(g: Graph, start: NodeId, s: State, rank: map<NodeId, nat>, sorted: seq<NodeId>)
    requires Inv(g, start, s, rank) && |s.queue| > 0 && sorted == SortByDist(s.queue, s.dist)
    ensures |sorted| == |s.queue| && sorted[0] in s.queue
    ensures forall q :: q in s.queue ==> Key(s.dist, sorted[0]) <= Key(s.dist, q)
    ensures sorted[0] in g && sorted[0] in s.dist && s.dist[sorted[0]].Fin?
    ensures forall v :: v in s.dist && v != sorted[0] && v !in s.visited && s.dist[v].Fin? ==> v in sorted[1..]
    ensures QueuedReached(Extracted(s, sorted))
  {
    SortHeadIsMinimal(s.queue, s.dist);
    assert Shape(g, start, s) && PendingQueued(g, s);
    TailKeepsRest(s.queue, sorted);
    ExtractKeepsReached(s, sorted);
  }

  /** The tail of a permutation holds every element of the original other than its head. */
  lemma TailKeepsRest(q: seq<NodeId>, sorted: seq<NodeId>)
    requires |sorted| > 0 && multiset(sorted) == multiset(q)
    ensures |sorted| == |q|
    ensures forall v :: v in q && v != sorted[0] ==> v in sorted[1..]
    ensures forall v :: v in sorted[1..] ==> v in q
  {
    assert |multiset(sorted)| == |multiset(q)|;
    assert sorted == [sorted[0]] + sorted[1..];
    assert multiset(sorted) == multiset{sorted[0]} + multiset(sorted[1..]);
    forall v | v in q && v != sorted[0] ensures v in sorted[1..] {
      assert v in multiset(q);
    }
    forall v | v in sorted[1..] ensures v in q {
      assert v in multiset(sorted[1..]);
      assert v in multiset(sorted);
      assert v in multiset(q);
    }
  }

  /** Every node left in the queue after the extraction has a finite distance. */
  lemma ExtractKeepsReached(s: State, sorted: seq<NodeId>)
    requires QueuedReached(s) && |sorted| > 0 && forall v :: v in sorted[1..] ==> v in s.queue
    ensures QueuedReached(Extracted(s, sorted))
  {
    var s1 := Extracted(s, sorted);
    forall i | 0 <= i < |s1.queue|
      ensures s1.queue[i] in s1.dist && s1.dist[s1.queue[i]].Fin?
    {
      assert s1.queue[i] in sorted[1..];
      var j :| 0 <= j < |s.queue| && s.queue[j] == s1.queue[i];
    }
  }

  /** Extracting an already visited node only shortens the queue. */
  lemma RevisitKeepsInv(g: Graph, start: NodeId, s: State, rank: map<NodeId, nat>, sorted: seq<NodeId>)
    requires Inv(g, start, s, rank) && |sorted| > 0 && |sorted| == |s.queue| && sorted[0] in s.visited
    requires forall v :: v in s.dist && v != sorted[0] && v !in s.visited && s.dist[v].Fin? ==> v in sorted[1..]
    requires QueuedReached(Extracted(s, sorted))
    ensures var s1 := Extracted(s, sorted);
      && RelaxAll(s1, sorted[0], s.dist[sorted[0]].r, g[sorted[0]]) == s1
      && s1 == s.(queue := sorted[1..])
      && Inv(g, start, s1, rank)
  {
    var u := sorted[0];
    var s1 := Extracted(s, sorted);
    assert s1 == s.(queue := sorted[1..]);
    assert RelaxedAt(g, s, u);
    RelaxAllNoOp(g, s1, u, s.dist[u].r, g[u]);
    assert Shape(g, start, s1) by {
      assert Shape(g, start, s);
    }
    assert PendingQueued(g, s1);
    assert forall x :: x in s1.visited ==> RelaxedAt(g, s1, x) by {
      forall x | x in s1.visited ensures RelaxedAt(g, s1, x) {
        assert RelaxedAt(g, s, x);
      }
    }
  }

  /** Extracting an unvisited node visits it for the first time and keeps the invariant. */
  lemma FirstVisitStep(g: Graph, start: NodeId, s: State, rank: map<NodeId, nat>, sorted: seq<NodeId>)
    requires Inv(g, start, s, rank) && |sorted| > 0 && sorted[0] in s.queue && sorted[0] !in s.visited
    requires forall q :: q in s.queue ==> Key(s.dist, sorted[0]) <= Key(s.dist, q)
    requires sorted[0] in g && sorted[0] in s.dist && s.dist[sorted[0]].Fin?
    requires forall v :: v in s.dist && v != sorted[0] && v !in s.visited && s.dist[v].Fin? ==> v in sorted[1..]
    requires QueuedReached(Extracted(s, sorted))
    ensures var u := sorted[0];
      var s2 := RelaxAll(Extracted(s, sorted), u, s.dist[u].r, g[u]);
      && Inv(g, start, s2, rank[u := |s.visited|])
      && s2.visited == s.visited + {u}
      && (forall k :: k in s.dist ==> k in s2.dist && DistLe(s2.dist[k], s.dist[k]))
  {
    var u := sorted[0];
    var s1 := Extracted(s, sorted);
    var du := s.dist[u].r;
    if NonNegative(g) {
      ExtractedIsOptimal(g, start, s, rank, u);
    }
    assert forall v :: v in s1.prev ==> v in s1.dist && s1.prev[v] != u by {
      assert PrevSound(g, s);
    }
    RelaxInvStart(g, s1, u, du);
    RelaxAllInv(g, s1, u, du, g[u]);
    var s2 := RelaxAll(s1, u, du, g[u]);
    assert FirstVisit(g, start, s, rank, sorted, s2);
    FirstVisitKeepsInv(g, start, s, rank, sorted, s2);
    FirstVisitDist(g, start, s, rank, sorted, s2);
  }

  /** What a first visit of `sorted[0]` leaves behind: the relaxed state `s2` of the extracted state. */
  ghost predicate FirstVisit(g: Graph, start: NodeId, s: State, rank: map<NodeId, nat>, sorted: seq<NodeId>, s2: State)
  {
    && Inv(g, start, s, rank) && |sorted| > 0
    && var u := sorted[0];
    && u in s.queue && u !in s.visited && u in s.dist && s.dist[u].Fin?
    && (NonNegative(g) ==> LowerBound(g, start, u, s.dist[u].r))
    && (forall v :: v in s.dist && v != u && v !in s.visited && s.dist[v].Fin? ==> v in sorted[1..])
    && RelaxInv(g, Extracted(s, sorted), s2, u, s.dist[u].r, g[u])
  }

  /** The relaxation changes no visited node's distance and lowers the others at most. */
  lemma FrameDist(s0: State, s: State, u: NodeId)
    requires Frame(s0, s, u)
    ensures s.visited == s0.visited && s.dist.Keys == s0.dist.Keys
    ensures forall x :: x in s0.visited && x in s0.dist ==> s.dist[x] == s0.dist[x]
    ensures forall k :: k in s0.dist ==> DistLe(s.dist[k], s0.dist[k])
  {
  }

  /** A first visit changes no visited node's distance, and lowers the others at most. */
  lemma FirstVisitDist(g: Graph, start: NodeId, s: State, rank: map<NodeId, nat>, sorted: seq<NodeId>, s2: State)
    requires FirstVisit(g, start, s, rank, sorted, s2)
    ensures s2.visited == s.visited + {sorted[0]} && s2.dist.Keys == s.dist.Keys
    ensures forall x :: x in s2.visited ==> s2.dist[x] == s.dist[x]
    ensures forall k :: k in s.dist ==> DistLe(s2.dist[k], s.dist[k])
  {
    var s1 := Extracted(s, sorted);
    assert RelaxInv(g, s1, s2, sorted[0], s.dist[sorted[0]].r, g[sorted[0]]);
    FrameDist(s1, s2, sorted[0]);
    assert s1.dist == s.dist;
    assert Shape(g, start, s);
  }

  /** A first visit keeps the shape of the locals. */
  lemma FirstVisitShape(g: Graph, start: NodeId, s: State, rank: map<NodeId, nat>, sorted: seq<NodeId>, s2: State)
    requires FirstVisit(g, start, s, rank, sorted, s2)
    ensures Shape(g, start, s2)
  {
    FirstVisitDist(g, start, s, rank, sorted, s2);
    var s1 := Extracted(s, sorted);
    assert Shape(g, start, s);
    assert start in s2.visited by {
      if s.visited == {} {
        assert s.queue == [start];
      }
    }
    assert RelaxInv(g, s1, s2, sorted[0], s.dist[sorted[0]].r, g[sorted[0]]);
    assert QueuedReached(s2);
    forall x | x in s2.visited ensures x in s2.dist && s2.dist[x].Fin? {
    }
    assert start !in s2.prev by {
      assert Frame(s1, s2, sorted[0]);
      assert start in s1.dist;
    }
  }

  /** A first visit keeps every reached unvisited node queued. */
  lemma FirstVisitPending(g: Graph, start: NodeId, s: State, rank: map<NodeId, nat>, sorted: seq<NodeId>, s2: State)
    requires FirstVisit(g, start, s, rank, sorted, s2)
    ensures PendingQueued(g, s2)
  {
    FirstVisitDist(g, start, s, rank, sorted, s2);
    var s1 := Extracted(s, sorted);
    assert Frame(s1, s2, sorted[0]);
    forall v | v in s2.dist && v !in s2.visited && s2.dist[v].Fin? ensures v in s2.queue {
      assert v in s1.dist;
      if s2.dist[v] == s1.dist[v] {
        assert v in s1.queue;
        assert s1.queue <= s2.queue;
      }
    }
  }

  /** A first visit keeps every predecessor visited and accounting for its child's distance. */
  lemma FirstVisitPrev(g: Graph, start: NodeId, s: State, rank: map<NodeId, nat>, sorted: seq<NodeId>, s2: State)
    requires FirstVisit(g, start, s, rank, sorted, s2)
    ensures PrevSound(g, s2) && ReachedHavePrev(start, s2)
  {
    FirstVisitDist(g, start, s, rank, sorted, s2);
    var u := sorted[0];
    var s1 := Extracted(s, sorted);
    var du := s.dist[u].r;
    assert Frame(s1, s2, u) && ChildrenOf(s2, u, du, g[u]);
    assert PrevSound(g, s) && ReachedHavePrev(start, s);
    forall v | v in s2.prev
      ensures v in s2.dist && s2.dist[v].Fin? && s2.prev[v] in s2.visited && ParentWeight(g, s2.dist, v, s2.prev[v])
    {
      assert v in s1.dist;
      if s2.prev[v] != u {
        var p := s.prev[v];
        assert ParentWeight(g, s.dist, v, p);
      }
    }
    forall v | v in s2.dist && v != start && s2.dist[v].Fin? ensures v in s2.prev {
      assert v in s1.dist;
    }
  }

  /** A first visit leaves every visited node, `u` included, relaxed. */
  lemma FirstVisitRelaxed(g: Graph, start: NodeId, s: State, rank: map<NodeId, nat>, sorted: seq<NodeId>, s2: State)
    requires FirstVisit(g, start, s, rank, sorted, s2)
    ensures forall x :: x in s2.visited ==> RelaxedAt(g, s2, x)
  {
    FirstVisitDist(g, start, s, rank, sorted, s2);
    var u := sorted[0];
    assert Processed(s2, s.dist[u].r, g[u]);
    assert u in g by { assert Shape(g, start, s); }
    assert forall x :: x in s.visited ==> RelaxedAt(g, s, x);
    RelaxedAfter(g, s, s2, u);
  }

  /**
   Distances that only fall, with visited ones fixed, keep earlier nodes
   relaxed; `u` is relaxed by its own pass.
   */
  lemma RelaxedAfter(g: Graph, s: State, s2: State, u: NodeId)
    requires s2.visited == s.visited + {u} && s2.dist.Keys == s.dist.Keys
    requires forall x :: x in s2.visited && x in s.dist ==> s2.dist[x] == s.dist[x]
    requires forall k :: k in s.dist ==> DistLe(s2.dist[k], s.dist[k])
    requires forall x :: x in s.visited ==> RelaxedAt(g, s, x)
    requires u in g && u in s.dist && s.dist[u].Fin? && Processed(s2, s.dist[u].r, g[u])
    ensures forall x :: x in s2.visited ==> RelaxedAt(g, s2, x)
  {
    forall x | x in s2.visited ensures RelaxedAt(g, s2, x) {
      if x != u {
        assert RelaxedAt(g, s, x);
        forall e | e in g[x] ensures e.0 in s2.visited || e.0 !in s2.dist || DistLe(s2.dist[e.0], Fin(s2.dist[x].r + e.1)) {
          if e.0 in s2.dist && e.0 !in s2.visited {
            assert DistLe(s2.dist[e.0], s.dist[e.0]);
          }
        }
      }
    }
  }

  /** A first visit ranks `u` above every earlier visit, so the predecessor map still cannot cycle. */
  lemma FirstVisitRanked(g: Graph, start: NodeId, s: State, rank: map<NodeId, nat>, sorted: seq<NodeId>, s2: State)
    requires FirstVisit(g, start, s, rank, sorted, s2)
    ensures var rank' := rank[sorted[0] := |s.visited|];
      rank'.Keys == s2.visited && Ranked(s2.prev, rank', |s2.visited|)
  {
    FirstVisitDist(g, start, s, rank, sorted, s2);
    var u := sorted[0];
    var s1 := Extracted(s, sorted);
    assert RelaxInv(g, s1, s2, u, s.dist[u].r, g[u]);
    FramePrev(s1, s2, u);
    assert Ranked(s.prev, rank, |s.visited|) && rank.Keys == s.visited;
    RankedAfter(s.prev, s2.prev, rank, s.visited, u);
  }

  /** Every predecessor after the relaxation is either the old one or `u`. */
  lemma FramePrev(s0: State, s: State, u: NodeId)
    requires Frame(s0, s, u)
    ensures forall v :: v in s.prev ==> s.prev[v] == u || (v in s0.prev && s.prev[v] == s0.prev[v])
    ensures forall v :: v in s.prev && s.prev[v] == u && v !in s0.prev ==> v !in s0.visited
  {
    forall v | v in s.prev ensures s.prev[v] == u || (v in s0.prev && s.prev[v] == s0.prev[v]) {
      assert v in s0.dist;
    }
  }

  /** Ranking a new node `u` above the visited ones keeps a predecessor map whose new links point to `u` acyclic. */
  lemma RankedAfter(prev: map<NodeId, NodeId>, prev2: map<NodeId, NodeId>, rank: map<NodeId, nat>, visited: set<NodeId>, u: NodeId)
    requires Ranked(prev, rank, |visited|) && rank.Keys == visited && u !in visited
    requires forall v :: v in prev2 ==> prev2[v] == u || (v in prev && prev2[v] == prev[v])
    requires forall v :: v in prev2 && prev2[v] == u ==> v !in visited + {u}
    ensures var rank' := rank[u := |visited|];
      rank'.Keys == visited + {u} && Ranked(prev2, rank', |visited + {u}|)
  {
    var rank' := rank[u := |visited|];
    assert |visited + {u}| == |visited| + 1;
    forall v | v in prev2 ensures prev2[v] in rank' && (v in rank' ==> rank'[prev2[v]] < rank'[v]) {
      if prev2[v] != u {
        assert v != u ==> v in rank' ==> v in rank;
      }
    }
  }

  /** A first visit keeps every visited distance final. */
  lemma FirstVisitOptimal(g: Graph, start: NodeId, s: State, rank: map<NodeId, nat>, sorted: seq<NodeId>, s2: State)
    requires FirstVisit(g, start, s, rank, sorted, s2)
    ensures Optimal(g, start, s2)
  {
    FirstVisitDist(g, start, s, rank, sorted, s2);
    var u := sorted[0];
    assert Optimal(g, start, s);
    assert NonNegative(g) ==> LowerBound(g, start, u, s.dist[u].r);
    OptimalAfter(g, start, s, s2, u);
  }

  /** Adding `u` with a final distance to the visited set, other visited distances fixed, keeps them all final. */
  lemma OptimalAfter(g: Graph, start: NodeId, s: State, s2: State, u: NodeId)
    requires s2.visited == s.visited + {u} && s2.dist.Keys == s.dist.Keys
    requires forall x :: x in s2.visited && x in s.dist ==> s2.dist[x] == s.dist[x]
    requires Optimal(g, start, s) && u in s.dist && s.dist[u].Fin?
    requires NonNegative(g) ==> LowerBound(g, start, u, s.dist[u].r)
    ensures Optimal(g, start, s2)
  {
    if NonNegative(g) {
      forall x | x in s2.visited ensures x in s2.dist && s2.dist[x].Fin? && LowerBound(g, start, x, s2.dist[x].r) {
        if x != u {
          assert x in s.visited;
        }
      }
    }
  }

  /** The bookkeeping of a first visit: the relaxed state satisfies every part of the invariant. */
  lemma FirstVisitKeepsInv(g: Graph, start: NodeId, s: State, rank: map<NodeId, nat>, sorted: seq<NodeId>, s2: State)
    requires FirstVisit(g, start, s, rank, sorted, s2)
    ensures Inv(g, start, s2, rank[sorted[0] := |s.visited|])
    ensures forall k :: k in s.dist ==> k in s2.dist && DistLe(s2.dist[k], s.dist[k])
  {
    FirstVisitDist(g, start, s, rank, sorted, s2);
    FirstVisitShape(g, start, s, rank, sorted, s2);
    FirstVisitPending(g, start, s, rank, sorted, s2);
    FirstVisitPrev(g, start, s, rank, sorted, s2);
    FirstVisitRelaxed(g, start, s, rank, sorted, s2);
    FirstVisitRanked(g, start, s, rank, sorted, s2);
    FirstVisitOptimal(g, start, s, rank, sorted, s2);
  }

  // ---------------------------------------------------------------------------
  // The outer loop.

  /**
   The search loop of `dijkstra(graph, start, end)`: returns the final `dist`
   and `prev` tables and whether `end` was extracted (the loop's `break`).
   The caller guarantees `start` is a graph key; `graph[start]` is iterated
   otherwise and would throw. The ghost `rank` witnesses that `prev` has no
   cycle, so the predecessor walk of the caller ends.
   */
  method Solve(g: Graph, start: NodeId, end: NodeId)
    returns (dist: map<NodeId, Dist>, prev: map<NodeId, NodeId>, found: bool, ghost rank: map<NodeId, nat>, ghost bound: nat)
    requires start in g
    ensures dist.Keys == g.Keys && dist[start] == Fin(0.0) && start !in prev
    ensures Ranked(prev, rank, bound)
    ensures forall v :: v in prev ==> ParentWeight(g, dist, v, prev[v])
    ensures forall v :: v in dist && v != start && dist[v].Fin? ==> v in prev
    ensures found ==> end in g && dist[end].Fin?
    ensures found ==> exists hops :: IsWalk(g, start, hops) && End(start, hops) == end && Cost(hops) == dist[end].r
    ensures found && NonNegative(g) ==> IsShortest(g, start, end, dist[end].r)
    ensures end in g ==> (found <==> Reachable(g, start, end))
    ensures !found ==> end !in prev
  {
    var s := Init(g, start);
    rank := map[];
    InitInv(g, start);
    found := false;
    while |s.queue| > 0
      invariant Inv(g, start, s, rank)
      invariant end !in s.visited
      decreases |g.Keys - s.visited|, |s.queue|
    {
      var sorted := SortByDist(s.queue, s.dist);
      var u := sorted[0];
      ExtractFacts(g, start, s, rank, sorted);
      if u == end {
        found := true;
        if NonNegative(g) {
          ExtractedIsOptimal(g, start, s, rank, u);
        }
        ghost var hops := ParentChainWalk(g, start, s, rank, u);
        break;
      }
      IterationKeepsInv(g, start, s, rank);
      rank := NextRank(rank, s.visited, u);
      s := RelaxAll(Extracted(s, sorted), u, s.dist[u].r, g[u]);
    }
    if !found {
      assert forall v :: v in s.prev && v !in s.visited ==> v in s.queue by {
        assert PrevSound(g, s) && PendingQueued(g, s);
      }
      if end in g {
        PendingWhileReachable(g, start, s, rank, end);
      }
    }
    dist, prev, bound := s.dist, s.prev, |s.visited|;
  }
}

/**
 The solver's candidate queue is re-ordered on every iteration by
 `queue.sort((a, b) => dist[a] - dist[b])`. `Array.prototype.sort` is stable,
 so the order is that of a stable sort on the current distances; the head it
 yields is the first queued node with the least distance.
 */
module QueueOrder {
  import opened Graphs

  /**
   The sort key of a queued node. Queued nodes always hold a finite distance;
   the fallback 0 stands for the comparator's NaN, which no reachable state produces.
   */
  function Key<T>(dist: map<T, Dist>, x: T): real
  {
    if x in dist && dist[x].Fin? then dist[x].r else 0.0
  }

  /** Keys never decrease along `s`. */
  predicate Sorted<T>(s: seq<T>, dist: map<T, Dist>)
  {
    forall i, j :: 0 <= i < j < |s| ==> Key(dist, s[i]) <= Key(dist, s[j])
  }

  /** Places `x` after every element of `s` whose key does not exceed its own. */
  function Insert<T>(x: T, s: seq<T>, dist: map<T, Dist>): (r: seq<T>)
    requires Sorted(s, dist)
    ensures multiset(r) == multiset(s) + multiset{x}
    ensures Sorted(r, dist)
    ensures r[0] == if |s| == 0 || Key(dist, s[0]) > Key(dist, x) then x else s[0]
  {
    if |s| == 0 then [x]
    else if Key(dist, s[0]) <= Key(dist, x) then
      SortedTail(s, dist);
      var rest := Insert(x, s[1..], dist);
      InsertSortedCons(s[0], x, s[1..], rest, dist);
      assert multiset([s[0]] + rest) == multiset(s) + multiset{x} by {
        assert s == [s[0]] + s[1..];
      }
      [s[0]] + rest
    else
      SortedCons(x, s, dist);
      [x] + s
  }

  /** The tail of a sorted sequence is sorted, and its head is no greater than anything after it. */
  lemma SortedTail<T>(s: seq<T>, dist: map<T, Dist>)
    requires |s| > 0 && Sorted(s, dist)
    ensures Sorted(s[1..], dist) && Sorted([s[0]] + s[1..], dist)
  {
    forall i, j | 0 <= i < j < |s[1..]| ensures Key(dist, s[1..][i]) <= Key(dist, s[1..][j]) {
      assert s[1..][i] == s[i + 1] && s[1..][j] == s[j + 1];
    }
    assert [s[0]] + s[1..] == s;
  }

  /** Putting an element no greater than the head in front of a sorted sequence keeps it sorted. */
  lemma SortedCons<T>(x: T, s: seq<T>, dist: map<T, Dist>)
    requires |s| > 0 && Sorted(s, dist) && Key(dist, x) < Key(dist, s[0])
    ensures Sorted([x] + s, dist)
  {
    forall i, j | 0 <= i < j < |s| + 1 ensures Key(dist, ([x] + s)[i]) <= Key(dist, ([x] + s)[j]) {
      if i > 0 { assert ([x] + s)[i] == s[i - 1]; }
      assert ([x] + s)[j] == s[j - 1];
    }
  }

  /** Putting `h` in front of a sorted list whose elements come from `x` and `t` keeps it sorted. */
  lemma InsertSortedCons<T>(h: T, x: T, t: seq<T>, rest: seq<T>, dist: map<T, Dist>)
    requires Sorted(rest, dist) && Sorted([h] + t, dist)
    requires Key(dist, h) <= Key(dist, x)
    requires multiset(rest) == multiset(t) + multiset{x}
    ensures Sorted([h] + rest, dist)
  {
    var r := [h] + rest;
    forall i, j | 0 <= i < j < |r| ensures Key(dist, r[i]) <= Key(dist, r[j]) {
      assert r[j] == rest[j - 1];
      if i == 0 {
        var y := rest[j - 1];
        assert y in multiset(rest);
        if y != x {
          assert y in multiset(t);
          var k :| 0 <= k < |t| && t[k] == y;
          assert ([h] + t)[k + 1] == y && ([h] + t)[0] == h;
          assert Key(dist, ([h] + t)[0]) <= Key(dist, ([h] + t)[k + 1]);
        }
      } else {
        assert r[i] == rest[i - 1];
      }
    }
  }

  /**
   The sort by distance that the comparator `dist[a] - dist[b]` induces: a
   permutation of the queue in non-decreasing distance. Stability is proved
   only where the search depends on it, for the head (`SortHeadIsFirstMinimal`).
   */
  function SortByDist<T>(q: seq<T>, dist: map<T, Dist>): (r: seq<T>)
    ensures multiset(r) == multiset(q)
    ensures Sorted(r, dist)
  {
    if |q| == 0 then []
    else
      var front := q[..|q| - 1];
      assert q == front + [q[|q| - 1]];
      Insert(q[|q| - 1], SortByDist(front, dist), dist)
  }

  /** The index of the first element of `q` with the least key. */
  function FirstMin<T>(q: seq<T>, dist: map<T, Dist>): (i: nat)
    requires |q| > 0
    ensures i < |q|
  {
    if |q| == 1 then 0
    else
      var i := FirstMin(q[..|q| - 1], dist);
      if Key(dist, q[i]) > Key(dist, q[|q| - 1]) then |q| - 1 else i
  }

  /** `FirstMin` is least, and strictly below everything before it. */
  lemma {:induction false} FirstMinIsFirstMinimal<T>(q: seq<T>, dist: map<T, Dist>)
    requires |q| > 0
    ensures forall j :: 0 <= j < |q| ==> Key(dist, q[FirstMin(q, dist)]) <= Key(dist, q[j])
    ensures forall j :: 0 <= j < FirstMin(q, dist) ==> Key(dist, q[j]) > Key(dist, q[FirstMin(q, dist)])
    decreases |q|
  {
    if |q| > 1 {
      var front := q[..|q| - 1];
      var x := q[|q| - 1];
      FirstMinIsFirstMinimal(front, dist);
      var i' := FirstMin(front, dist);
      var h := front[i'];
      assert q[i'] == h;
      if Key(dist, h) > Key(dist, x) {
        forall j | 0 <= j < |q| - 1 ensures Key(dist, q[j]) > Key(dist, x) {
          assert q[j] == front[j];
        }
      } else {
        forall j | 0 <= j < |q| ensures Key(dist, h) <= Key(dist, q[j]) {
          if j < |q| - 1 {
            assert q[j] == front[j];
          }
        }
        forall j | 0 <= j < i' ensures Key(dist, q[j]) > Key(dist, h) {
          assert q[j] == front[j];
        }
      }
    }
  }

  /** Sorting puts the first least element of `q` at the head. */
  lemma {:induction false} SortHeadIsFirstMin<T>(q: seq<T>, dist: map<T, Dist>)
    requires |q| > 0
    ensures SortByDist(q, dist)[0] == q[FirstMin(q, dist)]
    decreases |q|
  {
    var front := q[..|q| - 1];
    assert SortByDist(q, dist) == Insert(q[|q| - 1], SortByDist(front, dist), dist);
    if |q| > 1 {
      SortHeadIsFirstMin(front, dist);
      assert q[FirstMin(front, dist)] == front[FirstMin(front, dist)];
    }
  }

  /**
   The node the solver extracts, `sort(...)` then `shift()`, is the first queued
   node whose distance is least: every earlier one is strictly farther.
   */
  lemma SortHeadIsFirstMinimal<T>(q: seq<T>, dist: map<T, Dist>) returns (i: nat)
    requires |q| > 0
    ensures i < |q| && SortByDist(q, dist)[0] == q[i]
    ensures forall j :: 0 <= j < |q| ==> Key(dist, q[i]) <= Key(dist, q[j])
    ensures forall j :: 0 <= j < i ==> Key(dist, q[j]) > Key(dist, q[i])
  {
    i := FirstMin(q, dist);
    SortHeadIsFirstMin(q, dist);
    FirstMinIsFirstMinimal(q, dist);
  }

  /** The head of the sorted queue holds the least distance of all queued nodes. */
  lemma SortHeadIsMinimal<T>(q: seq<T>, dist: map<T, Dist>)
    requires |q| > 0
    ensures SortByDist(q, dist)[0] in q
    ensures forall y :: y in q ==> Key(dist, SortByDist(q, dist)[0]) <= Key(dist, y)
  {
    var sorted := SortByDist(q, dist);
    assert sorted[0] in multiset(q);
    forall y | y in q ensures Key(dist, sorted[0]) <= Key(dist, y) {
      assert y in multiset(sorted);
      var j :| 0 <= j < |sorted| && sorted[j] == y;
      if j > 0 { assert Key(dist, sorted[0]) <= Key(dist, sorted[j]); }
    }
  }
}

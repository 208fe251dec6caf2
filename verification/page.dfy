/**
 The routing half of the page (pages/index.js): the step buttons that walk
 the displayed path, and `handleFindPath`, which builds the graph from the
 CSV text, snaps both query points to graph nodes, rejects a missing start
 or end node, and runs the search. The geocoder's answers and the fetched
 files arrive as parameters.
 */
module Page {
  import opened Wrappers
  import opened Graphs
  import opened Builder
  import opened Locator
  import opened Assembler

  // ---------------------------------------------------------------------------
  // The step buttons.

  /** A step the buttons can show for a path of `len` points: 0, or an index of the path. */
  predicate StepInRange(step: int, len: int)
  {
    step == 0 || 0 <= step < len
  }

  /** `handleBack`: one point back, never below 0; it stays put exactly at the first point. */
  function Back(step: int): (r: int)
    ensures 0 <= step - r <= 1
    ensures r == step <==> step <= 0
    ensures step >= 0 ==> r >= 0
  {
    if step > 0 then step - 1 else step
  }

  /** `handleNext`: one point forward, never past the last point; it stays put exactly at the last. */
  function Next(step: int, len: int): (r: int)
    ensures 0 <= r - step <= 1
    ensures r == step <==> step >= len - 1
    ensures step < len ==> r < len
  {
    if step < len - 1 then step + 1 else step
  }

  /** Both buttons keep the step on the path, and each moves it by at most one. */
  lemma ButtonsKeepRange(step: int, len: int)
    requires StepInRange(step, len)
    ensures StepInRange(Back(step), len) && StepInRange(Next(step, len), len)
    ensures 0 <= step - Back(step) <= 1 && 0 <= Next(step, len) - step <= 1
  {
  }

  /** Back undoes Next wherever Next moved, and Next undoes Back wherever Back moved. */
  lemma ButtonsUndo(step: int, len: int)
    requires StepInRange(step, len)
    ensures Next(step, len) != step ==> Back(Next(step, len)) == step
    ensures Back(step) != step ==> Next(Back(step), len) == step
  {
  }

  /** From any step in range, pressing Next often enough reaches the last point and stays there. */
  lemma {:induction false} NextReachesEnd(step: int, len: int, presses: nat)
    requires StepInRange(step, len) && len > 0 && presses >= len - 1 - step
    ensures Press(step, len, presses) == len - 1
    decreases presses
  {
    if presses > 0 {
      NextReachesEnd(Next(step, len), len, presses - 1);
    }
  }

  /** The step after pressing Next `presses` times. */
  function Press(step: int, len: int, presses: nat): int
    decreases presses
  {
    if presses == 0 then step else Press(Next(step, len), len, presses - 1)
  }

  // ---------------------------------------------------------------------------
  // handleFindPath.

  /** Why `handleFindPath` gives up; the page reports each through its `catch`. */
  datatype PageError =
    | BrokenGraphRow   // a CSV row without a second field: `rawV.toString()` throws
    | StartNotFound
    | EndNotFound

  /** The route handed to the map and the panel. */
  datatype Found = Found(path: seq<NodeId>, segments: seq<Segment>, total: real)

  /** `!id || !graph[id]` is false: the id is present, not the empty string, and a graph key. */
  predicate Usable(id: Option<NodeId>, g: Graph)
  {
    id.Some? && id.value != "" && id.value in g
  }

  /** The query point snaps to the non-empty id `id`. */
  ghost predicate Snaps(lat: real, lon: real, coords: CoordTable, g: Graph, id: NodeId)
  {
    id != "" && NearestIs(lat, lon, coords, g, id)
  }

  /** The answer of the nearest-node scan passes the guard exactly when the point snaps to it. */
  lemma UsableIffSnaps(lat: real, lon: real, coords: CoordTable, g: Graph, closest: Option<NodeId>)
    requires closest.None? <==> forall j :: 0 <= j < |coords| ==> !Scored(coords[j], g)
    requires closest.Some? ==> NearestIs(lat, lon, coords, g, closest.value) && closest.value in g
    ensures Usable(closest, g) <==> exists id :: Snaps(lat, lon, coords, g, id)
    ensures Usable(closest, g) ==> Snaps(lat, lon, coords, g, closest.value)
  {
    if Usable(closest, g) {
      assert Snaps(lat, lon, coords, g, closest.value);
    }
    if id :| Snaps(lat, lon, coords, g, id) {
      var k :| FirstNearest(lat, lon, coords, g, k) && coords[k].0 == id;
      assert Scored(coords[k], g);
      var k0 :| FirstNearest(lat, lon, coords, g, k0) && coords[k0].0 == closest.value;
      FirstNearestUnique(lat, lon, coords, g, k, k0);
    }
  }

  /**
   `handleFindPath` once the geocoder has answered: `from` and `to` are the
   `[lat, lon]` pairs, `text` the CSV file and `coords` the coordinate table.
   Rows are built first, then the start guard, then the end guard; a route is
   returned only when both points snap to graph nodes, and it ends at the
   end node, starts at the start node exactly when the end is reachable, and
   with non-negative weights totals the shortest distance.
   */
  method FindPath(text: string, parse: string -> Option<real>, coords: CoordTable, from: (real, real), to: (real, real))
    returns (r: Result<Found, PageError>)
    ensures Build(text, parse).Failure? <==> r == Failure(BrokenGraphRow)
    ensures r == Failure(StartNotFound) <==>
      Build(text, parse).Success? && !exists id :: Snaps(from.0, from.1, coords, Build(text, parse).value, id)
    ensures r == Failure(EndNotFound) <==>
      && Build(text, parse).Success?
      && (exists id :: Snaps(from.0, from.1, coords, Build(text, parse).value, id))
      && !exists id :: Snaps(to.0, to.1, coords, Build(text, parse).value, id)
    ensures r.Success? ==>
      var g := Build(text, parse).value;
      var f := r.value;
      exists s, e ::
        && Snaps(from.0, from.1, coords, g, s) && Snaps(to.0, to.1, coords, g, e)
        && |f.path| > 0 && f.path[|f.path| - 1] == e
        && (f.path[0] == s <==> Reachable(g, s, e))
        && (f.path[0] != s ==> f.path == [e] && f.segments == [] && f.total == 0.0)
        && Measured(g, f.path, Cheapest, f.segments) && f.total == Sum(f.segments)
        && (f.path[0] == s && NonNegative(g) ==> IsShortest(g, s, e, f.total))
  {
    var built := Build(text, parse);
    if built.Failure? {
      return Failure(BrokenGraphRow);
    }
    var g := built.value;
    var startNode := FindNearest(from.0, from.1, coords, g);
    var endNode := FindNearest(to.0, to.1, coords, g);
    UsableIffSnaps(from.0, from.1, coords, g, startNode);
    UsableIffSnaps(to.0, to.1, coords, g, endNode);
    if !Usable(startNode, g) {
      return Failure(StartNotFound);
    }
    if !Usable(endNode, g) {
      return Failure(EndNotFound);
    }
    var path, segs, total := Route(g, startNode.value, endNode.value);
    r := Success(Found(path, segs, total));
  }
}

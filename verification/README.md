# Shortest-path routing engine — a Dafny model

This project models the routing core of a campus walking-route page. The
page reads an edge list (`u,v,length` rows after a header) into an
undirected adjacency map. It snaps the two geocoded query points to their
nearest graph nodes, rejects a missing start or end node, and then runs an
unsorted-queue Dijkstra that stops early. The search ends by walking the
predecessor map back into a path and measuring each segment and the total.
The step buttons that move along the drawn path are modelled too.

Modules, in the order the data flows:

- `Wrappers` holds `Option` and `Result`.
- `Graphs` holds node ids, neighbour entries, the adjacency map, the JavaScript `Infinity`-or-finite distance, walks, their cost, reachability and "shortest".
- `Text` models JavaScript `split` on one character and `trim` with the JavaScript white-space set.
- `Builder` is the edge-list reader (pages/index.js:160-174).
- `Locator` is `findNearestNodeInGraph` (pages/index.js:176-194).
- `QueueOrder` is the stable `queue.sort(...)` by distance (utils/dijkstraFromCSV.js:51).
- `Solver` is the search loop of `dijkstra` (utils/dijkstraFromCSV.js:39-69). Its loop invariant is stated and proved, along with optimality for non-negative weights.
- `Assembler` is the predecessor walk and the segment loop (utils/dijkstraFromCSV.js:71-115). It models the loop both as written and corrected.
- `Page` holds the step buttons and `handleFindPath`, minus the geocoder and the fetches (pages/index.js:135-141, 150-202).

Behaviour of the code that the model reproduces and that is easy to miss:

- A data line with no `,` is not skipped. `rawV` is `undefined` there, `rawV.toString()` throws, and the whole request fails. The same holds for a blank line in the middle of the file.
- Only a `NaN` length drops a row. Negative lengths are kept.
- A node can be queued more than once. A re-extracted node that is already visited relaxes nothing, and the model proves that.
- An unreachable end is not an error anywhere. `dijkstra` returns the one-node path `[end]` with no segments and a total of 0, and `handleFindPath` passes that on as a route of 0 miles. Its guards (pages/index.js:199-200) reject only a start or end that is `null`, empty or not a graph key.
- A node id equal to the empty string fails the `!startNode` / `!endNode` guard, because the empty string is falsy.

## Model

| member | source | states |
|---|---|---|
| Text.Split | pages/index.js:161 | `split` on one character yields at least one piece. No piece holds the separator, and re-joining the pieces with it restores the text. There is exactly one piece iff the separator does not occur. |
| Text.SplitJoin | pages/index.js:163 | Splitting a join of separator-free pieces gives back exactly those pieces, so `split` loses no field. |
| Text.Trim | pages/index.js:161 | `trim` keeps one contiguous slice. It cuts only white space from either end, and a non-empty result starts and ends with a non-white character. |
| Builder.DataLines | pages/index.js:161 | The data lines hold no newline. There are none exactly when the trimmed text is a single line, and with the header line in front they re-join into the trimmed text. |
| Builder.ReadLine | pages/index.js:163-168 | A line aborts the reader iff it has no `,`. It is accepted iff it has a third field that `parseFloat` reads as a number after trimming. An accepted row's ids are the trimmed first and second fields, and its length is that parsed number. |
| Builder.Classify | pages/index.js:162-163 | Each data line is read on its own by the line reader, in order, one kind per line. |
| Builder.AddLink | pages/index.js:170-173 | Adding a row creates both endpoints when missing. Each node's list only gains, at its end, the entries that row contributes to it. |
| Builder.LinkGraph | pages/index.js:160-174 | The reference adjacency map of a row list has the row endpoints as its keys. Each key's list is every contribution to it, in arrival order. |
| Builder.BuildKinds | pages/index.js:162-174 | The reader loop, one `Absorb` pass per line, fails iff some line lacks its second field. Otherwise it yields exactly the reference map of the accepted rows, with parallel edges kept verbatim. |
| Builder.Build | pages/index.js:160-174 | Reading the whole text fails iff some data line after the header has no `,`. Every graph it returns is symmetric and closed. |
| Builder.AcceptedRowIsMirrored | pages/index.js:170-173 | Every accepted row `u,v,w` appears as `(v, w)` under `u` and as `(u, w)` under `v`. |
| Builder.BuildKindsSymmetric | pages/index.js:170-173 | The built map is symmetric, with each entry mirrored at the same weight. It is closed: every neighbour is a key. |
| Builder.NaNRowIgnored | pages/index.js:166-168 | Deleting a row whose length is `NaN` anywhere in the file does not change the outcome. |
| Builder.HeaderIgnored | pages/index.js:161 | Any first line that is not all white space can be swapped for any other such line without changing the outcome. |
| Builder.HeaderDropped | pages/index.js:161 | For a first line that is not all white space, the data lines are the trimmed text after it, split on newlines. There are none when that text is all white space. |
| Locator.SqDist | pages/index.js:183-187 | The squared degree distance is never negative, and it is zero exactly when the query stands on the entry's `[lon, lat]` coordinate. |
| Locator.FindNearest | pages/index.js:176-194 | The scan returns `null` iff no entry is an array of two finite numbers whose id is a graph key. Otherwise it returns the id of the first such entry at the least squared degree distance, and that id is a graph key. |
| Locator.ExactMatchWins | pages/index.js:183-191 | A query standing exactly on a candidate's coordinate is answered at distance 0, by that candidate or an earlier one. |
| QueueOrder.SortByDist | utils/dijkstraFromCSV.js:51 | The sorted queue is a permutation of the queue, ordered by current distance. |
| QueueOrder.SortHeadIsFirstMinimal | utils/dijkstraFromCSV.js:51-52 | The node that `shift()` takes after the stable sort is the first queued node of least distance. Every queued node before it is strictly farther. |
| QueueOrder.SortHeadIsMinimal | utils/dijkstraFromCSV.js:51-52 | The extracted node is queued and no queued node is closer. |
| Solver.Init | utils/dijkstraFromCSV.js:41-47 | Before the loop every graph node is at `Infinity` except `start` at 0. There are no predecessors, nothing is visited, and the queue is `[start]`. |
| Solver.RelaxEntry | utils/dijkstraFromCSV.js:59-67 | Relaxing one entry leaves the visited set and the distance keys alone and never raises a distance. Afterwards an entry towards an unvisited node cannot improve its neighbour. |
| Solver.RelaxAll | utils/dijkstraFromCSV.js:57-68 | The same for the whole inner loop: distances only fall, and afterwards no entry of `u` towards an unvisited node can improve its neighbour. |
| Solver.RelaxAllInv | utils/dijkstraFromCSV.js:57-68 | After relaxing every entry of `u`, every node re-parented to `u` is unvisited and sits at `dist[u]` plus its cheapest entry from `u`. No entry of `u` can improve its neighbour further. Every other node is untouched or lowered and queued. |
| Solver.RelaxAllNoOp | utils/dijkstraFromCSV.js:57-68 | Relaxing a node whose entries can improve nothing changes no local. A re-extracted visited node therefore only shortens the queue. |
| Solver.FirstUnvisited | utils/dijkstraFromCSV.js:49-68 | Any walk from `start` to an unvisited node passes a queued unvisited node. With non-negative weights, that node's distance is at most the walk's cost. |
| Solver.ExtractFacts | utils/dijkstraFromCSV.js:51-53 | The node `Extracted` shifts off the sorted queue is queued, a graph key with a finite distance, and no queued node is closer. Every other pending node stays in the rest of the queue. |
| Solver.ExtractedIsOptimal | utils/dijkstraFromCSV.js:49-53 | With non-negative weights, the node extracted with the least distance has a final distance: no walk from `start` to it is cheaper. |
| Solver.PendingWhileReachable | utils/dijkstraFromCSV.js:49 | While some walk leads to an unvisited node, the queue is not empty. |
| Solver.ParentChainWalk | utils/dijkstraFromCSV.js:62-66 | Following predecessors from any reached node spells out a walk from `start` whose cost is exactly its distance. |
| Solver.IterationKeepsInv | utils/dijkstraFromCSV.js:49-68 | One iteration that does not extract `end` keeps the loop invariant: predecessors are visited, acyclic and account for distances; visited nodes are relaxed and, with non-negative weights, final. Distances only fall, and the unvisited count or the queue length shrinks. |
| Solver.Solve | utils/dijkstraFromCSV.js:39-69 | The loop terminates. For a graph key `end`, it extracts `end` iff `end` is reachable, and then `dist[end]` is the cost of a walk and, with non-negative weights, the shortest. Every predecessor link accounts for the distance through the cheapest entry, the predecessor map is acyclic, and `end` has no predecessor when not extracted. |
| Assembler.ReconstructPath | utils/dijkstraFromCSV.js:71-81 | The predecessor walk ends: the path ends at `end` and starts at a node without a predecessor. Each node is the predecessor of the next, and no node repeats. |
| Assembler.FirstWeight | utils/dijkstraFromCSV.js:94-106 | A segment's distance is the weight of the first entry of `u` naming `v`, or 0 when none does. |
| Assembler.FirstNotBelowCheapest | utils/dijkstraFromCSV.js:94-106 | `SegmentWeight`'s two rules compared: the first entry towards `v` never weighs less than the cheapest one, and the two agree when the entries towards `v` agree. |
| Assembler.Measure | utils/dijkstraFromCSV.js:83-111 | One segment per consecutive pair of the path, in order, and the total is their sum. |
| Assembler.CheapestTelescopes | utils/dijkstraFromCSV.js:83-111 | Along a predecessor chain, cheapest-entry segment distances sum to the distance gained from the first node to the last. |
| Assembler.FirstMatchVersusCheapest | utils/dijkstraFromCSV.js:94-111 | The first-match total is never below the cheapest-entry total. The two are equal when no step of the path has parallel entries of different weight. |
| Assembler.Search | utils/dijkstraFromCSV.js:39-81 | The path ends at `end`, never repeats a node, and every step follows an adjacency entry. For a graph key `end`, it starts at `start` iff `end` is reachable, and otherwise it is `[end]`. |
| Assembler.Dijkstra | utils/dijkstraFromCSV.js:39-115 | The function as written. An unreachable `end` gives `[end]`, no segments and total 0. Otherwise the path runs from `start` to `end` and, with non-negative weights, it is a cheapest path: its cheapest-entry length is the shortest distance. The reported total is never below that, and equals it when no step has parallel entries of different weight. |
| Assembler.PathWalk | utils/dijkstraFromCSV.js:88-111 | A path read with its cheapest-entry segments is a walk from `start` whose cost is the segment sum. |
| Assembler.Route | utils/dijkstraFromCSV.js:39-115 | The corrected function. The same path as `dijkstra`, but the total is the cost of a walk from `start` to `end` and, with non-negative weights, exactly the shortest distance. |
| Assembler.ParallelEdgeExample | utils/dijkstraFromCSV.js:98-104 | With rows `A,B,100` then `A,B,80`, the as-written total from A to B is 100. The corrected total is 80, which a walk attains. |
| Page.Back | pages/index.js:135-137 | `handleBack` moves one point back and never below 0. It stays put exactly at the first point. |
| Page.Next | pages/index.js:139-141 | `handleNext` moves one point forward and never past the last point. It stays put exactly at the last point. |
| Page.ButtonsKeepRange | pages/index.js:135-141 | Back and Next keep the step on the path, each moving it by at most one. |
| Page.ButtonsUndo | pages/index.js:135-141 | Back undoes any Next that moved, and Next undoes any Back that moved. |
| Page.NextReachesEnd | pages/index.js:139-141 | Pressing Next often enough reaches the last point of the path. |
| Page.UsableIffSnaps | pages/index.js:199-200 | The nearest-node answer passes the start or end guard, `Usable` (an id that is neither null nor empty and is a graph key), iff the query point snaps to a non-empty graph id. |
| Page.FindPath | pages/index.js:150-202 | A broken row fails the request. Otherwise a start that snaps to no usable node fails with "start node not found" first, then the same for the end. Else the route ends at the end node, starts at the start node iff the end is reachable, and, with non-negative weights, totals the shortest distance. |

## Left out

- The consent and documentation overlay, React state and effects, the autoplay `handlePlay`, and the rendering that slices the path by `step` (pages/index.js:1-133, 236-270) are user interface, not routing.
- `geocode` and the two `fetch` calls are network I/O. Their results enter `Page.FindPath` as parameters: the query points, the CSV text and the coordinate table.
- `parseFloat` is the parameter `parse`, with `None` for `NaN`. Lengths of `Infinity` and `-Infinity` have no counterpart in that parameter and are not modelled.
- Numbers are mathematical reals. Floating-point rounding in `dist[u] + w`, in the squared distance and in `totalDistance` is not modelled.
- `toFixed` for miles, the `[lat, lon]` display flip of the path and the segments, and the filtering of path ids without coordinates (pages/index.js:205-223, 258) are presentation. For that reason `Page.Next` takes the drawn path's length as a parameter.
- Object keys inherited from `Object.prototype`, such as `constructor`, are not modelled; the graph, `dist` and `prev` are plain maps. The same goes for the integer-like key ordering of `Object.entries`: the coordinate table is a sequence in enumeration order.
- A query coordinate that is `NaN` from the geocoder is not modelled; query points are reals.
- `Solver.Solve` requires `start` to be a graph key; the page's start guard rules the other case out. When `start` is not a key, the source throws at `graph[u]` inside the loop, unless `start == end`, where the `break` (utils/dijkstraFromCSV.js:55) comes first and the result is `[end]` with total 0.
- `loadCSVGraph` (utils/dijkstraFromCSV.js:7-33) depends on the PapaParse library and is not called by the page. components/Map.js and pages/_app.js are not part of this model.
- `Page.FindPath` runs the corrected `Assembler.Route`, not the as-written `Assembler.Dijkstra`; see Findings. The two return the same path, and the first-match total differs only where a step has parallel entries of different weight.

## Findings

| source | as written | input that shows it | evidently intended | confidence | as-written member | corrected member |
|---|---|---|---|---|---|---|
| utils/dijkstraFromCSV.js:94-106 | each segment takes the weight of the FIRST entry of `u` naming `v` | rows `A,B,100` then `A,B,80`, route from A to B: the search settles B at 80, yet the segment and total read 100 | the segment weight the search relaxed along, the cheapest entry, so the total equals the search's distance (80) | high; not executed | Assembler.ParallelEdgeExample | Assembler.Route |

# Shortest path and path animation of the Graph component

This project models the logic inside `src/components/Graph.tsx`, the React
component that finds a shortest route between two gods of a small
undirected weighted graph (afrodite, zeus, atena, hefesto, hermes) and then
reveals that route node by node over two seconds.

- `Graphs.dfy`: modules `Options` and `Graphs`.
  - Nodes and edges.
  - The adjacency record `findShortestPath` builds from the edge list (`BuildAdjacency`, specified by `AdjacencyOf`).
  - Paths through that record and their weights.
  - The weight generator behind the "random weights" button.
- `ShortestPath.dfy`: module `ShortestPath`, the Dijkstra search of `findShortestPath`.
  - It is written as methods with the source's loops and state: `Initialise`, the minimum scan `SelectMin`, the neighbour relaxation `RelaxNeighbors`, the predecessor walk `ReconstructPath`, and `FindShortestPath` itself.
  - Its contract:
    - a reported route is a path from the start to the target whose weight is the reported distance, and no path is lighter;
    - "no path" is reported exactly when the target is unreachable;
    - the same node as start and target gives `[start]` with distance 0;
    - an empty selection makes the search not run.
  - Potentials (`Potential`, `PotentialSettles`) give an independent certificate of optimality.
- `Animation.dfy`: module `PathAnimation`.
  - The per-frame step rule of `startAnimation`/`animate` as the class `Animator`, with `Start`, `Tick` and `Cancel`.
  - The segment computation of `getAnimatedPosition`.
  - The queries `isEdgeInPath` and `isNodeInPath`.
- `Demo.dfy`: module `DemoGraph`, the built-in graph.
  - The search from afrodite to hermes reports `[afrodite, zeus, hermes]` at 190, the only route that light.
  - The search from afrodite to atena reports `[afrodite, atena]` at 150, the only route that light.

Modelling choices:

- Weights are natural numbers: the built-in weights are integers from 10 to 320, the generator's from 10 to 309.
- `Infinity` is the `Inf` case of `Dist`.
- A JavaScript `Set` becomes a sequence without duplicates, so its insertion order is kept. `SelectMin` keeps the first strictly smaller distance, so ties go to the earliest node in node-list order, as the strict `<` over the set does.
- The alerts become the `MissingEndpoint` and `NoPath` results.
- Time is whole milliseconds since the animation started. The progress `min(elapsed / 2000, 1)` is kept as `progressMs = min(elapsed, 2000)`, which is progress times 2000. Then `floor(progress * n)` is the exact integer `progressMs * n / 2000`.
- The empty string `""` stands for "nothing selected", as in the source's select boxes.
- `FindShortestPath` requires that no node id is empty and that each endpoint is `""` or a node id. The select boxes only offer those values.

Behaviour of the code worth noting:

- At elapsed time 0 no node is revealed: `animationPath` starts as `[]` and grows only once `currentStep` passes 0.
- A one-node path is not completed at once. It is revealed only when progress reaches 1.
- The search raises no error for a bad weight or an unknown endpoint.
- Ties between equal distances go to the node earliest in the node list, through the insertion order of the `Set`. `unvisited.delete` keeps the order of the other nodes (`DeleteKeepsOrder`).

## Model

| member | source | states |
|---|---|---|
| Graphs.AdjacencyOf | src/components/Graph.tsx:123-134 | the record the build must produce: one entry per node, every neighbour a node, each weight the last joining edge's (`LastWeight`) |
| Graphs.Write | src/components/Graph.tsx:132-133 | `graph[a][b] = w` sets that one entry and leaves every other entry and row as it was |
| Graphs.LastWeight | src/components/Graph.tsx:131-134 | after all edges are written, a→b holds a weight exactly when some edge joins a and b in either orientation, and that weight is the one of the last such edge |
| Graphs.BuildAdjacency | src/components/Graph.tsx:123-134 | the record built by the two loops is exactly `AdjacencyOf(node ids, edges)`: one entry per node, neighbours and weights from the last joining edge |
| Graphs.WriteEdge | src/components/Graph.tsx:131-134 | writing both directions of edge j keeps the record equal to what the first j+1 edges determine |
| Graphs.HoldsIsAdjacency | src/components/Graph.tsx:123-134 | a record holding what all edges determine equals `AdjacencyOf` |
| Graphs.LastWeightSymmetric | src/components/Graph.tsx:132-133 | the weight written for a→b is the weight written for b→a |
| Graphs.AdjacencySymmetric | src/components/Graph.tsx:131-134 | the built adjacency is symmetric: b is a neighbour of a iff a is one of b, with the same weight |
| Graphs.LaterEdgeWins | src/components/Graph.tsx:131-134 | an edge that no later edge re-joins fixes `graph[s][t] == graph[t][s] == weight`, so a later edge between the same pair overwrites an earlier one |
| Graphs.LastWeightIs | src/components/Graph.tsx:131-134 | the last edge joining a and b gives the weight stored for a→b |
| Graphs.ReversePath | src/components/Graph.tsx:133 | in the undirected record a path read backwards is a path of the same weight |
| Graphs.RandomWeight | src/components/Graph.tsx:68 | `floor(random * 300) + 10` lies in 10..309 |
| Graphs.GenerateRandomWeights | src/components/Graph.tsx:65-70 | every edge keeps its endpoints and takes the weight of its own draw, in 10..309 |
| Graphs.RandomWeightsKeepShape | src/components/Graph.tsx:65-70 | after new weights the same pairs are adjacent, and every stored weight is in 10..309 |
| ShortestPath.Less | src/components/Graph.tsx:170 | the `<` of the source on tentative distances: a number is below Infinity, Infinity is below nothing, numbers compare as numbers |
| ShortestPath.Delete | src/components/Graph.tsx:163 | `unvisited.delete(x)`: removes exactly x, keeps the others distinct, and the size drops by one when x was present |
| ShortestPath.DeleteKeepsOrder | src/components/Graph.tsx:163 | `unvisited.delete(x)` cuts x out where it stood: the other nodes keep their insertion order |
| ShortestPath.Initialise | src/components/Graph.tsx:137-145 | the start has distance 0 and every other node Infinity, every predecessor is null, and every node is unvisited, in node order and at most once |
| ShortestPath.SelectMin | src/components/Graph.tsx:150-158 | no node is chosen iff every unvisited distance is Infinity; otherwise the chosen node has the least finite distance and is the first such in set order |
| ShortestPath.RelaxNeighbors | src/components/Graph.tsx:166-175 | each unvisited neighbour whose distance improves gets distance(current) + weight and predecessor current; no distance rises; visited nodes are untouched; a predecessor changes only when its distance is lowered |
| ShortestPath.UnvisitedWitness | src/components/Graph.tsx:148-176 | every path from the start to an unvisited node passes an unvisited node whose tentative distance is at most the path's weight |
| ShortestPath.SelectedIsOptimal | src/components/Graph.tsx:153-163 | the node the scan selects has a tentative distance no path beats |
| ShortestPath.FrontierExhausted | src/components/Graph.tsx:160 | when every unvisited node is at Infinity the target is unreachable, so the early stop loses nothing |
| ShortestPath.VisitPreserves | src/components/Graph.tsx:163-175 | deleting the selected node and relaxing its neighbours keeps the search invariant, with one more node settled |
| ShortestPath.PredecessorsPreserved | src/components/Graph.tsx:166-175 | after relaxation every predecessor is a neighbour settled earlier, and the distance is that predecessor's plus the edge weight |
| ShortestPath.SettledPreserved | src/components/Graph.tsx:163-175 | settled distances do not change, and the new settled node is optimal |
| ShortestPath.RelaxedPreserved | src/components/Graph.tsx:166-175 | every edge out of a settled node is relaxed against the unvisited nodes |
| ShortestPath.ExtendWalk | src/components/Graph.tsx:182-186 | prepending the predecessor of the walk's first node keeps a path that ends at the target, and the first node's distance plus the path's weight stays the target's distance |
| ShortestPath.ReconstructPath | src/components/Graph.tsx:178-186 | the walk terminates and ends at the target; it reaches the start iff the target has a finite distance, and then it is a path whose weight is that distance |
| ShortestPath.FindShortestPath | src/components/Graph.tsx:110-196 | no search on an empty endpoint; a reported route is a shortest path of the reported weight; "no path" iff unreachable; start == target gives `[start]` at 0 |
| ShortestPath.ReachableSymmetric | src/components/Graph.tsx:132-133 | t is reachable from s iff s is reachable from t |
| ShortestPath.ShortestDistanceSymmetric | src/components/Graph.tsx:132-133 | the shortest distance from s to t equals that from t to s |
| ShortestPath.PotentialBound | src/components/Graph.tsx:169-170 | along a path a potential rises by at most the path's weight |
| ShortestPath.PotentialSettles | src/components/Graph.tsx:169-170 | a potential 0 at s and d at t proves that no path from s to t weighs less than d |
| ShortestPath.EdgesGivePotential | src/components/Graph.tsx:131-134 | a potential no edge breaks in either direction is a potential of the built adjacency |
| ShortestPath.SettledByEdges | src/components/Graph.tsx:123-176 | distances that no edge breaks and that are 0 at s bound every path from s in the built adjacency from below |
| ShortestPath.TightPath | src/components/Graph.tsx:169-170 | a path whose weight is only the rise of a potential along it uses only edges whose weight is exactly that rise |
| PathAnimation.ProgressMs | src/components/Graph.tsx:89 | `min(elapsed / 2000, 1)` scaled by 2000: the elapsed time up to 2000, then 2000 |
| PathAnimation.StepAt | src/components/Graph.tsx:92 | `currentStep` is `floor(progress * n)`: s·2000 ≤ progressMs·n, and below n also progressMs·n < (s+1)·2000; it lies in [0, n], equals n exactly when progress is 1 (or n = 0), and is 0 at progress 0 |
| PathAnimation.CurrentStep | src/components/Graph.tsx:88-92 | the frame's step is `floor(min(elapsed, 2000) * n / 2000)`, stated by the same two bounds with `ProgressMs(elapsed)`; it lies in [0, n], is 0 at the start and n from 2000 ms |
| PathAnimation.StepAfter | src/components/Graph.tsx:94-95 | the closure's `step` after a series of frames: at most n, at least the last frame's step, and n once a frame is at 2000 ms or later |
| PathAnimation.CurrentStepMonotone | src/components/Graph.tsx:88-92 | a later frame never computes a smaller step |
| PathAnimation.Revealed | src/components/Graph.tsx:96 | `path.slice(0, step + 1)` is the prefix of the path of length min(step + 1, path length) |
| PathAnimation.RevealedGrows | src/components/Graph.tsx:94-102 | a larger step reveals a longer prefix, and step n reveals the whole path |
| PathAnimation.StepAfterLastFrame | src/components/Graph.tsx:94-97 | with frames in time order the kept step is that of the last frame, however many frames came before |
| PathAnimation.StepAfterBounds | src/components/Graph.tsx:92-97 | in any frame order the kept step is at least every frame's own step and at most n |
| PathAnimation.IsEdgeInPath | src/components/Graph.tsx:199-210 | true iff some consecutive pair of the revealed path is (s, t) or (t, s); false when fewer than two nodes are revealed |
| PathAnimation.IsNodeInPath | src/components/Graph.tsx:213-215 | true iff the node is in the revealed path |
| PathAnimation.SegmentAt | src/components/Graph.tsx:221-223 | the segment index lies in [0, n-2]; index plus fraction equals progress × (n-1); the fraction is below a whole segment while progress < 1 |
| PathAnimation.WholeSegments | src/components/Graph.tsx:222 | `floor(progress × (n-1))` is at most n-1 and reaches it only at progress 1 |
| PathAnimation.FindNode | src/components/Graph.tsx:228-229 | `nodes.find` gives the first node of the list with that id, and nothing iff no node has it |
| PathAnimation.Animator.Valid | src/components/Graph.tsx:82-97 | the revealed path is always a prefix of the path |
| PathAnimation.Animator.Start | src/components/Graph.tsx:77-85 | a new animation is running with nothing revealed, step 0 and progress 0 |
| PathAnimation.Animator.Tick | src/components/Graph.tsx:87-105 | progress becomes min(elapsed, 2000); the step becomes the larger of the old and the frame's step, so it never decreases; the revealed path only grows; from 2000 ms the whole path is revealed and the animation stops, before that it keeps running |
| PathAnimation.Animator.Cancel | src/components/Graph.tsx:116-120 | the animation stops and nothing revealed changes |
| PathAnimation.Animator.AnimatedSegment | src/components/Graph.tsx:218-231 | no marker unless two nodes are revealed while running; the marker's segment is `SegmentAt(progress, |path|)` and its ends are the nodes `nodes.find` gives for `path[i]` and `path[i+1]`; a marker exists whenever all path nodes are known |
| DemoGraph.DemoWellFormed | src/components/Graph.tsx:22-39 | the built-in node ids are the five gods, none empty, and every edge names two of them |
| DemoGraph.AfroditePotential | src/components/Graph.tsx:30-39 | the distances 0, 10, 80, 150, 190 from afrodite are a potential of the built-in adjacency |
| DemoGraph.AfroditeZeus | src/components/Graph.tsx:31 | the adjacency holds afrodite–zeus at 10 |
| DemoGraph.AfroditeAtena | src/components/Graph.tsx:32 | the adjacency holds afrodite–atena at 150 |
| DemoGraph.ZeusHermes | src/components/Graph.tsx:36 | the adjacency holds zeus–hermes at 180 |
| DemoGraph.RouteThroughZeus | src/components/Graph.tsx:30-39 | afrodite, zeus, hermes is a path of weight 190 |
| DemoGraph.DirectToAtena | src/components/Graph.tsx:30-39 | afrodite, atena is a path of weight 150 |
| DemoGraph.AfroditeFeasible | src/components/Graph.tsx:30-39 | no built-in edge changes the distance from afrodite by more than its weight |
| DemoGraph.NothingShorterToHermes | src/components/Graph.tsx:30-39 | no route from afrodite to hermes weighs less than 190 |
| DemoGraph.NothingShorterToAtena | src/components/Graph.tsx:30-39 | no route from afrodite to atena weighs less than 150 |
| DemoGraph.AfroditeToHermes | src/components/Graph.tsx:22-39 | `[afrodite, zeus, hermes]` is a shortest afrodite→hermes route, at 190 |
| DemoGraph.AfroditeToAtena | src/components/Graph.tsx:22-39 | `[afrodite, atena]` is a shortest afrodite→atena route, at 150 |
| DemoGraph.TightEdge | src/components/Graph.tsx:30-39 | the built-in edges on which the distance from afrodite rises by exactly the weight are afrodite→zeus, afrodite→atena, zeus→hefesto and zeus→hermes |
| DemoGraph.TightStep | src/components/Graph.tsx:30-39 | the same holds of the entries of the built adjacency |
| DemoGraph.BuiltInTightPairs | src/components/Graph.tsx:30-39 | the built adjacency has no other tight entries |
| DemoGraph.OnlyRouteToHermesIn | src/components/Graph.tsx:30-39 | with that potential and those tight entries, a route from afrodite to hermes of weight at most 190 is `[afrodite, zeus, hermes]` |
| DemoGraph.OnlyRouteToAtenaIn | src/components/Graph.tsx:30-39 | with that potential and those tight entries, a route from afrodite to atena of weight at most 150 is `[afrodite, atena]` |
| DemoGraph.OnlyRouteToHermes | src/components/Graph.tsx:30-39 | on the built-in data `[afrodite, zeus, hermes]` is the only afrodite→hermes route of weight at most 190 |
| DemoGraph.OnlyRouteToAtena | src/components/Graph.tsx:30-39 | on the built-in data `[afrodite, atena]` is the only afrodite→atena route of weight at most 150 |
| DemoGraph.HermesResult | src/components/Graph.tsx:110-196 | any result meeting the search's contract for afrodite→hermes on the built-in data is `Found([afrodite, zeus, hermes], 190)` |
| DemoGraph.AtenaResult | src/components/Graph.tsx:110-196 | any result meeting the search's contract for afrodite→atena on the built-in data is `Found([afrodite, atena], 150)` |
| DemoGraph.SearchAfroditeToHermes | src/components/Graph.tsx:110-196 | the search on the built-in data from afrodite to hermes reports `[afrodite, zeus, hermes]` at 190 |
| DemoGraph.SearchAfroditeToAtena | src/components/Graph.tsx:110-196 | the search on the built-in data from afrodite to atena reports `[afrodite, atena]` at 150 |

## Left out

- Rendering (the JSX, SVG markup and CSS classes) is UI. The select boxes' change handlers set the endpoints, which are parameters of `FindShortestPath`; the reset they also perform is listed below.
- Frame scheduling is host scheduling:
  - `requestAnimationFrame` and `cancelAnimationFrame`;
  - the `useEffect` hooks that start the animation when the path changes and cancel it on unmount;
  - `performance.now()`.
  `Tick` takes the elapsed milliseconds as a parameter instead.
- `alert` calls are not modelled. They appear as the `MissingEndpoint` and `NoPath` results.
- `onPathFound` and `setPath` are not modelled. They appear as the `Found` result.
- `Math.random` is not modelled. The draws are a parameter of `GenerateRandomWeights`.
- The reset of the path, revealed path and progress in `generateRandomWeights` is not modelled. `GenerateRandomWeights` models only the new edge list. The `Animator` class has no "cleared" state: its `Valid` ties the revealed path to the step, and the reset breaks that link. The button is disabled while an animation runs (line 289), so this reset only reaches a finished animation. `IsEdgeInPath`, `IsNodeInPath` and `AnimatedSegment` are not modelled after a weight reset.
- The reset by the origin and destination select boxes (`setPath([])` and `setAnimationPath([])`, lines 250-251 and 267-268) is not modelled. The selects stay enabled during an animation, so this reset can reach a running one. The running `animate` closure keeps the old path: on its next frame that raises the step it refills `animationPath` from the old path, and at the end it sets the whole old path, while the component's `path` is `[]`. So `animationPath` shrinks to `[]` mid-animation and afterwards is not a prefix of the component's `path`. `Animator` holds one path for the whole animation and its `Valid` keeps the revealed path a prefix of it, so it does not capture this state.
- The floating-point x/y interpolation in `getAnimatedPosition` is not modelled. `AnimatedSegment` returns the segment, its scaled fraction and the two end nodes instead.
- PathAnimation.Animator.Tick: does not model IEEE double rounding of `elapsed / 2000 * n`. The step is the exact floor of the rational value, and elapsed time is a natural number of milliseconds, so a negative elapsed time cannot occur.
- ShortestPath.FindShortestPath: does not model fractional or negative weights (weights are `nat`). It does not model endpoints that are neither empty nor a node id, or a node whose id is empty.
- ShortestPath.FindShortestPath and Graphs.BuildAdjacency: require `EndpointsKnown`, so every edge must name two nodes of the list. In the source an edge naming an unknown node makes the adjacency build throw (lines 132-133). That failure is not modelled. The component's own edges always name known nodes (`DemoWellFormed`).
- `src/App.tsx` (the page shell showing the path and distance) and `vite.config.ts` (build configuration) are not part of this model.

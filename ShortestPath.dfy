/** The shortest-path search of the Graph component: Dijkstra's algorithm
    over the undirected adjacency record, selecting the closest unvisited
    node by a linear scan, then rebuilding the path from the predecessors. */
module ShortestPath {
  import opened Options
  import opened Graphs

  /** A tentative distance; `Inf` is the source's `Infinity`. */
  datatype Dist = Fin(value: nat) | Inf

  /** The source's `<` on tentative distances (`Infinity < Infinity` is false). */
  predicate Less(a: Dist, b: Dist): (r: bool)
    ensures r ==> a.Fin? && a != b
    ensures a.Fin? && b.Inf? ==> r
    ensures a.Fin? && b.Fin? ==> (r <==> a.value < b.value)
  {
    a.Fin? && (b.Inf? || a.value < b.value)
  }

  /** What the search reports: the path with its distance, or one of the two
      alerts (no origin/destination selected, no path between them). */
  datatype PathResult = Found(path: seq<string>, distance: nat) | MissingEndpoint | NoPath

  predicate Distinct(s: seq<string>)
  {
    forall i, j :: 0 <= i < j < |s| ==> s[i] != s[j]
  }

  ghost predicate Reachable(g: Adjacency, s: string, t: string)
  {
    exists p :: IsPathFromTo(g, p, s, t)
  }

  /** No path from s to t weighs less than d. */
  ghost predicate Settled(g: Adjacency, s: string, t: string, d: nat)
  {
    forall q :: IsPathFromTo(g, q, s, t) ==> d <= PathWeight(g, q)
  }

  /** `p` is a path from s to t of weight d, and no path from s to t is lighter. */
  ghost predicate IsShortest(g: Adjacency, p: seq<string>, d: nat, s: string, t: string)
  {
    IsPathFromTo(g, p, s, t) && PathWeight(g, p) == d && Settled(g, s, t, d)
  }

  /** `unvisited.delete(x)`: the insertion-ordered set without x. */
  function Delete(s: seq<string>, x: string): (r: seq<string>)
    ensures forall v :: v in r <==> v in s && v != x
    ensures Distinct(s) ==> Distinct(r)
    ensures Distinct(s) && x in s ==> |r| == |s| - 1
    ensures x !in s ==> r == s
  {
    if s == [] then []
    else if s[0] == x then Delete(s[1..], x)
    else
      var rest := Delete(s[1..], x);
      assert Distinct(s) ==> s[0] !in s[1..];
      [s[0]] + rest
  }

  /** Deleting keeps the other elements in their insertion order: the result
      is the set with x cut out where it stood. */
  lemma {:induction false} DeleteKeepsOrder(s: seq<string>, x: string, k: nat)
    requires Distinct(s) && k < |s| && s[k] == x
    ensures Delete(s, x) == s[..k] + s[k + 1..]
  {
    var t := s[1..];
    if k == 0 {
      assert x !in t by {
        forall j | 0 <= j < |t| ensures t[j] != x {
          assert s[j + 1] != s[0];
        }
      }
    } else {
      assert s[0] != x by { assert s[0] != s[k]; }
      assert Distinct(t) by {
        forall i, j | 0 <= i < j < |t| ensures t[i] != t[j] {
          assert s[i + 1] != s[j + 1];
        }
      }
      DeleteKeepsOrder(t, x, k - 1);
      assert s[..k] == [s[0]] + t[..k - 1];
      assert s[k + 1..] == t[k..];
    }
  }

  /** The start at distance 0 and every other node at Infinity, no
      predecessors, and every node unvisited, in node-list order; the search
      loop, which removes one node per round, runs at most |nodes| rounds. */
  method Initialise(nodes: seq<Node>, startNode: string)
    returns (distances: map<string, Dist>, previous: map<string, Option<string>>, unvisited: seq<string>)
    ensures distances.Keys == NodeIds(nodes) && previous.Keys == NodeIds(nodes)
    ensures forall v :: v in distances ==> distances[v] == if v == startNode then Fin(0) else Inf
    ensures forall v :: v in previous ==> previous[v] == None
    ensures Distinct(unvisited) && forall v :: v in unvisited <==> v in NodeIds(nodes)
    ensures Distinct(Ids(nodes)) ==> unvisited == Ids(nodes)
    ensures |unvisited| <= |nodes|
  {
    distances, previous, unvisited := map[], map[], [];
    for i := 0 to |nodes|
      invariant distances.Keys == NodeIds(nodes[..i]) && previous.Keys == NodeIds(nodes[..i])
      invariant forall v :: v in distances ==> distances[v] == if v == startNode then Fin(0) else Inf
      invariant forall v :: v in previous ==> previous[v] == None
      invariant Distinct(unvisited) && forall v :: v in unvisited <==> v in NodeIds(nodes[..i])
      invariant Distinct(Ids(nodes[..i])) ==> unvisited == Ids(nodes[..i])
      invariant |unvisited| <= i
    {
      assert nodes[..i + 1] == nodes[..i] + [nodes[i]];
      IdsPrefix(nodes, i);
      var id := nodes[i].id;
      distances := distances[id := if id == startNode then Fin(0) else Inf];
      previous := previous[id := None];
      if id !in unvisited {
        unvisited := unvisited + [id];
      }
    }
    assert nodes[..|nodes|] == nodes;
  }

  lemma IdsPrefix(nodes: seq<Node>, i: nat)
    requires i < |nodes|
    ensures Ids(nodes[..i + 1]) == Ids(nodes[..i]) + [nodes[i].id]
    ensures Distinct(Ids(nodes[..i + 1])) ==> Distinct(Ids(nodes[..i])) && nodes[i].id !in Ids(nodes[..i])
  {
    var before, after := Ids(nodes[..i]), Ids(nodes[..i + 1]);
    assert after == before + [nodes[i].id];
    if Distinct(after) {
      assert forall j :: 0 <= j < |before| ==> after[j] == before[j];
      assert after[i] == nodes[i].id;
      forall j | 0 <= j < |before| ensures before[j] != nodes[i].id {
        assert after[j] != after[i];
      }
    }
  }

  /** The scan over the unvisited set: the first node, in set order, whose
      distance is strictly below every earlier one; none if all are Infinity. */
  method SelectMin(unvisited: seq<string>, distances: map<string, Dist>) returns (current: Option<string>)
    requires forall v :: v in unvisited ==> v in distances
    ensures current.None? <==> forall v :: v in unvisited ==> distances[v].Inf?
    ensures current.Some? ==> current.value in unvisited && distances[current.value].Fin? &&
                              forall v :: v in unvisited ==> !Less(distances[v], distances[current.value])
    ensures current.Some? ==>
              exists k :: 0 <= k < |unvisited| && unvisited[k] == current.value &&
                          forall j :: 0 <= j < k ==> Less(distances[current.value], distances[unvisited[j]])
  {
    current := None;
    var minDistance := Inf;
    ghost var k := 0;
    for i := 0 to |unvisited|
      invariant current.None? ==> minDistance == Inf && forall j :: 0 <= j < i ==> distances[unvisited[j]].Inf?
      invariant current.Some? ==> k < i && unvisited[k] == current.value &&
                                  minDistance == distances[current.value] && minDistance.Fin?
      invariant forall j :: 0 <= j < i ==> !Less(distances[unvisited[j]], minDistance)
      invariant current.Some? ==> forall j :: 0 <= j < k ==> Less(minDistance, distances[unvisited[j]])
    {
      var nodeId := unvisited[i];
      if Less(distances[nodeId], minDistance) {
        minDistance := distances[nodeId];
        current := Some(nodeId);
        k := i;
      }
    }
  }

  /** Relaxing the edge current -> v lowers the distance of v. */
  ghost predicate Improves(graph: Adjacency, current: string, unvisited: seq<string>,
                           distances: map<string, Dist>, v: string)
    requires current in graph && current in distances && distances[current].Fin?
  {
    v in graph[current] && v in unvisited && v in distances &&
    Less(Fin(distances[current].value + graph[current][v]), distances[v])
  }

  /** The new distances and predecessors after relaxing the edges of `current`. */
  ghost predicate RelaxedFrom(graph: Adjacency, current: string, unvisited: seq<string>,
                              distances: map<string, Dist>, previous: map<string, Option<string>>,
                              distances': map<string, Dist>, previous': map<string, Option<string>>)
    requires current in graph && current in distances && distances[current].Fin?
    requires distances.Keys == previous.Keys
  {
    && distances'.Keys == distances.Keys && previous'.Keys == previous.Keys
    && forall v :: v in distances ==>
         if Improves(graph, current, unvisited, distances, v)
         then distances'[v] == Fin(distances[current].value + graph[current][v]) && previous'[v] == Some(current)
         else distances'[v] == distances[v] && previous'[v] == previous[v]
  }

  /** Relaxes every neighbour of `current` that is still unvisited. The
      neighbours are taken in any order: each update touches its own entry. */
  method RelaxNeighbors(graph: Adjacency, current: string, unvisited: seq<string>,
                        distances: map<string, Dist>, previous: map<string, Option<string>>)
    returns (distances': map<string, Dist>, previous': map<string, Option<string>>)
    requires current in graph && current in distances && distances[current].Fin?
    requires current !in unvisited
    requires distances.Keys == previous.Keys && graph[current].Keys <= distances.Keys
    ensures RelaxedFrom(graph, current, unvisited, distances, previous, distances', previous')
    ensures forall v :: v in distances ==> !Less(distances[v], distances'[v])
    ensures forall v :: v in distances && distances'[v] != distances[v] ==>
              v in unvisited && v in graph[current] && previous'[v] == Some(current)
    ensures forall v :: v in previous && previous'[v] != previous[v] ==> Less(distances'[v], distances[v])
  {
    distances', previous' := distances, previous;
    var neighbours := graph[current].Keys;
    while neighbours != {}
      invariant neighbours <= graph[current].Keys
      invariant distances'.Keys == distances.Keys && previous'.Keys == previous.Keys
      invariant forall v :: v in distances && v !in neighbours ==>
                  if Improves(graph, current, unvisited, distances, v)
                  then distances'[v] == Fin(distances[current].value + graph[current][v]) && previous'[v] == Some(current)
                  else distances'[v] == distances[v] && previous'[v] == previous[v]
      invariant forall v :: v in neighbours ==> distances'[v] == distances[v] && previous'[v] == previous[v]
      decreases neighbours
    {
      var neighbor :| neighbor in neighbours;
      var weight := graph[current][neighbor];
      if neighbor in unvisited {
        var distance := distances'[current].value + weight;
        if Less(Fin(distance), distances'[neighbor]) {
          distances' := distances'[neighbor := Fin(distance)];
          previous' := previous'[neighbor := Some(current)];
        }
      }
      neighbours := neighbours - {neighbor};
    }
  }

  /** The records have one entry per node, and neighbours are nodes. */
  ghost predicate Domains(graph: Adjacency, ids: set<string>,
                          distances: map<string, Dist>, previous: map<string, Option<string>>)
  {
    && graph.Keys == ids && distances.Keys == ids && previous.Keys == ids
    && (forall a, b :: a in graph && b in graph[a] ==> b in ids)
  }

  /** Every node is either visited (a key of `rank`, which numbers the nodes
      in the order they were removed) or unvisited, not both. */
  ghost predicate Partition(ids: set<string>, unvisited: seq<string>, rank: map<string, nat>, settled: nat)
  {
    && Distinct(unvisited)
    && (forall v :: v in unvisited ==> v in ids)
    && rank.Keys <= ids
    && (forall v :: v in ids ==> (v in rank <==> v !in unvisited))
    && (forall v :: v in rank ==> rank[v] < settled)
  }

  /** A predecessor is a visited node, removed before its successor, from
      which the successor's distance is one edge further; only the start has
      a finite distance and no predecessor. */
  ghost predicate PredecessorsOk(graph: Adjacency, ids: set<string>, startNode: string,
                                 distances: map<string, Dist>, previous: map<string, Option<string>>,
                                 rank: map<string, nat>)
    requires Domains(graph, ids, distances, previous)
  {
    && (forall v :: v in ids && previous[v].Some? ==>
          var u := previous[v].value;
          && u in rank && u in ids && distances[u].Fin? && distances[v].Fin? && v in graph[u]
          && distances[v].value == distances[u].value + graph[u][v]
          && (v in rank ==> rank[u] < rank[v]))
    && (forall v :: v in ids && distances[v].Fin? && previous[v].None? ==> v == startNode)
  }

  /** Visited nodes hold their final, shortest distance. */
  ghost predicate VisitedSettled(graph: Adjacency, startNode: string, distances: map<string, Dist>,
                                 rank: map<string, nat>)
  {
    forall v :: v in rank ==> v in distances && distances[v].Fin? && Settled(graph, startNode, v, distances[v].value)
  }

  /** The edges out of visited nodes into unvisited ones have been relaxed. */
  ghost predicate EdgesRelaxed(graph: Adjacency, distances: map<string, Dist>, unvisited: seq<string>,
                               rank: map<string, nat>)
  {
    forall u, v :: u in rank && u in graph && u in distances && distances[u].Fin? &&
                   v in graph[u] && v in unvisited && v in distances ==>
                     !Less(Fin(distances[u].value + graph[u][v]), distances[v])
  }

  /** What holds of the search state at the head of the main loop. */
  ghost predicate SearchInvariant(graph: Adjacency, ids: set<string>, startNode: string, endNode: string,
                                  distances: map<string, Dist>, previous: map<string, Option<string>>,
                                  unvisited: seq<string>, rank: map<string, nat>, settled: nat)
  {
    && Domains(graph, ids, distances, previous)
    && Partition(ids, unvisited, rank, settled)
    && startNode in ids && endNode in unvisited
    && distances[startNode] == Fin(0) && previous[startNode] == None
    && PredecessorsOk(graph, ids, startNode, distances, previous, rank)
    && VisitedSettled(graph, startNode, distances, rank)
    && EdgesRelaxed(graph, distances, unvisited, rank)
  }

  /** Every path from the start to an unvisited node passes an unvisited
      node whose tentative distance is at most the weight of that path. */
  lemma {:induction false} UnvisitedWitness(graph: Adjacency, ids: set<string>, startNode: string,
                                            distances: map<string, Dist>, previous: map<string, Option<string>>,
                                            unvisited: seq<string>, rank: map<string, nat>, settled: nat,
                                            q: seq<string>)
    returns (y: string)
    requires Domains(graph, ids, distances, previous) && Partition(ids, unvisited, rank, settled)
    requires startNode in ids && distances[startNode] == Fin(0)
    requires VisitedSettled(graph, startNode, distances, rank) && EdgesRelaxed(graph, distances, unvisited, rank)
    requires IsPath(graph, q) && q[0] == startNode && q[|q| - 1] in unvisited
    ensures y in unvisited && distances[y].Fin? && distances[y].value <= PathWeight(graph, q)
    decreases |q|
  {
    if |q| == 1 {
      y := startNode;
    } else {
      var p := q[..|q| - 1];
      var u := q[|q| - 2];
      assert IsPath(graph, p) && p[|p| - 1] == u;
      if u in rank {
        assert IsPathFromTo(graph, p, startNode, u);
        y := q[|q| - 1];
      } else {
        y := UnvisitedWitness(graph, ids, startNode, distances, previous, unvisited, rank, settled, p);
      }
    }
  }

  /** The unvisited node of least tentative distance has its shortest distance. */
  lemma SelectedIsOptimal(graph: Adjacency, ids: set<string>, startNode: string, endNode: string,
                          distances: map<string, Dist>, previous: map<string, Option<string>>,
                          unvisited: seq<string>, rank: map<string, nat>, settled: nat, current: string)
    requires SearchInvariant(graph, ids, startNode, endNode, distances, previous, unvisited, rank, settled)
    requires current in unvisited && distances[current].Fin?
    requires forall v :: v in unvisited ==> !Less(distances[v], distances[current])
    ensures Settled(graph, startNode, current, distances[current].value)
  {
    forall q | IsPathFromTo(graph, q, startNode, current)
      ensures distances[current].value <= PathWeight(graph, q)
    {
      var y := UnvisitedWitness(graph, ids, startNode, distances, previous, unvisited, rank, settled, q);
    }
  }

  /** When every unvisited node is at Infinity, the destination cannot be reached. */
  lemma FrontierExhausted(graph: Adjacency, ids: set<string>, startNode: string, endNode: string,
                          distances: map<string, Dist>, previous: map<string, Option<string>>,
                          unvisited: seq<string>, rank: map<string, nat>, settled: nat)
    requires SearchInvariant(graph, ids, startNode, endNode, distances, previous, unvisited, rank, settled)
    requires forall v :: v in unvisited ==> distances[v].Inf?
    ensures !Reachable(graph, startNode, endNode)
  {
    forall q | IsPathFromTo(graph, q, startNode, endNode)
      ensures exists y :: y in unvisited && distances[y].Fin?
    {
      var y := UnvisitedWitness(graph, ids, startNode, distances, previous, unvisited, rank, settled, q);
    }
  }

  /** Visiting the selected node and relaxing its edges keeps the invariant. */
  lemma VisitPreserves(graph: Adjacency, ids: set<string>, startNode: string, endNode: string,
                       distances: map<string, Dist>, previous: map<string, Option<string>>,
                       unvisited: seq<string>, rank: map<string, nat>, settled: nat, current: string,
                       distances': map<string, Dist>, previous': map<string, Option<string>>)
    requires SearchInvariant(graph, ids, startNode, endNode, distances, previous, unvisited, rank, settled)
    requires current in unvisited && current != endNode && distances[current].Fin?
    requires Settled(graph, startNode, current, distances[current].value)
    requires RelaxedFrom(graph, current, Delete(unvisited, current), distances, previous, distances', previous')
    ensures SearchInvariant(graph, ids, startNode, endNode, distances', previous',
                            Delete(unvisited, current), rank[current := settled], settled + 1)
  {
    var remaining := Delete(unvisited, current);
    var rank' := rank[current := settled];
    assert Partition(ids, remaining, rank', settled + 1);
    assert !Improves(graph, current, remaining, distances, startNode);
    PredecessorsPreserved(graph, ids, startNode, distances, previous, unvisited, rank, settled,
                          current, distances', previous');
    SettledPreserved(graph, ids, startNode, distances, previous, unvisited, rank, settled, current, distances', previous');
    RelaxedPreserved(graph, ids, distances, previous, unvisited, rank, settled, current, distances', previous');
  }

  lemma PredecessorsPreserved(graph: Adjacency, ids: set<string>, startNode: string,
                              distances: map<string, Dist>, previous: map<string, Option<string>>,
                              unvisited: seq<string>, rank: map<string, nat>, settled: nat, current: string,
                              distances': map<string, Dist>, previous': map<string, Option<string>>)
    requires Domains(graph, ids, distances, previous) && Partition(ids, unvisited, rank, settled)
    requires PredecessorsOk(graph, ids, startNode, distances, previous, rank)
    requires current in unvisited && distances[current].Fin?
    requires RelaxedFrom(graph, current, Delete(unvisited, current), distances, previous, distances', previous')
    ensures Domains(graph, ids, distances', previous')
    ensures PredecessorsOk(graph, ids, startNode, distances', previous', rank[current := settled])
  {
    var remaining := Delete(unvisited, current);
    var rank' := rank[current := settled];
    forall v | v in ids && previous'[v].Some?
      ensures var u := previous'[v].value;
              && u in rank' && u in ids && distances'[u].Fin? && distances'[v].Fin? && v in graph[u]
              && distances'[v].value == distances'[u].value + graph[u][v]
              && (v in rank' ==> rank'[u] < rank'[v])
    {
      assert !Improves(graph, current, remaining, distances, current);
      if !Improves(graph, current, remaining, distances, v) {
        var u := previous[v].value;
        assert !Improves(graph, current, remaining, distances, u);
      }
    }
  }

  lemma SettledPreserved(graph: Adjacency, ids: set<string>, startNode: string,
                         distances: map<string, Dist>, previous: map<string, Option<string>>,
                         unvisited: seq<string>, rank: map<string, nat>, settled: nat, current: string,
                         distances': map<string, Dist>, previous': map<string, Option<string>>)
    requires Domains(graph, ids, distances, previous)
    requires forall v :: v in ids ==> (v in rank <==> v !in unvisited)
    requires VisitedSettled(graph, startNode, distances, rank)
    requires current in ids && current in unvisited && distances[current].Fin?
    requires Settled(graph, startNode, current, distances[current].value)
    requires RelaxedFrom(graph, current, Delete(unvisited, current), distances, previous, distances', previous')
    ensures forall v :: v in rank ==> distances'[v] == distances[v]
    ensures VisitedSettled(graph, startNode, distances', rank[current := settled])
  {
    var remaining := Delete(unvisited, current);
    assert !Improves(graph, current, remaining, distances, current);
    forall v | v in rank ensures distances'[v] == distances[v] {
      assert !Improves(graph, current, remaining, distances, v);
    }
  }

  lemma RelaxedPreserved(graph: Adjacency, ids: set<string>,
                         distances: map<string, Dist>, previous: map<string, Option<string>>,
                         unvisited: seq<string>, rank: map<string, nat>, settled: nat, current: string,
                         distances': map<string, Dist>, previous': map<string, Option<string>>)
    requires Domains(graph, ids, distances, previous) && Partition(ids, unvisited, rank, settled)
    requires EdgesRelaxed(graph, distances, unvisited, rank)
    requires current in unvisited && distances[current].Fin?
    requires RelaxedFrom(graph, current, Delete(unvisited, current), distances, previous, distances', previous')
    ensures EdgesRelaxed(graph, distances', Delete(unvisited, current), rank[current := settled])
  {
  }

  /** A suffix of the rebuilt path: it ends at the destination, follows the
      adjacency, and, when the destination is reachable, its first node's
      distance plus its weight is the destination's distance. */
  ghost predicate Walked(graph: Adjacency, endNode: string, distances: map<string, Dist>, path: seq<string>)
    requires distances.Keys == graph.Keys && endNode in distances
  {
    && |path| >= 1 && path[|path| - 1] == endNode && IsPath(graph, path)
    && (distances[endNode].Fin? ==>
          distances[path[0]].Fin? && distances[path[0]].value + PathWeight(graph, path) == distances[endNode].value)
    && (distances[endNode].Inf? ==> path == [endNode])
  }

  lemma ExtendWalk(graph: Adjacency, ids: set<string>, startNode: string, endNode: string,
                   distances: map<string, Dist>, previous: map<string, Option<string>>,
                   rank: map<string, nat>, path: seq<string>, current: string)
    requires Domains(graph, ids, distances, previous)
    requires PredecessorsOk(graph, ids, startNode, distances, previous, rank)
    requires endNode in ids && current in ids
    requires (path == [] && current == endNode) ||
             (path != [] && Walked(graph, endNode, distances, path) && previous[path[0]] == Some(current))
    ensures Walked(graph, endNode, distances, [current] + path)
  {
    if path != [] {
      PathWeightPrepend(graph, current, path);
    } else {
      assert IsPath(graph, [current]);
    }
  }

  /** Walks the predecessors back from the destination, putting each node in
      front of the path, until a node without predecessor. */
  method ReconstructPath(graph: Adjacency, previous: map<string, Option<string>>, endNode: string,
                         ghost ids: set<string>, ghost startNode: string, ghost distances: map<string, Dist>,
                         ghost rank: map<string, nat>, ghost settled: nat)
    returns (newPath: seq<string>)
    requires Domains(graph, ids, distances, previous)
    requires PredecessorsOk(graph, ids, startNode, distances, previous, rank)
    requires startNode in ids && distances[startNode] == Fin(0) && previous[startNode] == None
    requires endNode in ids && "" !in ids
    requires forall v :: v in rank ==> rank[v] < settled
    ensures |newPath| >= 1 && newPath[|newPath| - 1] == endNode
    ensures previous[endNode].None? ==> newPath == [endNode]
    ensures newPath[0] == startNode <==> distances[endNode].Fin?
    ensures distances[endNode].Fin? ==> IsPath(graph, newPath) && PathWeight(graph, newPath) == distances[endNode].value
  {
    newPath := [];
    var current := endNode;
    while current != ""
      invariant current != "" ==> current in ids
      invariant newPath == [] ==> current == endNode
      invariant newPath != [] ==> Walked(graph, endNode, distances, newPath)
      invariant newPath != [] && current != "" ==> previous[newPath[0]] == Some(current)
      invariant current == "" ==> newPath != [] && previous[newPath[0]].None?
      invariant previous[endNode].None? ==> newPath == []
      decreases if current == "" then 0 else if current in rank then rank[current] + 1 else settled + 1
    {
      ExtendWalk(graph, ids, startNode, endNode, distances, previous, rank, newPath, current);
      newPath := [current] + newPath;
      current := if previous[current].Some? then previous[current].value else "";
      if current == "" {
        break;
      }
    }
  }

  /** `findShortestPath`: the alert for a missing endpoint, Dijkstra's loop
      with early exit at the destination, and the rebuilt path, rejected
      unless it starts at the origin. */
  method FindShortestPath(nodes: seq<Node>, edges: seq<Edge>, startNode: string, endNode: string)
    returns (r: PathResult)
    requires EndpointsKnown(nodes, edges)
    requires "" !in NodeIds(nodes)
    requires startNode == "" || startNode in NodeIds(nodes)
    requires endNode == "" || endNode in NodeIds(nodes)
    ensures r.MissingEndpoint? <==> startNode == "" || endNode == ""
    ensures r.Found? ==> IsShortest(AdjacencyOf(NodeIds(nodes), edges), r.path, r.distance, startNode, endNode)
    ensures r.NoPath? <==> startNode != "" && endNode != "" && !Reachable(AdjacencyOf(NodeIds(nodes), edges), startNode, endNode)
    ensures startNode != "" && startNode == endNode ==> r == Found([startNode], 0)
  {
    if startNode == "" || endNode == "" {
      return MissingEndpoint;
    }
    var graph := BuildAdjacency(nodes, edges);
    ghost var ids := NodeIds(nodes);
    var distances, previous, unvisited := Initialise(nodes, startNode);
    ghost var rank: map<string, nat> := map[];
    ghost var settled: nat := 0;
    while |unvisited| > 0
      invariant SearchInvariant(graph, ids, startNode, endNode, distances, previous, unvisited, rank, settled)
      decreases |unvisited|
    {
      var current := SelectMin(unvisited, distances);
      if current.None? {
        FrontierExhausted(graph, ids, startNode, endNode, distances, previous, unvisited, rank, settled);
        break;
      }
      var c := current.value;
      SelectedIsOptimal(graph, ids, startNode, endNode, distances, previous, unvisited, rank, settled, c);
      if c == endNode {
        break;
      }
      ghost var before := unvisited;
      unvisited := Delete(unvisited, c);
      var distances', previous' := RelaxNeighbors(graph, c, unvisited, distances, previous);
      VisitPreserves(graph, ids, startNode, endNode, distances, previous, before, rank, settled, c, distances', previous');
      distances, previous := distances', previous';
      rank, settled := rank[c := settled], settled + 1;
    }
    var newPath := ReconstructPath(graph, previous, endNode, ids, startNode, distances, rank, settled);
    if newPath[0] != startNode {
      return NoPath;
    }
    return Found(newPath, distances[endNode].value);
  }

  /** The graph is undirected: t is reachable from s exactly when s is
      reachable from t, and both directions have the same shortest distance. */
  lemma ReachableSymmetric(ids: set<string>, edges: seq<Edge>, s: string, t: string)
    ensures Reachable(AdjacencyOf(ids, edges), s, t) <==> Reachable(AdjacencyOf(ids, edges), t, s)
  {
    var g := AdjacencyOf(ids, edges);
    AdjacencySymmetric(ids, edges);
    forall a, b | Reachable(g, a, b) ensures Reachable(g, b, a) {
      var p :| IsPathFromTo(g, p, a, b);
      ReversePath(g, p);
      assert IsPathFromTo(g, Reverse(p), b, a);
    }
  }

  lemma ShortestDistanceSymmetric(ids: set<string>, edges: seq<Edge>, p: seq<string>, d: nat,
                                  q: seq<string>, e: nat, s: string, t: string)
    requires IsShortest(AdjacencyOf(ids, edges), p, d, s, t)
    requires IsShortest(AdjacencyOf(ids, edges), q, e, t, s)
    ensures d == e
  {
    var g := AdjacencyOf(ids, edges);
    AdjacencySymmetric(ids, edges);
    ReversePath(g, p);
    ReversePath(g, q);
    assert IsPathFromTo(g, Reverse(p), t, s);
    assert IsPathFromTo(g, Reverse(q), s, t);
  }

  /** A potential assigns each node a number that no edge decreases by more
      than its weight; it certifies lower bounds on path weights. */
  ghost predicate Potential(g: Adjacency, phi: map<string, nat>)
  {
    && (forall u :: u in g ==> u in phi)
    && (forall u, v :: u in g && v in g[u] && v in phi ==> phi[v] <= phi[u] + g[u][v])
  }

  lemma {:induction false} PotentialBound(g: Adjacency, phi: map<string, nat>, p: seq<string>)
    requires Potential(g, phi) && IsPath(g, p)
    ensures phi[p[|p| - 1]] <= phi[p[0]] + PathWeight(g, p)
    decreases |p|
  {
    if |p| > 1 {
      var init := p[..|p| - 1];
      assert IsPath(g, init);
      PotentialBound(g, phi, init);
    }
  }

  /** A potential that is 0 at s and d at t shows that no path from s to t
      weighs less than d. */
  lemma PotentialSettles(g: Adjacency, phi: map<string, nat>, s: string, t: string)
    requires Potential(g, phi) && s in phi && t in phi && phi[s] == 0
    ensures Settled(g, s, t, phi[t])
  {
    forall q | IsPathFromTo(g, q, s, t) ensures phi[t] <= PathWeight(g, q) {
      PotentialBound(g, phi, q);
    }
  }

  /** A potential that no edge of the list breaks, in either direction, is a
      potential of the adjacency built from that list. */
  lemma EdgesGivePotential(ids: set<string>, edges: seq<Edge>, phi: map<string, nat>)
    requires forall u :: u in ids ==> u in phi
    requires forall e :: e in edges && e.source in phi && e.target in phi ==>
               phi[e.target] <= phi[e.source] + e.weight && phi[e.source] <= phi[e.target] + e.weight
    ensures Potential(AdjacencyOf(ids, edges), phi)
  {
    var g := AdjacencyOf(ids, edges);
    forall u, v | u in g && v in g[u] && v in phi ensures phi[v] <= phi[u] + g[u][v] {
      var i :| 0 <= i < |edges| && Joins(edges[i], u, v) && edges[i].weight == g[u][v];
      assert edges[i] in edges;
    }
  }

  /** A path whose weight is only the rise of a potential along it follows
      tight edges only: each edge's weight is exactly that rise. */
  lemma {:induction false} TightPath(g: Adjacency, phi: map<string, nat>, p: seq<string>)
    requires Potential(g, phi) && IsPath(g, p)
    requires phi[p[0]] + PathWeight(g, p) <= phi[p[|p| - 1]]
    ensures forall i :: 0 <= i < |p| - 1 ==> phi[p[i + 1]] == phi[p[i]] + g[p[i]][p[i + 1]]
    decreases |p|
  {
    if |p| > 1 {
      var init := p[..|p| - 1];
      assert IsPath(g, init);
      PotentialBound(g, phi, init);
      TightPath(g, phi, init);
      forall i | 0 <= i < |p| - 1 ensures phi[p[i + 1]] == phi[p[i]] + g[p[i]][p[i + 1]] {
        if i < |p| - 2 {
          assert p[i] == init[i] && p[i + 1] == init[i + 1];
        }
      }
    }
  }

  /** Distances that no edge of the list breaks, in either direction, and
      that are 0 at s, bound every path from s in the built adjacency. */
  lemma SettledByEdges(ids: set<string>, edges: seq<Edge>, phi: map<string, nat>, s: string, t: string)
    requires forall u :: u in ids ==> u in phi
    requires forall e :: e in edges && e.source in phi && e.target in phi ==>
               phi[e.target] <= phi[e.source] + e.weight && phi[e.source] <= phi[e.target] + e.weight
    requires s in phi && t in phi && phi[s] == 0
    ensures Settled(AdjacencyOf(ids, edges), s, t, phi[t])
  {
    EdgesGivePotential(ids, edges, phi);
    PotentialSettles(AdjacencyOf(ids, edges), phi, s, t);
  }
}

/** The optional-value wrapper used for `null` predecessors and for the
    "no node selected" outcome of the minimum scan. */
module Options {
  datatype Option<+T> = None | Some(value: T)
}

/** The graph data of the Graph component: nodes, weighted undirected edges,
    the adjacency record built from them, and paths through that record. */
module Graphs {
  import opened Options

  /** A node: its identifier key, display name and layout coordinates. */
  datatype Node = Node(id: string, name: string, x: int, y: int)

  /** An undirected edge between two node identifiers. */
  datatype Edge = Edge(source: string, target: string, weight: nat)

  /** `graph[a][b]` is the weight of the edge between a and b. */
  type Adjacency = map<string, map<string, nat>>

  function Ids(nodes: seq<Node>): seq<string>
  {
    seq(|nodes|, i requires 0 <= i < |nodes| => nodes[i].id)
  }

  function NodeIds(nodes: seq<Node>): set<string>
  {
    set n | n in nodes :: n.id
  }

  /** Every edge names nodes of the graph (otherwise the source's adjacency
      build dereferences a missing record). */
  predicate EndpointsKnown(nodes: seq<Node>, edges: seq<Edge>)
  {
    forall e :: e in edges ==> e.source in NodeIds(nodes) && e.target in NodeIds(nodes)
  }

  /** Edge `e` joins a and b, in either orientation. */
  predicate Joins(e: Edge, a: string, b: string)
  {
    (e.source == a && e.target == b) || (e.source == b && e.target == a)
  }

  /** The weight the adjacency holds for a -> b after all edges have been
      written: that of the LAST edge joining a and b, if any. */
  function LastWeight(edges: seq<Edge>, a: string, b: string): (r: Option<nat>)
    ensures r.Some? <==> exists i :: 0 <= i < |edges| && Joins(edges[i], a, b)
    ensures r.Some? ==> exists i :: 0 <= i < |edges| && Joins(edges[i], a, b) && edges[i].weight == r.value &&
                                    forall j :: i < j < |edges| ==> !Joins(edges[j], a, b)
  {
    if edges == [] then None
    else
      var k := |edges| - 1;
      if Joins(edges[k], a, b) then Some(edges[k].weight)
      else
        var r := LastWeight(edges[..k], a, b);
        assert forall i :: 0 <= i < k ==> edges[..k][i] == edges[i];
        r
  }

  /** The adjacency record the source builds: one entry per node, and for
      each node the neighbours joined to it by some edge. */
  function AdjacencyOf(ids: set<string>, edges: seq<Edge>): (g: Adjacency)
    ensures g.Keys == ids
    ensures forall a :: a in g ==> g[a].Keys <= ids
  {
    map a | a in ids :: map b | b in ids && LastWeight(edges, a, b).Some? :: LastWeight(edges, a, b).value
  }

  ghost predicate Symmetric(g: Adjacency)
  {
    forall a, b :: a in g && b in g[a] ==> b in g && a in g[b] && g[b][a] == g[a][b]
  }

  /** `graph` holds exactly the entries written by the edges of `written`. */
  ghost predicate Holds(graph: Adjacency, ids: set<string>, written: seq<Edge>)
  {
    && graph.Keys == ids
    && (forall a, b :: a in graph ==> (b in graph[a] <==> b in ids && LastWeight(written, a, b).Some?))
    && (forall a, b :: a in graph && b in graph[a] ==> graph[a][b] == LastWeight(written, a, b).value)
  }

  /** Builds the adjacency record: an empty record per node, then both
      directions of every edge in list order. */
  method BuildAdjacency(nodes: seq<Node>, edges: seq<Edge>) returns (graph: Adjacency)
    requires EndpointsKnown(nodes, edges)
    ensures graph == AdjacencyOf(NodeIds(nodes), edges)
  {
    graph := map[];
    for i := 0 to |nodes|
      invariant graph.Keys == NodeIds(nodes[..i])
      invariant forall a :: a in graph ==> graph[a] == map[]
    {
      assert nodes[..i + 1] == nodes[..i] + [nodes[i]];
      graph := graph[nodes[i].id := map[]];
    }
    assert nodes[..|nodes|] == nodes;
    ghost var ids := NodeIds(nodes);
    assert Holds(graph, ids, edges[..0]);
    for j := 0 to |edges|
      invariant Holds(graph, ids, edges[..j])
    {
      var edge := edges[j];
      assert edge in edges;
      ghost var before := graph;
      graph := Write(graph, edge.source, edge.target, edge.weight);
      graph := Write(graph, edge.target, edge.source, edge.weight);
      WriteEdge(before, graph, ids, edges, j);
    }
    assert edges[..|edges|] == edges;
    HoldsIsAdjacency(graph, ids, edges);
  }

  /** `graph[a][b] = w` on a record whose entry for `a` exists. */
  function Write(graph: Adjacency, a: string, b: string, w: nat): (r: Adjacency)
    requires a in graph
    ensures r.Keys == graph.Keys && b in r[a] && r[a][b] == w
    ensures forall u :: u in graph && u != a ==> r[u] == graph[u]
    ensures r[a].Keys == graph[a].Keys + {b}
    ensures forall v :: v in graph[a] && v != b ==> r[a][v] == graph[a][v]
  {
    var row: map<string, nat> := graph[a];
    graph[a := row[b := w]]
  }

  lemma WriteEdge(before: Adjacency, after: Adjacency, ids: set<string>, edges: seq<Edge>, j: nat)
    requires j < |edges| && edges[j].source in ids && edges[j].target in ids
    requires Holds(before, ids, edges[..j])
    requires var e := edges[j];
             after == Write(Write(before, e.source, e.target, e.weight), e.target, e.source, e.weight)
    ensures Holds(after, ids, edges[..j + 1])
  {
    var e := edges[j];
    var mid := Write(before, e.source, e.target, e.weight);
    assert edges[..j + 1][..j] == edges[..j];
    forall a, b | a in after
      ensures b in after[a] <==> b in ids && LastWeight(edges[..j + 1], a, b).Some?
      ensures b in after[a] ==> after[a][b] == LastWeight(edges[..j + 1], a, b).value
    {
      if Joins(e, a, b) {
        assert LastWeight(edges[..j + 1], a, b) == Some(e.weight);
        assert b in after[a] && after[a][b] == e.weight;
      } else {
        assert LastWeight(edges[..j + 1], a, b) == LastWeight(edges[..j], a, b);
        assert (b in mid[a]) == (b in before[a]) && (b in mid[a] ==> mid[a][b] == before[a][b]);
        assert (b in after[a]) == (b in mid[a]) && (b in after[a] ==> after[a][b] == mid[a][b]);
      }
    }
  }

  lemma HoldsIsAdjacency(graph: Adjacency, ids: set<string>, edges: seq<Edge>)
    requires Holds(graph, ids, edges)
    ensures graph == AdjacencyOf(ids, edges)
  {
    var spec := AdjacencyOf(ids, edges);
    forall a | a in graph ensures graph[a] == spec[a] {
      assert graph[a].Keys == spec[a].Keys;
    }
  }

  /** The weight written for a -> b is the one written for b -> a. */
  lemma {:induction false} LastWeightSymmetric(edges: seq<Edge>, a: string, b: string)
    ensures LastWeight(edges, a, b) == LastWeight(edges, b, a)
  {
    if edges != [] {
      LastWeightSymmetric(edges[..|edges| - 1], a, b);
    }
  }

  /** The adjacency built from any edge list is symmetric. */
  lemma AdjacencySymmetric(ids: set<string>, edges: seq<Edge>)
    ensures Symmetric(AdjacencyOf(ids, edges))
  {
    var g := AdjacencyOf(ids, edges);
    forall a, b | a in g && b in g[a] ensures b in g && a in g[b] && g[b][a] == g[a][b] {
      LastWeightSymmetric(edges, a, b);
    }
  }

  /** An edge that no later edge re-joins fixes the weight in both directions. */
  lemma LaterEdgeWins(ids: set<string>, edges: seq<Edge>, i: nat)
    requires i < |edges| && edges[i].source in ids && edges[i].target in ids
    requires forall j :: i < j < |edges| ==> !Joins(edges[j], edges[i].source, edges[i].target)
    ensures var g := AdjacencyOf(ids, edges);
            edges[i].target in g[edges[i].source] && g[edges[i].source][edges[i].target] == edges[i].weight &&
            edges[i].source in g[edges[i].target] && g[edges[i].target][edges[i].source] == edges[i].weight
  {
    var s, t := edges[i].source, edges[i].target;
    LastWeightIs(edges, i, s, t);
    LastWeightIs(edges, i, t, s);
  }

  lemma {:induction false} LastWeightIs(edges: seq<Edge>, i: nat, a: string, b: string)
    requires i < |edges| && Joins(edges[i], a, b)
    requires forall j :: i < j < |edges| ==> !Joins(edges[j], a, b)
    ensures LastWeight(edges, a, b) == Some(edges[i].weight)
  {
    var k := |edges| - 1;
    if i < k {
      assert forall j :: i < j < k ==> edges[..k][j] == edges[j];
      LastWeightIs(edges[..k], i, a, b);
    }
  }

  /** A walk in the adjacency record: every step follows an entry. */
  predicate IsPath(g: Adjacency, p: seq<string>)
  {
    && |p| >= 1
    && (forall i :: 0 <= i < |p| ==> p[i] in g)
    && (forall i :: 0 <= i < |p| - 1 ==> p[i + 1] in g[p[i]])
  }

  predicate IsPathFromTo(g: Adjacency, p: seq<string>, s: string, t: string)
  {
    IsPath(g, p) && p[0] == s && p[|p| - 1] == t
  }

  /** The sum of the edge weights along a path. */
  function PathWeight(g: Adjacency, p: seq<string>): nat
    requires IsPath(g, p)
    decreases |p|
  {
    if |p| == 1 then 0
    else
      assert IsPath(g, p[..|p| - 1]);
      PathWeight(g, p[..|p| - 1]) + g[p[|p| - 2]][p[|p| - 1]]
  }

  /** Putting a node in front of a path adds the weight of the new first edge. */
  lemma {:induction false} PathWeightPrepend(g: Adjacency, u: string, p: seq<string>)
    requires IsPath(g, p) && u in g && p[0] in g[u]
    ensures IsPath(g, [u] + p)
    ensures PathWeight(g, [u] + p) == g[u][p[0]] + PathWeight(g, p)
    decreases |p|
  {
    var q := [u] + p;
    assert forall i :: 0 <= i < |q| - 1 ==> q[i + 1] in g[q[i]] by {
      forall i | 0 <= i < |q| - 1 ensures q[i + 1] in g[q[i]] {
        if i > 0 { assert q[i] == p[i - 1] && q[i + 1] == p[i]; }
      }
    }
    if |p| > 1 {
      var init := p[..|p| - 1];
      assert IsPath(g, init);
      PathWeightPrepend(g, u, init);
      assert q[..|q| - 1] == [u] + init;
    }
  }

  /** A single edge is a path of its weight. */
  lemma OneEdgePath(g: Adjacency, a: string, b: string)
    requires a in g && b in g && b in g[a]
    ensures IsPath(g, [a, b]) && PathWeight(g, [a, b]) == g[a][b]
  {
    assert [a, b][..1] == [a];
  }

  /** Two edges in a row are a path of their summed weight. */
  lemma TwoEdgePath(g: Adjacency, a: string, b: string, c: string)
    requires a in g && b in g && c in g && b in g[a] && c in g[b]
    ensures IsPath(g, [a, b, c]) && PathWeight(g, [a, b, c]) == g[a][b] + g[b][c]
  {
    OneEdgePath(g, a, b);
    assert [a, b, c][..2] == [a, b];
  }

  function Reverse(p: seq<string>): (r: seq<string>)
    ensures |r| == |p| && forall i :: 0 <= i < |p| ==> r[i] == p[|p| - 1 - i]
  {
    if p == [] then [] else Reverse(p[1..]) + [p[0]]
  }

  /** In a symmetric adjacency a path read backwards is a path of the same
      weight, so the shortest distance does not depend on the direction. */
  lemma {:induction false} ReversePath(g: Adjacency, p: seq<string>)
    requires Symmetric(g) && IsPath(g, p)
    ensures IsPath(g, Reverse(p)) && PathWeight(g, Reverse(p)) == PathWeight(g, p)
    decreases |p|
  {
    if |p| > 1 {
      var init := p[..|p| - 1];
      var last := p[|p| - 1];
      assert IsPath(g, init);
      ReversePath(g, init);
      assert Reverse(p) == [last] + Reverse(init);
      assert init[|init| - 1] in g[last];
      PathWeightPrepend(g, last, Reverse(init));
    }
  }

  /** `Math.floor(Math.random() * 300) + 10` for a draw in [0, 1). */
  function RandomWeight(draw: real): (w: nat)
    requires 0.0 <= draw < 1.0
    ensures 10 <= w <= 309
  {
    assert 0.0 <= draw * 300.0 < 300.0;
    (draw * 300.0).Floor + 10
  }

  /** `generateRandomWeights`: every edge keeps its endpoints and takes the
      weight of its own draw. */
  function GenerateRandomWeights(edges: seq<Edge>, draws: seq<real>): (r: seq<Edge>)
    requires |draws| == |edges|
    requires forall i :: 0 <= i < |draws| ==> 0.0 <= draws[i] < 1.0
    ensures |r| == |edges|
    ensures forall i :: 0 <= i < |r| ==> r[i].source == edges[i].source && r[i].target == edges[i].target
    ensures forall i :: 0 <= i < |r| ==> 10 <= r[i].weight <= 309 && r[i].weight == RandomWeight(draws[i])
  {
    seq(|edges|, i requires 0 <= i < |edges| => edges[i].(weight := RandomWeight(draws[i])))
  }

  /** New weights keep the shape of the graph: the same pairs are adjacent
      before and after, and every adjacency entry is one of the new weights. */
  lemma {:induction false} RandomWeightsKeepShape(edges: seq<Edge>, draws: seq<real>, a: string, b: string)
    requires |draws| == |edges|
    requires forall i :: 0 <= i < |draws| ==> 0.0 <= draws[i] < 1.0
    ensures var w := LastWeight(GenerateRandomWeights(edges, draws), a, b);
            w.Some? == LastWeight(edges, a, b).Some? && (w.Some? ==> 10 <= w.value <= 309)
  {
    var r := GenerateRandomWeights(edges, draws);
    assert forall i :: 0 <= i < |edges| ==> (Joins(r[i], a, b) <==> Joins(edges[i], a, b));
  }
}

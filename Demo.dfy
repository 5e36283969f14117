/** The five nodes and eight edges the Graph component starts with, and the
    shortest paths the search finds on them. */
module DemoGraph {
  import opened Options
  import opened Graphs
  import opened ShortestPath

  function DemoNodes(): seq<Node>
  {
    [ Node("afrodite", "Afrodite", 400, 100),
      Node("zeus", "Zeus", 400, 300),
      Node("atena", "Atena", 200, 300),
      Node("hefesto", "Hefesto", 600, 300),
      Node("hermes", "Hermes", 400, 500) ]
  }

  function DemoEdges(): seq<Edge>
  {
    [ Edge("afrodite", "zeus", 10),
      Edge("afrodite", "atena", 150),
      Edge("afrodite", "hefesto", 120),
      Edge("zeus", "atena", 320),
      Edge("zeus", "hefesto", 70),
      Edge("zeus", "hermes", 180),
      Edge("atena", "hermes", 200),
      Edge("hefesto", "hermes", 250) ]
  }

  function DemoIds(): set<string>
  {
    {"afrodite", "zeus", "atena", "hefesto", "hermes"}
  }

  lemma DemoWellFormed()
    ensures NodeIds(DemoNodes()) == DemoIds()
    ensures EndpointsKnown(DemoNodes(), DemoEdges())
    ensures "" !in NodeIds(DemoNodes())
  {
    var ns := DemoNodes();
    assert ns[0].id == "afrodite" && ns[1].id == "zeus" && ns[2].id == "atena" && ns[3].id == "hefesto" && ns[4].id == "hermes";
    assert forall n :: n in ns ==> n.id in DemoIds();
  }

  /** The shortest distances from afrodite on the built-in data. */
  function DistancesFromAfrodite(): map<string, nat>
  {
    map["afrodite" := 0, "zeus" := 10, "hefesto" := 80, "atena" := 150, "hermes" := 190]
  }

  /** No built-in edge changes the distance from afrodite by more than its weight. */
  lemma AfroditeFeasible()
    ensures forall u :: u in DemoIds() ==> u in DistancesFromAfrodite()
    ensures var phi := DistancesFromAfrodite();
            forall e :: e in DemoEdges() && e.source in phi && e.target in phi ==>
              phi[e.target] <= phi[e.source] + e.weight && phi[e.source] <= phi[e.target] + e.weight
  {
  }

  lemma AfroditePotential()
    ensures Potential(AdjacencyOf(DemoIds(), DemoEdges()), DistancesFromAfrodite())
  {
    EdgesGivePotential(DemoIds(), DemoEdges(), DistancesFromAfrodite());
  }

  /** The adjacency entries the routes below use: each of these edges is
      the only one joining its endpoints. */
  lemma AfroditeZeus()
    ensures var g := AdjacencyOf(DemoIds(), DemoEdges()); "zeus" in g["afrodite"] && g["afrodite"]["zeus"] == 10
  {
    LaterEdgeWins(DemoIds(), DemoEdges(), 0);
  }

  lemma AfroditeAtena()
    ensures var g := AdjacencyOf(DemoIds(), DemoEdges()); "atena" in g["afrodite"] && g["afrodite"]["atena"] == 150
  {
    LaterEdgeWins(DemoIds(), DemoEdges(), 1);
  }

  lemma ZeusHermes()
    ensures var g := AdjacencyOf(DemoIds(), DemoEdges()); "hermes" in g["zeus"] && g["zeus"]["hermes"] == 180
  {
    LaterEdgeWins(DemoIds(), DemoEdges(), 5);
  }

  /** afrodite, zeus, hermes is a route of weight 10 + 180. */
  lemma RouteThroughZeus()
    ensures var g := AdjacencyOf(DemoIds(), DemoEdges());
            IsPath(g, ["afrodite", "zeus", "hermes"]) && PathWeight(g, ["afrodite", "zeus", "hermes"]) == 190
  {
    AfroditeZeus();
    ZeusHermes();
    var g := AdjacencyOf(DemoIds(), DemoEdges());
    assert "afrodite" in g && "zeus" in g && "hermes" in g;
    TwoEdgePath(g, "afrodite", "zeus", "hermes");
  }

  /** afrodite, atena is a route of weight 150. */
  lemma DirectToAtena()
    ensures var g := AdjacencyOf(DemoIds(), DemoEdges());
            IsPath(g, ["afrodite", "atena"]) && PathWeight(g, ["afrodite", "atena"]) == 150
  {
    AfroditeAtena();
    var g := AdjacencyOf(DemoIds(), DemoEdges());
    assert "afrodite" in g && "atena" in g;
    OneEdgePath(g, "afrodite", "atena");
  }

  /** No route from afrodite to hermes weighs less than 190. */
  lemma NothingShorterToHermes()
    ensures Settled(AdjacencyOf(DemoIds(), DemoEdges()), "afrodite", "hermes", 190)
  {
    var phi := DistancesFromAfrodite();
    AfroditeFeasible();
    assert phi["afrodite"] == 0 && phi["hermes"] == 190;
    SettledByEdges(DemoIds(), DemoEdges(), phi, "afrodite", "hermes");
  }

  /** No route from afrodite to atena weighs less than 150. */
  lemma NothingShorterToAtena()
    ensures Settled(AdjacencyOf(DemoIds(), DemoEdges()), "afrodite", "atena", 150)
  {
    var phi := DistancesFromAfrodite();
    AfroditeFeasible();
    assert phi["afrodite"] == 0 && phi["atena"] == 150;
    SettledByEdges(DemoIds(), DemoEdges(), phi, "afrodite", "atena");
  }

  /** The edges on which the distances from afrodite rise by exactly the
      weight, in the direction they rise. */
  predicate TightPair(u: string, v: string)
  {
    || (u == "afrodite" && v == "zeus")
    || (u == "afrodite" && v == "atena")
    || (u == "zeus" && v == "hefesto")
    || (u == "zeus" && v == "hermes")
  }

  lemma TightEdge(u: string, v: string, i: nat)
    requires i < |DemoEdges()| && Joins(DemoEdges()[i], u, v)
    requires u in DistancesFromAfrodite() && v in DistancesFromAfrodite()
    requires DistancesFromAfrodite()[v] == DistancesFromAfrodite()[u] + DemoEdges()[i].weight
    ensures TightPair(u, v)
  {
  }

  lemma TightStep(u: string, v: string)
    requires var g := AdjacencyOf(DemoIds(), DemoEdges()); u in g && v in g[u]
    requires u in DistancesFromAfrodite() && v in DistancesFromAfrodite()
    requires DistancesFromAfrodite()[v] == DistancesFromAfrodite()[u] + AdjacencyOf(DemoIds(), DemoEdges())[u][v]
    ensures TightPair(u, v)
  {
    var edges := DemoEdges();
    var w := LastWeight(edges, u, v);
    var i :| 0 <= i < |edges| && Joins(edges[i], u, v) && edges[i].weight == w.value;
    TightEdge(u, v, i);
  }

  /** From afrodite to hermes the shortest route goes through zeus and weighs 190. */
  lemma AfroditeToHermes()
    ensures IsShortest(AdjacencyOf(DemoIds(), DemoEdges()), ["afrodite", "zeus", "hermes"], 190, "afrodite", "hermes")
  {
    RouteThroughZeus();
    NothingShorterToHermes();
  }

  /** From afrodite to atena the direct edge of weight 150 is shortest. */
  lemma AfroditeToAtena()
    ensures IsShortest(AdjacencyOf(DemoIds(), DemoEdges()), ["afrodite", "atena"], 150, "afrodite", "atena")
  {
    DirectToAtena();
    NothingShorterToAtena();
  }

  /** In `g`, the distances from afrodite rise by exactly the weight only
      along the tight pairs. */
  ghost predicate TightOnlyOnPairs(g: Adjacency)
  {
    var phi := DistancesFromAfrodite();
    forall u, v :: u in g && v in g[u] && u in phi && v in phi && phi[v] == phi[u] + g[u][v] ==> TightPair(u, v)
  }

  lemma BuiltInTightPairs()
    ensures TightOnlyOnPairs(AdjacencyOf(DemoIds(), DemoEdges()))
  {
    var g := AdjacencyOf(DemoIds(), DemoEdges());
    var phi := DistancesFromAfrodite();
    forall u, v | u in g && v in g[u] && u in phi && v in phi && phi[v] == phi[u] + g[u][v] ensures TightPair(u, v) {
      TightStep(u, v);
    }
  }

  /** In any adjacency with this potential and these tight pairs, a route
      from afrodite to hermes no heavier than 190 is afrodite, zeus, hermes. */
  lemma OnlyRouteToHermesIn(g: Adjacency, p: seq<string>)
    requires Potential(g, DistancesFromAfrodite()) && TightOnlyOnPairs(g)
    requires IsPathFromTo(g, p, "afrodite", "hermes") && PathWeight(g, p) <= 190
    ensures p == ["afrodite", "zeus", "hermes"]
  {
    var phi := DistancesFromAfrodite();
    assert phi["afrodite"] == 0 && phi["hermes"] == 190;
    TightPath(g, phi, p);
    var n := |p|;
    assert n >= 2;
    assert TightPair(p[n - 2], p[n - 1]);
    assert n >= 3;
    assert TightPair(p[n - 3], p[n - 2]);
    assert forall i :: 0 <= i < n - 1 ==> TightPair(p[i], p[i + 1]);
    forall i | 0 < i < n ensures p[i] != "afrodite" {
      assert TightPair(p[i - 1], p[i]);
    }
    assert n == 3;
    assert p == [p[0], p[1], p[2]];
  }

  lemma OnlyRouteToAtenaIn(g: Adjacency, p: seq<string>)
    requires Potential(g, DistancesFromAfrodite()) && TightOnlyOnPairs(g)
    requires IsPathFromTo(g, p, "afrodite", "atena") && PathWeight(g, p) <= 150
    ensures p == ["afrodite", "atena"]
  {
    var phi := DistancesFromAfrodite();
    assert phi["afrodite"] == 0 && phi["atena"] == 150;
    TightPath(g, phi, p);
    var n := |p|;
    assert n >= 2;
    assert TightPair(p[n - 2], p[n - 1]);
    assert forall i :: 0 <= i < n - 1 ==> TightPair(p[i], p[i + 1]);
    forall i | 0 < i < n ensures p[i] != "afrodite" {
      assert TightPair(p[i - 1], p[i]);
    }
    assert n == 2;
    assert p == [p[0], p[1]];
  }

  /** On the built-in graph, [afrodite, zeus, hermes] is the only route from
      afrodite to hermes no heavier than 190. */
  lemma OnlyRouteToHermes(p: seq<string>)
    requires IsPathFromTo(AdjacencyOf(DemoIds(), DemoEdges()), p, "afrodite", "hermes")
    requires PathWeight(AdjacencyOf(DemoIds(), DemoEdges()), p) <= 190
    ensures p == ["afrodite", "zeus", "hermes"]
  {
    AfroditePotential();
    BuiltInTightPairs();
    OnlyRouteToHermesIn(AdjacencyOf(DemoIds(), DemoEdges()), p);
  }

  /** On the built-in graph, [afrodite, atena] is the only route from
      afrodite to atena no heavier than 150. */
  lemma OnlyRouteToAtena(p: seq<string>)
    requires IsPathFromTo(AdjacencyOf(DemoIds(), DemoEdges()), p, "afrodite", "atena")
    requires PathWeight(AdjacencyOf(DemoIds(), DemoEdges()), p) <= 150
    ensures p == ["afrodite", "atena"]
  {
    AfroditePotential();
    BuiltInTightPairs();
    OnlyRouteToAtenaIn(AdjacencyOf(DemoIds(), DemoEdges()), p);
  }

  /** Any result meeting the search's contract for afrodite to hermes on the
      built-in data is [afrodite, zeus, hermes] at 190. */
  lemma HermesResult(r: PathResult)
    requires !r.MissingEndpoint?
    requires r.Found? ==> IsShortest(AdjacencyOf(DemoIds(), DemoEdges()), r.path, r.distance, "afrodite", "hermes")
    requires r.NoPath? <==> !Reachable(AdjacencyOf(DemoIds(), DemoEdges()), "afrodite", "hermes")
    ensures r == Found(["afrodite", "zeus", "hermes"], 190)
  {
    RouteThroughZeus();
    var route := ["afrodite", "zeus", "hermes"];
    assert IsPathFromTo(AdjacencyOf(DemoIds(), DemoEdges()), route, "afrodite", "hermes");
    assert r.distance <= PathWeight(AdjacencyOf(DemoIds(), DemoEdges()), route);
    OnlyRouteToHermes(r.path);
  }

  /** Any result meeting the search's contract for afrodite to atena on the
      built-in data is [afrodite, atena] at 150. */
  lemma AtenaResult(r: PathResult)
    requires !r.MissingEndpoint?
    requires r.Found? ==> IsShortest(AdjacencyOf(DemoIds(), DemoEdges()), r.path, r.distance, "afrodite", "atena")
    requires r.NoPath? <==> !Reachable(AdjacencyOf(DemoIds(), DemoEdges()), "afrodite", "atena")
    ensures r == Found(["afrodite", "atena"], 150)
  {
    DirectToAtena();
    var route := ["afrodite", "atena"];
    assert IsPathFromTo(AdjacencyOf(DemoIds(), DemoEdges()), route, "afrodite", "atena");
    assert r.distance <= PathWeight(AdjacencyOf(DemoIds(), DemoEdges()), route);
    OnlyRouteToAtena(r.path);
  }

  /** The search of the component on its built-in data, from afrodite to hermes. */
  method SearchAfroditeToHermes() returns (r: PathResult)
    ensures r == Found(["afrodite", "zeus", "hermes"], 190)
  {
    DemoWellFormed();
    r := FindShortestPath(DemoNodes(), DemoEdges(), "afrodite", "hermes");
    HermesResult(r);
  }

  /** The search of the component on its built-in data, from afrodite to atena. */
  method SearchAfroditeToAtena() returns (r: PathResult)
    ensures r == Found(["afrodite", "atena"], 150)
  {
    DemoWellFormed();
    r := FindShortestPath(DemoNodes(), DemoEdges(), "afrodite", "atena");
    AtenaResult(r);
  }
}

/**
 * The weighted, undirected road map of the route-finding programs: every
 * node has a heuristic estimate of its distance to the goal, a list of
 * neighbours in the order its edges were added, and every edge a cost
 * stored for both directions. Both route programs build the same map.
 */
module RouteGraph {
  import opened Seqs
  import opened Paths

  type Name = string

  /** `Integer.MAX_VALUE`: the cost of a pair that is not an edge, and the
      g-score of a node that has none yet. */
  const IntMax: int := 0x7fff_ffff

  /** The `Graph` class. The cost table is keyed by the ordered pair of
      names; the Java key is the string CostKey, see StrayCost. */
  datatype Graph = Graph(h: map<Name, int>, adj: map<Name, seq<Name>>, cost: map<(Name, Name), int>)

  const Empty: Graph := Graph(map[], map[], map[])

  /** What every map built from Empty by AddNode and AddEdge satisfies:
      the nodes with a heuristic are the nodes with a neighbour list, every
      neighbour is a node that lists the first back, and the costs are
      stored for exactly the neighbour pairs, alike in both directions. */
  predicate Valid(g: Graph)
  {
    g.adj.Keys == g.h.Keys && Mutual(g) && Listed(g) && Symmetric(g)
  }

  /** Every neighbour is a node that lists the first back, with a cost. */
  predicate Mutual(g: Graph)
  {
    forall u, v :: u in g.adj && v in g.adj[u] ==> v in g.adj && u in g.adj[v] && (u, v) in g.cost
  }

  /** Every stored cost belongs to a neighbour pair. */
  predicate Listed(g: Graph)
  {
    forall e :: e in g.cost ==> e.0 in g.adj && e.1 in g.adj[e.0]
  }

  /** Every stored cost is stored alike in the other direction. */
  predicate Symmetric(g: Graph)
  {
    forall e :: e in g.cost ==> (e.1, e.0) in g.cost && g.cost[(e.1, e.0)] == g.cost[e]
  }

  lemma EmptyValid()
    ensures Valid(Empty) && Empty.h.Keys == {}
  {
  }

  /** `addNode`: the heuristic is replaced, and a node that already has a
      neighbour list keeps it. */
  function AddNode(g: Graph, name: Name, h: int): (r: Graph)
    ensures r.h.Keys == g.h.Keys + {name} && r.h[name] == h
    ensures forall x :: x in g.h && x != name ==> r.h[x] == g.h[x]
    ensures r.adj.Keys == g.adj.Keys + {name}
    ensures forall x :: x in g.adj ==> r.adj[x] == g.adj[x]
    ensures name !in g.adj ==> r.adj[name] == []
    ensures r.cost == g.cost
  {
    Graph(g.h[name := h], if name in g.adj then g.adj else g.adj[name := []], g.cost)
  }

  lemma AddNodeValid(g: Graph, name: Name, h: int)
    requires Valid(g)
    ensures Valid(AddNode(g, name, h))
  {
  }

  /** `addEdge`: each end is appended to the other's neighbour list and the
      cost is stored for both directions. Both ends must already be nodes,
      or the Java dereferences a missing list. */
  function AddEdge(g: Graph, u: Name, v: Name, c: int): (r: Graph)
    requires u in g.adj && v in g.adj
    ensures r.h == g.h && r.adj.Keys == g.adj.Keys
    ensures u != v ==> r.adj[u] == g.adj[u] + [v] && r.adj[v] == g.adj[v] + [u]
    ensures u == v ==> r.adj[u] == g.adj[u] + [u, u]
    ensures forall x :: x in g.adj && x != u && x != v ==> r.adj[x] == g.adj[x]
    ensures Cost(r, u, v) == c && Cost(r, v, u) == c
    ensures forall x, y :: (x, y) != (u, v) && (x, y) != (v, u) ==> Cost(r, x, y) == Cost(g, x, y)
  {
    var a := g.adj[u := g.adj[u] + [v]];
    Graph(g.h, a[v := a[v] + [u]], g.cost[(u, v) := c][(v, u) := c])
  }

  lemma AddEdgeValid(g: Graph, u: Name, v: Name, c: int)
    requires Valid(g) && u in g.adj && v in g.adj
    ensures Valid(AddEdge(g, u, v, c))
  {
    AddEdgeLinked(g, u, v, c);
    AddEdgeListed(g, u, v, c);
    AddEdgeSymmetric(g, u, v, c);
  }

  lemma AddEdgeLinked(g: Graph, u: Name, v: Name, c: int)
    requires Valid(g) && u in g.adj && v in g.adj
    ensures Mutual(AddEdge(g, u, v, c))
  {
    var r := AddEdge(g, u, v, c);
    forall x, y | x in r.adj && y in r.adj[x]
      ensures y in r.adj && x in r.adj[y] && (x, y) in r.cost
    {
      AddEdgeLinks(g, u, v, c, x, y);
    }
  }

  lemma AddEdgeListed(g: Graph, u: Name, v: Name, c: int)
    requires Valid(g) && u in g.adj && v in g.adj
    ensures Listed(AddEdge(g, u, v, c))
  {
    var r := AddEdge(g, u, v, c);
    forall e | e in r.cost
      ensures e.0 in r.adj && e.1 in r.adj[e.0]
    {
      if e != (u, v) && e != (v, u) {
        assert e in g.cost;
        assert e.1 in g.adj[e.0];
        AddEdgeKeeps(g, u, v, c, e.0, e.1);
      } else {
        assert u in r.adj[v] && v in r.adj[u];
      }
    }
  }

  lemma AddEdgeSymmetric(g: Graph, u: Name, v: Name, c: int)
    requires Valid(g) && u in g.adj && v in g.adj
    ensures Symmetric(AddEdge(g, u, v, c))
  {
    var r := AddEdge(g, u, v, c);
    forall e | e in r.cost
      ensures (e.1, e.0) in r.cost && r.cost[(e.1, e.0)] == r.cost[e]
    {
      if e != (u, v) && e != (v, u) {
        assert e in g.cost && (e.1, e.0) in g.cost;
      }
    }
  }

  /** AddEdge only appends to neighbour lists. */
  lemma AddEdgeKeeps(g: Graph, u: Name, v: Name, c: int, x: Name, y: Name)
    requires u in g.adj && v in g.adj && x in g.adj && y in g.adj[x]
    ensures y in AddEdge(g, u, v, c).adj[x]
  {
    var r := AddEdge(g, u, v, c);
    if x == u || x == v {
      assert r.adj[x][..|g.adj[x]|] == g.adj[x];
    }
  }

  lemma AddEdgeLinks(g: Graph, u: Name, v: Name, c: int, x: Name, y: Name)
    requires Valid(g) && u in g.adj && v in g.adj
    requires x in AddEdge(g, u, v, c).adj && y in AddEdge(g, u, v, c).adj[x]
    ensures y in AddEdge(g, u, v, c).adj && x in AddEdge(g, u, v, c).adj[y] && (x, y) in AddEdge(g, u, v, c).cost
  {
    var r := AddEdge(g, u, v, c);
    if (x, y) == (u, v) || (x, y) == (v, u) {
      assert u in r.adj[v] && v in r.adj[u];
    } else {
      assert y in g.adj[x] by {
        if x == u && u != v {
          assert r.adj[x] == g.adj[x] + [v];
        } else if x == v && u != v {
          assert r.adj[x] == g.adj[x] + [u];
        } else if x == u {
          assert r.adj[x] == g.adj[x] + [u, u];
        }
      }
      AddEdgeKeeps(g, u, v, c, y, x);
    }
  }

  /** `getHeuristic`. */
  function Heuristic(g: Graph, name: Name): int
    requires name in g.h
  {
    g.h[name]
  }

  /** `getCost`: the stored cost, or IntMax for a pair that is not an edge. */
  function Cost(g: Graph, u: Name, v: Name): int
  {
    if (u, v) in g.cost then g.cost[(u, v)] else IntMax
  }

  /** The neighbour lists as a successor function. */
  function Nbrs(g: Graph): Name -> seq<Name>
  {
    u => if u in g.adj then g.adj[u] else []
  }

  /** The edges of a valid map are undirected, cost the same both ways,
      and a pair that is not an edge costs IntMax. */
  lemma CostSymmetric(g: Graph, u: Name, v: Name)
    requires Valid(g)
    ensures Cost(g, u, v) == Cost(g, v, u)
    ensures v in Nbrs(g)(u) <==> u in Nbrs(g)(v)
    ensures v !in Nbrs(g)(u) ==> Cost(g, u, v) == IntMax
  {
  }

  /** Every edge costs more than nothing, as road distances do. */
  predicate Positive(g: Graph)
  {
    forall e :: e in g.cost ==> g.cost[e] > 0
  }

  /** The heuristic never drops by more than the cost of an edge, the
      condition under which A* with a closed set returns a cheapest
      route. */
  predicate Consistent(g: Graph)
  {
    forall u, v :: u in g.adj && v in g.adj[u] ==> u in g.h && v in g.h && g.h[u] <= Cost(g, u, v) + g.h[v]
  }

  /** One edge of a consistent map: both ends have a heuristic value, and
      it drops by at most the edge's cost. */
  lemma EdgeStep(g: Graph, a: Name, b: Name)
    requires Consistent(g) && b in Nbrs(g)(a)
    ensures a in g.h && b in g.h && g.h[a] <= Cost(g, a, b) + g.h[b]
  {
    assert a in g.adj && b in g.adj[a];
    var c := Cost(g, a, b);
  }

  /** The cost of a route: the sum of its edges' costs. */
  function RouteCost(g: Graph, p: seq<Name>): int
  {
    if |p| <= 1 then 0 else RouteCost(g, p[..|p| - 1]) + Cost(g, p[|p| - 2], p[|p| - 1])
  }

  /** On a map whose edges all cost more than nothing, a route costs at
      least as many as it has edges, and its prefixes cost no more. */
  lemma {:induction false} RouteCostGrows(g: Graph, p: seq<Name>, k: nat)
    requires Valid(g) && Positive(g) && IsPath(Nbrs(g), p) && k <= |p|
    ensures RouteCost(g, p[..k]) <= RouteCost(g, p)
    ensures RouteCost(g, p) >= |p| - 1
    decreases |p|
  {
    if |p| > 1 {
      var p' := p[..|p| - 1];
      assert IsPath(Nbrs(g), p');
      RouteCostGrows(g, p', if k < |p| then k else |p'|);
      var x, y := p[|p| - 2], p[|p| - 1];
      assert y in Nbrs(g)(x);
      assert x in g.adj && y in g.adj[x];
      if k < |p| {
        assert p[..k] == p'[..k];
      } else {
        assert p[..k] == p;
      }
    } else {
      assert p[..k] == [] || p[..k] == p;
    }
  }

  /** A route followed by one more edge costs that edge more. */
  lemma RouteCostSnoc(g: Graph, p: seq<Name>, x: Name)
    requires |p| > 0
    ensures RouteCost(g, p + [x]) == RouteCost(g, p) + Cost(g, Last(p), x)
  {
    assert (p + [x])[..|p|] == p;
  }

  /** The string key `u + "-" + v` under which the Java stores and looks up
      the cost of a pair. */
  function CostKey(u: Name, v: Name): string
  {
    u + "-" + v
  }

  /** `addEdge`'s writes to the Java cost table. */
  function AddCostAsWritten(cost: map<string, int>, u: Name, v: Name, c: int): map<string, int>
  {
    cost[CostKey(u, v) := c][CostKey(v, u) := c]
  }

  /** `getCost` on the Java cost table. */
  function CostAsWritten(cost: map<string, int>, u: Name, v: Name): int
  {
    if CostKey(u, v) in cost then cost[CostKey(u, v)] else IntMax
  }

  /** Two different pairs can share a string key once a name contains the
      separator: after an edge between "A-B" and "C", the pair "A" and
      "B-C", which is no edge, costs that edge's cost rather than
      IntMax. AddEdge keys by the pair and leaves every other pair's cost
      alone. */
  lemma StrayCost(cost: map<string, int>, c: int)
    ensures ("A", "B-C") != ("A-B", "C") && ("A", "B-C") != ("C", "A-B")
    ensures CostAsWritten(AddCostAsWritten(cost, "A-B", "C", c), "A", "B-C") == c
  {
    assert CostKey("A", "B-C") == CostKey("A-B", "C");
  }
}

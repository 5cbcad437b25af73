/**
 * `RouteFindingBestFirst.bestFirstSearch`: greedy best-first search over a
 * RouteGraph map. The queue orders entries by the heuristic alone, every
 * neighbour not yet expanded is pushed, and its parent is overwritten with
 * the node being expanded each time it is pushed.
 */
module RouteBestFirst {
  import opened Seqs
  import opened Paths
  import opened RouteGraph
  import opened RouteSearch

  /** The queue and the parent map of the search. Entries carry the g they
      were reached with and the key h, as the Java `State` does. */
  datatype Greedy = Greedy(pq: multiset<Entry>, parent: map<Name, Name>)

  /** The neighbour loop as written: each neighbour not yet visited is
      pushed with g plus the edge and key h, and `cur` becomes its parent,
      replacing any parent it had. */
  function PushAll(gr: Graph, q: Greedy, visited: set<Name>, cur: Name, g: int, nbs: seq<Name>): Greedy
    requires forall v :: v in nbs ==> v in gr.h
    decreases |nbs|
  {
    if nbs == [] then q
    else
      var nb := nbs[0];
      var q' :=
        if nb in visited then q
        else Greedy(q.pq + multiset{Entry(nb, g + Cost(gr, cur, nb), gr.h[nb])}, q.parent[nb := cur]);
      PushAll(gr, q', visited, cur, g, nbs[1..])
  }

  /** Whether the neighbour loop pushes `x`. */
  predicate Pushes(visited: set<Name>, nbs: seq<Name>, x: Name)
  {
    x in nbs && x !in visited
  }

  /** What the neighbour loop does to one node's parent: a pushed node ends
      with parent `cur`; every other node keeps the parent it had. */
  lemma {:induction false} PushAllParent(gr: Graph, q: Greedy, visited: set<Name>, cur: Name, g: int, nbs: seq<Name>, x: Name)
    requires forall v :: v in nbs ==> v in gr.h
    ensures var r := PushAll(gr, q, visited, cur, g, nbs);
      && (x in r.parent <==> x in q.parent || Pushes(visited, nbs, x))
      && (Pushes(visited, nbs, x) ==> r.parent[x] == cur)
      && (!Pushes(visited, nbs, x) && x in q.parent ==> r.parent[x] == q.parent[x])
    decreases |nbs|
  {
    if nbs != [] {
      var nb := nbs[0];
      var q' :=
        if nb in visited then q
        else Greedy(q.pq + multiset{Entry(nb, g + Cost(gr, cur, nb), gr.h[nb])}, q.parent[nb := cur]);
      PushAllParent(gr, q', visited, cur, g, nbs[1..], x);
      assert x in nbs <==> x == nb || x in nbs[1..];
    }
  }

  /** What the neighbour loop does to the queue: it keeps every entry and
      adds entries only for pushed nodes, each with g plus the edge and the
      key h; every pushed node gets one. */
  lemma {:induction false} PushAllQueue(gr: Graph, q: Greedy, visited: set<Name>, cur: Name, g: int, nbs: seq<Name>, e: Entry)
    requires forall v :: v in nbs ==> v in gr.h
    ensures var r := PushAll(gr, q, visited, cur, g, nbs);
      e in r.pq <==> e in q.pq || (Pushes(visited, nbs, e.node) && e.g == g + Cost(gr, cur, e.node) && e.key == gr.h[e.node])
    decreases |nbs|
  {
    if nbs != [] {
      var nb := nbs[0];
      var q' :=
        if nb in visited then q
        else Greedy(q.pq + multiset{Entry(nb, g + Cost(gr, cur, nb), gr.h[nb])}, q.parent[nb := cur]);
      PushAllQueue(gr, q', visited, cur, g, nbs[1..], e);
      assert e.node in nbs <==> e.node == nb || e.node in nbs[1..];
    }
  }

  /** The expansion of `cur`, reached with `g`, node by node and entry by
      entry. */
  ghost predicate Pushed(gr: Graph, q: Greedy, visited: set<Name>, cur: Name, g: int, q': Greedy)
  {
    && cur in gr.adj
    && (forall x ::
          && (x in q'.parent <==> (x in q.parent || Pushes(visited, gr.adj[cur], x)))
          && (Pushes(visited, gr.adj[cur], x) ==> q'.parent[x] == cur)
          && (!Pushes(visited, gr.adj[cur], x) && x in q.parent ==> q'.parent[x] == q.parent[x]))
    && (forall e ::
          e in q'.pq <==>
            (|| e in q.pq
             || (Pushes(visited, gr.adj[cur], e.node) && e.node in gr.h && e.g == g + Cost(gr, cur, e.node) && e.key == gr.h[e.node])))
  }

  /** The `for (String nb : g.adj.get(cur.node))` loop. */
  method Push(gr: Graph, q: Greedy, visited: set<Name>, cur: Name, g: int) returns (q': Greedy)
    requires Valid(gr) && cur in gr.adj
    ensures Pushed(gr, q, visited, cur, g, q')
  {
    q' := PushAll(gr, q, visited, cur, g, gr.adj[cur]);
    forall x {
      PushAllParent(gr, q, visited, cur, g, gr.adj[cur], x);
    }
    forall e {
      PushAllQueue(gr, q, visited, cur, g, gr.adj[cur], e);
    }
  }

  /** Some route from `start` ends at `x` and costs `c`. */
  ghost predicate Reachable(gr: Graph, start: Name, x: Name, c: int)
  {
    exists p {:trigger PathFrom(Nbrs(gr), start, p)} :: PathFrom(Nbrs(gr), start, p) && Last(p) == x && RouteCost(gr, p) == c
  }

  /** A route extended by an edge reaches the neighbour for that edge more. */
  lemma ReachOn(gr: Graph, start: Name, x: Name, c: int, y: Name)
    requires Reachable(gr, start, x, c) && x in gr.adj && y in gr.adj[x]
    ensures Reachable(gr, start, y, c + Cost(gr, x, y))
  {
    var p :| PathFrom(Nbrs(gr), start, p) && Last(p) == x && RouteCost(gr, p) == c;
    RouteCostSnoc(gr, p, y);
    PathSnoc(Nbrs(gr), start, p, y);
  }

  /** Node `x`, met but not expanded, still has the entry `pend[x]` queued. */
  predicate Waits(gr: Graph, q: Greedy, pend: map<Name, int>, x: Name)
  {
    x in pend && x in gr.h && Entry(x, pend[x], gr.h[x]) in q.pq
  }

  /** Every node met and not yet expanded has an entry queued, the start
      has been met, and every neighbour of an expanded node has been met. */
  ghost predicate Frontier(gr: Graph, start: Name, q: Greedy, visited: set<Name>, pend: map<Name, int>)
  {
    && start in pend
    && (forall x {:trigger Waits(gr, q, pend, x)} :: x in pend && x !in visited ==> Waits(gr, q, pend, x))
    && (forall v, w :: v in visited && v in gr.adj && w in gr.adj[v] ==> w in visited || w in pend)
  }

  /** Every queued entry is for a node of the map with a parent unless it
      is the start, and was reached along some route costing its g. */
  ghost predicate Leads(gr: Graph, start: Name, q: Greedy)
  {
    forall e :: e in q.pq ==>
      && e.node in gr.adj
      && (e.node != start ==> e.node in q.parent)
      && Reachable(gr, start, e.node, e.g)
  }

  /** The parent map: the start has no parent, every other expanded node
      has one, every parent is an expanded node the child neighbours, and
      an expanded node's parent was expanded before it (`rank` is the
      expansion index, below `n`). */
  predicate Parented(gr: Graph, start: Name, q: Greedy, visited: set<Name>, rank: map<Name, nat>, n: nat)
  {
    && start in gr.adj && start !in q.parent
    && visited <= gr.adj.Keys && rank.Keys == visited
    && (forall x :: x in rank ==> rank[x] < n)
    && (forall x :: x in visited && x != start ==> x in q.parent)
    && (forall x :: x in q.parent ==>
          && q.parent[x] in visited
          && x in gr.adj[q.parent[x]]
          && (x in visited ==> rank[q.parent[x]] < rank[x]))
  }

  /** The loop invariant of the search. */
  ghost predicate Greedying(gr: Graph, start: Name, q: Greedy, visited: set<Name>, rank: map<Name, nat>, pend: map<Name, int>, n: nat)
  {
    && Frontier(gr, start, q, visited, pend)
    && Leads(gr, start, q)
    && Parented(gr, start, q, visited, rank, n)
    && (visited != {} ==> start in visited)
    && (visited == {} ==> forall e :: e in q.pq ==> e.node == start)
  }

  /** The state before the first poll. */
  lemma Initial(gr: Graph, start: Name)
    requires start in gr.adj && start in gr.h
    ensures Greedying(gr, start, Greedy(multiset{Entry(start, 0, gr.h[start])}, map[]), {}, map[], map[start := 0], 0)
  {
    assert PathFrom(Nbrs(gr), start, [start]) && RouteCost(gr, [start]) == 0;
    var q := Greedy(multiset{Entry(start, 0, gr.h[start])}, map[]);
    assert Waits(gr, q, map[start := 0], start);
  }

  /** `if (visited.contains(cur.node)) continue;` keeps the invariant. */
  lemma Skip(gr: Graph, start: Name, q: Greedy, visited: set<Name>, rank: map<Name, nat>, pend: map<Name, int>, n: nat, c: Entry)
    requires Greedying(gr, start, q, visited, rank, pend, n) && c in q.pq && c.node in visited
    ensures Greedying(gr, start, q.(pq := q.pq - multiset{c}), visited, rank, pend, n)
  {
    var q' := q.(pq := q.pq - multiset{c});
    forall x {:trigger Waits(gr, q', pend, x)} | x in pend && x !in visited
      ensures Waits(gr, q', pend, x)
    {
      assert Waits(gr, q, pend, x);
    }
  }

  /** The polled node is a node of the map reached with its g, with a
      parent unless it is the start. */
  lemma Polled(gr: Graph, start: Name, q: Greedy, visited: set<Name>, rank: map<Name, nat>, pend: map<Name, int>, n: nat, c: Entry)
    requires Greedying(gr, start, q, visited, rank, pend, n) && c in q.pq
    ensures c.node in gr.adj && Reachable(gr, start, c.node, c.g)
    ensures c.node != start ==> c.node in q.parent
    ensures visited == {} ==> c.node == start
  {
  }

  /** Marking a node expanded, with the next rank, keeps the parent facts
      when the node has a parent or is the start, and the start comes
      first. */
  lemma VisitParented(gr: Graph, start: Name, q: Greedy, visited: set<Name>, rank: map<Name, nat>, n: nat, x: Name, q1: Greedy)
    requires Parented(gr, start, q, visited, rank, n) && x in gr.adj && x !in visited
    requires x != start ==> x in q.parent
    requires visited == {} ==> x == start
    requires visited != {} ==> start in visited
    requires q1.parent == q.parent
    ensures Parented(gr, start, q1, visited + {x}, rank[x := n], n + 1)
    ensures start in visited + {x}
  {
  }

  /** Polling a node not yet expanded and marking it expanded, with the
      next rank: the node is a node of the map reached with its g, and the
      parent facts hold of the polled queue. */
  lemma Visiting(gr: Graph, start: Name, q: Greedy, visited: set<Name>, rank: map<Name, nat>, pend: map<Name, int>, n: nat, c: Entry)
    requires Greedying(gr, start, q, visited, rank, pend, n) && c in q.pq && c.node !in visited
    ensures c.node in gr.adj && Reachable(gr, start, c.node, c.g)
    ensures Parented(gr, start, q.(pq := q.pq - multiset{c}), visited + {c.node}, rank[c.node := n], n + 1)
    ensures start in visited + {c.node}
  {
    Polled(gr, start, q, visited, rank, pend, n, c);
    VisitParented(gr, start, q, visited, rank, n, c.node, q.(pq := q.pq - multiset{c}));
  }

  /** Pushing the neighbours of an expanded node keeps the parent facts:
      the new parent is expanded and only unexpanded nodes are pushed. */
  lemma PushParented(gr: Graph, start: Name, q: Greedy, visited: set<Name>, rank: map<Name, nat>, n: nat, cur: Name, g: int, q': Greedy)
    requires Parented(gr, start, q, visited, rank, n) && start in visited && cur in visited
    requires Pushed(gr, q, visited, cur, g, q')
    ensures Parented(gr, start, q', visited, rank, n)
  {
    forall x | x in q'.parent
      ensures q'.parent[x] in visited && x in gr.adj[q'.parent[x]] && (x in visited ==> rank[q'.parent[x]] < rank[x])
    {
      if !Pushes(visited, gr.adj[cur], x) {
        assert x in q.parent;
      }
    }
  }

  /** Pushing keeps every entry reached along a route of its cost. */
  lemma PushLeads(gr: Graph, start: Name, q: Greedy, visited: set<Name>, cur: Name, g: int, q': Greedy)
    requires Valid(gr) && Leads(gr, start, q) && Reachable(gr, start, cur, g) && start in visited
    requires Pushed(gr, q, visited, cur, g, q')
    ensures Leads(gr, start, q')
  {
    forall e | e in q'.pq
      ensures e.node in gr.adj && (e.node != start ==> e.node in q'.parent) && Reachable(gr, start, e.node, e.g)
    {
      if e !in q.pq {
        ReachOn(gr, start, cur, g, e.node);
      }
    }
  }

  /** Where each node stands after expanding `cur` with `g`: every pushed
      node is met with the g of its newest entry. */
  ghost function Met(gr: Graph, pend: map<Name, int>, visited: set<Name>, cur: Name, g: int): (r: map<Name, int>)
    requires cur in gr.adj
    ensures r.Keys == pend.Keys + (set w | w in gr.adj[cur] && w !in visited)
  {
    map y | y in pend.Keys + (set w | w in gr.adj[cur] && w !in visited) ::
      if Pushes(visited, gr.adj[cur], y) then g + Cost(gr, cur, y) else pend[y]
  }

  /** Expanding the polled node keeps the frontier facts. */
  lemma VisitFrontier(gr: Graph, start: Name, q: Greedy, visited: set<Name>, pend: map<Name, int>, c: Entry, q': Greedy)
    requires Valid(gr) && Frontier(gr, start, q, visited, pend) && c in q.pq && c.node !in visited
    requires Pushed(gr, q.(pq := q.pq - multiset{c}), visited + {c.node}, c.node, c.g, q')
    ensures Frontier(gr, start, q', visited + {c.node}, Met(gr, pend, visited + {c.node}, c.node, c.g))
  {
    var v' := visited + {c.node};
    var pend' := Met(gr, pend, v', c.node, c.g);
    forall x {:trigger Waits(gr, q', pend', x)} | x in pend' && x !in v'
      ensures Waits(gr, q', pend', x)
    {
      if !Pushes(v', gr.adj[c.node], x) {
        assert Waits(gr, q, pend, x);
        assert Entry(x, pend[x], gr.h[x]) in q.pq - multiset{c};
      }
    }
  }

  /** With the queue empty every node met has been expanded, so the
      expanded nodes hold every neighbour of theirs, and every route from
      the start stays among them. */
  lemma Exhausted(gr: Graph, start: Name, q: Greedy, visited: set<Name>, pend: map<Name, int>, p: seq<Name>)
    requires Frontier(gr, start, q, visited, pend) && |q.pq| == 0
    requires PathFrom(Nbrs(gr), start, p)
    ensures Last(p) in visited
  {
    assert start !in visited ==> Waits(gr, q, pend, start);
    forall u, w | u in visited && w in Nbrs(gr)(u)
      ensures w in visited
    {
      assert w in visited || w in pend;
      assert w !in visited ==> Waits(gr, q, pend, w);
    }
    ClosedReach(Nbrs(gr), start, p, visited);
  }

  /** Polling an entry keeps every other entry reached along a route of
      its cost. */
  lemma PollLeads(gr: Graph, start: Name, q: Greedy, c: Entry)
    requires Leads(gr, start, q)
    ensures Leads(gr, start, q.(pq := q.pq - multiset{c}))
  {
    var q1 := q.(pq := q.pq - multiset{c});
    forall e | e in q1.pq
      ensures e.node in gr.adj && (e.node != start ==> e.node in q1.parent) && Reachable(gr, start, e.node, e.g)
    {
      assert e in q.pq;
    }
  }

  /** Expanding the polled node and pushing its neighbours keeps the
      parent facts, the node ranked next. */
  lemma ExpandedParented(gr: Graph, start: Name, q: Greedy, visited: set<Name>, rank: map<Name, nat>, pend: map<Name, int>, n: nat, c: Entry, q': Greedy)
    requires Greedying(gr, start, q, visited, rank, pend, n) && c in q.pq && c.node !in visited
    requires Pushed(gr, q.(pq := q.pq - multiset{c}), visited + {c.node}, c.node, c.g, q')
    ensures Parented(gr, start, q', visited + {c.node}, rank[c.node := n], n + 1)
    ensures start in visited + {c.node} && Reachable(gr, start, c.node, c.g)
  {
    Polled(gr, start, q, visited, rank, pend, n, c);
    VisitParented(gr, start, q, visited, rank, n, c.node, q.(pq := q.pq - multiset{c}));
    PushParented(gr, start, q.(pq := q.pq - multiset{c}), visited + {c.node}, rank[c.node := n], n + 1, c.node, c.g, q');
  }

  /** Expanding the polled node and pushing its neighbours keeps the
      queued entries reached along routes and the frontier facts. */
  lemma ExpandedFrontier(gr: Graph, start: Name, q: Greedy, visited: set<Name>, pend: map<Name, int>, c: Entry, q': Greedy)
    requires Valid(gr) && Frontier(gr, start, q, visited, pend) && Leads(gr, start, q) && c in q.pq && c.node !in visited
    requires start in visited + {c.node} && Reachable(gr, start, c.node, c.g)
    requires Pushed(gr, q.(pq := q.pq - multiset{c}), visited + {c.node}, c.node, c.g, q')
    ensures Leads(gr, start, q')
    ensures Frontier(gr, start, q', visited + {c.node}, Met(gr, pend, visited + {c.node}, c.node, c.g))
  {
    PollLeads(gr, start, q, c);
    PushLeads(gr, start, q.(pq := q.pq - multiset{c}), visited + {c.node}, c.node, c.g, q');
    VisitFrontier(gr, start, q, visited, pend, c, q');
  }

  /** Expanding the polled node and pushing its neighbours keeps the
      invariant, the node ranked next. */
  lemma Expanded(gr: Graph, start: Name, q: Greedy, visited: set<Name>, rank: map<Name, nat>, pend: map<Name, int>, n: nat, c: Entry, q': Greedy)
    requires Valid(gr) && Greedying(gr, start, q, visited, rank, pend, n) && c in q.pq && c.node !in visited
    requires Pushed(gr, q.(pq := q.pq - multiset{c}), visited + {c.node}, c.node, c.g, q')
    ensures Greedying(gr, start, q', visited + {c.node}, rank[c.node := n], Met(gr, pend, visited + {c.node}, c.node, c.g), n + 1)
  {
    ExpandedParented(gr, start, q, visited, rank, pend, n, c, q');
    ExpandedFrontier(gr, start, q, visited, pend, c, q');
    assert c.node in visited + {c.node};
  }

  /** A queue run dry without expanding the goal: no route leads to it. */
  lemma NoRoute(gr: Graph, start: Name, q: Greedy, visited: set<Name>, pend: map<Name, int>, goal: Name)
    requires Frontier(gr, start, q, visited, pend) && |q.pq| == 0 && goal !in visited
    ensures forall p {:trigger PathFrom(Nbrs(gr), start, p)} :: PathFrom(Nbrs(gr), start, p) ==> Last(p) != goal
  {
    forall p | PathFrom(Nbrs(gr), start, p)
      ensures Last(p) != goal
    {
      Exhausted(gr, start, q, visited, pend, p);
    }
  }

  /** The route printed: the parent walk back from an expanded node. */
  method Walk(gr: Graph, start: Name, q: Greedy, ghost visited: set<Name>, ghost rank: map<Name, nat>, ghost n: nat, end: Name)
    returns (path: seq<Name>)
    requires Parented(gr, start, q, visited, rank, n) && end in visited
    ensures PathFrom(Nbrs(gr), start, path) && Last(path) == end
  {
    ghost var rk := map x | x in q.parent.Keys + visited :: if x in visited then rank[x] else n;
    ghost var tie := map x | x in q.parent.Keys + visited :: 0 as nat;
    path := ParentWalk(q.parent, end, rk, tie);
    LinkedIsPath(Nbrs(gr), q.parent, path);
    assert path[0] in visited by {
      if |path| > 1 {
        assert q.parent[path[1]] == path[0];
      }
    }
  }

  /** `RouteFindingBestFirst.bestFirstSearch`. `order` lists the nodes in
      the order they are expanded (the "Visited" lines), each once. A
      route found leads from the start to the goal along edges, and the
      printed cost is the cost of some route from the start to the goal;
      a search that finds nothing proves the goal out of reach. */
  method BestFirst(gr: Graph, start: Name, goal: Name) returns (r: Found, order: seq<Name>)
    requires Valid(gr) && start in gr.h
    ensures NoDup(order) && (|order| > 0 ==> order[0] == start)
    ensures r.Found? ==> PathFrom(Nbrs(gr), start, r.path) && Last(r.path) == goal && Reachable(gr, start, goal, r.cost)
    ensures r.Found? ==> |order| > 0 && Last(order) == goal
    ensures r.NotFound? ==> forall p {:trigger PathFrom(Nbrs(gr), start, p)} :: PathFrom(Nbrs(gr), start, p) ==> Last(p) != goal
  {
    var q := Greedy(multiset{Entry(start, 0, gr.h[start])}, map[]);
    var visited: set<Name> := {};
    ghost var rank: map<Name, nat> := map[];
    ghost var pend: map<Name, int> := map[start := 0];
    Initial(gr, start);
    order := [];
    while |q.pq| > 0
      invariant Greedying(gr, start, q, visited, rank, pend, |order|)
      invariant Elems(order) == visited && NoDup(order) && goal !in visited
      invariant |order| > 0 ==> order[0] == start
      invariant visited == {} <==> |order| == 0
      decreases |gr.adj.Keys - visited|, |q.pq|
    {
      LeastExists(q.pq);
      var cur :| Least(q.pq, cur);
      var x := cur.node;
      if x in visited {
        Skip(gr, start, q, visited, rank, pend, |order|, cur);
        q := q.(pq := q.pq - multiset{cur});
        continue;
      }
      ghost var n := |order|;
      Visiting(gr, start, q, visited, rank, pend, n, cur);
      var q1 := q.(pq := q.pq - multiset{cur});
      var v' := visited + {x};
      ghost var rank' := rank[x := n];
      AppendFresh(order, x);
      order := order + [x];
      if x == goal {
        var path := Walk(gr, start, q1, v', rank', |order|, goal);
        r := Found(path, cur.g);
        return;
      }
      var q' := Push(gr, q1, v', x, cur.g);
      Expanded(gr, start, q, visited, rank, pend, n, cur, q');
      FewerLeft(gr.adj.Keys, visited, x);
      pend := Met(gr, pend, v', x, cur.g);
      visited := v';
      rank := rank';
      q := q';
    }
    r := NotFound;
    NoRoute(gr, start, q, visited, pend, goal);
  }
}

/**
 * Best-first route search with the parent taken from the entry that is
 * expanded rather than from the last push: each entry remembers the node
 * that pushed it, and a node's parent is fixed when it is expanded. The
 * route printed is then the route along which the goal was reached, and
 * the printed cost is its cost (see RouteDetour.CostMismatch for the
 * search as written).
 */
module RouteBestFirstFixed {
  import opened Wrappers
  import opened Seqs
  import opened Paths
  import opened RouteGraph
  import opened RouteSearch

  /** A queue entry with the node that pushed it; only the start's first
      entry has none. */
  datatype Lead = Lead(node: Name, g: int, key: int, from: Option<Name>)

  /** The poll may return `l`: no queued entry has a smaller key. */
  predicate First(pq: multiset<Lead>, l: Lead)
  {
    l in pq && forall f :: f in pq ==> l.key <= f.key
  }

  /** Every non-empty queue has a first entry. */
  lemma {:induction false} FirstExists(pq: multiset<Lead>)
    requires |pq| > 0
    ensures exists l :: First(pq, l)
    decreases |pq|
  {
    var x :| x in pq;
    var rest := pq - multiset{x};
    if |rest| == 0 {
      forall f | f in pq
        ensures f == x
      {
        assert rest[f] == 0;
      }
      assert First(pq, x);
    } else {
      FirstExists(rest);
      var m :| First(rest, m);
      if x.key <= m.key {
        assert First(pq, x);
      } else {
        assert First(pq, m);
      }
    }
  }

  /** The neighbour loop: each neighbour not yet expanded is pushed with g
      plus the edge, key h, and `cur` as the node that pushed it. */
  function PushAll(gr: Graph, pq: multiset<Lead>, visited: set<Name>, cur: Name, g: int, nbs: seq<Name>): multiset<Lead>
    requires forall v :: v in nbs ==> v in gr.h
    decreases |nbs|
  {
    if nbs == [] then pq
    else
      var nb := nbs[0];
      var pq' := if nb in visited then pq else pq + multiset{Lead(nb, g + Cost(gr, cur, nb), gr.h[nb], Some(cur))};
      PushAll(gr, pq', visited, cur, g, nbs[1..])
  }

  /** The neighbour loop keeps every entry and adds one for each node it
      pushes, and no other. */
  lemma {:induction false} PushAllQueue(gr: Graph, pq: multiset<Lead>, visited: set<Name>, cur: Name, g: int, nbs: seq<Name>, l: Lead)
    requires forall v :: v in nbs ==> v in gr.h
    ensures l in PushAll(gr, pq, visited, cur, g, nbs) <==>
      l in pq || (l.node in nbs && l.node !in visited && l.g == g + Cost(gr, cur, l.node) && l.key == gr.h[l.node] && l.from == Some(cur))
    decreases |nbs|
  {
    if nbs != [] {
      var nb := nbs[0];
      var pq' := if nb in visited then pq else pq + multiset{Lead(nb, g + Cost(gr, cur, nb), gr.h[nb], Some(cur))};
      PushAllQueue(gr, pq', visited, cur, g, nbs[1..], l);
      assert l.node in nbs <==> l.node == nb || l.node in nbs[1..];
    }
  }

  /** The expansion of `cur`, reached with `g`, entry by entry. */
  ghost predicate Pushed(gr: Graph, pq: multiset<Lead>, visited: set<Name>, cur: Name, g: int, pq': multiset<Lead>)
  {
    && cur in gr.adj
    && forall l ::
         l in pq' <==>
           (|| l in pq
            || (&& l.node in gr.adj[cur] && l.node !in visited && l.node in gr.h
                && l.g == g + Cost(gr, cur, l.node) && l.key == gr.h[l.node] && l.from == Some(cur)))
  }

  method Push(gr: Graph, pq: multiset<Lead>, visited: set<Name>, cur: Name, g: int) returns (pq': multiset<Lead>)
    requires Valid(gr) && cur in gr.adj
    ensures Pushed(gr, pq, visited, cur, g, pq')
  {
    pq' := PushAll(gr, pq, visited, cur, g, gr.adj[cur]);
    forall l {
      PushAllQueue(gr, pq, visited, cur, g, gr.adj[cur], l);
    }
  }

  /** Node `x`, met but not expanded, still has the entry `pend[x]` queued. */
  predicate Waits(pq: multiset<Lead>, pend: map<Name, Lead>, x: Name)
  {
    x in pend && pend[x].node == x && pend[x] in pq
  }

  /** Every node met and not yet expanded has an entry queued, the start
      has been met, and every neighbour of an expanded node has been met. */
  ghost predicate Frontier(gr: Graph, start: Name, pq: multiset<Lead>, visited: set<Name>, pend: map<Name, Lead>)
  {
    && start in pend
    && (forall x {:trigger Waits(pq, pend, x)} :: x in pend && x !in visited ==> Waits(pq, pend, x))
    && (forall v, w :: v in visited && v in gr.adj && w in gr.adj[v] ==> w in visited || w in pend)
  }

  /** Every queued entry is for a node of the map; the start's first entry
      has g 0, and every other entry was pushed by an expanded neighbour
      and costs that neighbour's g plus the edge. */
  ghost predicate Leads(gr: Graph, start: Name, pq: multiset<Lead>, at: map<Name, int>)
  {
    forall l :: l in pq ==>
      && l.node in gr.adj
      && (l.from.None? ==> l.node == start && l.g == 0)
      && (l.from.Some? ==>
            && l.from.value in at && l.from.value in gr.adj && l.node in gr.adj[l.from.value]
            && l.g == at[l.from.value] + Cost(gr, l.from.value, l.node))
  }

  /** The parent map over expanded nodes: the start has none and g 0,
      every other expanded node has one, expanded before it, that it
      neighbours, and its g is its parent's g plus the edge. `rank` is the
      expansion index, below `n`; `at` the g each node was expanded with. */
  ghost predicate Parented(gr: Graph, start: Name, parent: map<Name, Name>, visited: set<Name>, rank: map<Name, nat>, at: map<Name, int>, n: nat)
  {
    && start in gr.adj && start !in parent
    && visited <= gr.adj.Keys && rank.Keys == visited && at.Keys == visited
    && (start in visited ==> at[start] == 0)
    && (forall x :: x in rank ==> rank[x] < n)
    && (forall x :: x in visited && x != start ==> x in parent)
    && (forall x :: x in parent ==>
          && x in visited && parent[x] in visited
          && x in gr.adj[parent[x]]
          && rank[parent[x]] < rank[x]
          && at[x] == at[parent[x]] + Cost(gr, parent[x], x))
  }

  /** The loop invariant of the search. */
  ghost predicate Tracking(gr: Graph, start: Name, pq: multiset<Lead>, parent: map<Name, Name>, visited: set<Name>, rank: map<Name, nat>, at: map<Name, int>, pend: map<Name, Lead>, n: nat)
  {
    && Frontier(gr, start, pq, visited, pend)
    && Leads(gr, start, pq, at)
    && Parented(gr, start, parent, visited, rank, at, n)
    && (visited != {} ==> start in visited)
    && (visited == {} ==> forall l :: l in pq ==> l.node == start)
  }

  lemma Initial(gr: Graph, start: Name)
    requires start in gr.adj && start in gr.h
    ensures var l := Lead(start, 0, gr.h[start], None);
      Tracking(gr, start, multiset{l}, map[], {}, map[], map[], map[start := l], 0)
  {
    var l := Lead(start, 0, gr.h[start], None);
    assert Waits(multiset{l}, map[start := l], start);
  }

  /** Skipping an entry of an expanded node keeps the invariant. */
  lemma Skip(gr: Graph, start: Name, pq: multiset<Lead>, parent: map<Name, Name>, visited: set<Name>, rank: map<Name, nat>, at: map<Name, int>, pend: map<Name, Lead>, n: nat, c: Lead)
    requires Tracking(gr, start, pq, parent, visited, rank, at, pend, n) && c in pq && c.node in visited
    ensures Tracking(gr, start, pq - multiset{c}, parent, visited, rank, at, pend, n)
  {
    forall x {:trigger Waits(pq - multiset{c}, pend, x)} | x in pend && x !in visited
      ensures Waits(pq - multiset{c}, pend, x)
    {
      assert Waits(pq, pend, x);
    }
  }

  /** The parent a polled entry gives its node. */
  function Adopt(parent: map<Name, Name>, c: Lead): map<Name, Name>
  {
    if c.from.Some? then parent[c.node := c.from.value] else parent
  }

  /** Expanding the polled node records the entry's pusher as its parent
      and its g, which keep the parent facts. */
  lemma VisitParented(gr: Graph, start: Name, pq: multiset<Lead>, parent: map<Name, Name>, visited: set<Name>, rank: map<Name, nat>, at: map<Name, int>, pend: map<Name, Lead>, n: nat, c: Lead)
    requires Tracking(gr, start, pq, parent, visited, rank, at, pend, n) && c in pq && c.node !in visited
    ensures Parented(gr, start, Adopt(parent, c), visited + {c.node}, rank[c.node := n], at[c.node := c.g], n + 1)
    ensures start in visited + {c.node} && c.node in gr.adj
  {
  }

  /** Pushing keeps every entry pushed by an expanded neighbour. */
  lemma PushLeads(gr: Graph, start: Name, pq: multiset<Lead>, at: map<Name, int>, cur: Name, g: int, visited: set<Name>, pq': multiset<Lead>)
    requires Valid(gr) && Leads(gr, start, pq, at) && cur in at && at[cur] == g
    requires Pushed(gr, pq, visited, cur, g, pq')
    ensures Leads(gr, start, pq', at)
  {
    forall l | l in pq' && l !in pq
      ensures l.node in gr.adj
    {
      assert l.node in gr.adj[cur];
    }
  }

  /** Removing the polled entry and recording its node's g keeps the
      other entries' facts. */
  lemma PollLeads(gr: Graph, start: Name, pq: multiset<Lead>, at: map<Name, int>, c: Lead)
    requires Leads(gr, start, pq, at) && c in pq && c.node !in at
    ensures Leads(gr, start, pq - multiset{c}, at[c.node := c.g])
  {
  }

  /** Where each node stands after expanding `cur`: every pushed node is
      met with its newest entry. */
  ghost function Met(gr: Graph, pend: map<Name, Lead>, visited: set<Name>, cur: Name, g: int): (r: map<Name, Lead>)
    requires Valid(gr) && cur in gr.adj
    ensures r.Keys == pend.Keys + (set w | w in gr.adj[cur] && w !in visited)
  {
    map y | y in pend.Keys + (set w | w in gr.adj[cur] && w !in visited) ::
      if y in gr.adj[cur] && y !in visited then Lead(y, g + Cost(gr, cur, y), gr.h[y], Some(cur)) else pend[y]
  }

  /** Expanding the polled node keeps the frontier facts. */
  lemma VisitFrontier(gr: Graph, start: Name, pq: multiset<Lead>, visited: set<Name>, pend: map<Name, Lead>, c: Lead, pq': multiset<Lead>)
    requires Valid(gr) && Frontier(gr, start, pq, visited, pend) && c in pq && c.node !in visited
    requires Pushed(gr, pq - multiset{c}, visited + {c.node}, c.node, c.g, pq')
    ensures Frontier(gr, start, pq', visited + {c.node}, Met(gr, pend, visited + {c.node}, c.node, c.g))
  {
    var v' := visited + {c.node};
    var pend' := Met(gr, pend, v', c.node, c.g);
    forall x {:trigger Waits(pq', pend', x)} | x in pend' && x !in v'
      ensures Waits(pq', pend', x)
    {
      if !(x in gr.adj[c.node] && x !in v') {
        assert Waits(pq, pend, x);
        assert pend[x] in pq - multiset{c};
      }
    }
  }

  /** With the queue empty every route from the start stays among the
      expanded nodes. */
  lemma Exhausted(gr: Graph, start: Name, pq: multiset<Lead>, visited: set<Name>, pend: map<Name, Lead>, p: seq<Name>)
    requires Frontier(gr, start, pq, visited, pend) && |pq| == 0
    requires PathFrom(Nbrs(gr), start, p)
    ensures Last(p) in visited
  {
    assert start !in visited ==> Waits(pq, pend, start);
    forall u, w | u in visited && w in Nbrs(gr)(u)
      ensures w in visited
    {
      assert w in visited || w in pend;
      assert w !in visited ==> Waits(pq, pend, w);
    }
    ClosedReach(Nbrs(gr), start, p, visited);
  }

  /** A parent chain from the start costs the g its last node was
      expanded with. */
  lemma {:induction false} ChainCost(gr: Graph, start: Name, parent: map<Name, Name>, visited: set<Name>, rank: map<Name, nat>, at: map<Name, int>, n: nat, p: seq<Name>)
    requires Parented(gr, start, parent, visited, rank, at, n) && Linked(parent, p) && p[0] == start && start in visited
    ensures Last(p) in visited && RouteCost(gr, p) == at[Last(p)]
    decreases |p|
  {
    if |p| > 1 {
      var p' := p[..|p| - 1];
      assert Linked(parent, p');
      ChainCost(gr, start, parent, visited, rank, at, n, p');
      RouteCostSnoc(gr, p', Last(p));
      assert p' + [Last(p)] == p;
    }
  }

  /** Expanding the polled node and pushing its neighbours keeps the
      loop invariant, with the node ranked `n` and recorded at its g. */
  lemma Expanded(gr: Graph, start: Name, pq: multiset<Lead>, parent: map<Name, Name>, visited: set<Name>, rank: map<Name, nat>, at: map<Name, int>, pend: map<Name, Lead>, n: nat, c: Lead, pq': multiset<Lead>)
    requires Valid(gr) && Tracking(gr, start, pq, parent, visited, rank, at, pend, n) && c in pq && c.node !in visited
    requires Pushed(gr, pq - multiset{c}, visited + {c.node}, c.node, c.g, pq')
    ensures Tracking(gr, start, pq', Adopt(parent, c), visited + {c.node}, rank[c.node := n], at[c.node := c.g], Met(gr, pend, visited + {c.node}, c.node, c.g), n + 1)
  {
    VisitParented(gr, start, pq, parent, visited, rank, at, pend, n, c);
    PollLeads(gr, start, pq, at, c);
    PushLeads(gr, start, pq - multiset{c}, at[c.node := c.g], c.node, c.g, visited + {c.node}, pq');
    VisitFrontier(gr, start, pq, visited, pend, c, pq');
  }

  /** When the queue runs dry without meeting the goal, no route from the
      start reaches it. */
  lemma NoRoute(gr: Graph, start: Name, pq: multiset<Lead>, visited: set<Name>, pend: map<Name, Lead>, goal: Name)
    requires Frontier(gr, start, pq, visited, pend) && |pq| == 0 && goal !in visited
    ensures forall p {:trigger PathFrom(Nbrs(gr), start, p)} :: PathFrom(Nbrs(gr), start, p) ==> Last(p) != goal
  {
    forall p | PathFrom(Nbrs(gr), start, p)
      ensures Last(p) != goal
    {
      Exhausted(gr, start, pq, visited, pend, p);
    }
  }

  /** The route printed: the parent walk back from an expanded node, which
      follows edges from the start and costs that node's g. */
  method Walk(gr: Graph, start: Name, parent: map<Name, Name>, ghost visited: set<Name>, ghost rank: map<Name, nat>, ghost at: map<Name, int>, ghost n: nat, end: Name)
    returns (path: seq<Name>)
    requires Parented(gr, start, parent, visited, rank, at, n) && end in visited && start in visited
    ensures PathFrom(Nbrs(gr), start, path) && Last(path) == end && RouteCost(gr, path) == at[end]
  {
    ghost var tie := map x | x in visited :: 0 as nat;
    path := ParentWalk(parent, end, rank, tie);
    LinkedIsPath(Nbrs(gr), parent, path);
    assert path[0] in visited by {
      if |path| > 1 {
        assert parent[path[1]] == path[0];
      }
    }
    ChainCost(gr, start, parent, visited, rank, at, n, path);
  }

  /** Best-first route search with each node's parent taken from the entry
      it is expanded from. Besides what RouteBestFirst.BestFirst promises,
      the printed cost is the cost of the printed route. */
  method BestFirstFixed(gr: Graph, start: Name, goal: Name) returns (r: Found, order: seq<Name>)
    requires Valid(gr) && start in gr.h
    ensures NoDup(order) && (|order| > 0 ==> order[0] == start)
    ensures r.Found? ==> PathFrom(Nbrs(gr), start, r.path) && Last(r.path) == goal && RouteCost(gr, r.path) == r.cost
    ensures r.Found? ==> |order| > 0 && Last(order) == goal
    ensures r.NotFound? ==> forall p {:trigger PathFrom(Nbrs(gr), start, p)} :: PathFrom(Nbrs(gr), start, p) ==> Last(p) != goal
  {
    var pq := multiset{Lead(start, 0, gr.h[start], None)};
    var parent: map<Name, Name> := map[];
    var visited: set<Name> := {};
    ghost var rank: map<Name, nat> := map[];
    ghost var at: map<Name, int> := map[];
    ghost var pend: map<Name, Lead> := map[start := Lead(start, 0, gr.h[start], None)];
    Initial(gr, start);
    order := [];
    while |pq| > 0
      invariant Tracking(gr, start, pq, parent, visited, rank, at, pend, |order|)
      invariant Elems(order) == visited && NoDup(order) && goal !in visited
      invariant |order| > 0 ==> order[0] == start
      invariant visited == {} <==> |order| == 0
      decreases |gr.adj.Keys - visited|, |pq|
    {
      FirstExists(pq);
      var cur :| First(pq, cur);
      var x := cur.node;
      if x in visited {
        Skip(gr, start, pq, parent, visited, rank, at, pend, |order|, cur);
        pq := pq - multiset{cur};
        continue;
      }
      ghost var n := |order|;
      VisitParented(gr, start, pq, parent, visited, rank, at, pend, n, cur);
      var v' := visited + {x};
      var parent' := Adopt(parent, cur);
      ghost var rank' := rank[x := n];
      ghost var at' := at[x := cur.g];
      AppendFresh(order, x);
      order := order + [x];
      if x == goal {
        var path := Walk(gr, start, parent', v', rank', at', n + 1, goal);
        r := Found(path, cur.g);
        return;
      }
      var pq' := Push(gr, pq - multiset{cur}, v', x, cur.g);
      Expanded(gr, start, pq, parent, visited, rank, at, pend, n, cur, pq');
      FewerLeft(gr.adj.Keys, visited, x);
      pend := Met(gr, pend, v', x, cur.g);
      parent := parent';
      visited := v';
      rank := rank';
      at := at';
      pq := pq';
    }
    r := NotFound;
    NoRoute(gr, start, pq, visited, pend, goal);
  }
}

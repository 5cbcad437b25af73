/**
 * The two route searches over a RouteGraph map. Both keep a priority queue
 * of entries whose ordering key is frozen when they are pushed, skip an
 * entry whose node was already expanded, record the expanding node as the
 * parent of each node they push, and rebuild the route by walking parents
 * back from the goal. A* orders by f = g + h and pushes only on a strictly
 * better g; best-first orders by h alone and pushes every unexpanded
 * neighbour.
 */
module RouteSearch {
  import opened Seqs
  import opened Paths
  import opened RouteGraph

  /** A queue entry: the node, the g it was reached with, and the key the
      queue orders by (f for A*, h for best-first), fixed at push time. */
  datatype Entry = Entry(node: Name, g: int, key: int)

  /** The route and the printed `Total Cost`, or nothing when the queue
      runs dry. */
  datatype Found = Found(path: seq<Name>, cost: int) | NotFound

  /** The A* queue, g-scores and parents. */
  datatype Books = Books(pq: multiset<Entry>, gScore: map<Name, int>, parent: map<Name, Name>)

  /** `pq.poll()` may return entry `e`: it is queued and no entry has a
      smaller key. Ties are broken by the heap, which is not modelled. */
  predicate Least(pq: multiset<Entry>, e: Entry)
  {
    e in pq && forall f :: f in pq ==> e.key <= f.key
  }

  /** Every non-empty queue has a least entry. */
  lemma {:induction false} LeastExists(pq: multiset<Entry>)
    requires |pq| > 0
    ensures exists e :: Least(pq, e)
    decreases |pq|
  {
    var x :| x in pq;
    var rest := pq - multiset{x};
    if |rest| == 0 {
      forall f | f in pq
        ensures f == x
      {
        assert rest[f] == 0;
      }
      assert Least(pq, x);
    } else {
      LeastExists(rest);
      var m :| Least(rest, m);
      if x.key <= m.key {
        assert Least(pq, x);
      } else {
        assert Least(pq, m);
      }
    }
  }

  /** `gScore.getOrDefault(x, Integer.MAX_VALUE)`. */
  function GScore(gScore: map<Name, int>, x: Name): int
  {
    if x in gScore then gScore[x] else IntMax
  }

  /** One neighbour `nb` of A*'s expansion of `cur`, popped with g-score
      `g`: a strictly better g for `nb` replaces its g-score and its parent
      together and pushes an entry whose key is frozen at g + h; otherwise
      nothing changes. */
  function Relax(gr: Graph, b: Books, cur: Name, g: int, nb: Name): Books
    requires nb in gr.h
  {
    var t := g + Cost(gr, cur, nb);
    if t < GScore(b.gScore, nb) then
      Books(b.pq + multiset{Entry(nb, t, t + gr.h[nb])}, b.gScore[nb := t], b.parent[nb := cur])
    else
      b
  }

  /** The neighbour loop of A*'s expansion: every neighbour in `nbs` is
      relaxed in list order. */
  function RelaxAll(gr: Graph, b: Books, cur: Name, g: int, nbs: seq<Name>): Books
    requires forall v :: v in nbs ==> v in gr.h
    decreases |nbs|
  {
    if nbs == [] then b else RelaxAll(gr, Relax(gr, b, cur, g, nbs[0]), cur, g, nbs[1..])
  }

  /** Whether the expansion of `cur` with g-score `g` betters `x`: `x` is
      one of the neighbours and g plus the edge beats its g-score. */
  predicate Improves(gr: Graph, b: Books, cur: Name, g: int, nbs: seq<Name>, x: Name)
  {
    x in nbs && g + Cost(gr, cur, x) < GScore(b.gScore, x)
  }

  /** What the neighbour loop does to one node, independently of the order
      of the list and of repeated neighbours: a node it betters ends with
      g-score g plus the edge and parent `cur`; every other node keeps its
      g-score and its parent. */
  lemma {:induction false} RelaxAllAt(gr: Graph, b: Books, cur: Name, g: int, nbs: seq<Name>, x: Name)
    requires forall v :: v in nbs ==> v in gr.h
    ensures var r := RelaxAll(gr, b, cur, g, nbs);
      && GScore(r.gScore, x) == (if Improves(gr, b, cur, g, nbs, x) then g + Cost(gr, cur, x) else GScore(b.gScore, x))
      && (x in r.gScore <==> x in b.gScore || Improves(gr, b, cur, g, nbs, x))
      && (Improves(gr, b, cur, g, nbs, x) ==> x in r.parent && r.parent[x] == cur)
      && (!Improves(gr, b, cur, g, nbs, x) ==>
            (x in r.parent <==> x in b.parent) && (x in b.parent ==> r.parent[x] == b.parent[x]))
    decreases |nbs|
  {
    if nbs != [] {
      var b1 := Relax(gr, b, cur, g, nbs[0]);
      RelaxAllAt(gr, b1, cur, g, nbs[1..], x);
      assert x in nbs <==> x == nbs[0] || x in nbs[1..];
    }
  }

  /** What the neighbour loop does to the queue: it keeps every entry and
      adds exactly one entry for each node it betters, with that node's new
      g and the key g + h. */
  lemma {:induction false} RelaxAllQueue(gr: Graph, b: Books, cur: Name, g: int, nbs: seq<Name>, e: Entry)
    requires forall v :: v in nbs ==> v in gr.h
    ensures var r := RelaxAll(gr, b, cur, g, nbs);
      e in r.pq <==> e in b.pq || (Improves(gr, b, cur, g, nbs, e.node) && e.g == g + Cost(gr, cur, e.node) && e.key == e.g + gr.h[e.node])
    decreases |nbs|
  {
    if nbs != [] {
      var b1 := Relax(gr, b, cur, g, nbs[0]);
      RelaxAllQueue(gr, b1, cur, g, nbs[1..], e);
      assert e.node in nbs <==> e.node == nbs[0] || e.node in nbs[1..];
    }
  }

  /** The A* frontier's entries are for scored nodes, carry a g no better
      than the node's g-score, and their key is g + h. */
  predicate Frozen(gr: Graph, s: Books)
  {
    forall e :: e in s.pq ==> e.node in s.gScore && e.node in gr.h && s.gScore[e.node] <= e.g && e.key == e.g + gr.h[e.node]
  }

  /** `x` has the entry of its current g-score in the queue. */
  predicate Queues(gr: Graph, s: Books, x: Name)
  {
    x in gr.h && x in s.gScore && Entry(x, s.gScore[x], s.gScore[x] + gr.h[x]) in s.pq
  }

  /** Every scored node not yet expanded has the entry of its current
      g-score in the queue. */
  predicate Queued(gr: Graph, s: Books, visited: set<Name>)
  {
    forall x {:trigger Queues(gr, s, x)} :: x in s.gScore && x !in visited ==> Queues(gr, s, x)
  }

  /** The start scores 0 and has no parent; every other scored node has as
      parent an expanded neighbour whose g-score plus the edge is at most
      its own. */
  predicate Scored(gr: Graph, start: Name, s: Books, visited: set<Name>)
  {
    && start in s.gScore && s.gScore[start] == 0 && start !in s.parent
    && visited <= s.gScore.Keys
    && (forall x :: x in s.gScore ==> x in gr.adj && 0 <= s.gScore[x] < IntMax)
    && (forall x :: x in s.gScore && x !in s.parent ==> x == start)
    && (forall x :: x in s.parent ==>
          && x in s.gScore && s.parent[x] in visited && s.parent[x] in gr.adj && x in gr.adj[s.parent[x]]
          && s.gScore[x] >= s.gScore[s.parent[x]] + Cost(gr, s.parent[x], x))
  }

  /** Every neighbour of an expanded node u was relaxed from the g that u
      was expanded with (kept in `at`). */
  predicate Relaxed(gr: Graph, s: Books, at: map<Name, int>)
  {
    forall u, v :: u in at && u in gr.adj && v in gr.adj[u] && at[u] + Cost(gr, u, v) < IntMax ==>
      GScore(s.gScore, v) <= at[u] + Cost(gr, u, v)
  }

  /** No route from the start to an expanded node is cheaper than the g it
      was expanded with. */
  ghost predicate Settled(gr: Graph, start: Name, at: map<Name, int>)
  {
    forall p {:trigger PathFrom(Nbrs(gr), start, p)} :: PathFrom(Nbrs(gr), start, p) && Last(p) in at ==> at[Last(p)] <= RouteCost(gr, p)
  }

  /** Along a route on a consistent map, the g so far plus h never
      decreases. */
  lemma {:induction false} KeyRises(gr: Graph, p: seq<Name>, j: nat)
    requires Consistent(gr) && IsPath(Nbrs(gr), p) && j < |p| && p[0] in gr.h
    ensures Last(p) in gr.h && p[j] in gr.h
    ensures RouteCost(gr, p[..j + 1]) + gr.h[p[j]] <= RouteCost(gr, p) + gr.h[Last(p)]
    decreases |p|
  {
    if j == |p| - 1 {
      assert p[..j + 1] == p;
      if j > 0 {
        EdgeStep(gr, p[j - 1], p[j]);
      }
    } else {
      var p' := p[..|p| - 1];
      PathPrefix(Nbrs(gr), p, |p| - 1);
      KeyRises(gr, p', j);
      var a, b := p[|p| - 2], p[|p| - 1];
      EdgeStep(gr, a, b);
      assert p'[..j + 1] == p[..j + 1];
      RouteCostSnoc(gr, p', b);
      assert p' + [b] == p;
    }
  }

  /** The position of the first node of `p` outside `visited`. */
  lemma FirstOut(p: seq<Name>, visited: set<Name>) returns (j: nat)
    requires |p| > 0 && Last(p) !in visited
    ensures j < |p| && p[j] !in visited && forall k :: 0 <= k < j ==> p[k] in visited
  {
    j := 0;
    while p[j] in visited
      invariant j < |p| && forall k :: 0 <= k < j ==> p[k] in visited
      decreases |p| - j
    {
      j := j + 1;
    }
  }

  /** A route from the start to a node not yet expanded leaves the
      expanded nodes at some node `p[j]`; when the route up to there costs
      less than IntMax, that node is scored no higher than that cost. */
  lemma FrontierOf(gr: Graph, start: Name, s: Books, visited: set<Name>, at: map<Name, int>, p: seq<Name>) returns (j: nat)
    requires Valid(gr) && Scored(gr, start, s, visited)
    requires Relaxed(gr, s, at) && Settled(gr, start, at) && at.Keys == visited
    requires PathFrom(Nbrs(gr), start, p) && Last(p) !in visited
    ensures j < |p| && p[j] !in visited
    ensures RouteCost(gr, p[..j + 1]) < IntMax ==> p[j] in s.gScore && s.gScore[p[j]] <= RouteCost(gr, p[..j + 1])
  {
    j := FirstOut(p, visited);
    var y := p[j];
    if j == 0 {
      assert p[..1] == [start];
    } else {
      var u := p[j - 1];
      assert y in Nbrs(gr)(u);
      assert PathFrom(Nbrs(gr), start, p[..j]) && Last(p[..j]) == u;
      assert p[..j + 1] == p[..j] + [y];
      RouteCostSnoc(gr, p[..j], y);
      if RouteCost(gr, p[..j + 1]) < IntMax {
        assert at[u] <= RouteCost(gr, p[..j]);
        assert GScore(s.gScore, y) <= at[u] + Cost(gr, u, y);
      }
    }
  }

  /** The heart of A* on a consistent map: an entry of least f for a node
      not yet expanded carries a g no route to that node beats. A route to
      it leaves the expanded nodes at some node whose queued entry has an
      f at most the route's cost plus h. */
  lemma PollSettles(gr: Graph, start: Name, s: Books, visited: set<Name>, at: map<Name, int>, c: Entry, p: seq<Name>)
    requires Valid(gr) && Positive(gr) && Consistent(gr) && start in gr.h
    requires Frozen(gr, s) && Queued(gr, s, visited) && Scored(gr, start, s, visited)
    requires Relaxed(gr, s, at) && Settled(gr, start, at) && at.Keys == visited
    requires Least(s.pq, c) && c.node !in visited
    requires PathFrom(Nbrs(gr), start, p) && Last(p) == c.node
    ensures c.g <= RouteCost(gr, p)
  {
    PollFresh(gr, s, visited, c);
    var j := FrontierOf(gr, start, s, visited, at, p);
    RouteCostGrows(gr, p, j + 1);
    if RouteCost(gr, p[..j + 1]) < IntMax {
      var y := p[j];
      assert Queues(gr, s, y);
      KeyRises(gr, p, j);
    }
  }

  /** The parent facts of Scored that the walk back to the start needs:
      the start scores 0 without a parent, every other scored node has a
      parent, and each parent is a scored neighbour whose g-score plus the
      edge is at most the child's. */
  predicate Chained(gr: Graph, start: Name, s: Books)
  {
    && start in s.gScore && s.gScore[start] == 0 && start !in s.parent
    && (forall x :: x in s.gScore && x !in s.parent ==> x == start)
    && (forall x :: x in s.parent ==>
          && x in s.gScore && s.parent[x] in s.gScore && x in Nbrs(gr)(s.parent[x])
          && s.gScore[x] >= s.gScore[s.parent[x]] + Cost(gr, s.parent[x], x))
  }

  /** The loop invariant gives the parent facts. */
  lemma ScoredChained(gr: Graph, start: Name, s: Books, visited: set<Name>)
    requires Scored(gr, start, s, visited)
    ensures Chained(gr, start, s)
  {
    forall x | x in s.parent
      ensures x in s.gScore && s.parent[x] in s.gScore && x in Nbrs(gr)(s.parent[x])
    {
      assert s.parent[x] in visited && s.parent[x] in gr.adj;
    }
  }

  /** A parent chain ending in a scored node starts at the start, follows
      edges, and costs no more than its end's g-score. */
  lemma {:induction false} ChainedCost(gr: Graph, start: Name, s: Books, p: seq<Name>)
    requires Chained(gr, start, s) && Linked(s.parent, p) && Last(p) in s.gScore
    ensures p[0] == start && IsPath(Nbrs(gr), p)
    ensures RouteCost(gr, p) <= s.gScore[Last(p)]
    decreases |p|
  {
    if |p| > 1 {
      var p' := p[..|p| - 1];
      var x := Last(p);
      assert x in s.parent && s.parent[x] == Last(p');
      assert Linked(s.parent, p') by {
        forall i | 0 < i < |p'|
          ensures p'[i] in s.parent && s.parent[p'[i]] == p'[i - 1]
        {
          assert p'[i] == p[i] && p'[i - 1] == p[i - 1];
        }
      }
      ChainedCost(gr, start, s, p');
      RouteCostSnoc(gr, p', x);
      assert p' + [x] == p;
      forall i | 0 < i < |p|
        ensures p[i] in Nbrs(gr)(p[i - 1])
      {
        if i < |p| - 1 {
          assert p[i] == p'[i] && p[i - 1] == p'[i - 1];
        }
      }
    }
  }

  /** Following parents from a scored node reaches the start along
      neighbour edges, at a cost no more than the node's g-score. */
  lemma ChainCost(gr: Graph, start: Name, s: Books, visited: set<Name>, p: seq<Name>)
    requires Scored(gr, start, s, visited)
    requires Linked(s.parent, p) && Last(p) in s.gScore
    ensures p[0] == start && IsPath(Nbrs(gr), p)
    ensures RouteCost(gr, p) <= s.gScore[Last(p)]
  {
    ScoredChained(gr, start, s, visited);
    ChainedCost(gr, start, s, p);
  }

  /** With the queue empty, a neighbour of an expanded node reached below
      IntMax has been expanded too: it was scored, and a scored node not
      expanded would still have an entry queued. */
  lemma DryStep(gr: Graph, s: Books, visited: set<Name>, at: map<Name, int>, u: Name, v: Name)
    requires Queued(gr, s, visited) && |s.pq| == 0 && Relaxed(gr, s, at)
    requires u in at && v in Nbrs(gr)(u) && at[u] + Cost(gr, u, v) < IntMax
    ensures v in visited
  {
    assert u in gr.adj && v in gr.adj[u];
    assert GScore(s.gScore, v) <= at[u] + Cost(gr, u, v);
    var queued := Queues(gr, s, v);
  }

  /** The last edge of a route below IntMax whose next-to-last node was
      expanded: with the queue empty, its last node was expanded too. */
  lemma DryEdge(gr: Graph, start: Name, s: Books, visited: set<Name>, at: map<Name, int>, p: seq<Name>)
    requires Queued(gr, s, visited) && |s.pq| == 0
    requires Relaxed(gr, s, at) && Settled(gr, start, at) && at.Keys == visited
    requires PathFrom(Nbrs(gr), start, p) && |p| > 1 && p[|p| - 2] in visited && RouteCost(gr, p) < IntMax
    ensures Last(p) in visited
  {
    var p' := p[..|p| - 1];
    var u, v := p[|p| - 2], Last(p);
    PathPrefix(Nbrs(gr), p, |p| - 1);
    assert PathFrom(Nbrs(gr), start, p') && Last(p') == u;
    assert at[u] <= RouteCost(gr, p');
    RouteCostSnoc(gr, p', v);
    assert p' + [v] == p;
    assert v in Nbrs(gr)(u);
    DryStep(gr, s, visited, at, u, v);
  }

  /** When the queue runs dry on a consistent map, every route from the
      start that costs less than IntMax runs through expanded nodes only. */
  lemma {:induction false} Exhausted(gr: Graph, start: Name, s: Books, visited: set<Name>, at: map<Name, int>, p: seq<Name>)
    requires Valid(gr) && Positive(gr) && start in s.gScore
    requires Queued(gr, s, visited) && |s.pq| == 0
    requires Relaxed(gr, s, at) && Settled(gr, start, at) && at.Keys == visited
    requires PathFrom(Nbrs(gr), start, p) && RouteCost(gr, p) < IntMax
    ensures Last(p) in visited
    decreases |p|
  {
    if |p| > 1 {
      var p' := p[..|p| - 1];
      PathPrefix(Nbrs(gr), p, |p| - 1);
      RouteCostGrows(gr, p, |p'|);
      Exhausted(gr, start, s, visited, at, p');
      DryEdge(gr, start, s, visited, at, p);
    } else {
      assert start !in visited ==> Queues(gr, s, start);
    }
  }

  /** The invariants of A*'s loop, `at` recording the g each expanded node
      was expanded with. */
  ghost predicate Searching(gr: Graph, start: Name, s: Books, visited: set<Name>, at: map<Name, int>)
  {
    && Frozen(gr, s) && Queued(gr, s, visited) && Scored(gr, start, s, visited)
    && Relaxed(gr, s, at) && at.Keys == visited
  }

  /** A least entry for a node not yet expanded carries that node's
      g-score: the entry of the g-score itself is queued and no cheaper. */
  lemma PollFresh(gr: Graph, s: Books, visited: set<Name>, c: Entry)
    requires Frozen(gr, s) && Queued(gr, s, visited) && Least(s.pq, c) && c.node !in visited
    ensures c.node in s.gScore && c.g == s.gScore[c.node]
  {
    assert Queues(gr, s, c.node);
  }

  /** Dropping an entry of an expanded node keeps the invariants. */
  lemma SkipKeeps(gr: Graph, start: Name, s: Books, visited: set<Name>, at: map<Name, int>, c: Entry)
    requires Searching(gr, start, s, visited, at) && c in s.pq && c.node in visited
    ensures Searching(gr, start, s.(pq := s.pq - multiset{c}), visited, at)
  {
    var s' := s.(pq := s.pq - multiset{c});
    forall y | y in s'.gScore && y !in visited
      ensures Queues(gr, s', y)
    {
      assert Queues(gr, s, y);
    }
  }

  /** Expanding a node not yet expanded keeps the invariants, with the node
      expanded at the g of its entry. */
  lemma ExpandKeeps(gr: Graph, start: Name, s: Books, visited: set<Name>, at: map<Name, int>, c: Entry, s': Books)
    requires Valid(gr) && Positive(gr) && Searching(gr, start, s, visited, at)
    requires Least(s.pq, c) && c.node !in visited
    requires Expansion(gr, s.(pq := s.pq - multiset{c}), c.node, c.g, s')
    ensures Searching(gr, start, s', visited + {c.node}, at[c.node := c.g])
  {
    PollFresh(gr, s, visited, c);
    ExpandFrozen(gr, s, c, s');
    ExpandQueued(gr, s, visited, c, s');
    ExpandScores(gr, start, s, visited, c, s');
    ExpandRelaxes(gr, s, at, c, s');
  }

  /** Expanding one more node of the map leaves fewer to expand. */
  lemma FewerLeft(nodes: set<Name>, visited: set<Name>, x: Name)
    requires x in nodes && x !in visited
    ensures |nodes - (visited + {x})| < |nodes - visited|
  {
    assert nodes - (visited + {x}) == (nodes - visited) - {x};
  }

  /** What expanding `cur` with g-score `g` makes of the books `b`, node by
      node and entry by entry (see RelaxAllAt and RelaxAllQueue). */
  ghost predicate Expansion(gr: Graph, b: Books, cur: Name, g: int, s': Books)
  {
    && cur in gr.adj
    && (forall x :: GScore(s'.gScore, x) == (if Improves(gr, b, cur, g, gr.adj[cur], x) then g + Cost(gr, cur, x) else GScore(b.gScore, x)))
    && (forall x :: x in s'.gScore <==> x in b.gScore || Improves(gr, b, cur, g, gr.adj[cur], x))
    && (forall x :: Improves(gr, b, cur, g, gr.adj[cur], x) ==> x in s'.parent && s'.parent[x] == cur)
    && (forall x :: !Improves(gr, b, cur, g, gr.adj[cur], x) ==>
          (x in s'.parent <==> x in b.parent) && (x in b.parent ==> s'.parent[x] == b.parent[x]))
    && (forall e :: e in s'.pq <==>
          || e in b.pq
          || (Improves(gr, b, cur, g, gr.adj[cur], e.node) && e.node in gr.h && e.g == g + Cost(gr, cur, e.node) && e.key == e.g + gr.h[e.node]))
  }

  /** The neighbour loop of A*'s expansion of `cur`, popped with g-score
      `g`, over the books `b` the poll left. */
  method Expand(gr: Graph, b: Books, cur: Name, g: int) returns (s': Books)
    requires Valid(gr) && cur in gr.adj
    ensures Expansion(gr, b, cur, g, s')
  {
    assert forall v :: v in gr.adj[cur] ==> v in gr.h;
    s' := RelaxAll(gr, b, cur, g, gr.adj[cur]);
    forall x
      ensures && GScore(s'.gScore, x) == (if Improves(gr, b, cur, g, gr.adj[cur], x) then g + Cost(gr, cur, x) else GScore(b.gScore, x))
              && (x in s'.gScore <==> x in b.gScore || Improves(gr, b, cur, g, gr.adj[cur], x))
              && (Improves(gr, b, cur, g, gr.adj[cur], x) ==> x in s'.parent && s'.parent[x] == cur)
              && (!Improves(gr, b, cur, g, gr.adj[cur], x) ==>
                    (x in s'.parent <==> x in b.parent) && (x in b.parent ==> s'.parent[x] == b.parent[x]))
    {
      RelaxAllAt(gr, b, cur, g, gr.adj[cur], x);
    }
    forall e
      ensures e in s'.pq <==>
          || e in b.pq
          || (Improves(gr, b, cur, g, gr.adj[cur], e.node) && e.node in gr.h && e.g == g + Cost(gr, cur, e.node) && e.key == e.g + gr.h[e.node])
    {
      RelaxAllQueue(gr, b, cur, g, gr.adj[cur], e);
    }
  }

  /** Expanding a node keeps every queued entry for a scored node with a
      key of g + h. */
  lemma ExpandFrozen(gr: Graph, s: Books, c: Entry, s': Books)
    requires Frozen(gr, s)
    requires Expansion(gr, s.(pq := s.pq - multiset{c}), c.node, c.g, s')
    ensures Frozen(gr, s')
  {
    var rest := s.(pq := s.pq - multiset{c});
    forall e | e in s'.pq
      ensures e.node in s'.gScore && e.node in gr.h && s'.gScore[e.node] <= e.g && e.key == e.g + gr.h[e.node]
    {
      assert GScore(s'.gScore, e.node) <= GScore(rest.gScore, e.node);
      if e in rest.pq {
        assert e in s.pq;
      }
    }
  }

  /** Expanding a node keeps the entry of each unexpanded node's g-score
      queued. */
  lemma ExpandQueued(gr: Graph, s: Books, visited: set<Name>, c: Entry, s': Books)
    requires Valid(gr) && Queued(gr, s, visited) && c.node !in visited
    requires Expansion(gr, s.(pq := s.pq - multiset{c}), c.node, c.g, s')
    ensures Queued(gr, s', visited + {c.node})
  {
    var x, g := c.node, c.g;
    var rest := s.(pq := s.pq - multiset{c});
    forall y | y in s'.gScore && y !in visited + {x}
      ensures Queues(gr, s', y)
    {
      assert GScore(s'.gScore, y) == s'.gScore[y];
      if !Improves(gr, rest, x, g, gr.adj[x], y) {
        assert Queues(gr, s, y);
        var e := Entry(y, s.gScore[y], s.gScore[y] + gr.h[y]);
        assert e in s.pq && e != c;
        assert e in rest.pq;
      }
    }
  }

  /** Expanding a node keeps the start at g-score 0 without a parent. */
  lemma ExpandStart(gr: Graph, start: Name, s: Books, visited: set<Name>, c: Entry, s': Books)
    requires Valid(gr) && Positive(gr) && Scored(gr, start, s, visited)
    requires c.node in s.gScore && c.g == s.gScore[c.node]
    requires Expansion(gr, s.(pq := s.pq - multiset{c}), c.node, c.g, s')
    ensures start in s'.gScore && s'.gScore[start] == 0 && start !in s'.parent
  {
  }

  /** Expanding a node scores only neighbours of it, each below IntMax and
      with the node as parent. */
  lemma ExpandBounds(gr: Graph, start: Name, s: Books, visited: set<Name>, c: Entry, s': Books)
    requires Valid(gr) && Positive(gr) && Scored(gr, start, s, visited)
    requires c.node in s.gScore && c.g == s.gScore[c.node]
    requires Expansion(gr, s.(pq := s.pq - multiset{c}), c.node, c.g, s')
    ensures forall y :: y in s'.gScore ==> y in gr.adj && 0 <= s'.gScore[y] < IntMax
    ensures forall y :: y in s'.gScore && y !in s'.parent ==> y == start
  {
    var x, g := c.node, c.g;
    var rest := s.(pq := s.pq - multiset{c});
    forall y | y in s'.gScore
      ensures y in gr.adj && 0 <= s'.gScore[y] < IntMax && (y !in s'.parent ==> y == start)
    {
      assert GScore(s'.gScore, y) == s'.gScore[y];
      if Improves(gr, rest, x, g, gr.adj[x], y) {
        assert (x, y) in gr.cost;
      }
    }
  }

  /** Expanding a node keeps every scored node's parent an expanded
      neighbour no farther from the start than the edge allows. */
  lemma ExpandParents(gr: Graph, start: Name, s: Books, visited: set<Name>, c: Entry, s': Books)
    requires Valid(gr) && Positive(gr) && Scored(gr, start, s, visited)
    requires c.node in s.gScore && c.g == s.gScore[c.node]
    requires Expansion(gr, s.(pq := s.pq - multiset{c}), c.node, c.g, s')
    ensures forall y :: y in s'.parent ==>
      && y in s'.gScore && s'.parent[y] in visited + {c.node} && s'.parent[y] in gr.adj && y in gr.adj[s'.parent[y]]
      && s'.gScore[y] >= s'.gScore[s'.parent[y]] + Cost(gr, s'.parent[y], y)
  {
    var x, g := c.node, c.g;
    var rest := s.(pq := s.pq - multiset{c});
    assert GScore(s'.gScore, x) == g;
    forall y | y in s'.parent
      ensures && y in s'.gScore && s'.parent[y] in visited + {x} && s'.parent[y] in gr.adj && y in gr.adj[s'.parent[y]]
              && s'.gScore[y] >= s'.gScore[s'.parent[y]] + Cost(gr, s'.parent[y], y)
    {
      if !Improves(gr, rest, x, g, gr.adj[x], y) {
        var q := s.parent[y];
        assert GScore(s'.gScore, q) <= GScore(rest.gScore, q);
        assert GScore(s'.gScore, y) == GScore(rest.gScore, y);
      }
    }
  }

  /** Expanding a node keeps the start at g-score 0 without a parent, and
      every other scored node's parent an expanded neighbour no farther
      from the start than the edge allows. */
  lemma ExpandScores(gr: Graph, start: Name, s: Books, visited: set<Name>, c: Entry, s': Books)
    requires Valid(gr) && Positive(gr) && Scored(gr, start, s, visited)
    requires c.node in s.gScore && c.g == s.gScore[c.node]
    requires Expansion(gr, s.(pq := s.pq - multiset{c}), c.node, c.g, s')
    ensures Scored(gr, start, s', visited + {c.node})
  {
    ExpandStart(gr, start, s, visited, c, s');
    ExpandBounds(gr, start, s, visited, c, s');
    ExpandParents(gr, start, s, visited, c, s');
  }

  /** After expanding `x` with g, every neighbour of `x` scores at most g
      plus the edge, and no node's g-score has grown. */
  lemma ExpandRelaxes(gr: Graph, s: Books, at: map<Name, int>, c: Entry, s': Books)
    requires Relaxed(gr, s, at)
    requires Expansion(gr, s.(pq := s.pq - multiset{c}), c.node, c.g, s')
    ensures Relaxed(gr, s', at[c.node := c.g])
  {
    var x, g := c.node, c.g;
    var rest := s.(pq := s.pq - multiset{c});
    var at' := at[x := g];
    forall u, v | u in at' && u in gr.adj && v in gr.adj[u] && at'[u] + Cost(gr, u, v) < IntMax
      ensures GScore(s'.gScore, v) <= at'[u] + Cost(gr, u, v)
    {
      assert GScore(s'.gScore, v) <= GScore(rest.gScore, v);
    }
  }

  /** On a consistent map the g a node is expanded with is the cost of a
      cheapest route to it. */
  lemma ExpandSettles(gr: Graph, start: Name, s: Books, visited: set<Name>, at: map<Name, int>, c: Entry)
    requires Valid(gr) && Positive(gr) && Consistent(gr) && start in gr.h
    requires Searching(gr, start, s, visited, at) && Settled(gr, start, at)
    requires Least(s.pq, c) && c.node !in visited
    ensures Settled(gr, start, at[c.node := c.g])
  {
    var x := c.node;
    forall p | PathFrom(Nbrs(gr), start, p) && Last(p) in at[x := c.g]
      ensures at[x := c.g][Last(p)] <= RouteCost(gr, p)
    {
      if Last(p) == x {
        PollSettles(gr, start, s, visited, at, c, p);
      }
    }
  }

  /** The books A* starts from — the start queued with g-score 0 — meet
      the loop's invariants with nothing expanded. */
  lemma StartSearching(gr: Graph, start: Name)
    requires Valid(gr) && start in gr.h
    ensures Searching(gr, start, Books(multiset{Entry(start, 0, gr.h[start])}, map[start := 0], map[]), {}, map[])
    ensures Settled(gr, start, map[])
  {
    var s := Books(multiset{Entry(start, 0, gr.h[start])}, map[start := 0], map[]);
    assert Queues(gr, s, start);
  }

  /** A node settled at g is reached by no route cheaper than g. */
  lemma SettledBest(gr: Graph, start: Name, at: map<Name, int>, goal: Name)
    requires Settled(gr, start, at) && goal in at
    ensures forall p {:trigger PathFrom(Nbrs(gr), start, p)} :: PathFrom(Nbrs(gr), start, p) && Last(p) == goal ==> at[goal] <= RouteCost(gr, p)
  {
  }

  /** When A*'s queue runs dry on a consistent map without expanding the
      goal, no route to the goal costs less than IntMax. */
  lemma DryOut(gr: Graph, start: Name, s: Books, visited: set<Name>, at: map<Name, int>, goal: Name)
    requires Valid(gr) && Positive(gr) && Consistent(gr)
    requires Searching(gr, start, s, visited, at) && Settled(gr, start, at)
    requires |s.pq| == 0 && goal !in visited
    ensures forall p {:trigger PathFrom(Nbrs(gr), start, p)} :: PathFrom(Nbrs(gr), start, p) && Last(p) == goal ==> RouteCost(gr, p) >= IntMax
  {
    forall p | PathFrom(Nbrs(gr), start, p) && Last(p) == goal
      ensures RouteCost(gr, p) >= IntMax
    {
      if RouteCost(gr, p) < IntMax {
        Exhausted(gr, start, s, visited, at, p);
      }
    }
  }

  /** `RouteFindingAStar.aStarSearch`. `order` lists the nodes in the order
      they are expanded (the "Visited" lines). Every node is expanded at
      most once, the route follows edges from the start to the goal, and
      on a consistent map it is a cheapest route whose cost is the one
      printed; a search that finds nothing proves the goal out of reach
      below IntMax. */
  method AStar(gr: Graph, start: Name, goal: Name) returns (r: Found, order: seq<Name>)
    requires Valid(gr) && Positive(gr) && start in gr.h
    ensures NoDup(order) && (|order| > 0 ==> order[0] == start)
    ensures r.Found? ==> PathFrom(Nbrs(gr), start, r.path) && Last(r.path) == goal && RouteCost(gr, r.path) <= r.cost
    ensures r.Found? ==> |order| > 0 && Last(order) == goal
    ensures r.Found? && Consistent(gr) ==>
      && r.cost == RouteCost(gr, r.path)
      && forall p {:trigger PathFrom(Nbrs(gr), start, p)} :: PathFrom(Nbrs(gr), start, p) && Last(p) == goal ==> r.cost <= RouteCost(gr, p)
    ensures r.NotFound? && Consistent(gr) ==>
      forall p {:trigger PathFrom(Nbrs(gr), start, p)} :: PathFrom(Nbrs(gr), start, p) && Last(p) == goal ==> RouteCost(gr, p) >= IntMax
  {
    var s := Books(multiset{Entry(start, 0, gr.h[start])}, map[start := 0], map[]);
    var visited: set<Name> := {};
    ghost var at: map<Name, int> := map[];
    order := [];
    StartSearching(gr, start);
    while |s.pq| > 0
      invariant Searching(gr, start, s, visited, at)
      invariant Consistent(gr) ==> Settled(gr, start, at)
      invariant Elems(order) == visited && NoDup(order) && goal !in visited
      invariant |order| == 0 ==> forall e :: e in s.pq ==> e.node == start
      invariant |order| > 0 ==> order[0] == start
      decreases |gr.adj.Keys - visited|, |s.pq|
    {
      LeastExists(s.pq);
      var cur :| Least(s.pq, cur);
      var x := cur.node;
      if x in visited {
        SkipKeeps(gr, start, s, visited, at, cur);
        s := s.(pq := s.pq - multiset{cur});
        continue;
      }
      PollFresh(gr, s, visited, cur);
      if Consistent(gr) {
        ExpandSettles(gr, start, s, visited, at, cur);
      }
      AppendFresh(order, x);
      order := order + [x];
      if x == goal {
        var path := Trace(gr, start, s, visited, goal);
        if Consistent(gr) {
          SettledBest(gr, start, at[x := cur.g], goal);
        }
        r := Found(path, cur.g);
        return;
      }
      var s' := Expand(gr, s.(pq := s.pq - multiset{cur}), x, cur.g);
      ExpandKeeps(gr, start, s, visited, at, cur, s');
      FewerLeft(gr.adj.Keys, visited, x);
      visited := visited + {x};
      at := at[x := cur.g];
      s := s';
    }
    r := NotFound;
    if Consistent(gr) {
      DryOut(gr, start, s, visited, at, goal);
    }
  }

  /** The route rebuilt by following parents back from a scored node: it
      starts at the start, follows edges, and costs no more than the
      node's g-score. */
  method Trace(gr: Graph, start: Name, s: Books, ghost visited: set<Name>, end: Name) returns (path: seq<Name>)
    requires Valid(gr) && Positive(gr) && Scored(gr, start, s, visited) && end in s.gScore
    ensures PathFrom(Nbrs(gr), start, path) && Last(path) == end && RouteCost(gr, path) <= s.gScore[end]
  {
    ghost var rank := map y | y in s.gScore :: s.gScore[y] as nat;
    ghost var tie := map y | y in s.gScore :: 0 as nat;
    forall y | y in s.parent
      ensures rank[s.parent[y]] < rank[y]
    {
      assert (s.parent[y], y) in gr.cost;
    }
    path := ParentWalk(s.parent, end, rank, tie);
    ChainCost(gr, start, s, visited, path);
  }
}

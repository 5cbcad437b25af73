/**
 * The frontier search shared by every BFS and best-first program: a start
 * state is marked visited and queued, states are taken off the frontier,
 * tested against the goal, and their successors are marked visited, given
 * a parent and queued, unless already visited (visited-on-enqueue). The
 * goal test happens when a state leaves the frontier; the solution is the
 * parent chain of that state.
 *
 * The frontier is a FIFO queue (breadth-first) or a priority queue that
 * polls a state of least heuristic value (greedy best-first); which of
 * several states with equal heuristic value comes out first is left open,
 * as the Java priority queue does not fix it.
 */
module GraphSearch {
  import opened Seqs
  import opened Paths

  datatype Strategy<!S> = Fifo | Greedy(h: S -> int)

  datatype Outcome<S> = Solved(path: seq<S>) | NoSolution

  /** Position `i` holds a state with the least heuristic value. */
  predicate IsMinIndex<S>(q: seq<S>, h: S -> int, i: int)
  {
    0 <= i < |q| && forall j :: 0 <= j < |q| ==> h(q[i]) <= h(q[j])
  }

  /** One least position; it shows a priority queue always has one to poll. */
  function FirstMinIndex<S>(q: seq<S>, h: S -> int): (i: nat)
    requires |q| > 0
    ensures IsMinIndex(q, h, i)
  {
    if |q| == 1 then 0
    else
      var k := FirstMinIndex(q[1..], h);
      if h(q[0]) <= h(q[k + 1]) then 0 else k + 1
  }

  /** The successors the enqueue loop adds, in the order it adds them: those
      not yet visited, each once (see `FreshNoDup`). */
  function Fresh<S(==)>(nexts: seq<S>, visited: set<S>): (r: seq<S>)
    ensures Elems(r) == Elems(nexts) - visited
  {
    if nexts == [] then []
    else
      assert Elems(nexts) == {nexts[0]} + Elems(nexts[1..]);
      if nexts[0] in visited then Fresh(nexts[1..], visited)
      else
        var rest := Fresh(nexts[1..], visited + {nexts[0]});
        assert Elems([nexts[0]] + rest) == {nexts[0]} + Elems(rest);
        [nexts[0]] + rest
  }

  /** No state is enqueued twice by one expansion. */
  lemma {:induction false} FreshNoDup<S>(nexts: seq<S>, visited: set<S>)
    ensures NoDup(Fresh(nexts, visited))
  {
    if nexts != [] && nexts[0] !in visited {
      var rest := Fresh(nexts[1..], visited + {nexts[0]});
      FreshNoDup(nexts[1..], visited + {nexts[0]});
      assert nexts[0] !in Elems(rest);
      NoDupAppend([nexts[0]], rest);
    } else if nexts != [] {
      FreshNoDup(nexts[1..], visited);
    }
  }

  /** Along a path from the start that leaves the expanded states `done`,
      the first state not expanded is visited at depth at most its index. */
  lemma FrontierCut<S>(succ: S -> seq<S>, start: S, p: seq<S>, done: set<S>, visited: set<S>, depth: map<S, nat>)
    requires PathFrom(succ, start, p) && Last(p) !in done
    requires start in visited && visited == depth.Keys && depth[start] == 0
    requires forall u, w :: u in done && w in succ(u) ==> w in visited && u in visited && depth[w] <= depth[u] + 1
    ensures exists j :: 0 <= j < |p| && p[j] in visited && p[j] !in done && depth[p[j]] <= j
  {
    var j := 0;
    while p[j] in done
      invariant 0 <= j < |p| && p[j] in visited && depth[p[j]] <= j
      decreases |p| - j
    {
      j := j + 1;
    }
  }

  /** What the run has recorded: each visited state other than the start
      has an expanded parent it succeeds, one level deeper. */
  ghost predicate Recorded<S>(start: S, succ: S -> seq<S>, universe: set<S>, visited: set<S>,
                              parent: map<S, S>, depth: map<S, nat>, done: set<S>)
  {
    && start in visited && visited <= universe && done <= visited
    && parent.Keys == visited - {start} && depth.Keys == visited && depth[start] == 0
    && (forall x :: x in parent ==>
          parent[x] in done && x in succ(parent[x]) && depth[x] == depth[parent[x]] + 1)
  }

  /** The frontier and the expanded states make up the visited ones;
      expanded states are not goals and their successors are visited. Under
      FIFO the frontier is a layer `a` at depth `level` followed by a layer
      `b` at depth `level + 1`, expanded states are no deeper than `level`,
      and no successor is more than one deeper than the state it succeeds. */
  ghost predicate Frontier<S>(succ: S -> seq<S>, isGoal: S -> bool, fifo: bool, queue: seq<S>,
                              visited: set<S>, depth: map<S, nat>, done: set<S>, level: nat,
                              a: seq<S>, b: seq<S>)
  {
    && visited == done + Elems(queue) && visited <= depth.Keys
    && (forall u :: u in done ==> !isGoal(u) && (fifo ==> depth[u] <= level))
    && (forall u, w :: u in done && w in succ(u) ==> w in visited && (fifo ==> depth[w] <= depth[u] + 1))
    && (fifo ==> queue == a + b && (forall x :: x in a ==> depth[x] == level)
                               && (forall x :: x in b ==> depth[x] == level + 1))
  }

  lemma ExpandRecorded<S>(start: S, succ: S -> seq<S>, universe: set<S>, visited: set<S>,
                          parent: map<S, S>, depth: map<S, nat>, done: set<S>, cur: S)
    requires Recorded(start, succ, universe, visited, parent, depth, done)
    requires cur in visited && Closed(succ, universe)
    ensures var addedSeq := Fresh(succ(cur), visited);
      var added := Elems(addedSeq);
      Recorded(start, succ, universe, visited + added, Extend(parent, addedSeq, cur),
               Extend(depth, addedSeq, depth[cur] + 1), done + {cur})
  {
    var addedSeq := Fresh(succ(cur), visited);
    var added := Elems(addedSeq);
    var parent' := Extend(parent, addedSeq, cur);
    var depth' := Extend(depth, addedSeq, depth[cur] + 1);
    assert added !! visited;
    forall x | x in parent'
      ensures parent'[x] in done + {cur} && x in succ(parent'[x]) && depth'[x] == depth'[parent'[x]] + 1
    {
      if x in added {
        assert parent'[x] == cur && depth'[x] == depth[cur] + 1;
      } else {
        assert parent'[x] == parent[x] && parent[x] in visited;
      }
    }
  }

  /** The layers after the head of a FIFO frontier is expanded. */
  function NextLayers<S>(a: seq<S>, b: seq<S>, added: seq<S>): (seq<S>, seq<S>)
    requires |a| + |b| > 0
  {
    if |a| > 0 then (a[1..], b + added) else (b[1..], added)
  }

  /** Expanding the state at position `i` of the frontier: the successor
      states it adds and the frontier, visited set and depths after it. */
  ghost predicate Expansion<S>(succ: S -> seq<S>, queue: seq<S>, visited: set<S>, depth: map<S, nat>, i: nat,
                               added: seq<S>, queue': seq<S>, visited': set<S>, depth': map<S, nat>)
  {
    && i < |queue| && queue[i] in depth && added == Fresh(succ(queue[i]), visited)
    && queue' == queue[..i] + queue[i + 1..] + added && visited' == visited + Elems(added)
    && depth' == Extend(depth, added, depth[queue[i]] + 1)
  }

  lemma ExpandCover<S>(succ: S -> seq<S>, queue: seq<S>, visited: set<S>, depth: map<S, nat>, done: set<S>, i: nat,
                       added: seq<S>, queue': seq<S>, visited': set<S>, depth': map<S, nat>)
    requires visited == done + Elems(queue) && visited <= depth.Keys
    requires Expansion(succ, queue, visited, depth, i, added, queue', visited', depth')
    ensures visited' == done + {queue[i]} + Elems(queue') && visited' <= depth'.Keys
  {
    ElemsRemove(queue, i);
    ElemsAppend(queue[..i] + queue[i + 1..], added);
  }

  /** Under FIFO the polled head lies in the shallower layer or below it. */
  lemma HeadDepth<S>(queue: seq<S>, depth: map<S, nat>, level: nat, a: seq<S>, b: seq<S>)
    requires |queue| > 0 && queue == a + b && Elems(queue) <= depth.Keys
    requires forall x :: x in a ==> x in depth && depth[x] == level
    requires forall x :: x in b ==> x in depth && depth[x] == level + 1
    ensures queue[0] in depth && level <= depth[queue[0]]
  {
    if |a| > 0 {
      assert queue[0] == a[0];
    } else {
      assert queue[0] == b[0];
    }
  }

  /** The expanded state joins the done set: no goal among them, and under
      FIFO none deeper than the expanded one. */
  lemma ExpandDoneGoals<S>(isGoal: S -> bool, fifo: bool, queue: seq<S>, visited: set<S>,
                           depth: map<S, nat>, done: set<S>, level: nat, i: nat, added: seq<S>, depth': map<S, nat>)
    requires visited == done + Elems(queue) && visited <= depth.Keys
    requires forall u :: u in done ==> !isGoal(u) && (fifo ==> depth[u] <= level)
    requires i < |queue| && !isGoal(queue[i]) && (fifo ==> level <= depth[queue[i]])
    requires Elems(added) !! visited && depth' == Extend(depth, added, depth[queue[i]] + 1)
    ensures forall u :: u in done + {queue[i]} ==> !isGoal(u) && (fifo ==> depth'[u] <= depth[queue[i]])
  {
    assert queue[i] in Elems(queue);
    forall u | u in done + {queue[i]}
      ensures !isGoal(u) && (fifo ==> depth'[u] <= depth[queue[i]])
    {
      assert u in visited && u !in Elems(added);
    }
  }

  /** Every successor of a done state, the expanded one included, is
      visited afterwards; under FIFO it is at most one level deeper. */
  lemma ExpandDoneEdges<S>(succ: S -> seq<S>, fifo: bool, queue: seq<S>, visited: set<S>,
                           depth: map<S, nat>, done: set<S>, level: nat, a: seq<S>, b: seq<S>, i: nat,
                           added: seq<S>, visited': set<S>, depth': map<S, nat>)
    requires visited == done + Elems(queue) && visited <= depth.Keys
    requires forall u :: u in done ==> (fifo ==> depth[u] <= level)
    requires forall u, w :: u in done && w in succ(u) ==> w in visited && (fifo ==> depth[w] <= depth[u] + 1)
    requires fifo ==> queue == a + b && (forall x :: x in a ==> depth[x] == level)
                                     && (forall x :: x in b ==> depth[x] == level + 1)
    requires i < |queue| && (fifo ==> level <= depth[queue[i]])
    requires added == Fresh(succ(queue[i]), visited) && visited' == visited + Elems(added)
    requires depth' == Extend(depth, added, depth[queue[i]] + 1)
    ensures forall u, w :: u in done + {queue[i]} && w in succ(u) ==>
              w in visited' && (fifo ==> depth'[w] <= depth'[u] + 1)
  {
    var cur := queue[i];
    assert Elems(added) !! visited;
    assert cur in Elems(queue);
    forall u, w | u in done + {cur} && w in succ(u)
      ensures w in visited' && (fifo ==> depth'[w] <= depth'[u] + 1)
    {
      if u == cur && w !in visited {
        assert w in Elems(added);
      } else if u == cur && fifo && w !in done {
        assert w in Elems(queue) && w in a + b;
      }
    }
  }

  lemma ExpandLayers<S>(succ: S -> seq<S>, queue: seq<S>, visited: set<S>, depth: map<S, nat>, level: nat,
                        a: seq<S>, b: seq<S>, added: seq<S>, queue': seq<S>, visited': set<S>, depth': map<S, nat>)
    requires queue == a + b && Elems(queue) <= visited && visited <= depth.Keys
    requires forall x :: x in a ==> depth[x] == level
    requires forall x :: x in b ==> depth[x] == level + 1
    requires Expansion(succ, queue, visited, depth, 0, added, queue', visited', depth')
    ensures var layers := NextLayers(a, b, added);
      && queue' == layers.0 + layers.1
      && (forall x :: x in layers.0 ==> depth'[x] == depth[queue[0]])
      && (forall x :: x in layers.1 ==> depth'[x] == depth[queue[0]] + 1)
  {
    assert Elems(added) !! visited;
    assert queue[..0] + queue[1..] == queue[1..];
    if |a| > 0 {
      LayersHeadA(queue, visited, depth, level, a, b, added, depth');
      assert queue' == queue[1..] + added;
    } else {
      assert queue' == b[1..] + added;
      forall x | x in b[1..]
        ensures depth'[x] == depth[x]
      {
        assert x in b && x in Elems(queue);
      }
    }
  }

  lemma LayersHeadA<S>(queue: seq<S>, visited: set<S>, depth: map<S, nat>, level: nat,
                       a: seq<S>, b: seq<S>, added: seq<S>, depth': map<S, nat>)
    requires queue == a + b && Elems(queue) <= visited && visited <= depth.Keys
    requires |a| > 0 && Elems(added) !! visited
    requires forall x :: x in a ==> depth[x] == level
    requires forall x :: x in b ==> depth[x] == level + 1
    requires queue[0] in depth && depth' == Extend(depth, added, depth[queue[0]] + 1)
    ensures queue[1..] + added == a[1..] + (b + added)
    ensures forall x :: x in a[1..] ==> depth'[x] == depth[queue[0]]
    ensures forall x :: x in b + added ==> depth'[x] == depth[queue[0]] + 1
  {
    assert queue[1..] + added == a[1..] + (b + added) by {
      assert queue[1..] == a[1..] + b;
    }
    assert forall x :: x in a[1..] ==> depth'[x] == depth[queue[0]] by {
      assert queue[0] == a[0];
      forall x | x in a[1..]
        ensures depth'[x] == depth[queue[0]]
      {
        assert x in a && x in Elems(queue);
      }
    }
    forall x | x in b + added
      ensures depth'[x] == depth[queue[0]] + 1
    {
      if x in b {
        assert x in Elems(queue);
      } else {
        assert x in Elems(added);
      }
    }
  }

  lemma ExpandFrontier<S>(succ: S -> seq<S>, isGoal: S -> bool, fifo: bool, queue: seq<S>, visited: set<S>,
                          depth: map<S, nat>, done: set<S>, level: nat, a: seq<S>, b: seq<S>, i: nat,
                          added: seq<S>, queue': seq<S>, visited': set<S>, depth': map<S, nat>, a': seq<S>, b': seq<S>)
    requires Frontier(succ, isGoal, fifo, queue, visited, depth, done, level, a, b)
    requires Expansion(succ, queue, visited, depth, i, added, queue', visited', depth')
    requires (fifo ==> i == 0) && !isGoal(queue[i])
    requires fifo ==> a' == NextLayers(a, b, added).0 && b' == NextLayers(a, b, added).1
    ensures Frontier(succ, isGoal, fifo, queue', visited', depth', done + {queue[i]}, depth[queue[i]], a', b')
  {
    ExpandCover(succ, queue, visited, depth, done, i, added, queue', visited', depth');
    if fifo {
      HeadDepth(queue, depth, level, a, b);
    }
    ExpandDoneGoals(isGoal, fifo, queue, visited, depth, done, level, i, added, depth');
    ExpandDoneEdges(succ, fifo, queue, visited, depth, done, level, a, b, i, added, visited', depth');
    if fifo {
      ExpandLayers(succ, queue, visited, depth, level, a, b, added, queue', visited', depth');
    }
  }

  /** One expansion of the non-goal state at position `i` keeps both
      invariants; a FIFO run always expands the head. */
  lemma ExpandStep<S>(start: S, succ: S -> seq<S>, isGoal: S -> bool, fifo: bool, universe: set<S>,
                      queue: seq<S>, visited: set<S>, parent: map<S, S>, depth: map<S, nat>,
                      done: set<S>, level: nat, a: seq<S>, b: seq<S>, i: nat, added: seq<S>,
                      queue': seq<S>, visited': set<S>, a': seq<S>, b': seq<S>)
    requires Closed(succ, universe)
    requires Recorded(start, succ, universe, visited, parent, depth, done)
    requires Frontier(succ, isGoal, fifo, queue, visited, depth, done, level, a, b)
    requires i < |queue| && (fifo ==> i == 0) && !isGoal(queue[i]) && added == Fresh(succ(queue[i]), visited)
    requires queue' == queue[..i] + queue[i + 1..] + added && visited' == visited + Elems(added)
    requires fifo ==> a' == NextLayers(a, b, added).0 && b' == NextLayers(a, b, added).1
    ensures Recorded(start, succ, universe, visited', Extend(parent, added, queue[i]),
                     Extend(depth, added, depth[queue[i]] + 1), done + {queue[i]})
    ensures Frontier(succ, isGoal, fifo, queue', visited', Extend(depth, added, depth[queue[i]] + 1),
                     done + {queue[i]}, depth[queue[i]], a', b')
  {
    ExpandRecorded(start, succ, universe, visited, parent, depth, done, queue[i]);
    ExpandFrontier(succ, isGoal, fifo, queue, visited, depth, done, level, a, b, i,
                   added, queue', visited', Extend(depth, added, depth[queue[i]] + 1), a', b');
  }

  /** The run only grows the visited set inside the universe. */
  lemma ExpandMeasure<S>(universe: set<S>, visited: set<S>, added: seq<S>)
    requires visited + Elems(added) <= universe && Elems(added) !! visited
    ensures |universe - (visited + Elems(added))| <= |universe - visited|
    ensures added != [] ==> |universe - (visited + Elems(added))| < |universe - visited|
  {
    if added != [] {
      assert added[0] in visited + Elems(added);
      ShrinkRemaining(universe, visited, visited + Elems(added));
    } else {
      assert visited + Elems(added) == visited;
    }
  }

  /** The parent chain of a goal leaving the frontier is a path from the
      start, and under FIFO no path to a goal is shorter. */
  lemma GoalFound<S>(start: S, succ: S -> seq<S>, isGoal: S -> bool, fifo: bool, universe: set<S>,
                     queue: seq<S>, visited: set<S>, parent: map<S, S>, depth: map<S, nat>,
                     done: set<S>, level: nat, a: seq<S>, b: seq<S>, i: nat, path: seq<S>)
    requires Recorded(start, succ, universe, visited, parent, depth, done)
    requires Frontier(succ, isGoal, fifo, queue, visited, depth, done, level, a, b)
    requires i < |queue| && (fifo ==> i == 0) && Linked(parent, path) && Last(path) == queue[i]
    ensures PathFrom(succ, start, path)
    ensures fifo ==> forall p :: PathFrom(succ, start, p) && isGoal(Last(p)) ==> |path| <= |p|
  {
    if |path| > 1 {
      assert path[0] == parent[path[1]];
    }
    LinkedIsPath(succ, parent, path);
    LinkedDepth(parent, depth, path);
    if fifo {
      forall p | PathFrom(succ, start, p) && isGoal(Last(p))
        ensures |path| <= |p|
      {
        FrontierCut(succ, start, p, done, visited, depth);
        var j :| 0 <= j < |p| && p[j] in visited && p[j] !in done && depth[p[j]] <= j;
        assert p[j] in a + b;
        if |a| > 0 {
          assert queue[0] == a[0];
        } else {
          assert queue[0] == b[0];
        }
      }
    }
  }

  /** The parent map a run keeps describes edges of the graph that lead back to the start. */
  lemma ParentFacts<S>(start: S, succ: S -> seq<S>, universe: set<S>, visited: set<S>,
                       parent: map<S, S>, depth: map<S, nat>, done: set<S>)
    requires Recorded(start, succ, universe, visited, parent, depth, done)
    ensures start !in parent && parent.Keys <= universe
    ensures forall x :: x in parent ==> x in succ(parent[x]) && (parent[x] == start || parent[x] in parent)
  {
    forall x | x in parent
      ensures parent[x] == start || parent[x] in parent
    {
      assert parent[x] in visited;
    }
  }

  /** A run whose frontier is empty has expanded everything reachable, and no goal. */
  lemma Exhausted<S>(start: S, succ: S -> seq<S>, isGoal: S -> bool, fifo: bool, universe: set<S>,
                     visited: set<S>, parent: map<S, S>, depth: map<S, nat>,
                     done: set<S>, level: nat, a: seq<S>, b: seq<S>)
    requires Recorded(start, succ, universe, visited, parent, depth, done)
    requires Frontier(succ, isGoal, fifo, [], visited, depth, done, level, a, b)
    ensures forall p :: PathFrom(succ, start, p) ==> !isGoal(Last(p))
  {
    assert visited == done by {
      assert Elems<S>([]) == {};
    }
    forall p | PathFrom(succ, start, p)
      ensures !isGoal(Last(p))
    {
      ClosedReach(succ, start, p, done);
    }
  }

  /** Expands `queue[i]`: its unvisited successors are marked visited, take
      it as their parent and join the end of the queue. */
  method Expand<S(==)>(ghost start: S, succ: S -> seq<S>, ghost isGoal: S -> bool, ghost fifo: bool,
                       ghost universe: set<S>, queue: seq<S>, visited: set<S>, parent: map<S, S>,
                       ghost depth: map<S, nat>, ghost done: set<S>, ghost level: nat,
                       ghost a: seq<S>, ghost b: seq<S>, i: nat)
    returns (queue': seq<S>, visited': set<S>, parent': map<S, S>, ghost depth': map<S, nat>,
             ghost done': set<S>, ghost level': nat, ghost a': seq<S>, ghost b': seq<S>)
    requires Closed(succ, universe)
    requires Recorded(start, succ, universe, visited, parent, depth, done)
    requires Frontier(succ, isGoal, fifo, queue, visited, depth, done, level, a, b)
    requires i < |queue| && (fifo ==> i == 0) && !isGoal(queue[i])
    ensures Recorded(start, succ, universe, visited', parent', depth', done')
    ensures Frontier(succ, isGoal, fifo, queue', visited', depth', done', level', a', b')
    ensures |universe - visited'| < |universe - visited| || (visited' == visited && |queue'| < |queue|)
  {
    done', level' := done + {queue[i]}, depth[queue[i]];
    var added := Fresh(succ(queue[i]), visited);
    ExpandMeasure(universe, visited, added);
    queue' := queue[..i] + queue[i + 1..] + added;
    visited' := visited + Elems(added);
    parent' := Extend(parent, added, queue[i]);
    depth' := Extend(depth, added, depth[queue[i]] + 1);
    a', b' := a, b;
    if fifo {
      a', b' := NextLayers(a, b, added).0, NextLayers(a, b, added).1;
    }
    ExpandStep(start, succ, isGoal, fifo, universe, queue, visited, parent, depth, done, level, a, b, i,
               added, queue', visited', a', b');
  }

  /** Reads the answer off the parent map once the goal `queue[i]` is polled. */
  method Finish<S(==)>(ghost start: S, ghost succ: S -> seq<S>, ghost isGoal: S -> bool, ghost fifo: bool,
                       ghost universe: set<S>, ghost queue: seq<S>, ghost visited: set<S>, parent: map<S, S>,
                       ghost depth: map<S, nat>, ghost done: set<S>, ghost level: nat,
                       ghost a: seq<S>, ghost b: seq<S>, i: nat, cur: S)
    returns (path: seq<S>)
    requires Recorded(start, succ, universe, visited, parent, depth, done)
    requires Frontier(succ, isGoal, fifo, queue, visited, depth, done, level, a, b)
    requires i < |queue| && (fifo ==> i == 0) && cur == queue[i]
    ensures PathFrom(succ, start, path) && Linked(parent, path) && Last(path) == cur
    ensures fifo ==> forall p :: PathFrom(succ, start, p) && isGoal(Last(p)) ==> |path| <= |p|
  {
    ghost var tie := map x | x in visited :: 0 as nat;
    path := ParentWalk(parent, cur, depth, tie);
    GoalFound(start, succ, isGoal, fifo, universe, queue, visited, parent, depth, done, level, a, b, i, path);
  }

  /** Both invariants hold when the frontier holds only the start. */
  lemma Initial<S>(start: S, succ: S -> seq<S>, isGoal: S -> bool, fifo: bool, universe: set<S>)
    requires start in universe
    ensures Recorded(start, succ, universe, {start}, map[], map[start := 0], {})
    ensures Frontier(succ, isGoal, fifo, [start], {start}, map[start := 0], {}, 0, [start], [])
  {
    assert Elems([start]) == {start};
  }

  /** The position the frontier polls next: the head under FIFO, a
      position of least heuristic value under greedy order. */
  method Poll<S>(queue: seq<S>, strategy: Strategy<S>) returns (i: nat)
    requires |queue| > 0
    ensures i < |queue| && (strategy.Fifo? ==> i == 0)
    ensures strategy.Greedy? ==> IsMinIndex(queue, strategy.h, i)
  {
    i := 0;
    if strategy.Greedy? {
      ghost var m := FirstMinIndex(queue, strategy.h);
      i :| 0 <= i < |queue| && IsMinIndex(queue, strategy.h, i);
    }
  }

  /**
   * Runs the search from `start`. `parent` maps each visited state except
   * the start to the state whose expansion enqueued it. A FIFO run returns
   * a shortest path; a run of either kind that empties its frontier shows
   * that no goal is reachable. `universe` is a finite successor-closed set
   * holding the start: it bounds the run.
   */
  method Search<S(==)>(start: S, succ: S -> seq<S>, isGoal: S -> bool, strategy: Strategy<S>, ghost universe: set<S>)
    returns (r: Outcome<S>, parent: map<S, S>)
    requires start in universe && Closed(succ, universe)
    ensures start !in parent && parent.Keys <= universe
    ensures forall x :: x in parent ==> x in succ(parent[x]) && (parent[x] == start || parent[x] in parent)
    ensures r.Solved? ==> PathFrom(succ, start, r.path) && isGoal(Last(r.path)) && Linked(parent, r.path)
    ensures r.Solved? && strategy.Fifo? ==>
              forall p :: PathFrom(succ, start, p) && isGoal(Last(p)) ==> |r.path| <= |p|
    ensures r.NoSolution? ==> forall p :: PathFrom(succ, start, p) ==> !isGoal(Last(p))
  {
    ghost var fifo := strategy.Fifo?;
    Initial(start, succ, isGoal, fifo, universe);
    var queue := [start];
    var visited := {start};
    parent := map[];
    ghost var depth: map<S, nat> := map[start := 0];
    ghost var done: set<S> := {};
    ghost var level: nat := 0;
    ghost var a, b := [start], [];
    while queue != []
      invariant Recorded(start, succ, universe, visited, parent, depth, done)
      invariant Frontier(succ, isGoal, fifo, queue, visited, depth, done, level, a, b)
      decreases |universe - visited|, |queue|
    {
      var i := Poll(queue, strategy);
      var cur := queue[i];
      if isGoal(cur) {
        var path := Finish(start, succ, isGoal, fifo, universe, queue, visited, parent, depth, done, level, a, b, i, cur);
        ParentFacts(start, succ, universe, visited, parent, depth, done);
        r := Solved(path);
        return;
      }
      queue, visited, parent, depth, done, level, a, b :=
        Expand(start, succ, isGoal, fifo, universe, queue, visited, parent, depth, done, level, a, b, i);
    }
    ParentFacts(start, succ, universe, visited, parent, depth, done);
    Exhausted(start, succ, isGoal, fifo, universe, visited, parent, depth, done, level, a, b);
    r := NoSolution;
  }
}

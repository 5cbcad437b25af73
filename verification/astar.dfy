/**
 * The A* loop shared by the water-jug, missionaries, eight-puzzle, maze and
 * N-Queens programs. A g-map holds the best known move count of each state
 * (absent means Integer.MAX_VALUE); polling a state that is not a goal
 * relaxes each successor: when the current g plus one beats the successor's
 * g, its g and parent are overwritten and it is pushed again.
 *
 * The Java priority queue compares g + h while g keeps changing under it,
 * so the order in which it yields states is not defined; the model polls
 * any state of the frontier and proves only what holds for every choice.
 * The heuristics therefore do not appear here.
 */
module AStar {
  import opened Seqs
  import opened Paths

  /** Integer.MAX_VALUE, the "no g yet" value of `gCost`. */
  const IntMax: nat := 0x7fff_ffff

  /** The g-map, the parent map and the frontier, with repeats. */
  datatype Table<S> = Table(g: map<S, nat>, parent: map<S, S>, queue: seq<S>)

  datatype Outcome<S> = Solved(path: seq<S>, cost: nat) | NoSolution

  /** `gCost`: the recorded g, or Integer.MAX_VALUE for a state never reached. */
  function GCost<S>(g: map<S, nat>, s: S): nat
  {
    if s in g then g[s] else IntMax
  }

  /** Relaxing the edge from `cur` to `next`. */
  function Relax<S>(t: Table<S>, cur: S, next: S): (r: Table<S>)
    requires cur in t.g
    ensures r != t <==> t.g[cur] + 1 < GCost(t.g, next)
    ensures r != t ==> && r.g == t.g[next := t.g[cur] + 1] && r.parent == t.parent[next := cur]
                       && r.queue == t.queue + [next]
    ensures forall x :: x in t.g ==> x in r.g && r.g[x] <= t.g[x]
  {
    if t.g[cur] + 1 < GCost(t.g, next) then
      Table(t.g[next := t.g[cur] + 1], t.parent[next := cur], t.queue + [next])
    else t
  }

  /** The facts every table of a run keeps: g(start) = 0 and the start has
      no parent; every other recorded state has a parent, reached by one
      move from it and of smaller g; g stays below the sentinel; everything
      queued has a g. */
  ghost predicate Recorded<S>(start: S, succ: S -> seq<S>, universe: set<S>, t: Table<S>)
  {
    && start in t.g && t.g[start] == 0 && start !in t.parent
    && t.parent.Keys == t.g.Keys - {start} && t.g.Keys <= universe
    && (forall x :: x in t.g ==> t.g[x] < IntMax)
    && (forall x :: x in t.parent ==> t.parent[x] in t.g && t.g[t.parent[x]] < t.g[x] && x in succ(t.parent[x]))
    && (forall x :: x in t.queue ==> x in t.g)
  }

  /** Every recorded state is queued, is `cur`, or has been expanded: it is
      not a goal and each of its successors has a g. */
  ghost predicate Covered<S>(succ: S -> seq<S>, isGoal: S -> bool, t: Table<S>, cur: set<S>)
  {
    forall u :: u in t.g ==> u in t.queue || u in cur || (!isGoal(u) && forall w :: w in succ(u) ==> w in t.g)
  }

  lemma RelaxKeeps<S>(start: S, succ: S -> seq<S>, isGoal: S -> bool, universe: set<S>, t: Table<S>, cur: S, next: S)
    requires Recorded(start, succ, universe, t) && Covered(succ, isGoal, t, {cur})
    requires cur in t.g && next in succ(cur) && next in universe
    ensures Recorded(start, succ, universe, Relax(t, cur, next))
    ensures Covered(succ, isGoal, Relax(t, cur, next), {cur})
    ensures forall x :: GCost(Relax(t, cur, next).g, x) <= GCost(t.g, x)
  {
  }

  /** `poll`: the frontier without its entry at `i`. */
  function Drop<S>(t: Table<S>, i: nat): (r: Table<S>)
    requires i < |t.queue|
    ensures r.g == t.g && r.parent == t.parent && |r.queue| == |t.queue| - 1
    ensures forall x :: x in r.queue ==> x in t.queue
    ensures forall x :: x in t.queue && x != t.queue[i] ==> x in r.queue
  {
    var r := t.(queue := t.queue[..i] + t.queue[i + 1..]);
    assert forall x :: x in t.queue && x != t.queue[i] ==> x in r.queue by {
      forall x | x in t.queue && x != t.queue[i]
        ensures x in r.queue
      {
        var j :| 0 <= j < |t.queue| && t.queue[j] == x;
        if j < i {
          assert r.queue[j] == x;
        } else {
          assert r.queue[j - 1] == x;
        }
      }
    }
    r
  }

  /** Ghost witnesses for the g-map: for every recorded state a sequence of
      g + 1 distinct states, each of which has a g no larger than its own
      index. Relaxation keeps them (a state already on the witness of `cur`
      has g at most g(cur), so it is never improved from `cur`), and they
      bound every g by the number of states. */
  ghost predicate Witnessed<S>(t: Table<S>, wit: map<S, seq<S>>)
  {
    && wit.Keys == t.g.Keys
    && forall x :: x in wit ==>
         && |wit[x]| == t.g[x] + 1 && NoDup(wit[x])
         && forall j :: 0 <= j < |wit[x]| ==> wit[x][j] in t.g && t.g[wit[x][j]] <= j
  }

  /** The witnesses after relaxing the edge from `cur` to `next`. */
  ghost function WitStep<S>(t: Table<S>, wit: map<S, seq<S>>, cur: S, next: S): map<S, seq<S>>
    requires cur in t.g && cur in wit
  {
    if t.g[cur] + 1 < GCost(t.g, next) then wit[next := wit[cur] + [next]] else wit
  }

  lemma RelaxWitness<S>(t: Table<S>, wit: map<S, seq<S>>, cur: S, next: S)
    requires Witnessed(t, wit) && cur in t.g
    ensures Witnessed(Relax(t, cur, next), WitStep(t, wit, cur, next))
  {
    var r := Relax(t, cur, next);
    if r != t {
      var w := wit[cur];
      assert Elems(w) !! Elems([next]);
      NoDupAppend(w, [next]);
      var wit' := WitStep(t, wit, cur, next);
      forall x | x in wit'
        ensures forall j :: 0 <= j < |wit'[x]| ==> wit'[x][j] in r.g && r.g[wit'[x][j]] <= j
      {
        forall j | 0 <= j < |wit'[x]|
          ensures wit'[x][j] in r.g && r.g[wit'[x][j]] <= j
        {
          if x == next && j < |w| {
            assert wit'[x][j] == w[j];
          }
        }
      }
    }
  }

  /** Each witness is a play from the start to its state. */
  ghost predicate Walked<S>(start: S, succ: S -> seq<S>, wit: map<S, seq<S>>)
  {
    forall x :: x in wit ==> PathFrom(succ, start, wit[x]) && Last(wit[x]) == x
  }

  lemma WalkedStep<S>(start: S, succ: S -> seq<S>, t: Table<S>, wit: map<S, seq<S>>, cur: S, next: S)
    requires cur in t.g && cur in wit && Walked(start, succ, wit) && next in succ(cur)
    ensures Walked(start, succ, WitStep(t, wit, cur, next))
  {
    if t.g[cur] + 1 < GCost(t.g, next) {
      var v := wit[cur];
      var w := v + [next];
      forall i | 0 < i < |w|
        ensures w[i] in succ(w[i - 1])
      {
        if i < |v| {
          assert w[i] == v[i] && w[i - 1] == v[i - 1];
        }
      }
    }
  }

  lemma {:induction false} WalkedAll<S>(start: S, succ: S -> seq<S>, t: Table<S>, wit: map<S, seq<S>>,
                                        cur: S, nexts: seq<S>)
    requires cur in t.g && cur in wit && Witnessed(t, wit) && Walked(start, succ, wit)
    requires forall j :: 0 <= j < |nexts| ==> nexts[j] in succ(cur)
    ensures Walked(start, succ, WitAll(t, wit, cur, nexts))
    decreases |nexts|
  {
    if nexts != [] {
      var next := nexts[0];
      RelaxWitness(t, wit, cur, next);
      WalkedStep(start, succ, t, wit, cur, next);
      WalkedAll(start, succ, Relax(t, cur, next), WitStep(t, wit, cur, next), cur, nexts[1..]);
    }
  }

  /** Witnesses are distinct recorded states, so no g reaches the number of
      states. */
  lemma GBelow<S>(t: Table<S>, wit: map<S, seq<S>>, universe: set<S>, x: S)
    requires Witnessed(t, wit) && t.g.Keys <= universe && x in t.g
    ensures t.g[x] < |universe|
  {
    var w := wit[x];
    assert Elems(w) <= universe by {
      forall y | y in Elems(w)
        ensures y in universe
      {
        var j :| 0 <= j < |w| && w[j] == y;
      }
    }
    NoDupCard(w);
    SubsetCard(Elems(w), universe);
  }

  /** One choice per non-empty set; it fixes the order of `Potential`. */
  ghost function Pick<S>(u: set<S>): S
    requires u != {}
  {
    var x :| x in u; x
  }

  /** The sum of `GCost` over `u`. No update can raise a term and every
      update lowers one, so the sum bounds the number of pushes. */
  ghost function Potential<S>(g: map<S, nat>, u: set<S>): nat
    decreases u
  {
    if u == {} then 0 else GCost(g, Pick(u)) + Potential(g, u - {Pick(u)})
  }

  lemma {:induction false} PotentialBelow<S>(g: map<S, nat>, g': map<S, nat>, u: set<S>, y: S)
    requires forall x :: GCost(g', x) <= GCost(g, x)
    ensures Potential(g', u) <= Potential(g, u)
    ensures y in u && GCost(g', y) < GCost(g, y) ==> Potential(g', u) < Potential(g, u)
    decreases u
  {
    if u != {} {
      PotentialBelow(g, g', u - {Pick(u)}, y);
    }
  }

  /** The `for` loop over the successors of `cur`: relaxes each edge in
      order. */
  function RelaxAll<S>(t: Table<S>, cur: S, nexts: seq<S>): (r: Table<S>)
    requires cur in t.g
    ensures forall x :: x in t.g ==> x in r.g && r.g[x] <= t.g[x]
    ensures |r.queue| >= |t.queue|
    decreases |nexts|
  {
    if nexts == [] then t else RelaxAll(Relax(t, cur, nexts[0]), cur, nexts[1..])
  }

  /** The witnesses after `RelaxAll`. */
  ghost function WitAll<S>(t: Table<S>, wit: map<S, seq<S>>, cur: S, nexts: seq<S>): map<S, seq<S>>
    requires cur in t.g && cur in wit
    requires Witnessed(t, wit)
    decreases |nexts|
  {
    if nexts == [] then wit
    else
      RelaxWitness(t, wit, cur, nexts[0]);
      WitAll(Relax(t, cur, nexts[0]), WitStep(t, wit, cur, nexts[0]), cur, nexts[1..])
  }

  /** Relaxing the successors of an expanded `cur` keeps the tables and the
      witnesses, and records every successor. */
  lemma {:induction false} RelaxAllKeeps<S>(start: S, succ: S -> seq<S>, isGoal: S -> bool, universe: set<S>,
                                            t: Table<S>, wit: map<S, seq<S>>, cur: S, nexts: seq<S>)
    requires Closed(succ, universe) && |universe| < IntMax
    requires Recorded(start, succ, universe, t) && Covered(succ, isGoal, t, {cur}) && Witnessed(t, wit)
    requires cur in t.g && forall j :: 0 <= j < |nexts| ==> nexts[j] in succ(cur)
    ensures Recorded(start, succ, universe, RelaxAll(t, cur, nexts))
    ensures Covered(succ, isGoal, RelaxAll(t, cur, nexts), {cur})
    ensures Witnessed(RelaxAll(t, cur, nexts), WitAll(t, wit, cur, nexts))
    ensures forall j :: 0 <= j < |nexts| ==> nexts[j] in RelaxAll(t, cur, nexts).g
    decreases |nexts|
  {
    if nexts != [] {
      var next := nexts[0];
      assert cur in universe;
      GBelow(t, wit, universe, cur);
      RelaxKeeps(start, succ, isGoal, universe, t, cur, next);
      RelaxWitness(t, wit, cur, next);
      RelaxAllKeeps(start, succ, isGoal, universe, Relax(t, cur, next), WitStep(t, wit, cur, next), cur, nexts[1..]);
      forall j | 0 <= j < |nexts|
        ensures nexts[j] in RelaxAll(t, cur, nexts).g
      {
        if j > 0 {
          assert nexts[j] == nexts[1..][j - 1];
        } else {
          assert next in Relax(t, cur, next).g;
        }
      }
    }
  }

  /** `RelaxAll` lowers the potential, strictly when it pushes anything. */
  lemma {:induction false} RelaxAllPotential<S>(t: Table<S>, cur: S, nexts: seq<S>, universe: set<S>)
    requires cur in t.g && t.g.Keys <= universe && forall j :: 0 <= j < |nexts| ==> nexts[j] in universe
    ensures Potential(RelaxAll(t, cur, nexts).g, universe) <= Potential(t.g, universe)
    ensures |RelaxAll(t, cur, nexts).queue| > |t.queue| ==>
              Potential(RelaxAll(t, cur, nexts).g, universe) < Potential(t.g, universe)
    decreases |nexts|
  {
    if nexts != [] {
      var next := nexts[0];
      var t1 := Relax(t, cur, next);
      PotentialBelow(t.g, t1.g, universe, next);
      RelaxAllPotential(t1, cur, nexts[1..], universe);
    }
  }

  /** Expanding `cur`, already removed from the frontier, keeps the loop's
      invariant and lowers the potential, strictly when it pushes. */
  lemma Expanded<S>(start: S, succ: S -> seq<S>, isGoal: S -> bool, universe: set<S>,
                    t: Table<S>, wit: map<S, seq<S>>, cur: S)
    requires Closed(succ, universe) && |universe| < IntMax
    requires Recorded(start, succ, universe, t) && Covered(succ, isGoal, t, {cur}) && Witnessed(t, wit)
    requires cur in t.g && !isGoal(cur)
    ensures Recorded(start, succ, universe, RelaxAll(t, cur, succ(cur)))
    ensures Covered(succ, isGoal, RelaxAll(t, cur, succ(cur)), {})
    ensures Witnessed(RelaxAll(t, cur, succ(cur)), WitAll(t, wit, cur, succ(cur)))
    ensures Potential(RelaxAll(t, cur, succ(cur)).g, universe) <= Potential(t.g, universe)
    ensures |RelaxAll(t, cur, succ(cur)).queue| > |t.queue| ==>
              Potential(RelaxAll(t, cur, succ(cur)).g, universe) < Potential(t.g, universe)
  {
    var nexts := succ(cur);
    RelaxAllKeeps(start, succ, isGoal, universe, t, wit, cur, nexts);
    RelaxAllPotential(t, cur, nexts, universe);
  }

  /** Reads the answer off the tables once the goal `cur` is polled: the
      parent walk and the goal's g. */
  method Finish<S(==)>(ghost start: S, ghost succ: S -> seq<S>, ghost universe: set<S>, t: Table<S>, cur: S)
    returns (path: seq<S>, cost: nat)
    requires Recorded(start, succ, universe, t) && cur in t.g
    ensures PathFrom(succ, start, path) && Linked(t.parent, path) && Last(path) == cur
    ensures cost == t.g[cur] && |path| - 1 <= cost < IntMax
  {
    path := ParentWalk(t.parent, cur, t.g, t.g);
    cost := t.g[cur];
    assert path[0] == start by {
      if |path| > 1 {
        assert path[0] == t.parent[path[1]];
      }
    }
    LinkedIsPath(succ, t.parent, path);
    LinkedRise(t.parent, t.g, path);
  }

  /** A frontier that empties leaves only expanded states behind. */
  lemma Exhausted<S>(start: S, succ: S -> seq<S>, isGoal: S -> bool, universe: set<S>, t: Table<S>)
    requires Recorded(start, succ, universe, t) && Covered(succ, isGoal, t, {}) && t.queue == []
    ensures forall p :: PathFrom(succ, start, p) ==> !isGoal(Last(p))
  {
    forall p | PathFrom(succ, start, p)
      ensures !isGoal(Last(p))
    {
      ClosedReach(succ, start, p, t.g.Keys);
    }
  }

  /**
   * Runs A* from `start`. A solution is a path from the start to a goal,
   * namely the parent walk from the polled goal, with the goal's g as its
   * cost, which is at least its number of moves. An empty frontier shows no
   * goal is reachable. `universe` is a finite successor-closed set holding
   * the start; the sum of `GCost` over it falls with every push, so the run
   * ends. The state space must be smaller than Integer.MAX_VALUE, so that
   * no g reaches the sentinel.
   */
  method Search<S(==)>(start: S, succ: S -> seq<S>, isGoal: S -> bool, ghost universe: set<S>)
    returns (r: Outcome<S>)
    requires start in universe && Closed(succ, universe) && |universe| < IntMax
    ensures r.Solved? ==> PathFrom(succ, start, r.path) && isGoal(Last(r.path))
    ensures r.Solved? ==> |r.path| - 1 <= r.cost < |universe|
    ensures r.Solved? ==> exists w :: PathFrom(succ, start, w) && Last(w) == Last(r.path) && |w| == r.cost + 1
    ensures r.NoSolution? ==> forall p :: PathFrom(succ, start, p) ==> !isGoal(Last(p))
  {
    var t := Table(map[start := 0], map[], [start]);
    ghost var wit := map[start := [start]];
    while t.queue != []
      invariant Recorded(start, succ, universe, t) && Covered(succ, isGoal, t, {}) && Witnessed(t, wit)
      invariant Walked(start, succ, wit)
      decreases Potential(t.g, universe), |t.queue|
    {
      var i :| 0 <= i < |t.queue|;
      var cur := t.queue[i];
      if isGoal(cur) {
        var path, cost := Finish(start, succ, universe, t, cur);
        GBelow(t, wit, universe, cur);
        assert PathFrom(succ, start, wit[cur]) && Last(wit[cur]) == cur;
        return Solved(path, cost);
      }
      var polled := Drop(t, i);
      Expanded(start, succ, isGoal, universe, polled, wit, cur);
      WalkedAll(start, succ, polled, wit, cur, succ(cur));
      wit := WitAll(polled, wit, cur, succ(cur));
      t := RelaxAll(polled, cur, succ(cur));
    }
    Exhausted(start, succ, isGoal, universe, t);
    return NoSolution;
  }
}

/**
 * The water-jug puzzle: two jugs of capacities `cap1` and `cap2`, both
 * empty at the start; a move fills a jug, empties a jug, or pours one into
 * the other until the source is empty or the target is full. The goal is a
 * jug holding exactly `target`. The five programs (BFS, DFS, depth-limited,
 * greedy best-first, A*) share this move set and differ only in the search.
 */
module WaterJug {
  import opened Wrappers
  import opened Seqs
  import opened Paths
  import GraphSearch
  import DepthFirst
  import AStar

  /** `State(jug1, jug2)`. */
  datatype Jugs = Jugs(jug1: int, jug2: int)

  function Min(a: int, b: int): int
  {
    if a <= b then a else b
  }

  function Abs(a: int): int
  {
    if a < 0 then -a else a
  }

  /** The six successor states, in the order every program lists them:
      fill jug 1, fill jug 2, empty jug 1, empty jug 2, pour 1 into 2,
      pour 2 into 1. */
  function Moves(cap1: int, cap2: int, cur: Jugs): (r: seq<Jugs>)
    ensures |r| == 6
  {
    var pourToJug2 := Min(cur.jug1, cap2 - cur.jug2);
    var pourToJug1 := Min(cur.jug2, cap1 - cur.jug1);
    [ Jugs(cap1, cur.jug2), Jugs(cur.jug1, cap2), Jugs(0, cur.jug2), Jugs(cur.jug1, 0),
      Jugs(cur.jug1 - pourToJug2, cur.jug2 + pourToJug2),
      Jugs(cur.jug1 + pourToJug1, cur.jug2 - pourToJug1) ]
  }

  /** `Moves` as the successor function the engines take. */
  function Succ(cap1: int, cap2: int): Jugs -> seq<Jugs>
  {
    s => Moves(cap1, cap2, s)
  }

  /** The goal test of every program: either jug holds the target. */
  predicate IsGoal(target: int, s: Jugs)
  {
    s.jug1 == target || s.jug2 == target
  }

  /** The heuristic of the best-first and A* programs: how far the nearer
      jug is from the target. */
  function Heuristic(target: int, s: Jugs): int
  {
    Min(Abs(s.jug1 - target), Abs(s.jug2 - target))
  }

  lemma HeuristicZero(target: int, s: Jugs)
    ensures Heuristic(target, s) >= 0
    ensures Heuristic(target, s) == 0 <==> IsGoal(target, s)
  {
  }

  predicate InBox(cap1: int, cap2: int, s: Jugs)
  {
    0 <= s.jug1 <= cap1 && 0 <= s.jug2 <= cap2
  }

  /** Pouring `from` into `to` (of capacity `cap`) leaves `from'` and `to'`:
      no water is lost, the source only loses water, the target never
      overflows, and the pour stops only when the source is empty or the
      target is full. */
  predicate Poured(from: int, to: int, cap: int, from': int, to': int)
  {
    && from' + to' == from + to && 0 <= from' <= from && to' <= cap
    && (from' == 0 || to' == cap)
  }

  /** The puzzle's rules as a relation, independent of how `Moves` computes
      the pour amounts. */
  predicate IsMove(cap1: int, cap2: int, s: Jugs, t: Jugs)
  {
    || t == Jugs(cap1, s.jug2) || t == Jugs(s.jug1, cap2)
    || t == Jugs(0, s.jug2) || t == Jugs(s.jug1, 0)
    || Poured(s.jug1, s.jug2, cap2, t.jug1, t.jug2)
    || Poured(s.jug2, s.jug1, cap1, t.jug2, t.jug1)
  }

  /** From a state within the capacities, `Moves` lists exactly the states
      the rules allow, and they stay within the capacities. */
  lemma MovesAreRules(cap1: int, cap2: int, s: Jugs)
    requires InBox(cap1, cap2, s)
    ensures forall t :: t in Moves(cap1, cap2, s) <==> IsMove(cap1, cap2, s, t)
    ensures forall t :: t in Moves(cap1, cap2, s) ==> InBox(cap1, cap2, t)
  {
    var m := Moves(cap1, cap2, s);
    forall t | IsMove(cap1, cap2, s, t)
      ensures t in m
    {
      if Poured(s.jug1, s.jug2, cap2, t.jug1, t.jug2) {
        assert t == m[4];
      } else if Poured(s.jug2, s.jug1, cap1, t.jug2, t.jug1) {
        assert t == m[5];
      }
    }
  }

  /** A play of the puzzle from two empty jugs. */
  ghost predicate Trace(cap1: int, cap2: int, p: seq<Jugs>)
  {
    |p| > 0 && p[0] == Jugs(0, 0) && forall i :: 0 < i < |p| ==> IsMove(cap1, cap2, p[i - 1], p[i])
  }

  ghost predicate Solution(cap1: int, cap2: int, target: int, p: seq<Jugs>)
  {
    Trace(cap1, cap2, p) && IsGoal(target, Last(p))
  }

  /** Every state within the capacities. */
  function Box(cap1: nat, cap2: nat): (r: set<Jugs>)
    ensures forall s :: s in r <==> InBox(cap1, cap2, s)
    ensures |r| <= (cap1 + 1) * (cap2 + 1)
  {
    if cap1 == 0 then Column(0, cap2)
    else
      var r := Box(cap1 - 1, cap2) + Column(cap1, cap2);
      assert |r| <= |Box(cap1 - 1, cap2)| + |Column(cap1, cap2)|;
      r
  }

  /** The states with `jug1 == a`. */
  function Column(a: int, cap2: nat): (r: set<Jugs>)
    ensures forall s :: s in r <==> s.jug1 == a && 0 <= s.jug2 <= cap2
    ensures |r| <= cap2 + 1
  {
    if cap2 == 0 then {Jugs(a, 0)} else Column(a, cap2 - 1) + {Jugs(a, cap2)}
  }

  lemma BoxClosed(cap1: nat, cap2: nat)
    ensures Closed(Succ(cap1, cap2), Box(cap1, cap2))
  {
    forall s, t | s in Box(cap1, cap2) && t in Succ(cap1, cap2)(s)
      ensures t in Box(cap1, cap2)
    {
      MovesAreRules(cap1, cap2, s);
    }
  }

  /** The engines' paths from two empty jugs are exactly the plays. */
  lemma {:induction false} PathsAreTraces(cap1: nat, cap2: nat, p: seq<Jugs>)
    ensures PathFrom(Succ(cap1, cap2), Jugs(0, 0), p) <==> Trace(cap1, cap2, p)
  {
    var succ := Succ(cap1, cap2);
    if PathFrom(succ, Jugs(0, 0), p) {
      BoxClosed(cap1, cap2);
      ClosedReach(succ, Jugs(0, 0), p, Box(cap1, cap2));
      forall i | 0 < i < |p|
        ensures IsMove(cap1, cap2, p[i - 1], p[i])
      {
        MovesAreRules(cap1, cap2, p[i - 1]);
      }
    }
    if Trace(cap1, cap2, p) {
      TraceInBox(cap1, cap2, p, |p|);
      forall i | 0 < i < |p|
        ensures p[i] in succ(p[i - 1])
      {
        MovesAreRules(cap1, cap2, p[i - 1]);
      }
    }
  }

  lemma {:induction false} TraceInBox(cap1: nat, cap2: nat, p: seq<Jugs>, n: nat)
    requires Trace(cap1, cap2, p) && n <= |p|
    ensures forall i :: 0 <= i < n ==> InBox(cap1, cap2, p[i])
  {
    if n > 0 {
      TraceInBox(cap1, cap2, p, n - 1);
      if n > 1 {
        MovesAreRules(cap1, cap2, p[n - 2]);
      }
    }
  }

  lemma SolutionsAsPaths(cap1: nat, cap2: nat, target: int)
    ensures forall p :: PathFrom(Succ(cap1, cap2), Jugs(0, 0), p) && IsGoal(target, Last(p))
                        <==> Solution(cap1, cap2, target, p)
  {
    forall p
      ensures PathFrom(Succ(cap1, cap2), Jugs(0, 0), p) <==> Trace(cap1, cap2, p)
    {
      PathsAreTraces(cap1, cap2, p);
    }
  }

  /** `WaterJugBFS.solve`: a shortest play reaching the target, or none. */
  method Bfs(cap1: nat, cap2: nat, target: int) returns (r: GraphSearch.Outcome<Jugs>)
    ensures r.Solved? ==> Solution(cap1, cap2, target, r.path)
    ensures r.Solved? ==> forall p :: Solution(cap1, cap2, target, p) ==> |r.path| <= |p|
    ensures r.NoSolution? ==> forall p :: !Solution(cap1, cap2, target, p)
  {
    BoxClosed(cap1, cap2);
    SolutionsAsPaths(cap1, cap2, target);
    var goal := s => IsGoal(target, s);
    var parent;
    r, parent := GraphSearch.Search(Jugs(0, 0), Succ(cap1, cap2), goal, GraphSearch.Fifo, Box(cap1, cap2));
  }

  /** `WaterJugBestFirst.bestFirstSearch`: the queue orders by the heuristic
      towards the class's static target 2, whatever target is passed. */
  method BestFirst(cap1: nat, cap2: nat, target: int) returns (r: GraphSearch.Outcome<Jugs>)
    ensures r.Solved? ==> Solution(cap1, cap2, target, r.path)
    ensures r.NoSolution? ==> forall p :: !Solution(cap1, cap2, target, p)
  {
    BoxClosed(cap1, cap2);
    SolutionsAsPaths(cap1, cap2, target);
    var goal := s => IsGoal(target, s);
    var h := s => Heuristic(2, s);
    var parent;
    r, parent := GraphSearch.Search(Jugs(0, 0), Succ(cap1, cap2), goal, GraphSearch.Greedy(h), Box(cap1, cap2));
  }

  /** `WaterJugAStar.aStarSearch`: a play reaching the target together with
      the g the program prints as its cost, or none. */
  method AStarSearch(cap1: nat, cap2: nat, target: int) returns (r: AStar.Outcome<Jugs>)
    requires (cap1 + 1) * (cap2 + 1) < AStar.IntMax
    ensures r.Solved? ==> Solution(cap1, cap2, target, r.path) && |r.path| - 1 <= r.cost
    ensures r.NoSolution? ==> forall p :: !Solution(cap1, cap2, target, p)
  {
    BoxClosed(cap1, cap2);
    SolutionsAsPaths(cap1, cap2, target);
    var goal := s => IsGoal(target, s);
    r := AStar.Search(Jugs(0, 0), Succ(cap1, cap2), goal, Box(cap1, cap2));
  }

  /** The recursive search of `WaterJugDFS` and `WaterJugDLS` from two
      empty jugs, with an optional depth limit. */
  method DepthFirstSearch(cap1: nat, cap2: nat, target: int, limit: Option<nat>) returns (path: Option<seq<Jugs>>)
    ensures path.Some? ==> Solution(cap1, cap2, target, path.value)
    ensures path.Some? && limit.Some? ==> |path.value| - 1 <= limit.value
    ensures path.None? && limit.None? ==> forall p :: !Solution(cap1, cap2, target, p)
  {
    BoxClosed(cap1, cap2);
    SolutionsAsPaths(cap1, cap2, target);
    var goal := s => IsGoal(target, s);
    path := DepthFirst.Search(Succ(cap1, cap2), goal, limit, Jugs(0, 0), Box(cap1, cap2));
  }

  /** `WaterJugDFS`: capacities 4 and 3 and target 2 are static fields. A
      play exists, so the search finds one. */
  method Dfs() returns (path: Option<seq<Jugs>>)
    ensures path.Some? && Solution(4, 3, 2, path.value)
  {
    path := DepthFirstSearch(4, 3, 2, None);
    FourThreeSolvable();
  }

  /** `WaterJugDLS`: the same with `depthLimit` 10. */
  method Dls() returns (path: Option<seq<Jugs>>)
    ensures path.Some? ==> Solution(4, 3, 2, path.value) && |path.value| - 1 <= 10
  {
    path := DepthFirstSearch(4, 3, 2, Some(10));
  }

  /** Fill jug 2, pour it into jug 1, fill jug 2 again, top up jug 1. */
  lemma FourThreeSolvable()
    ensures Solution(4, 3, 2, [Jugs(0, 0), Jugs(0, 3), Jugs(3, 0), Jugs(3, 3), Jugs(4, 2)])
  {
    var p := [Jugs(0, 0), Jugs(0, 3), Jugs(3, 0), Jugs(3, 3), Jugs(4, 2)];
    assert Poured(3, 0, 4, 0, 3);
    assert Poured(3, 3, 4, 2, 4);
  }

  /** The states reachable from two empty 4- and 3-litre jugs within `k`
      moves, for k up to 3; none holds 2 litres. */
  predicate InLayer(k: nat, s: Jugs)
  {
    if k == 0 then s == Jugs(0, 0)
    else if k == 1 then s == Jugs(0, 0) || s == Jugs(0, 3) || s == Jugs(4, 0)
    else if k == 2 then InLayer(1, s) || s == Jugs(1, 3) || s == Jugs(3, 0) || s == Jugs(4, 3)
    else InLayer(2, s) || s == Jugs(1, 0) || s == Jugs(3, 3)
  }

  lemma LayerStep(k: nat, s: Jugs, t: Jugs)
    requires k < 3 && InLayer(k, s) && IsMove(4, 3, s, t)
    ensures InLayer(k + 1, t)
  {
  }

  /** The k-th state of a play, for k up to three, lies in layer k. */
  lemma {:induction false} LayerAt(p: seq<Jugs>, k: nat)
    requires Trace(4, 3, p) && k < |p| && k <= 3
    ensures InLayer(k, p[k])
  {
    var i := 0;
    while i < k
      invariant 0 <= i <= k && InLayer(i, p[i])
    {
      LayerStep(i, p[i], p[i + 1]);
      i := i + 1;
    }
  }

  /** No play of at most three moves reaches 2 litres. */
  lemma NoShortSolution(p: seq<Jugs>)
    requires Trace(4, 3, p) && |p| <= 4
    ensures !IsGoal(2, Last(p))
  {
    LayerAt(p, |p| - 1);
    LayerNoGoal(|p| - 1, Last(p));
  }

  /** The only state with 2 litres one move past layer three is (4, 2). */
  lemma FourthMoveGoal(s: Jugs, t: Jugs)
    requires InLayer(3, s) && IsMove(4, 3, s, t) && IsGoal(2, t)
    ensures t == Jugs(4, 2)
  {
    assert InLayer(2, s) ==> InLayer(1, s) || s == Jugs(1, 3) || s == Jugs(3, 0) || s == Jugs(4, 3);
    assert s in {Jugs(0, 0), Jugs(0, 3), Jugs(4, 0), Jugs(1, 3), Jugs(3, 0), Jugs(4, 3), Jugs(1, 0), Jugs(3, 3)};
  }

  lemma LayerNoGoal(k: nat, s: Jugs)
    requires k <= 3 && InLayer(k, s)
    ensures !IsGoal(2, s)
  {
  }

  /** The BFS run of `main` (capacities 4 and 3, target 2) ends in four
      moves, at 4 litres and 2. */
  method BfsDefault() returns (r: GraphSearch.Outcome<Jugs>)
    ensures r.Solved? && Solution(4, 3, 2, r.path) && |r.path| == 5
    ensures Last(r.path) == Jugs(4, 2)
  {
    r := Bfs(4, 3, 2);
    FourThreeSolvable();
    var w := [Jugs(0, 0), Jugs(0, 3), Jugs(3, 0), Jugs(3, 3), Jugs(4, 2)];
    assert Solution(4, 3, 2, w);
    if |r.path| <= 4 {
      NoShortSolution(r.path);
    }
    LayerAt(r.path, 3);
    FourthMoveGoal(r.path[3], r.path[4]);
  }
}

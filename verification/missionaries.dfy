/**
 * Missionaries and cannibals: everyone starts on the left bank with the
 * boat; a crossing carries one or two people to the other side; on neither
 * bank may missionaries, if present, be outnumbered by cannibals. A state
 * records who is still on the left and where the boat is; the goal is an
 * empty left bank with the boat on the right.
 */
module Missionaries {
  import opened Wrappers
  import opened Seqs
  import opened Paths
  import GraphSearch
  import DepthFirst
  import AStar

  /** `State(missionariesLeft, cannibalsLeft, boatOnLeft)`. */
  datatype Bank = Bank(missionariesLeft: int, cannibalsLeft: int, boatOnLeft: bool)

  /** The boat loads in the order of `possibleMoves`: (missionaries, cannibals). */
  const Loads: seq<(int, int)> := [(1, 0), (2, 0), (0, 1), (0, 2), (1, 1)]

  /** The state after carrying `load` across: off the left bank when the
      boat is there, onto it otherwise. */
  function Cross(s: Bank, load: (int, int)): Bank
  {
    if s.boatOnLeft then Bank(s.missionariesLeft - load.0, s.cannibalsLeft - load.1, false)
    else Bank(s.missionariesLeft + load.0, s.cannibalsLeft + load.1, true)
  }

  /** The five candidate states, one per load, before validation. */
  function Candidates(s: Bank): (r: seq<Bank>)
    ensures |r| == |Loads|
  {
    [Cross(s, Loads[0]), Cross(s, Loads[1]), Cross(s, Loads[2]), Cross(s, Loads[3]), Cross(s, Loads[4])]
  }

  /** `isValidState`: counts within the totals, and on each bank the
      missionaries, if any, are at least as many as the cannibals. */
  predicate IsValid(totalM: int, totalC: int, s: Bank)
  {
    var missionariesRight := totalM - s.missionariesLeft;
    var cannibalsRight := totalC - s.cannibalsLeft;
    if s.missionariesLeft < 0 || s.cannibalsLeft < 0 || s.missionariesLeft > totalM || s.cannibalsLeft > totalC then false
    else if (s.missionariesLeft > 0 && s.missionariesLeft < s.cannibalsLeft)
         || (missionariesRight > 0 && missionariesRight < cannibalsRight) then false
    else true
  }

  /** A bank where missionaries are absent or not outnumbered. */
  predicate Safe(m: int, c: int)
  {
    m == 0 || m >= c
  }

  /** The rules as stated: nobody is on a bank twice or negatively, and
      both banks are safe. */
  lemma ValidMeansSafe(totalM: int, totalC: int, s: Bank)
    ensures IsValid(totalM, totalC, s) <==>
              && 0 <= s.missionariesLeft <= totalM && 0 <= s.cannibalsLeft <= totalC
              && Safe(s.missionariesLeft, s.cannibalsLeft)
              && Safe(totalM - s.missionariesLeft, totalC - s.cannibalsLeft)
  {
  }

  /** The successors the programs push: the candidates that pass
      `isValidState`, in load order. */
  function Moves(totalM: int, totalC: int, s: Bank): seq<Bank>
  {
    Filter(t => IsValid(totalM, totalC, t), Candidates(s))
  }

  function Succ(totalM: int, totalC: int): Bank -> seq<Bank>
  {
    s => Moves(totalM, totalC, s)
  }

  /** One crossing as a relation: the boat changes side and carries one or
      two people away from the bank it left. */
  predicate IsCrossing(s: Bank, t: Bank)
  {
    var dm := if s.boatOnLeft then s.missionariesLeft - t.missionariesLeft else t.missionariesLeft - s.missionariesLeft;
    var dc := if s.boatOnLeft then s.cannibalsLeft - t.cannibalsLeft else t.cannibalsLeft - s.cannibalsLeft;
    t.boatOnLeft == !s.boatOnLeft && dm >= 0 && dc >= 0 && 1 <= dm + dc <= 2
  }

  /** The five loads are every way to fill a two-seat boat. */
  lemma MovesAreCrossings(totalM: int, totalC: int, s: Bank)
    ensures forall t :: t in Moves(totalM, totalC, s) <==> IsValid(totalM, totalC, t) && IsCrossing(s, t)
  {
    var c := Candidates(s);
    forall t | IsCrossing(s, t)
      ensures t in c
    {
      var dm := if s.boatOnLeft then s.missionariesLeft - t.missionariesLeft else t.missionariesLeft - s.missionariesLeft;
      var dc := if s.boatOnLeft then s.cannibalsLeft - t.cannibalsLeft else t.cannibalsLeft - s.cannibalsLeft;
      if (dm, dc) == (1, 0) {
        assert t == c[0];
      } else if (dm, dc) == (2, 0) {
        assert t == c[1];
      } else if (dm, dc) == (0, 1) {
        assert t == c[2];
      } else if (dm, dc) == (0, 2) {
        assert t == c[3];
      } else {
        assert t == c[4];
      }
    }
  }

  predicate IsGoal(s: Bank)
  {
    s.missionariesLeft == 0 && s.cannibalsLeft == 0 && !s.boatOnLeft
  }

  /** The best-first and A* heuristic: people still on the left bank. */
  function Heuristic(s: Bank): int
  {
    s.missionariesLeft + s.cannibalsLeft
  }

  lemma HeuristicBounds(totalM: int, totalC: int, s: Bank)
    requires IsValid(totalM, totalC, s)
    ensures 0 <= Heuristic(s) <= totalM + totalC
    ensures IsGoal(s) ==> Heuristic(s) == 0
  {
  }

  /** The heuristic is not admissible: one missionary and one cannibal on
      the left with the boat are one crossing from the goal, yet the
      heuristic says 2. */
  lemma HeuristicOverestimates()
    ensures IsValid(3, 3, Bank(1, 1, true)) && IsCrossing(Bank(1, 1, true), Bank(0, 0, false))
    ensures IsGoal(Bank(0, 0, false)) && Heuristic(Bank(1, 1, true)) == 2
  {
  }

  /** Every state with counts within the totals, for both boat positions. */
  function Banks(totalM: nat, totalC: nat): (r: set<Bank>)
    ensures forall s :: s in r <==> 0 <= s.missionariesLeft <= totalM && 0 <= s.cannibalsLeft <= totalC
    ensures |r| <= (totalM + 1) * (2 * (totalC + 1))
  {
    if totalM == 0 then Column(0, totalC)
    else
      var r := Banks(totalM - 1, totalC) + Column(totalM, totalC);
      assert |r| <= |Banks(totalM - 1, totalC)| + |Column(totalM, totalC)|;
      var col := 2 * (totalC + 1);
      assert (totalM + 1) * col == (totalM - 1 + 1) * col + col;
      r
  }

  /** The states with `m` missionaries on the left. */
  function Column(m: int, totalC: nat): (r: set<Bank>)
    ensures forall s :: s in r <==> s.missionariesLeft == m && 0 <= s.cannibalsLeft <= totalC
    ensures |r| <= 2 * (totalC + 1)
  {
    if totalC == 0 then {Bank(m, 0, true), Bank(m, 0, false)}
    else Column(m, totalC - 1) + {Bank(m, totalC, true), Bank(m, totalC, false)}
  }

  /** The states a search from `start` can meet. */
  function Universe(totalM: nat, totalC: nat, start: Bank): set<Bank>
  {
    Banks(totalM, totalC) + {start}
  }

  lemma UniverseClosed(totalM: nat, totalC: nat, start: Bank)
    ensures Closed(Succ(totalM, totalC), Universe(totalM, totalC, start))
  {
  }

  /** A play from `start`: crossings to valid states only. */
  ghost predicate Trace(totalM: int, totalC: int, start: Bank, p: seq<Bank>)
  {
    && |p| > 0 && p[0] == start
    && forall i :: 0 < i < |p| ==> IsValid(totalM, totalC, p[i]) && IsCrossing(p[i - 1], p[i])
  }

  ghost predicate Solution(totalM: int, totalC: int, start: Bank, p: seq<Bank>)
  {
    Trace(totalM, totalC, start, p) && IsGoal(Last(p))
  }

  lemma PathsAreTraces(totalM: nat, totalC: nat, start: Bank, p: seq<Bank>)
    ensures PathFrom(Succ(totalM, totalC), start, p) <==> Trace(totalM, totalC, start, p)
  {
    var succ := Succ(totalM, totalC);
    if PathFrom(succ, start, p) {
      forall i | 0 < i < |p|
        ensures IsValid(totalM, totalC, p[i]) && IsCrossing(p[i - 1], p[i])
      {
        MovesAreCrossings(totalM, totalC, p[i - 1]);
      }
    }
    if Trace(totalM, totalC, start, p) {
      forall i | 0 < i < |p|
        ensures p[i] in succ(p[i - 1])
      {
        MovesAreCrossings(totalM, totalC, p[i - 1]);
      }
    }
  }

  lemma SolutionsAsPaths(totalM: nat, totalC: nat, start: Bank)
    ensures forall p :: PathFrom(Succ(totalM, totalC), start, p) && IsGoal(Last(p))
                        <==> Solution(totalM, totalC, start, p)
  {
    forall p
      ensures PathFrom(Succ(totalM, totalC), start, p) <==> Trace(totalM, totalC, start, p)
    {
      PathsAreTraces(totalM, totalC, start, p);
    }
  }

  /** `BFS.bfs`: the start is (3, 3, boat left) whatever the totals; a
      shortest play to the goal, or none. */
  method Bfs(totalM: nat, totalC: nat) returns (r: GraphSearch.Outcome<Bank>)
    ensures r.Solved? ==> Solution(totalM, totalC, Bank(3, 3, true), r.path)
    ensures r.Solved? ==> forall p :: Solution(totalM, totalC, Bank(3, 3, true), p) ==> |r.path| <= |p|
    ensures r.NoSolution? ==> forall p :: !Solution(totalM, totalC, Bank(3, 3, true), p)
  {
    var start := Bank(3, 3, true);
    UniverseClosed(totalM, totalC, start);
    SolutionsAsPaths(totalM, totalC, start);
    var parent;
    r, parent := GraphSearch.Search(start, Succ(totalM, totalC), IsGoal, GraphSearch.Fifo, Universe(totalM, totalC, start));
  }

  /** `BestFirstSearch.bestFirstSearch`: from everyone on the left, ordered
      by the heuristic. */
  method BestFirst(totalM: nat, totalC: nat) returns (r: GraphSearch.Outcome<Bank>)
    ensures r.Solved? ==> Solution(totalM, totalC, Bank(totalM, totalC, true), r.path)
    ensures r.NoSolution? ==> forall p :: !Solution(totalM, totalC, Bank(totalM, totalC, true), p)
  {
    var start := Bank(totalM, totalC, true);
    UniverseClosed(totalM, totalC, start);
    SolutionsAsPaths(totalM, totalC, start);
    var parent;
    r, parent := GraphSearch.Search(start, Succ(totalM, totalC), IsGoal, GraphSearch.Greedy(Heuristic), Universe(totalM, totalC, start));
  }

  /** `AStarSearch.aStarSearch`: from everyone on the left. */
  method AStarSearch(totalM: nat, totalC: nat) returns (r: AStar.Outcome<Bank>)
    requires (totalM + 1) * (2 * (totalC + 1)) + 1 < AStar.IntMax
    ensures r.Solved? ==> Solution(totalM, totalC, Bank(totalM, totalC, true), r.path) && |r.path| - 1 <= r.cost
    ensures r.NoSolution? ==> forall p :: !Solution(totalM, totalC, Bank(totalM, totalC, true), p)
  {
    var start := Bank(totalM, totalC, true);
    UniverseClosed(totalM, totalC, start);
    SolutionsAsPaths(totalM, totalC, start);
    var u := Universe(totalM, totalC, start);
    assert |u| <= |Banks(totalM, totalC)| + 1;
    r := AStar.Search(start, Succ(totalM, totalC), IsGoal, u);
  }

  /** Leaving out one unsafe state of Banks still covers every state the
      searches meet, so they meet fewer states than Banks holds. */
  lemma FewBanks(totalM: nat, totalC: nat, x: Bank)
    requires x in Banks(totalM, totalC) && !IsValid(totalM, totalC, x)
    ensures Closed(Succ(totalM, totalC), Banks(totalM, totalC) - {x})
    ensures |Banks(totalM, totalC) - {x}| < (totalM + 1) * (2 * (totalC + 1))
  {
    var u := Banks(totalM, totalC) - {x};
    assert |u| == |Banks(totalM, totalC)| - 1;
    forall s, t | s in u && t in Succ(totalM, totalC)(s)
      ensures t in u
    {
      assert t in Moves(totalM, totalC, s);
    }
  }

  /** The recursive search of `DFS` and `DLS`, whose totals are the static
      3 and 3, from (3, 3, boat left). A limit of 30 or more never cuts it
      short: of the 32 states of Banks(3, 3), (1, 0, boat left) is unsafe,
      since its right bank holds two missionaries and three cannibals. */
  method DepthFirstSearch(limit: Option<nat>) returns (path: Option<seq<Bank>>)
    ensures path.Some? ==> Solution(3, 3, Bank(3, 3, true), path.value)
    ensures path.Some? && limit.Some? ==> |path.value| - 1 <= limit.value
    ensures path.None? && (limit.None? || 30 <= limit.value) ==> forall p :: !Solution(3, 3, Bank(3, 3, true), p)
  {
    var start := Bank(3, 3, true);
    var m: nat, c: nat := 3, 3;
    UniverseClosed(m, c, start);
    SolutionsAsPaths(m, c, start);
    if limit.Some? && 30 <= limit.value {
      var unsafe := Bank(1, 0, true);
      FewBanks(m, c, unsafe);
      DepthFirst.FewStatesShallow(Succ(m, c), start, limit.value, Banks(m, c) - {unsafe});
    }
    path := DepthFirst.Search(Succ(m, c), IsGoal, limit, start, Universe(m, c, start));
  }

  /** `DFS`: a play exists, so the search finds one. */
  method Dfs() returns (path: Option<seq<Bank>>)
    ensures path.Some? && Solution(3, 3, Bank(3, 3, true), path.value)
  {
    path := DepthFirstSearch(None);
    ElevenCrossings();
  }

  /** `DLS`, with `depthLimit` 30, which never cuts in, so the search
      finds a play. */
  method Dls() returns (path: Option<seq<Bank>>)
    ensures path.Some? && Solution(3, 3, Bank(3, 3, true), path.value) && |path.value| - 1 <= 30
  {
    path := DepthFirstSearch(Some(30));
    ElevenCrossings();
  }

  /** The classic eleven-crossing solution for three and three. */
  lemma ElevenCrossings()
    ensures Solution(3, 3, Bank(3, 3, true),
                     [Bank(3, 3, true), Bank(3, 1, false), Bank(3, 2, true), Bank(3, 0, false), Bank(3, 1, true),
                      Bank(1, 1, false), Bank(2, 2, true), Bank(0, 2, false), Bank(0, 3, true), Bank(0, 1, false),
                      Bank(1, 1, true), Bank(0, 0, false)])
  {
    var p := [Bank(3, 3, true), Bank(3, 1, false), Bank(3, 2, true), Bank(3, 0, false), Bank(3, 1, true),
              Bank(1, 1, false), Bank(2, 2, true), Bank(0, 2, false), Bank(0, 3, true), Bank(0, 1, false),
              Bank(1, 1, true), Bank(0, 0, false)];
    forall i | 0 < i < |p|
      ensures IsValid(3, 3, p[i]) && IsCrossing(p[i - 1], p[i])
    {
      if i <= 3 {
        assert i == 1 || i == 2 || i == 3;
      } else if i <= 7 {
        assert i == 4 || i == 5 || i == 6 || i == 7;
      } else {
        assert i == 8 || i == 9 || i == 10 || i == 11;
      }
    }
  }

  /** The fewest crossings from (3, 3, boat left) to each state reachable
      from it with three and three; -1 for the others. */
  function Distance(s: Bank): int
  {
    match s
    case Bank(3, 3, true) => 0
    case Bank(2, 2, false) => 1
    case Bank(3, 1, false) => 1
    case Bank(3, 2, false) => 1
    case Bank(3, 2, true) => 2
    case Bank(3, 0, false) => 3
    case Bank(3, 1, true) => 4
    case Bank(1, 1, false) => 5
    case Bank(2, 2, true) => 6
    case Bank(0, 2, false) => 7
    case Bank(0, 3, true) => 8
    case Bank(0, 1, false) => 9
    case Bank(0, 2, true) => 10
    case Bank(1, 1, true) => 10
    case Bank(0, 0, false) => 11
    case Bank(0, 1, true) => 12
    case _ => -1
  }

  lemma DistanceStep(s: Bank, t: Bank)
    requires Distance(s) >= 0 && IsValid(3, 3, t) && IsCrossing(s, t)
    ensures 0 <= Distance(t) <= Distance(s) + 1
  {
  }

  /** Every play from (3, 3, boat left) that reaches the goal takes at
      least eleven crossings. */
  lemma {:induction false} NoShortSolution(p: seq<Bank>)
    requires Solution(3, 3, Bank(3, 3, true), p)
    ensures |p| >= 12
  {
    var i := 0;
    while i < |p| - 1
      invariant 0 <= i < |p| && 0 <= Distance(p[i]) <= i
    {
      DistanceStep(p[i], p[i + 1]);
      i := i + 1;
    }
  }

  /** The BFS run of `main` (three and three) takes eleven crossings. */
  method BfsDefault() returns (r: GraphSearch.Outcome<Bank>)
    ensures r.Solved? && Solution(3, 3, Bank(3, 3, true), r.path) && |r.path| == 12
  {
    r := Bfs(3, 3);
    ElevenCrossings();
    if r.Solved? {
      NoShortSolution(r.path);
    }
  }
}

/**
 * The eight-puzzle: a board is a string whose first nine characters are
 * the 3x3 grid read row by row, with '0' as the blank. A move exchanges the
 * blank with a tile next to it. The five programs (BFS, DFS, depth-limited,
 * greedy best-first, A*) share the move table, `swap` and, for the informed
 * ones, a Manhattan-distance heuristic.
 */
module EightPuzzle {
  import opened Wrappers
  import opened Seqs
  import opened Paths
  import GraphSearch
  import DepthFirst
  import AStar

  type Board = seq<char>

  const Blank: char := '0'

  /** The static `GOAL` of the DFS and depth-limited programs. */
  const Goal: Board := "123456780"

  /** The `moves` table: for each cell, the cells a tile can slide from. */
  const Adjacent: seq<seq<int>> :=
    [[1, 3], [0, 2, 4], [1, 5], [0, 4, 6], [1, 3, 5, 7], [2, 4, 8], [3, 7], [4, 6, 8], [5, 7]]

  function Abs(a: int): int
  {
    if a < 0 then -a else a
  }

  /** Java's `/`, which truncates towards zero. */
  function JDiv(a: int, d: int): int
    requires d > 0
  {
    if a >= 0 then a / d else -((-a) / d)
  }

  /** Java's `%`, whose sign follows the dividend. */
  function JMod(a: int, d: int): int
    requires d > 0
  {
    a - d * JDiv(a, d)
  }

  lemma JavaDivision()
    ensures JDiv(-1, 3) == 0 && JMod(-1, 3) == -1
    ensures forall a :: 0 <= a ==> JDiv(a, 3) == a / 3 && JMod(a, 3) == a % 3
  {
  }

  /** Two cells of the grid share a side. */
  predicate Neighbour(i: int, j: int)
  {
    0 <= i < 9 && 0 <= j < 9 && Abs(i / 3 - j / 3) + Abs(i % 3 - j % 3) == 1
  }

  /** The table lists exactly the grid neighbours of each cell. */
  lemma AdjacentIsGrid(i: int, j: int)
    requires 0 <= i < 9
    ensures j in Adjacent[i] <==> Neighbour(i, j)
  {
    if 0 <= j < 9 {
      var r, c := i / 3, i % 3;
      var r', c' := j / 3, j % 3;
      assert i == 3 * r + c && j == 3 * r' + c';
      assert 0 <= r < 3 && 0 <= c < 3 && 0 <= r' < 3 && 0 <= c' < 3;
    }
  }

  /** Cell `j` lists `i` exactly when cell `i` lists `j`. */
  lemma AdjacentSymmetric(i: int, j: int)
    requires 0 <= i < 9 && 0 <= j < 9
    ensures j in Adjacent[i] <==> i in Adjacent[j]
  {
    AdjacentIsGrid(i, j);
    AdjacentIsGrid(j, i);
  }

  /** Exchanges two cells. */
  function Swap(b: Board, i: int, j: int): Board
    requires 0 <= i < |b| && 0 <= j < |b|
  {
    b[i := b[j]][j := b[i]]
  }

  /** Swapping twice gives the board back, and a swap keeps the tiles. */
  lemma SwapFacts(b: Board, i: int, j: int)
    requires 0 <= i < |b| && 0 <= j < |b|
    ensures |Swap(b, i, j)| == |b|
    ensures Swap(Swap(b, i, j), i, j) == b
    ensures multiset(Swap(b, i, j)) == multiset(b)
    ensures forall k :: 0 <= k < |b| && k != i && k != j ==> Swap(b, i, j)[k] == b[k]
  {
  }

  /** The cell of the first blank, as `indexOf('0')` finds it. */
  function BlankAt(b: Board): int
  {
    IndexOf(b, Blank)
  }

  /** A board the programs can expand without an index exception: the
      first blank is on the grid and the grid is all there. */
  predicate Playable(b: Board)
  {
    |b| >= 9 && 0 <= BlankAt(b) < 9
  }

  /** The boards one slide away, in the table's order. */
  function Moves(b: Board): (r: seq<Board>)
    requires Playable(b)
    ensures |r| == |Adjacent[BlankAt(b)]|
  {
    var z := BlankAt(b);
    seq(|Adjacent[z]|, k requires 0 <= k < |Adjacent[z]| => Swap(b, z, Adjacent[z][k]))
  }

  /** The k-th successor has the blank moved to the k-th listed cell and
      that cell's tile moved to the old blank cell; the rest is unchanged. */
  lemma MoveFacts(b: Board, k: int)
    requires Playable(b) && 0 <= k < |Adjacent[BlankAt(b)]|
    ensures var z, j, c := BlankAt(b), Adjacent[BlankAt(b)][k], Moves(b)[k];
      && |c| == |b| && c[j] == Blank && c[z] == b[j]
      && forall i :: 0 <= i < |b| && i != z && i != j ==> c[i] == b[i]
  {
    var z := BlankAt(b);
    AdjacentIsGrid(z, Adjacent[z][k]);
  }

  /** `Moves` as the successor function the engines take; a board the
      programs cannot expand has none. */
  function Succ(): Board -> seq<Board>
  {
    b => if Playable(b) then Moves(b) else []
  }

  /** The rule of the puzzle, stated on the grid: `c` is `b` with its blank
      exchanged with a neighbouring tile. */
  ghost predicate IsSlide(b: Board, c: Board)
  {
    Playable(b) && exists j :: Neighbour(BlankAt(b), j) && c == Swap(b, BlankAt(b), j)
  }

  lemma MovesAreSlides(b: Board, c: Board)
    ensures c in Succ()(b) <==> IsSlide(b, c)
  {
    if Playable(b) {
      var z := BlankAt(b);
      var m := Moves(b);
      if c in m {
        var k :| 0 <= k < |m| && m[k] == c;
        AdjacentIsGrid(z, Adjacent[z][k]);
        assert Neighbour(z, Adjacent[z][k]);
      }
      if IsSlide(b, c) {
        var j :| Neighbour(z, j) && c == Swap(b, z, j);
        AdjacentIsGrid(z, j);
        var k :| 0 <= k < |Adjacent[z]| && Adjacent[z][k] == j;
        assert m[k] == c;
      }
    }
  }

  /** A slide keeps the board playable. */
  lemma SlidePlayable(b: Board, j: int)
    requires Playable(b) && Neighbour(BlankAt(b), j)
    ensures Playable(Swap(b, BlankAt(b), j))
  {
    var c := Swap(b, BlankAt(b), j);
    assert c[j] == Blank;
  }

  /** Legal plays of the puzzle. */
  ghost predicate Trace(p: seq<Board>)
  {
    |p| > 0 && forall i :: 0 < i < |p| ==> IsSlide(p[i - 1], p[i])
  }

  /** Plays from `start` that end on `goal`. */
  ghost predicate Solution(start: Board, goal: Board, p: seq<Board>)
  {
    Trace(p) && p[0] == start && Last(p) == goal
  }

  /** The engines' paths are exactly the plays. */
  lemma {:induction false} PathsAreTraces(start: Board, p: seq<Board>)
    ensures PathFrom(Succ(), start, p) <==> Trace(p) && p[0] == start
  {
    if |p| > 0 {
      if IsPath(Succ(), p) {
        forall i | 0 < i < |p|
          ensures IsSlide(p[i - 1], p[i])
        {
          MovesAreSlides(p[i - 1], p[i]);
        }
      }
      if Trace(p) {
        forall i | 0 < i < |p|
          ensures p[i] in Succ()(p[i - 1])
        {
          MovesAreSlides(p[i - 1], p[i]);
        }
      }
    }
  }

  lemma SolutionsAsPaths(start: Board, goal: Board)
    ensures forall p :: PathFrom(Succ(), start, p) && Last(p) == goal <==> Solution(start, goal, p)
  {
    forall p
      ensures PathFrom(Succ(), start, p) <==> Trace(p) && p[0] == start
    {
      PathsAreTraces(start, p);
    }
  }

  /** Every rearrangement of the start's characters: the boards a search
      from `start` can meet. */
  function Universe(start: Board): (r: set<Board>)
    ensures forall b :: b in r <==> multiset(b) == multiset(start)
    ensures |r| <= Pow(|Elems(start)|, |start|)
  {
    var words := Words(Elems(start), |start|);
    var r := set b | b in words && multiset(b) == multiset(start);
    forall b | multiset(b) == multiset(start)
      ensures b in words
    {
      assert |b| == |multiset(b)|;
      forall i | 0 <= i < |b|
        ensures b[i] in Elems(start)
      {
        assert b[i] in multiset(b);
      }
      WordsMember(Elems(start), |start|, b);
    }
    WordsCard(Elems(start), |start|);
    SubsetCard(r, words);
    r
  }

  lemma UniverseClosed(start: Board)
    ensures Closed(Succ(), Universe(start))
  {
    forall b, c | b in Universe(start) && c in Succ()(b)
      ensures c in Universe(start)
    {
      var z := BlankAt(b);
      MovesAreSlides(b, c);
      var j :| Neighbour(z, j) && c == Swap(b, z, j);
      SwapFacts(b, z, j);
    }
  }

  /** The goal test: `puzzle.equals(goal)`. */
  function IsGoal(goal: Board): Board -> bool
  {
    b => b == goal
  }

  /** How far cell `i` is from the cell whose Java index is `g`; `g` is -1
      when the tile is missing from the goal, and Java's `/` and `%` give
      row 0, column -1 for it. */
  function Dist(i: int, g: int): int
  {
    Abs(i / 3 - JDiv(g, 3)) + Abs(i % 3 - JMod(g, 3))
  }

  /** The contribution of cell `i`: nothing for the blank, else the
      distance of its tile from that tile's place in the goal. */
  function Cost(b: Board, goal: Board, i: int): int
    requires 0 <= i < |b|
  {
    if b[i] == Blank then 0 else Dist(i, IndexOf(goal, b[i]))
  }

  /** The heuristic's loop over the first `n` cells. */
  function CostSum(b: Board, goal: Board, n: nat): (r: int)
    requires n <= |b|
    ensures r >= 0
  {
    if n == 0 then 0 else CostSum(b, goal, n - 1) + Cost(b, goal, n - 1)
  }

  /** `heuristic`: the sum of the tiles' Manhattan distances. */
  function Heuristic(b: Board, goal: Board): (r: int)
    requires |b| >= 9
    ensures r >= 0
  {
    CostSum(b, goal, 9)
  }

  /** The heuristic vanishes exactly when every tile on the grid stands at
      its first place in the goal. */
  lemma {:induction false} CostSumZero(b: Board, goal: Board, n: nat)
    requires n <= |b| && n <= 9
    ensures CostSum(b, goal, n) == 0 <==>
              forall i :: 0 <= i < n && b[i] != Blank ==> IndexOf(goal, b[i]) == i
  {
    if n > 0 {
      CostSumZero(b, goal, n - 1);
      var i := n - 1;
      if b[i] != Blank {
        var g := IndexOf(goal, b[i]);
        assert Dist(i, g) == 0 <==> g == i by {
          if g == -1 {
            assert Dist(i, g) > 0;
          }
        }
      }
    }
  }

  lemma HeuristicZero(b: Board, goal: Board)
    requires |b| >= 9
    ensures Heuristic(b, goal) == 0 <==>
              forall i :: 0 <= i < 9 && b[i] != Blank ==> IndexOf(goal, b[i]) == i
  {
    CostSumZero(b, goal, 9);
  }

  /** On the goal itself the heuristic is 0 when the goal's grid cells
      hold distinct characters. */
  lemma HeuristicAtGoal(goal: Board)
    requires |goal| >= 9 && NoDup(goal[..9])
    ensures Heuristic(goal, goal) == 0
  {
    forall i | 0 <= i < 9 && goal[i] != Blank
      ensures IndexOf(goal, goal[i]) == i
    {
      assert goal[i] == goal[..9][i];
    }
    HeuristicZero(goal, goal);
  }

  /** For a rearrangement of a goal without repeated characters, the
      heuristic is 0 exactly on the goal. */
  lemma HeuristicZeroIsGoal(b: Board, goal: Board)
    requires |goal| == 9 && NoDup(goal) && multiset(b) == multiset(goal)
    ensures |b| == 9
    ensures Heuristic(b, goal) == 0 <==> b == goal
  {
    assert |b| == |multiset(b)|;
    HeuristicZero(b, goal);
    if Heuristic(b, goal) == 0 {
      forall i | 0 <= i < 9
        ensures b[i] == goal[i]
      {
        if b[i] == Blank {
          assert goal[i] in multiset(b);
          var k :| 0 <= k < |b| && b[k] == goal[i];
          if b[k] != Blank {
            assert IndexOf(goal, b[k]) == k;
          }
        }
      }
    } else {
      HeuristicAtGoal(goal);
      assert goal[..9] == goal;
    }
  }

  /** Two boards that agree outside cells `z` and `j` differ in their sums
      only by what those two cells contribute. */
  lemma {:induction false} CostSumFrame(b: Board, c: Board, goal: Board, z: int, j: int, n: nat)
    requires |b| == |c| && n <= |b| && 0 <= z < |b| && 0 <= j < |b| && z != j
    requires forall k :: 0 <= k < |b| && k != z && k != j ==> b[k] == c[k]
    ensures CostSum(c, goal, n) - CostSum(b, goal, n) ==
              (if z < n then Cost(c, goal, z) - Cost(b, goal, z) else 0)
              + (if j < n then Cost(c, goal, j) - Cost(b, goal, j) else 0)
  {
    if n > 0 {
      CostSumFrame(b, c, goal, z, j, n - 1);
    }
  }

  /** One slide changes the heuristic by at most one: it is consistent. */
  lemma SlideConsistent(b: Board, c: Board, goal: Board)
    requires IsSlide(b, c)
    ensures Heuristic(b, goal) - 1 <= Heuristic(c, goal) <= Heuristic(b, goal) + 1
  {
    var z := BlankAt(b);
    var j :| Neighbour(z, j) && c == Swap(b, z, j);
    CostSumFrame(b, c, goal, z, j, 9);
    if b[j] != Blank {
      DistStep(z, j, IndexOf(goal, b[j]));
    }
  }

  /** Moving a tile to a neighbouring cell changes its distance by one. */
  lemma DistStep(i: int, j: int, g: int)
    requires Neighbour(i, j)
    ensures Dist(i, g) - 1 <= Dist(j, g) <= Dist(i, g) + 1
  {
    var gr, gc := JDiv(g, 3), JMod(g, 3);
    var ir, ic, jr, jc := i / 3, i % 3, j / 3, j % 3;
    assert Abs(ir - jr) + Abs(ic - jc) == 1;
    assert Dist(i, g) == Abs(ir - gr) + Abs(ic - gc);
    assert Dist(j, g) == Abs(jr - gr) + Abs(jc - gc);
  }

  /** Hence no play from `b` to a board with heuristic 0 is shorter than
      the heuristic of `b`: the heuristic is admissible. */
  lemma {:induction false} Admissible(p: seq<Board>, goal: Board)
    requires Trace(p) && |p[0]| >= 9
    ensures |Last(p)| >= 9
    ensures Heuristic(p[0], goal) <= |p| - 1 + Heuristic(Last(p), goal)
  {
    if |p| > 1 {
      var q := p[..|p| - 1];
      assert Trace(q);
      Admissible(q, goal);
      assert Last(q) == p[|p| - 2];
      SlideLength(p[|p| - 2], Last(p));
      SlideConsistent(p[|p| - 2], Last(p), goal);
    }
  }

  lemma SlideLength(b: Board, c: Board)
    requires IsSlide(b, c)
    ensures |c| == |b|
  {
  }

  /** The ordering key of the best-first program; boards too short for it
      never reach the queue from a playable start. */
  function Priority(goal: Board): Board -> int
  {
    b => if |b| >= 9 then Heuristic(b, goal) else 0
  }

  /** `BFS.bfs`: a shortest play from `start` to `goal`, or none. */
  method Bfs(start: Board, goal: Board) returns (r: GraphSearch.Outcome<Board>, parent: map<Board, Board>)
    requires Playable(start)
    ensures forall b :: b in parent ==> multiset(b) == multiset(start)
    ensures r.Solved? ==> Solution(start, goal, r.path)
    ensures r.Solved? ==> forall p :: Solution(start, goal, p) ==> |r.path| <= |p|
    ensures r.NoSolution? ==> forall p :: !Solution(start, goal, p)
  {
    UniverseClosed(start);
    SolutionsAsPaths(start, goal);
    r, parent := GraphSearch.Search(start, Succ(), IsGoal(goal), GraphSearch.Fifo, Universe(start));
  }

  /** `BestFirstSearch.bestFirstSearch`: the queue orders by the heuristic. */
  method BestFirst(start: Board, goal: Board) returns (r: GraphSearch.Outcome<Board>, parent: map<Board, Board>)
    requires Playable(start)
    ensures forall b :: b in parent ==> multiset(b) == multiset(start)
    ensures r.Solved? ==> Solution(start, goal, r.path)
    ensures r.NoSolution? ==> forall p :: !Solution(start, goal, p)
  {
    UniverseClosed(start);
    SolutionsAsPaths(start, goal);
    r, parent := GraphSearch.Search(start, Succ(), IsGoal(goal), GraphSearch.Greedy(Priority(goal)), Universe(start));
  }

  /** `AStarSearch.aStarSearch`: a play with the g the program prints as
      its cost, or none. The bound keeps every g below `Integer.MAX_VALUE`. */
  method AStarSearch(start: Board, goal: Board) returns (r: AStar.Outcome<Board>)
    requires Playable(start) && Pow(|Elems(start)|, |start|) < AStar.IntMax
    ensures r.Solved? ==> Solution(start, goal, r.path) && |r.path| - 1 <= r.cost
    ensures r.NoSolution? ==> forall p :: !Solution(start, goal, p)
  {
    UniverseClosed(start);
    SolutionsAsPaths(start, goal);
    r := AStar.Search(start, Succ(), IsGoal(goal), Universe(start));
  }

  /** The recursive search of `DFS` and `DLS` towards the static `GOAL`,
      with an optional depth limit. */
  method DepthFirstSearch(start: Board, limit: Option<nat>) returns (path: Option<seq<Board>>)
    requires Playable(start)
    ensures path.Some? ==> Solution(start, Goal, path.value)
    ensures path.Some? && limit.Some? ==> |path.value| - 1 <= limit.value
    ensures path.None? && limit.None? ==> forall p :: !Solution(start, Goal, p)
    ensures start == Goal ==> path == Some([Goal])
  {
    UniverseClosed(start);
    SolutionsAsPaths(start, Goal);
    path := DepthFirst.Search(Succ(), IsGoal(Goal), limit, start, Universe(start));
  }

  /** `DFS.main` starts on the goal board, so the search stops at once. */
  method Dfs() returns (path: Option<seq<Board>>)
    ensures path == Some([Goal])
  {
    var start := Goal;
    assert BlankAt(start) == 8;
    path := DepthFirstSearch(start, None);
  }

  /** `DLS.main`: from "123405678" with `MAX_DEPTH` 10. */
  method Dls() returns (path: Option<seq<Board>>)
    ensures path.Some? ==> Solution("123405678", Goal, path.value) && |path.value| - 1 <= 10
  {
    var start: Board := "123405678";
    assert BlankAt(start) == 4;
    path := DepthFirstSearch(start, Some(10));
  }
}

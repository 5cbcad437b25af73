/**
 * The grid maze: a rectangular array of ints, searched from the top-left
 * cell (0, 0) by steps up, down, left and right into open cells. The
 * A* program counts a cell open when it holds 0; the best-first and
 * depth-limited programs when it does not hold 1. The informed programs
 * use the Manhattan distance to the goal cell.
 */
module Maze {
  import opened Wrappers
  import opened Seqs
  import opened Paths
  import GraphSearch
  import DepthFirst
  import AStar

  datatype Cell = Cell(row: int, col: int)

  type Grid = seq<seq<int>>

  /** The two open-cell tests of the programs. */
  datatype WallTest = ZeroIsOpen | OneIsWall

  /** The start of every program. */
  const Start: Cell := Cell(0, 0)

  /** The maze of every `main`. */
  const Sample: Grid :=
    [[0, 0, 1, 0],
     [1, 0, 1, 0],
     [0, 0, 0, 0],
     [1, 1, 0, 1],
     [0, 0, 0, 0]]

  function Abs(a: int): int
  {
    if a < 0 then -a else a
  }

  /** The programs read the width from the first row and index every row
      with it, so they need a non-empty grid with rows of equal length. */
  predicate Rectangular(grid: Grid)
  {
    |grid| > 0 && forall r :: 0 <= r < |grid| ==> |grid[r]| == |grid[0]|
  }

  predicate InBounds(grid: Grid, c: Cell)
    requires Rectangular(grid)
  {
    0 <= c.row < |grid| && 0 <= c.col < |grid[0]|
  }

  /** `isValidState`: inside the grid and open under the file's test. */
  predicate Valid(test: WallTest, grid: Grid, c: Cell)
    requires Rectangular(grid)
  {
    InBounds(grid, c) &&
    match test
    case ZeroIsOpen => grid[c.row][c.col] == 0
    case OneIsWall => grid[c.row][c.col] != 1
  }

  /** On a maze of 0s and 1s the two tests agree. */
  lemma TestsAgree(grid: Grid, c: Cell)
    requires Rectangular(grid)
    requires forall r, k :: 0 <= r < |grid| && 0 <= k < |grid[r]| ==> grid[r][k] == 0 || grid[r][k] == 1
    ensures Valid(ZeroIsOpen, grid, c) <==> Valid(OneIsWall, grid, c)
  {
  }

  function Manhattan(a: Cell, b: Cell): nat
  {
    Abs(a.row - b.row) + Abs(a.col - b.col)
  }

  /** The `moves` offsets: up, down, left, right. */
  const Offsets: seq<(int, int)> := [(-1, 0), (1, 0), (0, -1), (0, 1)]

  /** The four candidate cells, in the order of `moves`. */
  function Candidates(c: Cell): (r: seq<Cell>)
    ensures |r| == 4
  {
    seq(4, k requires 0 <= k < 4 => Cell(c.row + Offsets[k].0, c.col + Offsets[k].1))
  }

  /** The candidates are exactly the cells at distance one. */
  lemma CandidatesAdjacent(c: Cell, t: Cell)
    ensures t in Candidates(c) <==> Manhattan(c, t) == 1
  {
    var m := Candidates(c);
    if Manhattan(c, t) == 1 {
      if t.row < c.row {
        assert t == m[0];
      } else if t.row > c.row {
        assert t == m[1];
      } else if t.col < c.col {
        assert t == m[2];
      } else {
        assert t == m[3];
      }
    }
  }

  /** The cells a step reaches: the valid candidates, in order. */
  function Moves(test: WallTest, grid: Grid, c: Cell): (r: seq<Cell>)
    requires Rectangular(grid)
    ensures |r| <= 4
  {
    Filter(t => Valid(test, grid, t), Candidates(c))
  }

  function Succ(test: WallTest, grid: Grid): Cell -> seq<Cell>
    requires Rectangular(grid)
  {
    c => Moves(test, grid, c)
  }

  /** The rule of the maze: one step to an open cell. */
  predicate IsStep(test: WallTest, grid: Grid, c: Cell, t: Cell)
    requires Rectangular(grid)
  {
    Manhattan(c, t) == 1 && Valid(test, grid, t)
  }

  lemma MovesAreSteps(test: WallTest, grid: Grid, c: Cell, t: Cell)
    requires Rectangular(grid)
    ensures t in Succ(test, grid)(c) <==> IsStep(test, grid, c, t)
  {
    CandidatesAdjacent(c, t);
  }

  ghost predicate Trace(test: WallTest, grid: Grid, p: seq<Cell>)
    requires Rectangular(grid)
  {
    |p| > 0 && p[0] == Start && forall i :: 0 < i < |p| ==> IsStep(test, grid, p[i - 1], p[i])
  }

  ghost predicate Solution(test: WallTest, grid: Grid, goal: Cell, p: seq<Cell>)
    requires Rectangular(grid)
  {
    Trace(test, grid, p) && Last(p) == goal
  }

  lemma {:induction false} PathsAreTraces(test: WallTest, grid: Grid, p: seq<Cell>)
    requires Rectangular(grid)
    ensures PathFrom(Succ(test, grid), Start, p) <==> Trace(test, grid, p)
  {
    if |p| > 0 && p[0] == Start {
      if IsPath(Succ(test, grid), p) {
        forall i | 0 < i < |p|
          ensures IsStep(test, grid, p[i - 1], p[i])
        {
          MovesAreSteps(test, grid, p[i - 1], p[i]);
        }
      }
      if Trace(test, grid, p) {
        forall i | 0 < i < |p|
          ensures p[i] in Succ(test, grid)(p[i - 1])
        {
          MovesAreSteps(test, grid, p[i - 1], p[i]);
        }
      }
    }
  }

  lemma SolutionsAsPaths(test: WallTest, grid: Grid, goal: Cell)
    requires Rectangular(grid)
    ensures forall p :: PathFrom(Succ(test, grid), Start, p) && Last(p) == goal <==> Solution(test, grid, goal, p)
  {
    forall p
      ensures PathFrom(Succ(test, grid), Start, p) <==> Trace(test, grid, p)
    {
      PathsAreTraces(test, grid, p);
    }
  }

  /** All cells of a `rows` by `cols` grid. */
  function Cells(rows: nat, cols: nat): (r: set<Cell>)
    ensures forall c :: c in r <==> 0 <= c.row < rows && 0 <= c.col < cols
    ensures |r| <= rows * cols
  {
    if rows == 0 then {}
    else
      var r := Cells(rows - 1, cols) + RowCells(rows - 1, cols);
      assert |r| <= |Cells(rows - 1, cols)| + |RowCells(rows - 1, cols)|;
      r
  }

  /** The cells of row `row`. */
  function RowCells(row: int, cols: nat): (r: set<Cell>)
    ensures forall c :: c in r <==> c.row == row && 0 <= c.col < cols
    ensures |r| <= cols
  {
    if cols == 0 then {} else RowCells(row, cols - 1) + {Cell(row, cols - 1)}
  }

  /** The start and every cell of the grid. */
  function Universe(grid: Grid): (r: set<Cell>)
    requires Rectangular(grid)
    ensures Start in r
    ensures |r| <= |grid| * |grid[0]| + 1
  {
    Cells(|grid|, |grid[0]|) + {Start}
  }

  lemma UniverseClosed(test: WallTest, grid: Grid)
    requires Rectangular(grid)
    ensures Closed(Succ(test, grid), Universe(grid))
  {
    forall c, t | c in Universe(grid) && t in Succ(test, grid)(c)
      ensures t in Universe(grid)
    {
      MovesAreSteps(test, grid, c, t);
    }
  }

  /** `heuristic`: the Manhattan distance to the goal cell. */
  function Heuristic(goal: Cell, c: Cell): (r: int)
    ensures r >= 0
    ensures r == 0 <==> c == goal
  {
    Abs(goal.row - c.row) + Abs(goal.col - c.col)
  }

  /** A step changes the heuristic by exactly one. */
  lemma StepConsistent(test: WallTest, grid: Grid, goal: Cell, c: Cell, t: Cell)
    requires Rectangular(grid) && IsStep(test, grid, c, t)
    ensures Heuristic(goal, t) == Heuristic(goal, c) - 1 || Heuristic(goal, t) == Heuristic(goal, c) + 1
  {
  }

  /** So no play reaches the goal in fewer moves than the heuristic of
      where it starts: the heuristic is admissible. */
  lemma {:induction false} Admissible(test: WallTest, grid: Grid, goal: Cell, p: seq<Cell>)
    requires Rectangular(grid) && |p| > 0
    requires forall i :: 0 < i < |p| ==> IsStep(test, grid, p[i - 1], p[i])
    ensures Heuristic(goal, p[0]) <= |p| - 1 + Heuristic(goal, Last(p))
  {
    if |p| > 1 {
      var q := p[..|p| - 1];
      Admissible(test, grid, goal, q);
      StepConsistent(test, grid, goal, p[|p| - 2], Last(p));
    }
  }

  /** `AStarSearchMaze.aStarSearch`: a play to the goal with the g the
      program prints as its cost, or none. */
  method AStarSearch(grid: Grid, goal: Cell) returns (r: AStar.Outcome<Cell>)
    requires Rectangular(grid) && |grid| * |grid[0]| + 1 < AStar.IntMax
    ensures r.Solved? ==> Solution(ZeroIsOpen, grid, goal, r.path) && |r.path| - 1 <= r.cost
    ensures r.Solved? ==> Heuristic(goal, Start) <= r.cost
    ensures r.NoSolution? ==> forall p :: !Solution(ZeroIsOpen, grid, goal, p)
  {
    UniverseClosed(ZeroIsOpen, grid);
    SolutionsAsPaths(ZeroIsOpen, grid, goal);
    var isGoal := c => c == goal;
    r := AStar.Search(Start, Succ(ZeroIsOpen, grid), isGoal, Universe(grid));
    if r.Solved? {
      Admissible(ZeroIsOpen, grid, goal, r.path);
    }
  }

  /** `BestFirstSearchMaze.bestFirstSearch`: the queue orders by the
      heuristic; only open cells ever get a parent. */
  method BestFirst(grid: Grid, goal: Cell) returns (r: GraphSearch.Outcome<Cell>, parent: map<Cell, Cell>)
    requires Rectangular(grid)
    ensures r.Solved? ==> Solution(OneIsWall, grid, goal, r.path)
    ensures r.NoSolution? ==> forall p :: !Solution(OneIsWall, grid, goal, p)
    ensures forall c :: c in parent ==> Valid(OneIsWall, grid, c) && Manhattan(parent[c], c) == 1
    ensures r.Solved? ==> NoDup(r.path)
  {
    UniverseClosed(OneIsWall, grid);
    SolutionsAsPaths(OneIsWall, grid, goal);
    var isGoal := c => c == goal;
    var h := c => Heuristic(goal, c);
    r, parent := GraphSearch.Search(Start, Succ(OneIsWall, grid), isGoal, GraphSearch.Greedy(h), Universe(grid));
    forall c | c in parent
      ensures Valid(OneIsWall, grid, c) && Manhattan(parent[c], c) == 1
    {
      MovesAreSteps(OneIsWall, grid, parent[c], c);
    }
    if r.Solved? {
      LinkedNoDup(parent, r.path);
    }
  }

  /** The bottom-right cell, the goal of `DLSMaze`. */
  function Corner(grid: Grid): Cell
    requires Rectangular(grid)
  {
    Cell(|grid| - 1, |grid[0]| - 1)
  }

  /** The recursive search of `DLSMaze` towards the bottom-right cell. A
      limit of at least the number of cells never cuts the search short. */
  method DepthFirstSearch(grid: Grid, limit: Option<nat>) returns (path: Option<seq<Cell>>)
    requires Rectangular(grid)
    ensures path.Some? ==> Solution(OneIsWall, grid, Corner(grid), path.value)
    ensures path.Some? && limit.Some? ==> |path.value| - 1 <= limit.value
    ensures path.None? && (limit.None? || |grid| * |grid[0]| <= limit.value) ==>
              forall p :: !Solution(OneIsWall, grid, Corner(grid), p)
  {
    UniverseClosed(OneIsWall, grid);
    SolutionsAsPaths(OneIsWall, grid, Corner(grid));
    var goal := Corner(grid);
    var isGoal := c => c == goal;
    if limit.Some? && |grid| * |grid[0]| <= limit.value {
      DepthFirst.FewStatesShallow(Succ(OneIsWall, grid), Start, limit.value, Universe(grid));
    }
    path := DepthFirst.Search(Succ(OneIsWall, grid), isGoal, limit, Start, Universe(grid));
  }

  /** The sample's route: down the second column, across, and down the
      third to the corner. */
  const SampleRoute: seq<Cell> :=
    [Cell(0, 0), Cell(0, 1), Cell(1, 1), Cell(2, 1), Cell(2, 2), Cell(3, 2), Cell(4, 2), Cell(4, 3)]

  lemma SampleShape()
    ensures Rectangular(Sample) && |Sample| == 5 && |Sample[0]| == 4
    ensures Corner(Sample) == Cell(4, 3)
  {
  }

  /** The route only enters cells holding 0, so it solves the sample under
      either test. */
  lemma SampleSolvable(test: WallTest)
    ensures Rectangular(Sample)
    ensures Solution(test, Sample, Cell(4, 3), SampleRoute)
  {
    SampleShape();
    var p := SampleRoute;
    assert Sample[0][1] == 0 && Sample[1][1] == 0 && Sample[2][1] == 0 && Sample[2][2] == 0;
    assert Sample[3][2] == 0 && Sample[4][2] == 0 && Sample[4][3] == 0;
    forall i | 0 < i < |p|
      ensures IsStep(test, Sample, p[i - 1], p[i])
    {
      if i == 1 {
      } else if i == 2 {
      } else if i == 3 {
      } else if i == 4 {
      } else if i == 5 {
      } else if i == 6 {
      } else {
        assert i == 7;
      }
    }
  }

  /** `DLSMaze.main`: depth limit 50 on the sample maze. The limit exceeds
      the number of cells, so the search finds the corner. */
  method Dls() returns (path: Option<seq<Cell>>)
    ensures path.Some? && Solution(OneIsWall, Sample, Cell(4, 3), path.value) && |path.value| - 1 <= 50
  {
    SampleShape();
    SampleSolvable(OneIsWall);
    var grid := Sample;
    path := DepthFirstSearch(grid, Some(50));
  }

  /** The open cells of the sample maze, row by row. */
  predicate SampleOpen(c: Cell)
  {
    || (c.row == 0 && (c.col == 0 || c.col == 1 || c.col == 3))
    || (c.row == 1 && (c.col == 1 || c.col == 3))
    || (c.row == 2 && 0 <= c.col < 4)
    || (c.row == 3 && c.col == 2)
    || (c.row == 4 && 0 <= c.col < 4)
  }

  /** The four cells one step from `c`. */
  predicate Neighbours(c: Cell, t: Cell)
  {
    t == Cell(c.row - 1, c.col) || t == Cell(c.row + 1, c.col) ||
    t == Cell(c.row, c.col - 1) || t == Cell(c.row, c.col + 1)
  }

  /** A walk from (0,0) to (4,3) through open cells of the sample that
      repeats no cell. */
  ghost predicate OpenWalk(p: seq<Cell>)
  {
    && |p| > 0 && p[0] == Start && Last(p) == Cell(4, 3) && NoDup(p)
    && forall i :: 0 < i < |p| ==> SampleOpen(p[i]) && Neighbours(p[i - 1], p[i])
  }

  /** A step in the sample maze goes to an open neighbour. */
  lemma SampleStep(test: WallTest, c: Cell, t: Cell)
    requires Rectangular(Sample) && IsStep(test, Sample, c, t)
    ensures SampleOpen(t) && Neighbours(c, t)
  {
  }

  /** A repeat-free solution of the sample is an open walk. */
  lemma SampleWalk(test: WallTest, p: seq<Cell>)
    requires Rectangular(Sample) && Solution(test, Sample, Cell(4, 3), p) && NoDup(p)
    ensures OpenWalk(p)
  {
    forall i | 0 < i < |p|
      ensures SampleOpen(p[i]) && Neighbours(p[i - 1], p[i])
    {
      SampleStep(test, p[i - 1], p[i]);
    }
  }

  /** (2,0), (0,3) and (4,0) have a single open neighbour, so an open walk
      never enters them. */
  lemma OpenWalkNoTip(p: seq<Cell>, k: nat)
    requires OpenWalk(p) && k < |p|
    ensures p[k] != Cell(2, 0) && p[k] != Cell(0, 3) && p[k] != Cell(4, 0)
  {
    if 0 < k < |p| - 1 {
      assert SampleOpen(p[k - 1]) || k == 1;
      assert SampleOpen(p[k + 1]) && Neighbours(p[k], p[k + 1]) && Neighbours(p[k - 1], p[k]);
      assert p[k - 1] != p[k + 1];
    }
  }

  /** Entering (4,1) from (4,2) leads only on to the tip (4,0). */
  lemma OpenWalkNoBranch(p: seq<Cell>, k: nat)
    requires OpenWalk(p) && 0 < k < |p|
    ensures !(p[k - 1] == Cell(4, 2) && p[k] == Cell(4, 1))
  {
    if k < |p| - 1 {
      assert SampleOpen(p[k + 1]) && Neighbours(p[k], p[k + 1]) && p[k - 1] != p[k + 1];
      OpenWalkNoTip(p, k + 1);
    }
  }

  /** The open cells of the sample form a tree, so the only open walk is
      the sample's route. */
  lemma OpenWalkRoute(p: seq<Cell>)
    requires OpenWalk(p)
    ensures p == SampleRoute
  {
    assert p[1] == Cell(0, 1);
    assert p[2] == Cell(1, 1);
    assert p[3] == Cell(2, 1);
    OpenWalkNoTip(p, 4);
    assert p[4] == Cell(2, 2);
    assert p[5] == Cell(3, 2) || p[5] == Cell(2, 3);
    assert p[6] == Cell(4, 2) || p[6] == Cell(1, 3);
    OpenWalkNoTip(p, 7);
    OpenWalkNoBranch(p, 7);
    assert p[5] == Cell(3, 2) && p[6] == Cell(4, 2) && p[7] == Cell(4, 3);
    assert |p| == 8;
  }

  /** The only walk from (0,0) to (4,3) in the sample that repeats no cell
      is the sample's route. */
  lemma SampleOnlyRoute(test: WallTest, p: seq<Cell>)
    requires Rectangular(Sample) && Solution(test, Sample, Cell(4, 3), p) && NoDup(p)
    ensures p == SampleRoute
  {
    SampleWalk(test, p);
    OpenWalkRoute(p);
  }

  /** `AStarSearchMaze.main`: the sample maze reaches the corner, at a
      cost of at least 7. */
  method AStarSample() returns (r: AStar.Outcome<Cell>)
    ensures r.Solved? && Solution(ZeroIsOpen, Sample, Cell(4, 3), r.path) && r.cost >= 7
  {
    SampleShape();
    SampleSolvable(ZeroIsOpen);
    var grid := Sample;
    r := AStarSearch(grid, Cell(4, 3));
  }

  /** `BestFirstSearchMaze.main`: the sample maze has one walk to the
      corner that repeats no cell, and the parent chain is that walk. */
  method BestFirstSample() returns (r: GraphSearch.Outcome<Cell>)
    ensures r.Solved? && r.path == SampleRoute
  {
    SampleShape();
    SampleSolvable(OneIsWall);
    var grid := Sample;
    var parent;
    r, parent := BestFirst(grid, Cell(4, 3));
    SampleOnlyRoute(OneIsWall, r.path);
  }
}

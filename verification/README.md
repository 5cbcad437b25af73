# Search, constraint and game programs in Dafny

This project models a collection of small Java programs that solve classic
toy problems by search, and it proves what those programs compute.

- **Water jug** (`waterjug/`): measure a target amount with two jugs. The
  programs are breadth-first, depth-first, depth-limited, greedy best-first
  and A* search.
- **Missionaries and cannibals** (`miss/`): the same five searches over
  (missionaries left, cannibals left, boat side).
- **Eight puzzle** (`eightpuzzle/`): the same five searches over board
  strings, with the Manhattan-distance heuristic.
- **Maze** (`maze/`): depth-limited, best-first and A* search on a grid of
  open cells and walls.
- **N queens** (`nqueens/`): the five searches over row-by-row placements.
- **Route finding** (`route/`): a weighted map with a string-keyed cost
  table, searched by A* (entries carry frozen g and f, and a closed set) and
  by greedy best-first.
- **Constraint problems** (`csp/`): backtracking for eight queens, graph
  colouring and SEND + MORE = MONEY.
- **Tic-tac-toe** (`tictactoe/`): three computer players over a board of
  2 (empty), 3 (X) and 5 (O).
  - `TicTacToe2` wins and blocks by prime products.
  - `TicTacToeMagic` does the same with a 3-by-3 magic square.
  - `TicTacToeAI` plays by minimax.

The five copies of each search algorithm share one engine, each proved once:

- `GraphSearch` is the queue search with visited-on-enqueue. Under FIFO
  order it is breadth-first search, with the first goal polled a shortest
  one. Under least-heuristic order it is greedy best-first search.
- `DepthFirst` is the recursive search with a global visited set and an
  optional depth limit, written as pure functions.
- `AStar` is the g-map search whose priority queue reads a mutable g table.
  Its poll is a nondeterministic choice among the entries.
- `Backtrack` is the assign, recurse and undo solver, with a proof that it
  returns the lexicographically first solution.

Each puzzle module supplies the successor function, goal test and heuristic
of its programs. It then instantiates the engines, one method per Java
program, and proves that the engines' paths are exactly the plays of that
puzzle.

The route, constraint and tic-tac-toe programs have their own modules.
The three tic-tac-toe players share the board and line definitions in
`TicTacToe`.

Where the Java reads mutable static fields, the model threads them as
explicit state. Where the Java would throw, the model either returns
`None` or requires what the Java silently relies on (see "## Left out").

The water-jug breadth-first run on jugs of 4 and 3 litres with target 2
follows the code: it succeeds with a play of four moves, ending at (4, 2).

## Model

| member | source | states |
|---|---|---|
| Paths.LinkedUnique | waterjug/WaterJugBFS.java:69-81 | at most one parent chain ends in a given state, so the printed path is determined by the parent map |
| Paths.LinkedNoDup | waterjug/WaterJugBFS.java:69-81 | a parent chain from a state without a parent never repeats a state, since each state has one parent |
| Paths.LinkedIsPath | waterjug/WaterJugBFS.java:69-81 | a parent chain follows successor edges whenever every recorded parent link is one |
| Paths.LinkedDepth | waterjug/WaterJugBFS.java:57-64 | when each parent link adds one to the depth, a chain is one longer than the depth difference of its ends |
| Paths.ParentWalk | waterjug/WaterJugBFS.java:69-81 | walking parent links back from the end yields a parent chain from a state without a parent to the end, in start-to-end order |
| GraphSearch.FirstMinIndex | waterjug/WaterJugBestFirst.java:27-35 | a non-empty priority queue always has a position of least heuristic value to poll |
| GraphSearch.Fresh | waterjug/WaterJugBFS.java:57-64 | the states one expansion enqueues are exactly the successors not yet visited |
| GraphSearch.FreshNoDup | waterjug/WaterJugBFS.java:57-64 | one expansion never enqueues a state twice |
| GraphSearch.FrontierCut | waterjug/WaterJugBFS.java:17-67 | any path from the start that leaves the expanded states meets a visited, unexpanded state no deeper than its index (the breadth-first cut argument) |
| GraphSearch.ExpandStep | waterjug/WaterJugBFS.java:34-64 | expanding a non-goal state keeps the parent records (an expanded parent one level up, successor edge) and the frontier invariant (no goal expanded; under FIFO, the queue holds two consecutive layers) |
| GraphSearch.ExpandMeasure | waterjug/WaterJugBFS.java:57-64 | visited states only grow inside the finite universe, strictly when anything is enqueued, so the loop ends |
| GraphSearch.GoalFound | waterjug/WaterJugBFS.java:30-32 | the parent chain of a polled goal is a path from the start, and under FIFO no path to a goal is shorter |
| GraphSearch.ParentFacts | waterjug/WaterJugBFS.java:57-64 | the parent map records only successor edges and every chain leads back to the start, which has no parent |
| GraphSearch.Exhausted | waterjug/WaterJugBFS.java:65-66 | when the frontier empties no path from the start reaches a goal |
| GraphSearch.Initial | waterjug/WaterJugBFS.java:22-25 | the start alone in the queue and the visited set satisfies both loop invariants |
| GraphSearch.Poll | waterjug/WaterJugBestFirst.java:34-35 | FIFO polls the head; greedy order polls a state of least heuristic value |
| GraphSearch.Expand | waterjug/WaterJugBFS.java:37-64 | expanding a polled non-goal state marks its unvisited successors visited with it as parent, keeps both invariants, and makes progress |
| GraphSearch.Finish | waterjug/WaterJugBFS.java:30-32 | the answer read off the parent map is a path from the start to the polled goal, shortest under FIFO |
| GraphSearch.Search | waterjug/WaterJugBFS.java:17-67 | the queue search with visited-on-enqueue: a solution is a path from the start to a goal along successor edges, a FIFO solution is a shortest one, an empty queue means no goal is reachable, and the parent map holds only successor edges back to the start |
| DepthFirst.Visit | waterjug/WaterJugDLS.java:22-58 | one recursive call: beyond the depth limit it fails and changes nothing; at a goal it succeeds at once; otherwise it marks its state visited; it never leaves the universe |
| DepthFirst.VisitFrame | waterjug/WaterJugDFS.java:28-51 | a call never rewrites the parent entry of a state visited before it, and records only successor edges |
| DepthFirst.VisitSound | waterjug/WaterJugDFS.java:21-54 | a successful call's trail leads from its state to a goal along successor edges and the final parent links, within the depth limit |
| DepthFirst.ExploreSound | waterjug/WaterJugDFS.java:33-51 | a successful successor loop's trail starts at a successor whose parent is the expanding state |
| DepthFirst.VisitExhaustive | waterjug/WaterJugDFS.java:21-54 | without a cutoff, a failed call has expanded every state it marked: none is a goal and all their successors are visited |
| DepthFirst.FewStatesShallow | waterjug/WaterJugDLS.java:17-20 | with at most k+1 states, every repeat-free path has at most k moves |
| DepthFirst.VisitInert | waterjug/WaterJugDLS.java:22-25 | a depth limit no repeat-free path reaches changes nothing: the limited search is the unlimited one |
| DepthFirst.ChainWalk | waterjug/WaterJugDFS.java:56-68 | walking the parent links from the end of a chain returns that chain in start-to-end order |
| DepthFirst.Search | waterjug/WaterJugDFS.java:21-54 | a found path starts at the start, follows successor edges, ends in a goal and respects the depth limit; without a limit (or with one no repeat-free path reaches) a failure proves no goal reachable; a goal start is answered with itself |
| AStar.Relax | waterjug/WaterJugAStar.java:72-79 | an edge is relaxed exactly when the new g beats the recorded g (Integer.MAX_VALUE when none); then g, parent and queue are updated for that successor only, and no g ever rises |
| AStar.RelaxKeeps | waterjug/WaterJugAStar.java:72-79 | a relaxation keeps every recorded g the length of a play from the start and every queued state recorded |
| AStar.Drop | waterjug/WaterJugAStar.java:47-48 | polling removes one queue entry and keeps every other queued state |
| AStar.GBelow | waterjug/WaterJugAStar.java:72-79 | every recorded g is below the number of states, since each is witnessed by a repeat-free play |
| AStar.PotentialBelow | waterjug/WaterJugAStar.java:72-79 | lowering g values lowers their sum over the universe, strictly when one falls |
| AStar.RelaxAll | waterjug/WaterJugAStar.java:58-79 | the successor loop never raises a g and never shrinks the queue |
| AStar.Expanded | waterjug/WaterJugAStar.java:58-79 | expanding a polled state keeps the loop invariant and lowers the g potential, strictly when it pushes, so the loop ends |
| AStar.Finish | waterjug/WaterJugAStar.java:50-53 | the answer read off the tables is a path from the start to the polled goal whose number of moves is at most the goal's g, the printed cost |
| AStar.Exhausted | waterjug/WaterJugAStar.java:81-83 | when the queue empties no path from the start reaches a goal |
| AStar.Search | waterjug/WaterJugAStar.java:33-84 | a solution is a path from the start to a goal, its cost is the goal's g, at least its number of moves, below the number of states, and the length of some play to that goal; an empty queue means no goal is reachable |
| WaterJug.Moves | waterjug/WaterJugBFS.java:37-55 | always six candidate states, one per fill, empty and pour rule |
| WaterJug.MovesAreRules | waterjug/WaterJugBFS.java:37-55 | from a state within the capacities the six candidates are exactly the states the rules allow (fill, empty, pour until the source is empty or the target full), and all stay within the capacities |
| WaterJug.HeuristicZero | waterjug/WaterJugAStar.java:25-27 | the heuristic is never negative and is zero exactly at goal states |
| WaterJug.Box | waterjug/WaterJugBFS.java:57-64 | the states within the capacities number at most (cap1+1)(cap2+1), which bounds every run |
| WaterJug.BoxClosed | waterjug/WaterJugBFS.java:37-55 | no move leaves the capacities |
| WaterJug.PathsAreTraces | waterjug/WaterJugBFS.java:22-64 | the engines' paths from two empty jugs are exactly the plays of the puzzle |
| WaterJug.Bfs | waterjug/WaterJugBFS.java:17-67 | a play from two empty jugs reaching the target with the fewest moves, or none only when no play reaches it |
| WaterJug.BestFirst | waterjug/WaterJugBestFirst.java:17-68 | a play reaching the target, ordered by the distance to the static target 2, or none only when no play reaches it |
| WaterJug.AStarSearch | waterjug/WaterJugAStar.java:33-84 | a play reaching the target whose printed g is at least its number of moves, or none only when no play reaches it |
| WaterJug.DepthFirstSearch | waterjug/WaterJugDLS.java:22-58 | a found play reaches the target within the depth limit; an unlimited failure means no play reaches it |
| WaterJug.Dfs | waterjug/WaterJugDFS.java:70-73 | the 4- and 3-litre run for 2 litres finds a play |
| WaterJug.Dls | waterjug/WaterJugDLS.java:74-78 | the depth-limited run for 2 litres answers with a play of at most 10 moves if at all |
| WaterJug.FourThreeSolvable | waterjug/WaterJugBFS.java:83-88 | four moves measure 2 litres with jugs of 4 and 3 |
| WaterJug.NoShortSolution | waterjug/WaterJugBFS.java:83-88 | no play of at most three moves measures 2 litres with jugs of 4 and 3 |
| WaterJug.FourthMoveGoal | waterjug/WaterJugBFS.java:37-55 | with jugs of 4 and 3, the only state holding 2 litres one move past the states three moves reach is (4, 2) |
| WaterJug.BfsDefault | waterjug/WaterJugBFS.java:83-88 | the breadth-first run of the program's own input succeeds with a play of exactly four moves, ending with 4 litres and 2 |
| Missionaries.Candidates | miss/BFS.java:47-72 | one candidate state per boat load, five in all |
| Missionaries.ValidMeansSafe | miss/BFS.java:86-99 | isValidState holds exactly when the counts are within the totals and on neither bank are missionaries present and outnumbered |
| Missionaries.MovesAreCrossings | miss/BFS.java:47-83 | the successors pushed are exactly the valid states one crossing of one or two people away |
| Missionaries.HeuristicBounds | miss/BestFirstSearch.java:24-26 | the heuristic lies between 0 and the number of people, and is 0 at the goal |
| Missionaries.HeuristicOverestimates | miss/AStarSearch.java:28-30 | the A* heuristic is not admissible: from (1,1,boat left) one crossing reaches the goal but the heuristic says 2 |
| Missionaries.Banks | miss/BFS.java:74-83 | the states with counts within the totals number at most (M+1)(2(C+1)), which bounds every run |
| Missionaries.UniverseClosed | miss/BFS.java:74-83 | the successor function never leaves the states within the totals |
| Missionaries.PathsAreTraces | miss/BFS.java:36-83 | the engines' paths are exactly the sequences of valid crossings |
| Missionaries.Bfs | miss/BFS.java:24-84 | from the hard-coded (3,3,boat left), whatever totals are passed, a shortest sequence of valid crossings to the goal, or none only when none exists |
| Missionaries.BestFirst | miss/BestFirstSearch.java:28-85 | from everyone on the left, a sequence of valid crossings to the goal, or none only when none exists |
| Missionaries.AStarSearch | miss/AStarSearch.java:36-101 | from everyone on the left, a sequence of valid crossings to the goal whose printed g is at least its number of crossings, or none only when none exists |
| Missionaries.DepthFirstSearch | miss/DLS.java:29-76 | the recursive search from (3,3,boat left): a found sequence reaches the goal within the depth limit; a failure without a limit, or under a limit of 30 or more, means none exists |
| Missionaries.FewBanks | miss/DLS.java:78-91 | dropping one unsafe state from the states within the totals still leaves every state the searches meet, so they meet fewer states than that count |
| Missionaries.Dfs | miss/DFS.java:118-125 | the program's run finds a solution |
| Missionaries.Dls | miss/DLS.java:120-127 | with depthLimit 30, which never cuts the search short, the run finds an answer of at most 30 crossings |
| Missionaries.ElevenCrossings | miss/BFS.java:127-131 | the classic eleven-crossing plan is a solution for three and three |
| Missionaries.NoShortSolution | miss/BFS.java:127-131 | no solution for three and three has fewer than eleven crossings |
| Missionaries.BfsDefault | miss/BFS.java:127-131 | the program's breadth-first run succeeds with exactly eleven crossings |
| EightPuzzle.JavaDivision | eightpuzzle/AStarSearch.java:24-35 | Java's truncating `/` and `%` agree with Dafny's on non-negative operands and differ on -1, which the heuristic meets for a tile missing from the goal |
| EightPuzzle.AdjacentIsGrid | eightpuzzle/BFS.java:41-51 | the `moves` table lists exactly the cells sharing a side with each cell of the 3x3 grid |
| EightPuzzle.AdjacentSymmetric | eightpuzzle/BFS.java:41-51 | cell j is listed for i exactly when i is listed for j, so every slide can be undone |
| EightPuzzle.SwapFacts | eightpuzzle/BFS.java:71-77 | swapping is its own inverse, keeps the length and the tiles, and touches only the two cells |
| EightPuzzle.Moves | eightpuzzle/BFS.java:52-57 | one successor per cell listed for the blank's cell |
| EightPuzzle.MoveFacts | eightpuzzle/BFS.java:52-57 | the k-th successor has the blank at the k-th listed cell, that cell's tile at the old blank cell, and everything else unchanged |
| EightPuzzle.MovesAreSlides | eightpuzzle/BFS.java:41-57 | the successors are exactly the boards reached by sliding a tile next to the blank into it |
| EightPuzzle.SlidePlayable | eightpuzzle/BFS.java:52-57 | a slide keeps the board expandable without an index exception |
| EightPuzzle.PathsAreTraces | eightpuzzle/BFS.java:32-65 | the engines' paths are exactly the plays of slides from the start |
| EightPuzzle.Universe | eightpuzzle/BFS.java:59-65 | the boards a search can meet are the rearrangements of the start's characters, finitely many |
| EightPuzzle.UniverseClosed | eightpuzzle/BFS.java:52-57 | a slide keeps the multiset of characters |
| EightPuzzle.CostSum | eightpuzzle/AStarSearch.java:27-33 | the heuristic's partial sums are never negative |
| EightPuzzle.HeuristicZero | eightpuzzle/AStarSearch.java:24-35 | the heuristic is zero exactly when every tile on the grid stands at its place in the goal |
| EightPuzzle.HeuristicAtGoal | eightpuzzle/AStarSearch.java:24-35 | the heuristic of the goal itself is zero when the goal has no repeated character |
| EightPuzzle.HeuristicZeroIsGoal | eightpuzzle/AStarSearch.java:24-35 | on rearrangements of a repeat-free goal the heuristic is zero exactly at the goal |
| EightPuzzle.SlideConsistent | eightpuzzle/AStarSearch.java:24-35 | one slide changes the Manhattan sum by at most one |
| EightPuzzle.DistStep | eightpuzzle/AStarSearch.java:31 | moving a tile to a neighbouring cell changes its distance to its goal cell by at most one |
| EightPuzzle.Admissible | eightpuzzle/AStarSearch.java:24-35 | no play from a board reaches a board of heuristic zero in fewer moves than the first board's heuristic |
| EightPuzzle.Bfs | eightpuzzle/BFS.java:21-69 | a shortest play from the start to the goal, or none only when no play reaches it; every board recorded is a rearrangement of the start |
| EightPuzzle.BestFirst | eightpuzzle/BestFirstSearch.java:32-80 | a play from the start to the goal, ordered by the Manhattan heuristic, or none only when no play reaches it |
| EightPuzzle.AStarSearch | eightpuzzle/AStarSearch.java:41-97 | a play from the start to the goal whose printed g is at least its number of moves, or none only when no play reaches it |
| EightPuzzle.DepthFirstSearch | eightpuzzle/DLS.java:25-67 | the recursive search towards the static goal: a found play respects the depth limit; an unlimited failure means no play reaches the goal; a start equal to the goal is answered at once |
| EightPuzzle.Dfs | eightpuzzle/DFS.java:97-105 | the program starts on the goal board, so it answers with the goal alone |
| EightPuzzle.Dls | eightpuzzle/DLS.java:103-110 | from "123405678" with MAX_DEPTH 10 any answer is a play of at most 10 moves |
| Maze.TestsAgree | maze/AStarSearchMaze.java:90-98 | the A* file's open test (cell is 0) and the other files' (cell is not 1) agree on a maze of 0s and 1s |
| Maze.Candidates | maze/AStarSearchMaze.java:62-73 | four candidate cells, one per offset of `moves` |
| Maze.CandidatesAdjacent | maze/AStarSearchMaze.java:62-73 | the candidates are exactly the cells at Manhattan distance one |
| Maze.Moves | maze/BestFirstSearchMaze.java:48-68 | at most four successors |
| Maze.MovesAreSteps | maze/BestFirstSearchMaze.java:48-68 | the successors are exactly the open in-bounds cells one step away |
| Maze.PathsAreTraces | maze/BestFirstSearchMaze.java:39-68 | the engines' paths from (0,0) are exactly the walks through open cells |
| Maze.Cells | maze/BestFirstSearchMaze.java:72-83 | the cells of a rows-by-cols grid number at most rows*cols |
| Maze.Universe | maze/BestFirstSearchMaze.java:72-83 | the start and the grid's cells bound every run |
| Maze.UniverseClosed | maze/BestFirstSearchMaze.java:72-83 | no step leaves the grid |
| Maze.Heuristic | maze/AStarSearchMaze.java:26-28 | the Manhattan heuristic is never negative and is zero exactly at the goal |
| Maze.StepConsistent | maze/AStarSearchMaze.java:26-28 | one step changes the heuristic by exactly one |
| Maze.Admissible | maze/AStarSearchMaze.java:26-28 | no walk reaches the goal in fewer steps than the heuristic of where it starts |
| Maze.AStarSearch | maze/AStarSearchMaze.java:35-88 | a walk from (0,0) to the goal whose printed g is at least its steps and at least the start's Manhattan distance, or none only when no walk reaches the goal |
| Maze.BestFirst | maze/BestFirstSearchMaze.java:25-104 | a walk from (0,0) to the goal that repeats no cell, or none only when no walk reaches it; only open cells get a parent, one step from it |
| Maze.DepthFirstSearch | maze/DLSMaze.java:39-76 | a found walk reaches the bottom-right cell within the depth limit; a failure with no limit or a limit of at least the number of cells means no walk reaches it |
| Maze.SampleShape | maze/DLSMaze.java:22-31 | the sample maze is 5 by 4 and its goal is (4,3) |
| Maze.SampleSolvable | maze/DLSMaze.java:22-31 | the sample maze has a walk from (0,0) to (4,3) under either open test |
| Maze.Dls | maze/DLSMaze.java:112-120 | with depthLimit 50 the sample run finds a walk to the corner of at most 50 steps |
| Maze.AStarSample | maze/AStarSearchMaze.java:120-133 | the A* run on the sample reaches the corner at a printed cost of at least 7 |
| Maze.SampleStep | maze/BestFirstSearchMaze.java:72-83 | a step in the sample maze goes to an open cell next to the one it leaves |
| Maze.SampleWalk | maze/BestFirstSearchMaze.java:106-113 | a repeat-free walk of the sample from (0,0) to (4,3) is a walk through its open cells |
| Maze.OpenWalkNoTip | maze/BestFirstSearchMaze.java:106-113 | such a walk never enters (2,0), (0,3) or (4,0), the open cells with a single open neighbour |
| Maze.OpenWalkNoBranch | maze/BestFirstSearchMaze.java:106-113 | such a walk never turns from (4,2) into (4,1), which leads only to (4,0) |
| Maze.OpenWalkRoute | maze/BestFirstSearchMaze.java:106-113 | the open cells form a tree, so such a walk is exactly (0,0) (0,1) (1,1) (2,1) (2,2) (3,2) (4,2) (4,3) |
| Maze.SampleOnlyRoute | maze/BestFirstSearchMaze.java:106-117 | under either open test, the only walk from (0,0) to (4,3) in the sample that repeats no cell is that route |
| Maze.BestFirstSample | maze/BestFirstSearchMaze.java:106-118 | the best-first run on the sample prints exactly the eight positions of that route |
| NQueens.SafeFrom | nqueens/NQueensBFS.java:60-68 | the isSafe loop from row r on accepts exactly when no queen of those rows shares the column or a diagonal with the new square |
| NQueens.SafeExtends | nqueens/NQueensBFS.java:60-68 | a column is safe exactly when adding it to a non-attacking placement keeps it non-attacking |
| NQueens.Extensions | nqueens/NQueensBFS.java:40-46 | every successor places the next row's queen on a safe column of the board, and every safe column gives one |
| NQueens.ExtensionsAscending | nqueens/NQueensBFS.java:40-46 | the successors try the columns in increasing order |
| NQueens.MovesArePlacements | nqueens/NQueensBFS.java:33-46 | the successors of an incomplete placement are exactly its safe one-row extensions, and a complete one has none |
| NQueens.PlaceStep | nqueens/NQueensBFS.java:40-46 | one placement keeps the queens on the board and non-attacking and adds one row |
| NQueens.PathsArePrefixes | nqueens/NQueensBFS.java:30-56 | every play from the empty board is the chain of prefixes of a non-attacking placement of at most n queens |
| NQueens.PrefixesArePath | nqueens/NQueensBFS.java:30-56 | conversely the prefixes of every answer form a play from the empty board |
| NQueens.SolutionsAsPaths | nqueens/NQueensBFS.java:30-56 | the plays ending in n rows are exactly the prefix chains of the answers |
| NQueens.Shallow | nqueens/NQueensDLS.java:23-53 | no play from the empty board has more than n moves, so a depth limit of at least n never cuts in |
| NQueens.Boards | nqueens/NQueensBFS.java:48-55 | the placements of at most k queens on n columns are finitely many, which bounds every run |
| NQueens.UniverseClosed | nqueens/NQueensBFS.java:40-46 | a placement never leaves the board or exceeds n rows |
| NQueens.AttackersZero | nqueens/NQueensBestFS.java:61-71 | the inner count for row j is zero exactly when no earlier queen attacks it |
| NQueens.ConflictsBelowZero | nqueens/NQueensBestFS.java:61-71 | the count over the first j rows is zero exactly when no two of them attack |
| NQueens.ConflictsZero | nqueens/NQueensBestFS.java:61-71 | the conflict heuristic is zero exactly on non-attacking placements |
| NQueens.GeneratedCalm | nqueens/NQueensBestFS.java:21-59 | every state a search reaches has heuristic zero, so the heuristic never orders the queue |
| NQueens.Bfs | nqueens/NQueensBFS.java:20-58 | an answer with the play of its prefixes, or none only when n queens cannot be placed |
| NQueens.BestFirst | nqueens/NQueensBestFS.java:21-59 | the same, with the queue ordered by the conflict count |
| NQueens.AStarSearch | nqueens/NQueensAstar.java:43-89 | an answer with the play of its prefixes at a printed cost of exactly n, or none only when n queens cannot be placed |
| NQueens.DepthFirstSearch | nqueens/NQueensDLS.java:25-54 | a found play ends in an answer; a failure with no limit or a limit of at least n means there is none |
| NQueens.FourQueens | nqueens/NQueensDFS.java:20 | [1, 3, 0, 2] places four queens |
| NQueens.EightQueens | nqueens/NQueensBFS.java:115-118 | [0, 4, 7, 5, 2, 6, 1, 3] places eight queens |
| NQueens.BfsDefault | nqueens/NQueensBFS.java:115-118 | the eight-queen run finds an answer |
| NQueens.Dfs | nqueens/NQueensDFS.java:107-113 | the four-queen run finds an answer |
| NQueens.Dls | nqueens/NQueensDLS.java:111-118 | with depthLimit 6 the four-queen run still finds an answer |
| NQueens.BestFirstDefault | nqueens/NQueensBestFS.java:130-133 | the four-queen best-first run finds an answer |
| NQueens.AStarDefault | nqueens/NQueensAstar.java:147-150 | the four-queen A* run finds an answer at cost 4 |
| RouteGraph.EmptyValid | route/RouteFindingAStar.java:15-18 | a new graph is well formed and has no nodes |
| RouteGraph.AddNode | route/RouteFindingAStar.java:20-23 | addNode sets the node's heuristic, leaves the other heuristics and every existing neighbour list alone, gives a new node an empty list, and touches no cost |
| RouteGraph.AddNodeValid | route/RouteFindingAStar.java:20-23 | addNode keeps the graph well formed |
| RouteGraph.AddEdge | route/RouteFindingAStar.java:25-30 | addEdge appends each end to the other's neighbour list (a self-loop twice), stores the cost in both directions, and changes no other list, heuristic or pair's cost |
| RouteGraph.AddEdgeValid | route/RouteFindingAStar.java:25-30 | addEdge keeps the graph well formed: neighbour lists symmetric, costs stored for exactly the neighbour pairs, alike both ways |
| RouteGraph.AddEdgeLinked | route/RouteFindingAStar.java:25-30 | after addEdge every neighbour relation is mutual and has a stored cost |
| RouteGraph.AddEdgeListed | route/RouteFindingAStar.java:25-30 | after addEdge every stored cost belongs to a neighbour pair |
| RouteGraph.AddEdgeSymmetric | route/RouteFindingAStar.java:28-29 | after addEdge every stored cost is the same in both directions |
| RouteGraph.AddEdgeKeeps | route/RouteFindingAStar.java:26-27 | addEdge only appends to neighbour lists |
| RouteGraph.CostSymmetric | route/RouteFindingAStar.java:36-38 | on a well-formed graph getCost is symmetric, neighbourhood is mutual, and a pair that is not an edge costs Integer.MAX_VALUE |
| RouteGraph.RouteCostGrows | route/RouteFindingAStar.java:138 | with positive edge costs a route costs at least its number of edges and no prefix costs more |
| RouteGraph.RouteCostSnoc | route/RouteFindingAStar.java:138 | extending a route by one edge adds that edge's cost |
| RouteGraph.StrayCost | route/RouteFindingAStar.java:25-38 | with string keys joined by "-", an edge between "A-B" and "C" gives the non-edge pair "A","B-C" that edge's cost instead of Integer.MAX_VALUE |
| RouteSearch.LeastExists | route/RouteFindingAStar.java:115-116 | a non-empty queue always has an entry of least f to poll |
| RouteSearch.RelaxAllAt | route/RouteFindingAStar.java:137-145 | after the neighbour loop a node's g-score and parent change exactly when it is a neighbour whose g plus edge beats its g-score, and then to that g and the expanded node |
| RouteSearch.RelaxAllQueue | route/RouteFindingAStar.java:137-145 | the neighbour loop keeps every queued entry and adds exactly one entry (g, g+h) per improved neighbour |
| RouteSearch.KeyRises | route/RouteFindingAStar.java:106-107 | on a consistent map the g-so-far plus h never decreases along a route |
| RouteSearch.FrontierOf | route/RouteFindingAStar.java:115-145 | every route from the start leaves the expanded nodes at a scored node whose g-score is at most the route's cost to it |
| RouteSearch.PollSettles | route/RouteFindingAStar.java:115-119 | on a consistent map the polled entry's g is at most the cost of any route to its node |
| RouteSearch.ChainCost | route/RouteFindingAStar.java:125-131 | the parent chain from a scored node is a route from the start costing no more than the node's g-score |
| RouteSearch.Exhausted | route/RouteFindingAStar.java:115 | when the queue runs dry on a consistent map, every route from the start cheaper than Integer.MAX_VALUE stays among expanded nodes |
| RouteSearch.ChainedCost | route/RouteFindingAStar.java:125-131 | when every parent is a neighbour whose g-score plus the edge is at most the child's, a parent chain ending at a scored node is a route from the start costing no more than that node's g-score |
| RouteSearch.DryStep | route/RouteFindingAStar.java:115-145 | with the queue empty, every neighbour reached from an expanded node below Integer.MAX_VALUE has been expanded too |
| RouteSearch.DryOut | route/RouteFindingAStar.java:115-147 | when the queue runs dry on a consistent map with the goal never expanded, every route to the goal costs at least Integer.MAX_VALUE |
| RouteSearch.StartSearching | route/RouteFindingAStar.java:106-113 | the start queued with g 0 and h as its f, g-score 0 and no parents satisfy the loop invariant with nothing visited |
| RouteSearch.PollFresh | route/RouteFindingAStar.java:116-119 | a least entry for a node not yet expanded carries that node's g-score |
| RouteSearch.SkipKeeps | route/RouteFindingAStar.java:118 | skipping an entry of an expanded node keeps the loop invariant |
| RouteSearch.ExpandKeeps | route/RouteFindingAStar.java:119-145 | expanding an unexpanded node keeps the loop invariant, with the node settled at its entry's g |
| RouteSearch.Expand | route/RouteFindingAStar.java:137-145 | the neighbour loop's effect, node by node and entry by entry |
| RouteSearch.ExpandSettles | route/RouteFindingAStar.java:115-145 | on a consistent map the g a node is expanded with is the cost of a cheapest route to it |
| RouteSearch.AStar | route/RouteFindingAStar.java:93-147 | the expansion order has no repeats and starts at the start; a found route leads from the start to the goal along edges and costs at most the printed g; on a consistent map the printed cost is the route's cost and no route to the goal is cheaper, and NotFound means every route to the goal costs at least Integer.MAX_VALUE |
| RouteSearch.Trace | route/RouteFindingAStar.java:125-131 | the parent walk from a scored node is a route from the start to it costing at most its g-score |
| RouteBestFirst.PushAllParent | route/RouteFindingBestFirst.java:135-141 | after the neighbour loop every pushed node has the expanded node as parent, overwriting any earlier one, and every other node keeps its parent |
| RouteBestFirst.PushAllQueue | route/RouteFindingBestFirst.java:135-141 | the neighbour loop keeps every entry and adds one entry (g plus edge, key h) per unexpanded neighbour |
| RouteBestFirst.Polled | route/RouteFindingBestFirst.java:112-116 | a polled entry is for a node of the map reached along some route costing its g; the first poll is the start |
| RouteBestFirst.Exhausted | route/RouteFindingBestFirst.java:112 | when the queue runs dry every route from the start stays among the expanded nodes |
| RouteBestFirst.Walk | route/RouteFindingBestFirst.java:122-129 | the parent walk from an expanded node is a route from the start along edges |
| RouteBestFirst.BestFirst | route/RouteFindingBestFirst.java:93-143 | the expansion order has no repeats and starts at the start; a found route leads from the start to the goal, and the printed cost is the cost of some route to the goal; NotFound means no route reaches the goal |
| RouteDetour.CostMismatch | route/RouteFindingBestFirst.java:112-141 | on a three-town map the poll may return the goal's first entry (g 100) while the parent walk prints S, A, G, which costs 2 |
| RouteBestFirstFixed.PushAllQueue | route/RouteFindingBestFirst.java:135-141 | the corrected loop adds one entry per unexpanded neighbour, remembering which node pushed it |
| RouteBestFirstFixed.ChainCost | route/RouteFindingBestFirst.java:122-129 | with parents fixed when a node is expanded, the parent chain of an expanded node costs exactly the g it was expanded with |
| RouteBestFirstFixed.Walk | route/RouteFindingBestFirst.java:122-129 | the corrected parent walk is a route from the start costing its end's g |
| RouteBestFirstFixed.BestFirstFixed | route/RouteFindingBestFirst.java:93-143 | as BestFirst, and the printed cost is exactly the cost of the printed route |
| Backtrack.Solve | csp/NQueensCSP.java:18-32 | solve(pos) always leaves an array of the problem's size |
| Backtrack.Stage | csp/NQueensCSP.java:24-29 | the array held while filling slot r agrees with the final answer before r and is blank from r on |
| Backtrack.SolutionStep | csp/NQueensCSP.java:24-29 | a completion with v in slot pos is exactly v admitted by the test followed by a completion of the array with v placed |
| Backtrack.SolveFirst | csp/NQueensCSP.java:18-32 | solve(pos) succeeds exactly when a completion exists, and then leaves the lexicographically first one; on failure it leaves the array it was given and no completion exists |
| Backtrack.TryFirst | csp/NQueensCSP.java:24-31 | the candidate loop from the i-th candidate finds the first completion using one of those candidates in slot pos, and undoes its assignment when there is none |
| Backtrack.TryHit | csp/NQueensCSP.java:24-28 | when the i-th candidate is admitted and the rest solved, the answer completes the array and comes before every completion using a candidate from i on |
| Backtrack.TrySkip | csp/NQueensCSP.java:24-30 | when the i-th candidate is refused or solving after it fails, no completion uses it, so the loop may move on |
| Backtrack.Range | csp/NQueensCSP.java:24 | the candidate loop tries lo, lo+1, ..., hi-1 in increasing order |
| Backtrack.LexLeAntisymmetric | csp/NQueensCSP.java:18-32 | two arrays each no later than the other are equal, so the first completion is unique |
| QueensCsp.Empty | csp/NQueensCSP.java:11 | Arrays.fill gives n blank rows |
| QueensCsp.SafeReadsPrefix | csp/NQueensCSP.java:34-42 | isSafe reads only the rows before the one being filled |
| QueensCsp.SafeAt | csp/NQueensCSP.java:34-42 | on a board filled row by row, isSafe accepts row r's column exactly when no earlier queen attacks it |
| QueensCsp.QueensSolve | csp/NQueensCSP.java:18-42 | every placement of n non-attacking queens is a completion the solver accepts |
| QueensCsp.SolveQueensAnswer | csp/NQueensCSP.java:18-42 | every completion the solver accepts is a placement of n non-attacking queens |
| QueensCsp.SolutionsAreQueens | csp/NQueensCSP.java:18-42 | the completions the solver looks for are exactly the placements of n non-attacking queens |
| QueensCsp.SolveQueens | csp/NQueensCSP.java:10-32 | solve(0) succeeds exactly when n queens can be placed, then leaves the first answer in column order; on failure every row stays blank |
| QueensCsp.EightQueens | csp/NQueensCSP.java:7-16 | [0, 4, 7, 5, 2, 6, 1, 3] places eight queens, and with n = 8 the solver succeeds |
| ColoringCsp.SafeFrom | csp/GraphColoring.java:41-48 | the isSafe loop accepts exactly when no vertex joined to this one already has the colour |
| ColoringCsp.Uncoloured | csp/GraphColoring.java:15 | the new colour array holds 0 for every vertex |
| ColoringCsp.RespectsIsProper | csp/GraphColoring.java:41-48 | on an undirected matrix, checking each vertex against earlier ones is checking every edge |
| ColoringCsp.SolutionsRespect | csp/GraphColoring.java:23-48 | the completions the solver looks for are exactly the colourings with colours 1 to numColors that respect every edge to an earlier vertex |
| ColoringCsp.SolveColoring | csp/GraphColoring.java:23-39 | solve(0) succeeds exactly when such a colouring exists, then leaves the first one; on failure every vertex stays uncoloured |
| ColoringCsp.SampleProper | csp/GraphColoring.java:5-10 | the program's matrix is undirected and 1, 2, 3, 2 colours it |
| ColoringCsp.SampleColoring | csp/GraphColoring.java:12-21 | with three colours the program colours its graph 1, 2, 3, 2 |
| ColoringCsp.SampleFirst | csp/GraphColoring.java:12-21 | every colouring of the sample comes no earlier than 1, 2, 3, 2 |
| CryptCsp.Mapping | csp/CryptArithmetic.java:10 | charToDigit maps exactly the assigned letters, each to its digit |
| CryptCsp.Used | csp/CryptArithmetic.java:11 | usedDigits flags exactly the digits some letter holds |
| CryptCsp.PositionalSnoc | csp/CryptArithmetic.java:62-68 | one more letter on the right shifts the number one place and adds that letter's digit |
| CryptCsp.WordToNumber | csp/CryptArithmetic.java:62-68 | the loop yields the word's positional value in base ten |
| CryptCsp.PositionalBounds | csp/CryptArithmetic.java:62-68 | a word of k digits is below 10^k, and at least 10^(k-1) when its first digit is not 0 |
| CryptCsp.IsValidSolution | csp/CryptArithmetic.java:54-60 | accepts exactly when the addends' values sum to the result's value |
| CryptCsp.StartsWith | csp/CryptArithmetic.java:70-73 | true exactly when the letter leads an addend or the result |
| CryptCsp.Unassigned | csp/CryptArithmetic.java:10-11 | the starting assignment leaves every letter unassigned |
| CryptCsp.MapAssign | csp/CryptArithmetic.java:42-47 | charToDigit.put assigns one letter, and remove gives back the map from before |
| CryptCsp.UsedAssign | csp/CryptArithmetic.java:43-48 | setting the digit's flag and clearing it again gives back the flags from before |
| CryptCsp.SafeSlot | csp/CryptArithmetic.java:38-40 | the solver admits a digit exactly when no earlier letter holds it and it is not 0 on a leading letter |
| CryptCsp.SolutionsSolve | csp/CryptArithmetic.java:27-60 | the assignments the solver accepts are exactly the puzzle's answers: distinct digits, no leading 0, and the sum holds |
| CryptCsp.SolveCrypt | csp/CryptArithmetic.java:27-52 | solve succeeds exactly when the puzzle has an answer, then leaves the first in the letters' order; on failure every letter is unassigned |
| CryptCsp.Relabel | csp/CryptArithmetic.java:14-20 | reading an assignment off in another order of the same letters gives each letter the digit it had |
| CryptCsp.RelabelMapping | csp/CryptArithmetic.java:14-20 | that relabelling leaves the letter-to-digit map unchanged |
| CryptCsp.RelabelDigits | csp/CryptArithmetic.java:38-40 | the relabelled digits are digits, none twice, and none 0 on a leading letter |
| CryptCsp.RelabelSolved | csp/CryptArithmetic.java:14-20 | an answer for one order of the letters, read off in any other repeat-free order of the same letters, is still an answer and gives every letter the same digit |
| CryptCsp.SendMoreMoney | csp/CryptArithmetic.java:7-25 | in every repeat-free order of the letters S, E, N, D, M, O, R, Y, the answer 9567 + 1085 = 10652 is an answer, so the program's solve succeeds whatever order its letter set yields |
| TicTacToe.LinesSorted | tictactoe/TicTacToe2.java:148-152 | the eight lines are three increasing cells of the board each |
| TicTacToe.CompletesWins | tictactoe/TicTacToe2.java:123-139 | filling the empty cell of a line that holds two of a side's symbols wins that line |
| TicTacToe.WinningMoves | tictactoe/TicTacToe2.java:123-139 | for a side that has not won, a move into an empty cell wins exactly when it completes a line holding two of its symbols |
| TicTacToe.ProductWinFrom | tictactoe/TicTacToe2.java:153-157 | the line loop of checkWin finds a line whose product is p cubed exactly when one exists |
| TicTacToe.CubeFactors | tictactoe/TicTacToe2.java:146-158 | three cells from {2, 3, 5} multiply to 27 or 125 only when all three hold that prime |
| TicTacToe.ProductWinOwns | tictactoe/TicTacToe2.java:146-158 | on a board of 2s, 3s and 5s, checkWin by products holds exactly when the side owns a row, column or diagonal |
| TicTacToe.IsBoardFull | tictactoe/TicTacToeAI.java:146-152 | true exactly when no cell is empty |
| TicTacToe.AnyBlank | tictactoe/TicTacToe2.java:160-163 | the first empty cell, or -1 exactly when there is none |
| TicTacToe.FirstBlankOf | tictactoe/TicTacToe2.java:133-135 | the first empty cell among the given cells, or -1 exactly when none is empty |
| TicTacToe.Make2 | tictactoe/TicTacToe2.java:116-121 | the centre if empty, else the first empty side in the order 1, 3, 5, 7, else the first empty cell; -1 exactly on a full board |
| TicTacToe.Go | tictactoe/TicTacToe2.java:141-144 | GO writes the symbol into the cell, leaves the others, and advances the turn; an index off the board is an error |
| TicTacToe.GoCounts | tictactoe/TicTacToe2.java:141-144 | a move into an empty cell fills one cell and keeps the turn counter one more than the filled cells |
| TicTacToe.TrialUndone | tictactoe/TicTacToeAI.java:78-80 | setting a cell and resetting it to empty gives the board back, so the search's trials leave BOARD as it was |
| TicTacToe.Strategy | tictactoe/TicTacToe2.java:71-110 | from turn 5 the computer takes its own win first, then a block; on turn 4 it blocks; otherwise MAKE2 on turns 4 and 6 and the first empty cell on turns 7 to 9; no move outside turns 1 to 9 |
| TicTacToe.StrategyPlays | tictactoe/TicTacToe2.java:71-110 | given correct POSSWIN answers, the chosen cell completes the computer's line or blocks the user's as the turn demands, and on turn 4 and turns 6 to 9 it is empty while any cell is |
| TicTacToe.StrategyWins | tictactoe/TicTacToe2.java:71-110 | given correct POSSWIN answers, from turn 5 the move wins when a win is available, otherwise fills the cell the user would win with; on turn 4 it blocks |
| TicTacToeProduct.TargetFactors | tictactoe/TicTacToe2.java:124 | three cells from {2, 3, 5} multiply to 18 (for X) or 50 (for O) exactly when one is empty and the other two hold that side |
| TicTacToeProduct.LineCells | tictactoe/TicTacToe2.java:125-129 | each line is three cells of the board |
| TicTacToeProduct.PossWinFrom | tictactoe/TicTacToe2.java:130-138 | -1 exactly when no line from l on has the target product and an empty cell; otherwise the first empty cell of such a line |
| TicTacToeProduct.TargetLine | tictactoe/TicTacToe2.java:130-136 | a line has the target product exactly when the side can complete it, and then its first empty cell is the completing one |
| TicTacToeProduct.PossWinAnswers | tictactoe/TicTacToe2.java:123-139 | POSSWIN(p) is -1 exactly when p has no line with two of its symbols and an empty cell, and otherwise that empty cell |
| TicTacToeProduct.WinsOrBlocks | tictactoe/TicTacToe2.java:67-114 | from turn 5 the computer wins when it can, and otherwise blocks the user's win; on turn 4 it blocks |
| TicTacToeProduct.ComputerTurnPlays | tictactoe/TicTacToe2.java:67-114 | on turn 4 and turns 6 to 9, with an empty cell left, the computer fills an empty cell with its symbol and the turn count stays right |
| TicTacToeMagic.MagicPermutation | tictactoe/TicTacToeMagic.java:7 | the square holds 1 to 9, each once |
| TicTacToeMagic.LoShu | tictactoe/TicTacToeMagic.java:7 | three cells in increasing order sum to 15 exactly when they form a row, column or diagonal |
| TicTacToeMagic.IndexOfMagicFrom | tictactoe/TicTacToeMagic.java:161-164 | the loop finds a cell from i on carrying the value, or -1 exactly when none does |
| TicTacToeMagic.IndexOfMagicInverts | tictactoe/TicTacToeMagic.java:161-164 | indexOfMagic gives back the cell of every cell's number, and -1 exactly for values outside 1 to 9 |
| TicTacToeMagic.CheckWinOwns | tictactoe/TicTacToeMagic.java:171-184 | checkWin by sums of 15 holds exactly when the side owns a row, column or diagonal |
| TicTacToeMagic.PairAnswer | tictactoe/TicTacToeMagic.java:151-155 | a pair's answer is an empty cell whose number brings the pair's sum to 15 |
| TicTacToeMagic.PairFrom | tictactoe/TicTacToeMagic.java:149-157 | the pair loop answers -1 exactly when no remaining pair has an answer, and otherwise some remaining pair's answer |
| TicTacToeMagic.PossWin | tictactoe/TicTacToeMagic.java:144-159 | an answer other than -1 is an empty cell |
| TicTacToeMagic.PossWinAnswers | tictactoe/TicTacToeMagic.java:144-159 | POSSWIN(p) is -1 exactly when p has no line with two of its symbols and an empty cell, and otherwise that empty cell |
| TicTacToeMagic.ComputerMove | tictactoe/TicTacToeMagic.java:78-123 | the move is -1 or a cell of the board |
| TicTacToeMagic.WithFallback | tictactoe/TicTacToeMagic.java:123 | the fallback keeps a chosen move, replaces -1 by an empty cell, and stays -1 only on a full board |
| TicTacToeMagic.Fallback | tictactoe/TicTacToeMagic.java:123-129 | the computer passes only on a full board, leaving the game unchanged, and outside turns 1 to 9 plays the first empty cell |
| TicTacToeMagic.WinsOrBlocks | tictactoe/TicTacToeMagic.java:78-130 | from turn 5 the computer wins when it can, and otherwise blocks the user's win; on turn 4 it blocks |
| TicTacToeMagic.ComputerTurnPlays | tictactoe/TicTacToeMagic.java:78-135 | on turn 4 and from turn 6 on, with an empty cell left, the computer fills an empty cell and the turn count stays right |
| TicTacToeMagic.AgreesWithProduct | tictactoe/TicTacToeMagic.java:144-184 | on a board of empty cells, Xs and Os, the magic-square checkWin equals the product checkWin, and POSSWIN answers in one exactly when in the other |
| TicTacToeAi.Fill | tictactoe/TicTacToeAI.java:108-112 | a trial move into an empty cell leaves one empty cell fewer, so the search ends |
| TicTacToeAi.BestIsExtreme | tictactoe/TicTacToeAI.java:106-128 | the cell loop returns the maximum (or minimum) of the sentinel and the values of the empty cells, and is one of them |
| TicTacToeAi.MinimaxRange | tictactoe/TicTacToeAI.java:99-129 | every minimax value lies between a floor set by the depth and 10 - depth, so Integer.MIN_VALUE and MAX_VALUE are never scores |
| TicTacToeAi.BestIsChild | tictactoe/TicTacToeAI.java:106-128 | on a board with an empty cell the loop's result is the value of one of the empty cells, since each beats the sentinel |
| TicTacToeAi.ScoreRange | tictactoe/TicTacToeAI.java:76-80 | every trial score lies strictly between the sentinels |
| TicTacToeAi.Scores | tictactoe/TicTacToeAI.java:76-80 | the trial scores, one per empty cell |
| TicTacToeAi.ChooseKeeps | tictactoe/TicTacToeAI.java:76-93 | the trial loop keeps the first best-scoring empty cell seen so far |
| TicTacToeAi.ComputerMoveBest | tictactoe/TicTacToeAI.java:72-96 | computerMove is -1 exactly on a full board; otherwise an empty cell no other empty cell beats, the first among equal scores |
| TicTacToeAi.ComputerTurnPlays | tictactoe/TicTacToeAI.java:72-96 | the computer's turn fails (GO at -1) exactly on a full board, and otherwise fills an empty cell with its symbol, keeping the turn count right |
| TicTacToeAi.IntendedNonWin | tictactoe/TicTacToeAI.java:99-105 | with the intended scoring, any move that does not win at once scores strictly worse for the computer than an immediate win |
| TicTacToeAi.TakesFirstWin | tictactoe/TicTacToeAI.java:72-129 | with the intended scoring, when some empty cell wins at once the computer plays the first such cell |
| TicTacToeAi.TrapScores | tictactoe/TicTacToeAI.java:99-116 | on the trap board the as-written search scores O's losing move at cell 0 at most -12 and O's winning move at cell 2 at -10 |
| TicTacToeAi.TrapChoice | tictactoe/TicTacToeAI.java:76-93 | so the as-written computer O plays cell 0, 1 or 3 on the trap board |
| TicTacToeAi.PassesUpWin | tictactoe/TicTacToeAI.java:72-129 | as written, a computer playing O passes up an immediate win on the trap board and leaves X a win in the same cell |
| TicTacToeAi.TrapIntended | tictactoe/TicTacToeAI.java:72-129 | with the intended scoring the computer takes the win on the trap board |
| TicTacToe.AnyBlankFrom | tictactoe/TicTacToe2.java:160-163 | the loop from cell i on finds the first empty cell from i, or -1 exactly when none is empty |
| TicTacToeAi.BestRange | tictactoe/TicTacToeAI.java:106-128 | on a board with an empty cell, the loop's result lies in the same range as the minimax value |
| TicTacToeAi.TrapPositions | tictactoe/TicTacToeAI.java:99-105 | after O in cell 0 and X in cell 1 on the trap board nobody has won, and O can still win in cell 2 or cell 3 |
| TicTacToeAi.WonScores | tictactoe/TicTacToeAI.java:100-102 | a position the computer has won scores the win value without searching further |
| TicTacToeAi.TrapDeepChildren | tictactoe/TicTacToeAI.java:106-116 | in that position O's moves in cell 2 and in cell 3 each score -12 as written |
| TicTacToeAi.TrapDeepBlanks | tictactoe/TicTacToeAI.java:106-109 | in that position the maximizing loop finds only cells 2 and 3 empty |
| TicTacToeAi.TrapDeep | tictactoe/TicTacToeAI.java:106-116 | so the as-written search values that position at -12 |
| TicTacToeAi.TrapMisses | tictactoe/TicTacToeAI.java:131-144 | O in cell 0, 1 or 3 of the trap board wins nothing and leaves X a win in cell 2 |
| TicTacToeMagic.IndexOfMagic | tictactoe/TicTacToeMagic.java:161-164 | an answer other than -1 is the cell carrying the value |
| TicTacToeMagic.OwnedFrom | tictactoe/TicTacToeMagic.java:172-173 | the collecting loop lists exactly the cells from i on that hold p, in increasing order |
| TicTacToeMagic.Owned | tictactoe/TicTacToeMagic.java:145-148 | the collected positions are cells of the board |
| TicTacToeMagic.TripleFrom | tictactoe/TicTacToeMagic.java:175-182 | the triple loop from (a, c, d) on finds a sum of 15 exactly when some later triple of positions has one |
| TicTacToeMagic.OwnedIndex | tictactoe/TicTacToeMagic.java:172-173 | two cells holding p appear in p's list in the same order |
| TicTacToeMagic.CheckWinTriples | tictactoe/TicTacToeMagic.java:171-184 | checkWin holds exactly when some three of p's cells sum to 15 |
| TicTacToeMagic.TripleOwns | tictactoe/TicTacToeMagic.java:175-182 | three of p's cells summing to 15 are a line p owns |
| TicTacToeMagic.OwnsTriple | tictactoe/TicTacToeMagic.java:175-182 | a line p owns is three of p's cells summing to 15 |
| TicTacToeMagic.PairCompletes | tictactoe/TicTacToeMagic.java:151-155 | an empty cell whose number brings two of p's cells to 15 completes a line of p's |
| TicTacToeMagic.ThreatPair | tictactoe/TicTacToeMagic.java:149-157 | a line p can complete gives two of p's cells, in order, whose numbers with the empty cell's sum to 15 |
| TicTacToeMagic.PairFound | tictactoe/TicTacToeMagic.java:149-158 | a pair with an answer makes POSSWIN answer |
| TicTacToeMagic.ThreatFound | tictactoe/TicTacToeMagic.java:144-159 | when p can complete a line, POSSWIN(p) answers |
| TicTacToeMagic.FallbackWins | tictactoe/TicTacToeMagic.java:82-129 | given correct POSSWIN answers, the fallback leaves a winning or blocking move as it is |
| WaterJug.SolutionsAsPaths | waterjug/WaterJugBFS.java:28-33 | a path of the successor relation from two empty jugs ending in a state that shows the target is exactly a play of the puzzle that measures it |
| Missionaries.SolutionsAsPaths | miss/BFS.java:36-44 | a path of the successor relation ending with everyone and the boat on the right bank is exactly a sequence of valid crossings to the goal |
| EightPuzzle.SolutionsAsPaths | eightpuzzle/BFS.java:32-37 | a path of the successor relation ending in the goal board is exactly a play of slides to it |
| Maze.SolutionsAsPaths | maze/DLSMaze.java:45 | a path of the successor relation from (0,0) ending in the goal cell is exactly a walk through open cells to it |
| RouteDetour.DetourFromS | route/RouteFindingBestFirst.java:135-141 | expanding S on the three-town map pushes A with g 1 and G with g 100, each with parent S |
| RouteDetour.DetourFromA | route/RouteFindingBestFirst.java:135-141 | expanding A next pushes G again with g 2 and overwrites G's parent with A |
| RouteDetour.DetourPolls | route/RouteFindingBestFirst.java:112 | A is polled first, and then both G entries tie on the heuristic, so the poll may return the one with g 100 |
| RouteDetour.DetourWalk | route/RouteFindingBestFirst.java:122-129 | the parent walk from G is S, A, G, which costs 2 |

## Left out

- Console input and output: the `Scanner` loops, `userMove`, the symbol choice, the game loops of the tic-tac-toe `main` methods, and every print and display function. They carry no search logic; states are datatypes rather than strings.
- Priority-queue tie order and heap internals: a poll returns any entry of least key, and in the g-map A* programs any entry at all, because the Java comparator reads a mutable map. No property here depends on which tie wins, so nothing is claimed about optimality of those A* programs.
- Hash iteration order: the letter order of `CryptArithmetic` is any repeat-free order covering the words, so which of several answers is printed is not computed, and `HashMap` print order is not modelled.
- Java `int` overflow: `wordToNumber` and the route sum `cur.g + getCost(...)` are unbounded integers here; the `Integer.MAX_VALUE` sentinels are modelled as constants that are never incremented.
- JVM call-stack depth of the recursive depth-first, depth-limited and backtracking searches is not modelled.
- The concrete answers of the route programs on their 20-town sample map (costs 418 and 450) are not computed; the A* result is proved a cheapest route on any consistent map, and the best-first answer depends on heap tie order.
- The opening moves of `TicTacToe2` and `TicTacToeMagic` on turns 1 to 3 and 5 are fixed cells that are legal only in the games that reach them; their legality depends on the history of the game and is not proved.
- AStar.Search: requires the number of states to be below `Integer.MAX_VALUE`, because the Java relaxation `g + 1 < gCost(next)` with the `MAX_VALUE` sentinel would skip a successor if a g ever reached `MAX_VALUE - 1`.
- WaterJug.AStarSearch: requires (cap1 + 1)(cap2 + 1) below `Integer.MAX_VALUE`, for the same reason.
- Missionaries.AStarSearch: requires (totalM + 1)(2(totalC + 1)) + 1 below `Integer.MAX_VALUE`, for the same reason.
- EightPuzzle.AStarSearch: requires the number of boards of the start's length below `Integer.MAX_VALUE`, for the same reason.
- Maze.AStarSearch: requires the number of cells plus one below `Integer.MAX_VALUE`, for the same reason.
- NQueens.AStarSearch: requires the number of partial placements below `Integer.MAX_VALUE`, for the same reason.
- EightPuzzle.Bfs: requires a start board that holds the blank, since the Java throws an index exception otherwise.
- EightPuzzle.BestFirst: requires a start board that holds the blank, since the Java throws an index exception otherwise.
- EightPuzzle.AStarSearch: requires a start board that holds the blank, since the Java throws an index exception otherwise.
- EightPuzzle.DepthFirstSearch: requires a start board that holds the blank, since the Java throws an index exception otherwise.
- Maze.BestFirst: requires a rectangular grid, since the Java reads the width of the first row for every row.
- Maze.AStarSearch: requires a rectangular grid, since the Java reads the width of the first row for every row.
- Maze.DepthFirstSearch: requires a rectangular grid, since the Java reads the width of the first row for every row.
- NQueens.Dfs: promises an answer on four rows, not which one; the program prints [1, 3, 0, 2], but the depth-first engine's contract leaves the order of the search open, so that answer is not computed.
- NQueens.Dls: promises an answer on four rows, not which one, for the same reason.
- NQueens.BfsDefault: promises an answer on eight rows, not which one, for the same reason.
- QueensCsp.EightQueens: promises that the solver succeeds for n = 8, not that it leaves [0, 4, 7, 5, 2, 6, 1, 3]; SolveQueens proves the answer is the first in column order, but showing that no earlier placement of eight queens exists would mean ruling out every dead end of the backtracking, which is not done.
- RouteSearch.AStar: requires every edge cost positive. The Java accepts zero costs, but the parent walk that rebuilds the route is proved to end by the g-scores strictly falling along parents, which needs positive edges; on maps with zero-cost edges nothing is claimed.
- RouteGraph.AddEdge: requires both ends to be added first, since the Java dereferences a missing neighbour list.
- RouteBestFirst.BestFirst: promises only that the printed cost is the cost of some route to the goal, not of the printed one (see "## Findings").
- TicTacToeProduct.ComputerTurnPlays: covers turns 4 and 6 to 9 only, because of the opening moves above.
- TicTacToeMagic.ComputerTurnPlays: covers turn 4 and turns from 6 on only, because of the opening moves above.
- WaterJug.Dls: promises only that an answer, if there is one, takes at most 10 moves. The program does find one. But its visited set is never cleared, so whether a cut-off depth-first run succeeds depends on the order it visits states, which the depth-first engine's contract leaves open. And 10 is below the 19 moves a repeat-free play over the 20 states may take, so success is not proved.
- EightPuzzle.Dls: promises only that an answer, if there is one, takes at most 10 moves. The program finds none. Proving that would mean ruling out every play of at most 10 moves from "123405678", and the Manhattan bound rules out only the shorter ones, so the failure is not proved.
- Maze.AStarSample: promises a printed cost of at least 7, not exactly 7. The A* engine's contract bounds the printed g below only by the length of some walk, and the g-map programs poll in an order that is not modelled, so which walk's g is printed is not computed.
- DepthFirst.Search: a failed depth-limited run proves nothing about reachability unless the limit is at least the number of states, as in the Java, where the global visited set is never cleared.

## Findings

| source | as written | input that shows it | evidently intended | confidence | as-written member | corrected member |
|---|---|---|---|---|---|---|
| route/RouteFindingAStar.java:25-38 | costs are keyed by the string `u + "-" + v`, so distinct pairs of names can share a key | an edge of cost 7 between "A-B" and "C": `getCost("A", "B-C")` is 7 though "A" and "B-C" are not neighbours | costs keyed by the pair of nodes, so adding an edge changes no other pair's cost | not executed | RouteGraph.StrayCost | RouteGraph.AddEdge |
| route/RouteFindingBestFirst.java:112-141 | the parent of a neighbour is overwritten at every push, while the printed cost is the g of the polled entry | map S-G 100, S-A 1, A-G 1, heuristic S 10, A 1, G 5: after A is expanded both G entries have key 5, the poll may return the one with g 100, and the parent walk prints S, A, G, which costs 2 | the printed cost is the cost of the printed route | not executed | RouteDetour.CostMismatch | RouteBestFirstFixed.BestFirstFixed |
| tictactoe/TicTacToeAI.java:72-129 | the maximizing side of `minimax` places the computer's symbol, and an O win scores -10 - depth, so a computer playing O maximizes away from its own wins | board [2,2,2,2,5,3,5,3,3] (2 empty, 3 X, 5 O), computer O to move: it plays cell 0, 1 or 3 instead of the winning cell 2, and X then wins in cell 2 | X maximizes and O minimizes, with an O win scoring -10 + depth, so the computer takes an immediate win | not executed | TicTacToeAi.PassesUpWin | TicTacToeAi.TakesFirstWin |

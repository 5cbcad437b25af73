/**
 * N-Queens as a search: a state places queens in the first rows of an
 * n by n board, one per row, and a move places the next row's queen in a
 * column no earlier queen attacks, trying columns in increasing order. The
 * goal is a state with all n rows placed. The BFS, DFS, depth-limited,
 * greedy best-first and A* programs differ only in the search.
 */
module NQueens {
  import opened Wrappers
  import opened Seqs
  import opened Paths
  import GraphSearch
  import DepthFirst
  import AStar

  /** A state, by its key: the columns of the queens in rows 0 to row - 1.
      The Java state also carries the rest of its array, which nothing
      reads. */
  type Placement = seq<int>

  function Abs(a: int): int
  {
    if a < 0 then -a else a
  }

  /** The queens of rows i and j share a column or a diagonal. */
  predicate Attacks(q: Placement, i: int, j: int)
    requires 0 <= i < |q| && 0 <= j < |q|
  {
    q[i] == q[j] || Abs(q[i] - q[j]) == Abs(i - j)
  }

  predicate NonAttacking(q: Placement)
  {
    forall i, j :: 0 <= i < j < |q| ==> !Attacks(q, i, j)
  }

  predicate OnBoard(n: int, q: Placement)
  {
    forall i :: 0 <= i < |q| ==> 0 <= q[i] < n
  }

  /** A complete answer: n queens on the board, no two attacking. */
  predicate Queens(n: nat, q: Placement)
  {
    |q| == n && OnBoard(n, q) && NonAttacking(q)
  }

  /** The loop of `isSafe` from row `r` on: no queen of rows r to row - 1
      attacks column `col` of row `row`. */
  function SafeFrom(q: Placement, row: nat, col: int, r: nat): (b: bool)
    requires row <= |q| && r <= row
    ensures b <==> forall k :: r <= k < row ==> q[k] != col && Abs(q[k] - col) != Abs(k - row)
    decreases row - r
  {
    if r == row then true
    else if q[r] == col || Abs(q[r] - col) == Abs(r - row) then false
    else SafeFrom(q, row, col, r + 1)
  }

  /** `isSafe(queens, row, col)`. */
  function IsSafe(q: Placement, row: nat, col: int): bool
    requires row <= |q|
  {
    SafeFrom(q, row, col, 0)
  }

  /** A safe column extends a non-attacking placement to a non-attacking
      one, and only a safe column does. */
  lemma SafeExtends(q: Placement, col: int)
    requires NonAttacking(q)
    ensures IsSafe(q, |q|, col) <==> NonAttacking(q + [col])
  {
    var t := q + [col];
    if IsSafe(q, |q|, col) {
      forall i, j | 0 <= i < j < |t|
        ensures !Attacks(t, i, j)
      {
        if j < |q| {
          assert t[i] == q[i] && t[j] == q[j];
          assert !Attacks(q, i, j);
        } else {
          assert t[i] == q[i] && t[j] == col;
          assert q[i] != col && Abs(q[i] - col) != Abs(i - |q|);
        }
      }
    }
    if NonAttacking(t) {
      forall k | 0 <= k < |q|
        ensures q[k] != col && Abs(q[k] - col) != Abs(k - |q|)
      {
        assert !Attacks(t, k, |q|);
      }
    }
  }

  /** `t` places the next row's queen on a safe column from `c` to n - 1. */
  predicate Placed(q: Placement, n: int, c: int, t: Placement)
  {
    |t| == |q| + 1 && t[..|q|] == q && c <= t[|q|] < n && IsSafe(q, |q|, t[|q|])
  }

  /** The successors built from column `c` on. */
  function Extensions(q: Placement, n: int, c: int): (r: seq<Placement>)
    ensures forall i :: 0 <= i < |r| ==> Placed(q, n, c, r[i])
    ensures forall col :: c <= col < n && IsSafe(q, |q|, col) ==> q + [col] in r
    decreases n - c
  {
    if c >= n then []
    else if IsSafe(q, |q|, c) then [q + [c]] + Extensions(q, n, c + 1)
    else Extensions(q, n, c + 1)
  }

  /** The placements of `r` put the queen of row k on increasing columns. */
  predicate Ascending(k: nat, r: seq<Placement>)
  {
    forall i, j :: 0 <= i < j < |r| ==> k < |r[i]| && k < |r[j]| && r[i][k] < r[j][k]
  }

  /** The columns are tried in increasing order, as the loop runs. */
  lemma {:induction false} ExtensionsAscending(q: Placement, n: int, c: int)
    ensures Ascending(|q|, Extensions(q, n, c))
    decreases n - c
  {
    if c < n {
      ExtensionsAscending(q, n, c + 1);
      var rest := Extensions(q, n, c + 1);
      assert forall i :: 0 <= i < |rest| ==> Placed(q, n, c + 1, rest[i]);
      if IsSafe(q, |q|, c) {
        var r := Extensions(q, n, c);
        assert r == [q + [c]] + rest;
        forall i, j | 0 <= i < j < |r|
          ensures |q| < |r[i]| && |q| < |r[j]| && r[i][|q|] < r[j][|q|]
        {
          assert r[j] == rest[j - 1];
          assert Placed(q, n, c + 1, rest[j - 1]);
          if i > 0 {
            assert r[i] == rest[i - 1];
          } else {
            assert r[i] == q + [c];
          }
        }
      }
    }
  }

  /** The loop over columns 0 to n - 1; a complete board has no
      successors, being a goal that no program expands. */
  function Succ(n: int): Placement -> seq<Placement>
  {
    q => if |q| < n then Extensions(q, n, 0) else []
  }

  /** The rule: place the next row's queen on a safe column of the board. */
  predicate IsPlace(n: int, q: Placement, t: Placement)
  {
    |q| < n && |t| == |q| + 1 && t[..|q|] == q && 0 <= t[|q|] < n && IsSafe(q, |q|, t[|q|])
  }

  lemma MovesArePlacements(n: int, q: Placement, t: Placement)
    ensures t in Succ(n)(q) <==> IsPlace(n, q, t)
  {
    if |q| < n {
      var r := Extensions(q, n, 0);
      if t in r {
        var i :| 0 <= i < |r| && r[i] == t;
        assert Placed(q, n, 0, r[i]);
      }
      if IsPlace(n, q, t) {
        assert t == q + [t[|q|]];
      }
    }
  }

  /** The states a play passes through: the prefixes of its last state. */
  function Prefixes(q: Placement): (r: seq<Placement>)
    ensures |r| == |q| + 1 && Last(r) == q
  {
    seq(|q| + 1, i requires 0 <= i <= |q| => q[..i])
  }

  /** One placement keeps a placement on the board and non-attacking, and
      extends its chain of prefixes by itself. */
  lemma PlaceStep(n: int, q: Placement, t: Placement)
    requires OnBoard(n, q) && NonAttacking(q) && IsPlace(n, q, t)
    ensures |t| == |q| + 1 && OnBoard(n, t) && NonAttacking(t)
    ensures Prefixes(t) == Prefixes(q) + [t]
  {
    assert t == q + [t[|q|]];
    SafeExtends(q, t[|q|]);
    assert forall i :: 0 <= i < |q| ==> t[i] == q[i];
    assert forall i :: 0 <= i <= |q| ==> t[..i] == q[..i];
  }

  /** Every play from the empty board is the chain of prefixes of its last
      state, which is a non-attacking placement of at most n queens. */
  lemma {:induction false} PathsArePrefixes(n: nat, p: seq<Placement>)
    requires PathFrom(Succ(n), [], p)
    ensures p == Prefixes(Last(p))
    ensures |Last(p)| <= n && OnBoard(n, Last(p)) && NonAttacking(Last(p))
  {
    if |p| > 1 {
      var p' := p[..|p| - 1];
      assert PathFrom(Succ(n), [], p');
      PathsArePrefixes(n, p');
      var q, t := Last(p'), Last(p);
      assert t in Succ(n)(q);
      MovesArePlacements(n, q, t);
      PlaceStep(n, q, t);
      assert p == p' + [t];
    } else {
      assert p == [[]];
    }
  }

  lemma PrefixCalm(n: int, q: Placement, m: nat)
    requires m <= |q| && OnBoard(n, q) && NonAttacking(q)
    ensures OnBoard(n, q[..m]) && NonAttacking(q[..m])
  {
    var a := q[..m];
    forall i, j | 0 <= i < j < m
      ensures !Attacks(a, i, j)
    {
      assert a[i] == q[i] && a[j] == q[j] && !Attacks(q, i, j);
    }
  }

  /** Conversely, every answer is reached by the play of its prefixes. */
  lemma PrefixesArePath(n: nat, q: Placement)
    requires Queens(n, q)
    ensures PathFrom(Succ(n), [], Prefixes(q))
  {
    var p := Prefixes(q);
    forall i | 0 < i < |p|
      ensures p[i] in Succ(n)(p[i - 1])
    {
      var a, b := q[..i - 1], q[..i];
      assert b == a + [q[i - 1]];
      PrefixCalm(n, q, i - 1);
      PrefixCalm(n, q, i);
      SafeExtends(a, q[i - 1]);
      MovesArePlacements(n, a, b);
    }
  }

  /** A search's answer: the play of the prefixes of n non-attacking
      queens. */
  predicate Answer(n: nat, p: seq<Placement>)
  {
    |p| > 0 && Queens(n, Last(p)) && p == Prefixes(Last(p))
  }

  lemma SolutionsAsPaths(n: nat)
    ensures forall p :: PathFrom(Succ(n), [], p) && |Last(p)| == n ==> Answer(n, p)
    ensures forall q :: Queens(n, q) ==> PathFrom(Succ(n), [], Prefixes(q))
  {
    forall p | PathFrom(Succ(n), [], p)
      ensures p == Prefixes(Last(p)) && |Last(p)| <= n && OnBoard(n, Last(p)) && NonAttacking(Last(p))
    {
      PathsArePrefixes(n, p);
    }
    forall q | Queens(n, q)
      ensures PathFrom(Succ(n), [], Prefixes(q))
    {
      PrefixesArePath(n, q);
    }
  }

  /** No play from the empty board is longer than n moves, so a depth
      limit of at least n never cuts a search short. */
  lemma Shallow(n: nat, k: nat)
    requires n <= k
    ensures DepthFirst.Shallow(Succ(n), [], k)
  {
    forall p | PathFrom(Succ(n), [], p) && NoDup(p)
      ensures |p| <= k + 1
    {
      PathsArePrefixes(n, p);
    }
  }

  /** The columns of the board. */
  function Cols(n: nat): (r: set<int>)
    ensures forall c :: c in r <==> 0 <= c < n
    ensures |r| <= n
  {
    if n == 0 then {} else Cols(n - 1) + {n - 1}
  }

  /** How many placements of at most k queens on n columns there are at
      most. */
  function Total(n: nat, k: nat): nat
  {
    if k == 0 then 1 else Total(n, k - 1) + Pow(n, k)
  }

  /** Every placement of at most k queens on the board. */
  function Boards(n: nat, k: nat): (r: set<Placement>)
    ensures forall q :: q in r <==> |q| <= k && OnBoard(n, q)
    ensures |r| <= Total(n, k)
  {
    var words := Words(Cols(n), k);
    forall q
      ensures q in words <==> |q| == k && OnBoard(n, q)
    {
      WordsMember(Cols(n), k, q);
    }
    WordsCard(Cols(n), k);
    assert Pow(|Cols(n)|, k) <= Pow(n, k) by {
      PowMono(|Cols(n)|, n, k);
    }
    if k == 0 then
      assert words == {[]};
      words
    else
      var r := Boards(n, k - 1) + words;
      UnionCard(Boards(n, k - 1), words);
      r
  }

  lemma {:induction false} PowMono(a: nat, b: nat, k: nat)
    requires a <= b
    ensures Pow(a, k) <= Pow(b, k)
  {
    if k > 0 {
      PowMono(a, b, k - 1);
      MulMono(a, Pow(a, k - 1), Pow(b, k - 1));
      assert a * Pow(b, k - 1) <= b * Pow(b, k - 1);
    }
  }

  function Universe(n: nat): (r: set<Placement>)
    ensures [] in r && |r| <= Total(n, n)
  {
    Boards(n, n)
  }

  /** Placing one more queen on the board stays on the board. */
  lemma PlaceOnBoard(n: nat, q: Placement, t: Placement)
    requires OnBoard(n, q) && IsPlace(n, q, t)
    ensures |t| <= n && OnBoard(n, t)
  {
    forall i | 0 <= i < |t|
      ensures 0 <= t[i] < n
    {
      if i < |q| {
        assert t[i] == t[..|q|][i];
      }
    }
  }

  lemma UniverseClosed(n: nat)
    ensures Closed(Succ(n), Universe(n))
  {
    forall q, t | q in Universe(n) && t in Succ(n)(q)
      ensures t in Universe(n)
    {
      MovesArePlacements(n, q, t);
      PlaceOnBoard(n, q, t);
    }
  }

  /** The goal test `row == n`. */
  function Full(n: int): Placement -> bool
  {
    q => |q| == n
  }

  /** `heuristic`: the pairs of placed queens that attack each other, by
      the later queen of each pair. */
  function Conflicts(q: Placement): (r: nat)
  {
    ConflictsBelow(q, |q|)
  }

  function ConflictsBelow(q: Placement, j: nat): nat
    requires j <= |q|
  {
    if j == 0 then 0 else ConflictsBelow(q, j - 1) + AttackersOf(q, j - 1, j - 1)
  }

  /** The queens of rows below i that attack the queen of row j. */
  function AttackersOf(q: Placement, j: nat, i: nat): nat
    requires j < |q| && i <= j
  {
    if i == 0 then 0 else AttackersOf(q, j, i - 1) + (if Attacks(q, i - 1, j) then 1 else 0)
  }

  lemma {:induction false} AttackersZero(q: Placement, j: nat, i: nat)
    requires j < |q| && i <= j
    ensures AttackersOf(q, j, i) == 0 <==> forall k :: 0 <= k < i ==> !Attacks(q, k, j)
  {
    if i > 0 {
      AttackersZero(q, j, i - 1);
    }
  }

  lemma {:induction false} ConflictsBelowZero(q: Placement, j: nat)
    requires j <= |q|
    ensures ConflictsBelow(q, j) == 0 <==> forall a, b :: 0 <= a < b < j ==> !Attacks(q, a, b)
  {
    if j > 0 {
      ConflictsBelowZero(q, j - 1);
      AttackersZero(q, j - 1, j - 1);
    }
  }

  /** The heuristic counts nothing exactly on non-attacking placements. */
  lemma ConflictsZero(q: Placement)
    ensures Conflicts(q) == 0 <==> NonAttacking(q)
  {
    ConflictsBelowZero(q, |q|);
  }

  /** Every state a search generates is built from safe placements, so the
      heuristic never tells them apart. */
  lemma GeneratedCalm(n: nat, p: seq<Placement>)
    requires PathFrom(Succ(n), [], p)
    ensures Conflicts(Last(p)) == 0
  {
    PathsArePrefixes(n, p);
    ConflictsZero(Last(p));
  }

  /** `NQueensBFS.solve`: an answer and the play of its prefixes, or none. */
  method Bfs(n: nat) returns (r: GraphSearch.Outcome<Placement>)
    ensures r.Solved? ==> Answer(n, r.path)
    ensures r.NoSolution? ==> forall q :: !Queens(n, q)
  {
    UniverseClosed(n);
    SolutionsAsPaths(n);
    var parent;
    r, parent := GraphSearch.Search([], Succ(n), Full(n), GraphSearch.Fifo, Universe(n));
  }

  /** `NQueensBestFS.solve`: the queue orders by the conflict count. */
  method BestFirst(n: nat) returns (r: GraphSearch.Outcome<Placement>)
    ensures r.Solved? ==> Answer(n, r.path)
    ensures r.NoSolution? ==> forall q :: !Queens(n, q)
  {
    UniverseClosed(n);
    SolutionsAsPaths(n);
    var parent;
    r, parent := GraphSearch.Search([], Succ(n), Full(n), GraphSearch.Greedy(Conflicts), Universe(n));
  }

  /** `NQueensAstar.aStarSearch`: every play to a state of k rows has k
      moves, so the cost printed for an answer is n. */
  method AStarSearch(n: nat) returns (r: AStar.Outcome<Placement>)
    requires Total(n, n) < AStar.IntMax
    ensures r.Solved? ==> Answer(n, r.path) && r.cost == n
    ensures r.NoSolution? ==> forall q :: !Queens(n, q)
  {
    UniverseClosed(n);
    SolutionsAsPaths(n);
    r := AStar.Search([], Succ(n), Full(n), Universe(n));
    if r.Solved? {
      var w :| PathFrom(Succ(n), [], w) && Last(w) == Last(r.path) && |w| == r.cost + 1;
      PathsArePrefixes(n, w);
    }
  }

  /** The recursive search of `NQueensDFS` and `NQueensDLS`. A limit of at
      least n never cuts it short. */
  method DepthFirstSearch(n: nat, limit: Option<nat>) returns (path: Option<seq<Placement>>)
    ensures path.Some? ==> Answer(n, path.value)
    ensures path.None? && (limit.None? || n <= limit.value) ==> forall q :: !Queens(n, q)
  {
    UniverseClosed(n);
    SolutionsAsPaths(n);
    if limit.Some? && n <= limit.value {
      Shallow(n, limit.value);
    }
    path := DepthFirst.Search(Succ(n), Full(n), limit, [], Universe(n));
  }

  /** An answer on four rows. */
  lemma FourQueens()
    ensures Queens(4, [1, 3, 0, 2])
  {
  }

  /** An answer on eight rows. */
  lemma EightQueens()
    ensures Queens(8, [0, 4, 7, 5, 2, 6, 1, 3])
  {
  }

  /** `NQueensBFS.main`: eight queens have an answer, so the search finds
      one. */
  method BfsDefault() returns (r: GraphSearch.Outcome<Placement>)
    ensures r.Solved? && Answer(8, r.path)
  {
    EightQueens();
    var n: nat := 8;
    r := Bfs(n);
  }

  /** `NQueensDFS.main` with the static n = 4. */
  method Dfs() returns (path: Option<seq<Placement>>)
    ensures path.Some? && Answer(4, path.value)
  {
    FourQueens();
    var n: nat := 4;
    path := DepthFirstSearch(n, None);
  }

  /** `NQueensDLS.main`: n = 4 under `depthLimit` 6, which never cuts in. */
  method Dls() returns (path: Option<seq<Placement>>)
    ensures path.Some? && Answer(4, path.value)
  {
    FourQueens();
    var n: nat := 4;
    path := DepthFirstSearch(n, Some(6));
  }

  /** `NQueensBestFS.main` with n = 4. */
  method BestFirstDefault() returns (r: GraphSearch.Outcome<Placement>)
    ensures r.Solved? && Answer(4, r.path)
  {
    FourQueens();
    var n: nat := 4;
    r := BestFirst(n);
  }

  /** `NQueensAstar.main` with n = 4: an answer at cost 4. */
  method AStarDefault() returns (r: AStar.Outcome<Placement>)
    ensures r.Solved? && Answer(4, r.path) && r.cost == 4
  {
    FourQueens();
    var n: nat := 4;
    assert Total(n, n) == 341;
    r := AStarSearch(n);
  }
}

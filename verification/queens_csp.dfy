/**
 * `NQueensCSP`: n queens placed row by row by backtracking on an array
 * that starts filled with -1; each row tries columns 0 to n - 1 in order
 * with the same `isSafe` test as the search programs.
 */
module QueensCsp {
  import opened Backtrack
  import NQueens

  /** The solver's rules: n rows, blank -1, columns 0 to n - 1, `isSafe`,
      and every full array accepted. */
  function Rules(n: nat): Problem
  {
    Problem(n, -1, Range(0, n), (a: seq<int>, row: nat, col: int) => row <= |a| && NQueens.IsSafe(a, row, col), (a: seq<int>) => true)
  }

  /** `Arrays.fill(queens, -1)`. */
  function Empty(n: nat): (a: seq<int>)
    ensures |a| == n && Blank(Rules(n), a, 0)
  {
    seq(n, _ => -1)
  }

  /** `isSafe(row, col)` reads only the rows before `row`. */
  lemma SafeReadsPrefix(a: seq<int>, b: seq<int>, row: nat, col: int)
    requires row <= |a| && row <= |b| && a[..row] == b[..row]
    ensures NQueens.IsSafe(a, row, col) == NQueens.IsSafe(b, row, col)
  {
    forall k | 0 <= k < row
      ensures a[k] == b[k]
    {
      assert a[k] == a[..row][k];
    }
  }

  /** The solver's safety test on slot `r` of a complete array is the
      absence of an attack on row `r` from the rows above it. */
  lemma SafeAt(n: nat, t: seq<int>, r: nat)
    requires |t| == n && r < n
    ensures Rules(n).safe(Stage(Rules(n), t, r), r, t[r]) <==> forall k :: 0 <= k < r ==> !NQueens.Attacks(t, k, r)
  {
    var p := Rules(n);
    SafeReadsPrefix(Stage(p, t, r), t, r, t[r]);
    assert p.safe(Stage(p, t, r), r, t[r]) == NQueens.IsSafe(t, r, t[r]);
    if forall k :: 0 <= k < r ==> !NQueens.Attacks(t, k, r) {
      forall k | 0 <= k < r
        ensures t[k] != t[r] && NQueens.Abs(t[k] - t[r]) != NQueens.Abs(k - r)
      {
        assert !NQueens.Attacks(t, k, r);
      }
    }
  }

  /** Every n-queens answer is a completion the solver accepts. */
  lemma QueensSolve(n: nat, t: seq<int>)
    requires NQueens.Queens(n, t)
    ensures Solution(Rules(n), Empty(n), 0, t)
  {
    var p := Rules(n);
    forall r | 0 <= r < n
      ensures t[r] in p.cands && p.safe(Stage(p, t, r), r, t[r])
    {
      SafeAt(n, t, r);
      forall k | 0 <= k < r
        ensures !NQueens.Attacks(t, k, r)
      {
      }
    }
  }

  /** Every completion the solver accepts is an n-queens answer. */
  lemma SolveQueensAnswer(n: nat, t: seq<int>)
    requires Solution(Rules(n), Empty(n), 0, t)
    ensures NQueens.Queens(n, t)
  {
    var p := Rules(n);
    forall i, j | 0 <= i < j < |t|
      ensures !NQueens.Attacks(t, i, j)
    {
      SafeAt(n, t, j);
      assert p.safe(Stage(p, t, j), j, t[j]);
    }
  }

  /** The completions the solver looks for from the empty board are
      exactly the n-queens answers: n columns in range, no two queens
      sharing a column or a diagonal. */
  lemma SolutionsAreQueens(n: nat, t: seq<int>)
    ensures Solution(Rules(n), Empty(n), 0, t) <==> NQueens.Queens(n, t)
  {
    if NQueens.Queens(n, t) {
      QueensSolve(n, t);
    }
    if Solution(Rules(n), Empty(n), 0, t) {
      SolveQueensAnswer(n, t);
    }
  }

  /** `solve(0)` from the array `main` prepares: it succeeds exactly when
      an answer exists, leaves the lexicographically first answer in the
      array (columns are tried in increasing order), and on failure leaves
      the array as it was. */
  lemma SolveQueens(n: nat)
    ensures var r := Solve(Rules(n), Empty(n), 0);
      && (r.0 <==> exists q :: NQueens.Queens(n, q))
      && (r.0 ==> NQueens.Queens(n, r.1) && forall q :: NQueens.Queens(n, q) ==> LexLe(r.1, q))
      && (!r.0 ==> r.1 == Empty(n))
  {
    var r := Solve(Rules(n), Empty(n), 0);
    SolveFirst(Rules(n), Empty(n), 0);
    SolutionsAreQueens(n, r.1);
    forall q | NQueens.Queens(n, q)
      ensures r.0 && LexLe(r.1, q)
    {
      SolutionsAreQueens(n, q);
    }
  }

  /** Eight queens have an answer, so the solver succeeds on the program's
      n = 8. */
  lemma EightQueens()
    ensures NQueens.Queens(8, [0, 4, 7, 5, 2, 6, 1, 3])
    ensures Solve(Rules(8), Empty(8), 0).0
  {
    var q := [0, 4, 7, 5, 2, 6, 1, 3];
    assert NQueens.Queens(8, q) by {
      forall i, j | 0 <= i < j < 8
        ensures !NQueens.Attacks(q, i, j)
      {
      }
    }
    SolveQueens(8);
  }
}

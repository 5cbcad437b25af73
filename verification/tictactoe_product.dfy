/**
 * `TicTacToe2`: the rule-based computer player that finds near-wins by
 * prime products. A line holding two of `p` and an empty cell multiplies
 * to 2 * p * p: 18 for X, 50 for O.
 */
module TicTacToeProduct {
  import opened Wrappers
  import opened TicTacToe

  /** The product `POSSWIN(p)` looks for: 18 when `p` is 3, else 50. */
  function Target(p: int): int
  {
    if p == X then 18 else 50
  }

  /** Three cells from {2, 3, 5} multiply to Target(p) exactly when one is
      empty and the other two hold `p`. */
  lemma TargetFactors(x: int, y: int, z: int, p: int)
    requires x in {Blank, X, O} && y in {Blank, X, O} && z in {Blank, X, O} && p in {X, O}
    ensures x * y * z == Target(p) <==>
      || (x == Blank && y == p && z == p)
      || (x == p && y == Blank && z == p)
      || (x == p && y == p && z == Blank)
  {
  }

  /** The cells of line `l`, in order. */
  function LineCells(l: nat): (cs: seq<int>)
    requires l < 8
    ensures |cs| == 3 && forall k :: 0 <= k < 3 ==> 0 <= cs[k] < 9
  {
    LinesSorted();
    [Lines[l].0, Lines[l].1, Lines[l].2]
  }

  /** The line loop of `POSSWIN(p)` from line `l` on: the first line whose
      product is the target, and in it the first empty cell. A matching
      line without an empty cell, which a board of 2s, 3s and 5s cannot
      have, is passed over as the inner loop falls through. */
  function PossWinFrom(b: Board, p: int, l: nat): (r: int)
    requires |b| == 9 && l <= 8
    ensures r == -1 <==> forall k :: l <= k < 8 && Product(b, k) == Target(p) ==> FirstBlankOf(b, LineCells(k)) == -1
    ensures r != -1 ==> exists k :: l <= k < 8 && Product(b, k) == Target(p) && r == FirstBlankOf(b, LineCells(k))
    decreases 8 - l
  {
    if l == 8 then -1
    else if Product(b, l) == Target(p) && FirstBlankOf(b, LineCells(l)) != -1 then FirstBlankOf(b, LineCells(l))
    else PossWinFrom(b, p, l + 1)
  }

  /** `POSSWIN(p)`. */
  function PossWin(b: Board, p: int): int
    requires |b| == 9
  {
    PossWinFrom(b, p, 0)
  }

  /** On a board of 2s, 3s and 5s a line has the target product exactly
      when `p` can complete it, and then its first empty cell is the one
      that completes it. */
  lemma TargetLine(b: Board, p: int, l: nat)
    requires Cells(b) && p in {X, O} && l < 8
    ensures Product(b, l) == Target(p) <==> exists i :: 0 <= i < 9 && Completes(b, p, l, i)
    ensures Product(b, l) == Target(p) ==> FirstBlankOf(b, LineCells(l)) != -1 && Completes(b, p, l, FirstBlankOf(b, LineCells(l)))
  {
    LinesSorted();
    var (u, v, w) := Lines[l];
    TargetFactors(b[u], b[v], b[w], p);
    if Product(b, l) == Target(p) {
      var cs := LineCells(l);
      var r := FirstBlankOf(b, cs);
      assert cs[0] == u && cs[1] == v && cs[2] == w;
      if b[u] == Blank {
        assert r == u;
      } else if b[v] == Blank {
        assert r == v;
      } else {
        assert r == w;
      }
      assert Completes(b, p, l, r);
    }
  }

  /** An answer of `POSSWIN(p)` other than -1 is the empty cell of a line
      `p` can complete. */
  lemma PossWinHit(b: Board, p: int)
    requires Cells(b) && p in {X, O} && PossWin(b, p) != -1
    ensures 0 <= PossWin(b, p) < 9 && exists l :: 0 <= l < 8 && Completes(b, p, l, PossWin(b, p))
  {
    var r := PossWin(b, p);
    var k :| 0 <= k < 8 && Product(b, k) == Target(p) && r == FirstBlankOf(b, LineCells(k));
    TargetLine(b, p, k);
    assert Completes(b, p, k, r);
  }

  /** When `p` has a line to complete, `POSSWIN(p)` does not answer -1. */
  lemma PossWinMiss(b: Board, p: int)
    requires Cells(b) && p in {X, O} && Threat(b, p)
    ensures PossWin(b, p) != -1
  {
    var l, i :| 0 <= l < 8 && 0 <= i < 9 && Completes(b, p, l, i);
    TargetLine(b, p, l);
  }

  /** `POSSWIN(p)` answers as promised: -1 exactly when `p` has no line
      with two of its symbols and an empty cell, and otherwise that empty
      cell. */
  lemma PossWinAnswers(b: Board, p: int)
    requires Cells(b) && p in {X, O}
    ensures WinAnswer(b, p, PossWin(b, p))
  {
    var r := PossWin(b, p);
    if r != -1 {
      PossWinHit(b, p);
      var l :| 0 <= l < 8 && Completes(b, p, l, r);
      assert Threat(b, p);
    }
    if Threat(b, p) {
      PossWinMiss(b, p);
    }
  }

  /** `computerMove()`'s choice on turn `turn`. */
  function ComputerMove(b: Board, turn: int, comp: int, user: int): int
    requires |b| == 9
  {
    Strategy(b, turn, PossWin(b, comp), PossWin(b, user))
  }

  /** The computer's turn: `computerMove()` and `GO`; a move outside the
      board, which Java would throw on, is None. */
  function ComputerTurn(g: Game, comp: int, user: int): Option<Game>
    requires |g.board| == 9
  {
    Go(g, ComputerMove(g.board, g.turn, comp, user), comp)
  }

  /** From turn 5 on the computer wins when it can, and otherwise blocks
      the user's win when the user has one; on turn 4 it blocks. */
  lemma WinsOrBlocks(b: Board, turn: int, comp: int, user: int)
    requires Cells(b) && Players(comp, user)
    ensures var m := ComputerMove(b, turn, comp, user);
      && (5 <= turn <= 9 && Threat(b, comp) ==> 0 <= m < 9 && b[m] == Blank && OwnsLine(b[m := comp], comp))
      && (5 <= turn <= 9 && !Threat(b, comp) && Threat(b, user) ==> 0 <= m < 9 && b[m] == Blank && OwnsLine(b[m := user], user))
      && (turn == 4 && Threat(b, user) ==> 0 <= m < 9 && b[m] == Blank && OwnsLine(b[m := user], user))
  {
    PossWinAnswers(b, comp);
    PossWinAnswers(b, user);
    StrategyWins(b, turn, comp, user, PossWin(b, comp), PossWin(b, user));
  }


  /** On turn 4 and from turn 6 on the computer's turn fills an empty cell
      while one is left, keeping the turn count right. */
  lemma ComputerTurnPlays(g: Game, comp: int, user: int)
    requires Counted(g) && Cells(g.board) && Players(comp, user)
    requires (g.turn == 4 || 6 <= g.turn <= 9) && !IsBoardFull(g.board)
    ensures ComputerTurn(g, comp, user).Some?
    ensures var m := ComputerMove(g.board, g.turn, comp, user);
      && g.board[m] == Blank
      && ComputerTurn(g, comp, user).value.board == g.board[m := comp]
      && Counted(ComputerTurn(g, comp, user).value)
  {
    var b := g.board;
    PossWinAnswers(b, comp);
    PossWinAnswers(b, user);
    StrategyPlays(b, g.turn, comp, user, PossWin(b, comp), PossWin(b, user));
    GoCounts(g, ComputerMove(b, g.turn, comp, user), comp);
  }
}

/**
 * The board shared by the three tic-tac-toe programs: nine cells in row
 * order, 2 for an empty cell, 3 for X and 5 for O, and a turn counter that
 * starts at 1 and grows by one with every move. The pieces every program
 * repeats — the eight lines, the prime-product win test, `anyBlank`,
 * `MAKE2`, `GO` and the turn-by-turn move choice — are defined here once.
 */
module TicTacToe {
  import opened Wrappers

  type Board = seq<int>

  const Blank: int := 2
  const X: int := 3
  const O: int := 5

  /** Java's `Integer.MIN_VALUE` and `Integer.MAX_VALUE`. */
  const MinInt: int := -0x8000_0000
  const MaxInt: int := 0x7fff_ffff

  /** The three rows, the three columns and the two diagonals. */
  const Lines: seq<(int, int, int)> :=
    [(0, 1, 2), (3, 4, 5), (6, 7, 8), (0, 3, 6), (1, 4, 7), (2, 5, 8), (0, 4, 8), (2, 4, 6)]

  /** Every cell is empty, X or O. */
  predicate Cells(b: Board)
  {
    |b| == 9 && forall i :: 0 <= i < 9 ==> b[i] == Blank || b[i] == X || b[i] == O
  }

  /** The two symbols, one per side. */
  predicate Players(comp: int, user: int)
  {
    (comp == X && user == O) || (comp == O && user == X)
  }

  /** `p` holds all three cells of line `l`. */
  predicate Holds(b: Board, p: int, l: nat)
    requires |b| == 9 && l < 8
  {
    b[Lines[l].0] == p && b[Lines[l].1] == p && b[Lines[l].2] == p
  }

  /** `p` holds a whole row, column or diagonal: the winning condition. */
  predicate OwnsLine(b: Board, p: int)
    requires |b| == 9
  {
    exists l :: 0 <= l < 8 && Holds(b, p, l)
  }

  /** Each line lists three cells of the board in increasing order. */
  lemma LinesSorted()
    ensures forall l :: 0 <= l < 8 ==> 0 <= Lines[l].0 < Lines[l].1 < Lines[l].2 < 9
  {
    forall l | 0 <= l < 8
      ensures 0 <= Lines[l].0 < Lines[l].1 < Lines[l].2 < 9
    {
    }
  }

  /** `p` can win at once in cell `i` of line `l`: `i` is empty and the
      other two cells of the line hold `p`. */
  predicate Completes(b: Board, p: int, l: nat, i: int)
    requires |b| == 9 && l < 8
  {
    var (u, v, w) := Lines[l];
    || (i == u && b[u] == Blank && b[v] == p && b[w] == p)
    || (i == v && b[u] == p && b[v] == Blank && b[w] == p)
    || (i == w && b[u] == p && b[v] == p && b[w] == Blank)
  }

  /** Some line holds two of `p` and an empty cell. */
  predicate Threat(b: Board, p: int)
    requires |b| == 9
  {
    exists l, i :: 0 <= l < 8 && 0 <= i < 9 && Completes(b, p, l, i)
  }

  /** What `POSSWIN(p)` promises: -1 when `p` has no line with two of its
      symbols and an empty cell, and otherwise the empty cell of such a
      line. */
  predicate WinAnswer(b: Board, p: int, r: int)
    requires |b| == 9
  {
    && (r == -1 <==> !Threat(b, p))
    && (r != -1 ==> exists l :: 0 <= l < 8 && Completes(b, p, l, r))
  }

  /** Filling the empty cell of such a line wins it. */
  lemma CompletesWins(b: Board, p: int, l: nat, i: int)
    requires |b| == 9 && l < 8 && Completes(b, p, l, i)
    ensures 0 <= i < 9 && b[i] == Blank && Holds(b[i := p], p, l) && OwnsLine(b[i := p], p)
  {
    LinesSorted();
    assert Holds(b[i := p], p, l);
  }

  /** While `p` holds no line, playing `p` in an empty cell wins exactly
      when that cell completes a line: a `POSSWIN` answer is a winning
      move, and -1 means there is none. */
  lemma WinningMoves(b: Board, p: int, i: int)
    requires |b| == 9 && !OwnsLine(b, p) && 0 <= i < 9 && b[i] == Blank && p != Blank
    ensures OwnsLine(b[i := p], p) <==> exists l :: 0 <= l < 8 && Completes(b, p, l, i)
  {
    LinesSorted();
    if OwnsLine(b[i := p], p) {
      var l :| 0 <= l < 8 && Holds(b[i := p], p, l);
      if !Holds(b, p, l) {
        assert Completes(b, p, l, i);
      }
    } else {
      forall l | 0 <= l < 8 && Completes(b, p, l, i)
        ensures false
      {
        CompletesWins(b, p, l, i);
      }
    }
  }

  /** The product of the three cells of line `l`. */
  function Product(b: Board, l: nat): int
    requires |b| == 9 && l < 8
  {
    b[Lines[l].0] * b[Lines[l].1] * b[Lines[l].2]
  }

  /** The line loop of `checkWin(p)` in the prime-product programs, from
      line `l` on: some line's product is `p * p * p`. */
  function ProductWinFrom(b: Board, p: int, l: nat): (w: bool)
    requires |b| == 9 && l <= 8
    ensures w <==> exists k :: l <= k < 8 && Product(b, k) == p * p * p
    decreases 8 - l
  {
    if l == 8 then false
    else if Product(b, l) == p * p * p then true
    else ProductWinFrom(b, p, l + 1)
  }

  /** `checkWin(p)` by prime products. */
  function ProductWin(b: Board, p: int): bool
    requires |b| == 9
  {
    ProductWinFrom(b, p, 0)
  }

  /** Three cells from {2, 3, 5} multiply to 3 * 3 * 3 or 5 * 5 * 5 only
      when all three hold that prime. */
  lemma CubeFactors(x: int, y: int, z: int, p: int)
    requires x in {Blank, X, O} && y in {Blank, X, O} && z in {Blank, X, O} && p in {X, O}
    ensures x * y * z == p * p * p <==> x == p && y == p && z == p
  {
  }

  /** On a board of empty cells, Xs and Os, the product test finds a win
      for X or O exactly when that side owns a line. */
  lemma ProductWinOwns(b: Board, p: int)
    requires Cells(b) && p in {X, O}
    ensures ProductWin(b, p) <==> OwnsLine(b, p)
  {
    forall l | 0 <= l < 8
      ensures Product(b, l) == p * p * p <==> Holds(b, p, l)
    {
      CubeFactors(b[Lines[l].0], b[Lines[l].1], b[Lines[l].2], p);
    }
  }

  /** `isBoardFull()`: no cell is empty. */
  function IsBoardFull(b: Board): (full: bool)
    requires |b| == 9
    ensures full <==> forall i :: 0 <= i < 9 ==> b[i] != Blank
  {
    AnyBlank(b) == -1
  }

  /** The loop of `anyBlank()` from cell `i` on. */
  function AnyBlankFrom(b: Board, i: nat): (r: int)
    requires |b| == 9 && i <= 9
    ensures r == -1 <==> forall j :: i <= j < 9 ==> b[j] != Blank
    ensures r != -1 ==> i <= r < 9 && b[r] == Blank && forall j :: i <= j < r ==> b[j] != Blank
    decreases 9 - i
  {
    if i == 9 then -1 else if b[i] == Blank then i else AnyBlankFrom(b, i + 1)
  }

  /** `anyBlank()`: the first empty cell, or -1 when there is none. */
  function AnyBlank(b: Board): (r: int)
    requires |b| == 9
    ensures r == -1 <==> forall j :: 0 <= j < 9 ==> b[j] != Blank
    ensures r != -1 ==> 0 <= r < 9 && b[r] == Blank && forall j :: 0 <= j < r ==> b[j] != Blank
  {
    AnyBlankFrom(b, 0)
  }

  /** The side cells `MAKE2` tries after the centre, in order. */
  const Sides: seq<int> := [1, 3, 5, 7]

  /** The first of the cells `cs` that is empty, or -1. */
  function FirstBlankOf(b: Board, cs: seq<int>): (r: int)
    requires |b| == 9 && forall k :: 0 <= k < |cs| ==> 0 <= cs[k] < 9
    ensures r == -1 <==> forall k :: 0 <= k < |cs| ==> b[cs[k]] != Blank
    ensures r != -1 ==> exists k :: 0 <= k < |cs| && cs[k] == r && b[r] == Blank && forall m :: 0 <= m < k ==> b[cs[m]] != Blank
  {
    if |cs| == 0 then -1
    else if b[cs[0]] == Blank then cs[0]
    else
      var r := FirstBlankOf(b, cs[1..]);
      assert forall k :: 1 <= k < |cs| ==> cs[1..][k - 1] == cs[k];
      if r != -1 then
        var k :| 0 <= k < |cs[1..]| && cs[1..][k] == r && b[r] == Blank && forall m :: 0 <= m < k ==> b[cs[1..][m]] != Blank;
        assert cs[k + 1] == r && forall m :: 0 <= m < k + 1 ==> b[cs[m]] != Blank;
        r
      else r
  }

  /** `MAKE2()`: the centre if it is empty, else the first empty side in
      the order 1, 3, 5, 7, else the first empty cell (-1 if none). */
  function Make2(b: Board): (r: int)
    requires |b| == 9
    ensures r == -1 <==> forall j :: 0 <= j < 9 ==> b[j] != Blank
    ensures r != -1 ==> 0 <= r < 9 && b[r] == Blank
    ensures b[4] == Blank ==> r == 4
    ensures b[4] != Blank && r in Sides ==> forall m :: 0 <= m < |Sides| && Sides[m] < r ==> b[Sides[m]] != Blank
    ensures r !in Sides && r != 4 ==> b[4] != Blank && (forall m :: 0 <= m < |Sides| ==> b[Sides[m]] != Blank) && r == AnyBlank(b)
  {
    if b[4] == Blank then 4
    else
      var s := FirstBlankOf(b, Sides);
      if s != -1 then s else AnyBlank(b)
  }

  /** A game in progress: the board and the number of the next move. */
  datatype Game = Game(board: Board, turn: int)

  /** `GO(idx, symbol)`: puts `symbol` in cell `idx` and advances the
      turn. An index outside the board makes Java throw, here None. */
  function Go(g: Game, idx: int, symbol: int): (r: Option<Game>)
    requires |g.board| == 9
    ensures r.None? <==> !(0 <= idx < 9)
    ensures r.Some? ==> |r.value.board| == 9 && r.value.board[idx] == symbol && r.value.turn == g.turn + 1
    ensures r.Some? ==> forall j :: 0 <= j < 9 && j != idx ==> r.value.board[j] == g.board[j]
  {
    if 0 <= idx < 9 then Some(Game(g.board[idx := symbol], g.turn + 1)) else None
  }

  /** The number of empty cells. */
  function Empties(b: Board): nat
  {
    multiset(b)[Blank]
  }

  /** The turn counter counts the moves made: it is 1 more than the number
      of filled cells. */
  predicate Counted(g: Game)
  {
    |g.board| == 9 && g.turn == 10 - Empties(g.board)
  }

  /** A move into an empty cell fills one cell and advances the turn by
      one, so the count stays right. */
  lemma GoCounts(g: Game, idx: int, symbol: int)
    requires Counted(g) && 0 <= idx < 9 && g.board[idx] == Blank && symbol != Blank
    ensures Go(g, idx, symbol).Some? && Counted(Go(g, idx, symbol).value)
    ensures Empties(Go(g, idx, symbol).value.board) == Empties(g.board) - 1
  {
    var b := g.board;
    assert b[idx := symbol] == b[..idx] + [symbol] + b[idx + 1..];
    assert b == b[..idx] + [Blank] + b[idx + 1..];
  }

  /** A cell set and then reset to empty gives back the board: each trial
      move of the search is undone. */
  lemma TrialUndone(b: Board, i: nat, symbol: int)
    requires i < |b| && b[i] == Blank
    ensures b[i := symbol][i := Blank] == b
  {
  }

  /** The `switch (TURN)` of `computerMove` in the rule-based programs;
      `compWin` and `userWin` are `POSSWIN(computerSymbol)` and
      `POSSWIN(userSymbol)`. Turns outside 1 to 9 leave the move at -1. */
  function Strategy(b: Board, turn: int, compWin: int, userWin: int): (move: int)
    requires |b| == 9
    ensures 5 <= turn <= 9 && compWin != -1 ==> move == compWin
    ensures 5 <= turn <= 9 && compWin == -1 && userWin != -1 ==> move == userWin
    ensures turn == 4 && userWin != -1 ==> move == userWin
    ensures (turn == 4 || turn == 6) && compWin == -1 && userWin == -1 ==> move == Make2(b)
    ensures 7 <= turn <= 9 && compWin == -1 && userWin == -1 ==> move == AnyBlank(b)
    ensures !(1 <= turn <= 9) ==> move == -1
    ensures -1 <= compWin < 9 && -1 <= userWin < 9 ==> -1 <= move < 9
  {
    match turn
    case 1 => 0
    case 2 => if b[4] == Blank then 4 else 0
    case 3 => if b[8] == Blank then 8 else 2
    case 4 => if userWin != -1 then userWin else Make2(b)
    case 5 =>
      if compWin != -1 then compWin
      else if userWin != -1 then userWin
      else if b[6] == Blank then 6 else 2
    case 6 =>
      if compWin != -1 then compWin
      else if userWin != -1 then userWin
      else Make2(b)
    case _ =>
      if !(7 <= turn <= 9) then -1
      else if compWin != -1 then compWin
      else if userWin != -1 then userWin
      else AnyBlank(b)
  }

  /** Given `POSSWIN` answers, the move choice takes a win from turn 5
      on, otherwise blocks the user's, blocks on turn 4 too, and from
      turn 6 on (and on turn 4) always names an empty cell while one is
      left. */
  lemma StrategyPlays(b: Board, turn: int, comp: int, user: int, compWin: int, userWin: int)
    requires |b| == 9 && WinAnswer(b, comp, compWin) && WinAnswer(b, user, userWin)
    ensures var m := Strategy(b, turn, compWin, userWin);
      && (5 <= turn <= 9 && Threat(b, comp) ==> exists l :: 0 <= l < 8 && Completes(b, comp, l, m))
      && (5 <= turn <= 9 && !Threat(b, comp) && Threat(b, user) ==> exists l :: 0 <= l < 8 && Completes(b, user, l, m))
      && (turn == 4 && Threat(b, user) ==> exists l :: 0 <= l < 8 && Completes(b, user, l, m))
      && ((turn == 4 || 6 <= turn <= 9) && !IsBoardFull(b) ==> 0 <= m < 9 && b[m] == Blank)
  {
    var m := Strategy(b, turn, compWin, userWin);
    if (turn == 4 || 6 <= turn <= 9) && !IsBoardFull(b) {
      if m == compWin && compWin != -1 {
        var l :| 0 <= l < 8 && Completes(b, comp, l, m);
        CompletesWins(b, comp, l, m);
      } else if m == userWin && userWin != -1 {
        var l :| 0 <= l < 8 && Completes(b, user, l, m);
        CompletesWins(b, user, l, m);
      }
    }
  }

  /** Given `POSSWIN` answers and symbols other than the empty mark, the
      move choice plays a winning cell from turn 5 on when the computer
      has one, and otherwise, and on turn 4, the cell the user would win
      in. */
  lemma StrategyWins(b: Board, turn: int, comp: int, user: int, compWin: int, userWin: int)
    requires |b| == 9 && comp != Blank && user != Blank && WinAnswer(b, comp, compWin) && WinAnswer(b, user, userWin)
    ensures var m := Strategy(b, turn, compWin, userWin);
      && (5 <= turn <= 9 && Threat(b, comp) ==> 0 <= m < 9 && b[m] == Blank && OwnsLine(b[m := comp], comp))
      && (5 <= turn <= 9 && !Threat(b, comp) && Threat(b, user) ==> 0 <= m < 9 && b[m] == Blank && OwnsLine(b[m := user], user))
      && (turn == 4 && Threat(b, user) ==> 0 <= m < 9 && b[m] == Blank && OwnsLine(b[m := user], user))
  {
    var m := Strategy(b, turn, compWin, userWin);
    StrategyPlays(b, turn, comp, user, compWin, userWin);
    if 5 <= turn <= 9 && Threat(b, comp) {
      var l :| 0 <= l < 8 && Completes(b, comp, l, m);
      CompletesWins(b, comp, l, m);
    } else if 4 <= turn <= 9 && Threat(b, user) {
      var l :| 0 <= l < 8 && Completes(b, user, l, m);
      CompletesWins(b, user, l, m);
    }
  }
}

/**
 * `TicTacToeMagic`: the rule-based computer player that finds wins and
 * near-wins with the Lo Shu magic square. Cell `i` carries the number
 * `Magic[i]`; three different cells sum to 15 exactly when they form a
 * row, a column or a diagonal, so a side has won when three of its cells
 * sum to 15, and can win next when two of its cells leave 15 minus their
 * sum on an empty cell.
 */
module TicTacToeMagic {
  import opened Wrappers
  import opened TicTacToe
  import TicTacToeProduct

  /** `magicSquare`. */
  const Magic: seq<int> := [8, 3, 4, 1, 5, 9, 6, 7, 2]

  /** The numbers are 1 to 9, each on exactly one cell. */
  lemma MagicPermutation()
    ensures forall i :: 0 <= i < 9 ==> 1 <= Magic[i] <= 9
    ensures forall i, j :: 0 <= i < 9 && 0 <= j < 9 && Magic[i] == Magic[j] ==> i == j
  {
  }

  /** The square is magic, and the lines are the only sums to 15: three
      cells in increasing order sum to 15 exactly when they form a line. */
  lemma LoShu(i: int, j: int, k: int)
    requires 0 <= i < j < k < 9
    ensures Magic[i] + Magic[j] + Magic[k] == 15 <==> (i, j, k) in Lines
  {
    assert Lines[0] == (0, 1, 2) && Lines[1] == (3, 4, 5) && Lines[2] == (6, 7, 8) && Lines[3] == (0, 3, 6);
    assert Lines[4] == (1, 4, 7) && Lines[5] == (2, 5, 8) && Lines[6] == (0, 4, 8) && Lines[7] == (2, 4, 6);
  }

  /** The loop of `indexOfMagic(value)` from cell `i` on. */
  function IndexOfMagicFrom(value: int, i: nat): (r: int)
    requires i <= 9
    ensures r == -1 <==> forall j :: i <= j < 9 ==> Magic[j] != value
    ensures r != -1 ==> i <= r < 9 && Magic[r] == value
    decreases 9 - i
  {
    if i == 9 then -1 else if Magic[i] == value then i else IndexOfMagicFrom(value, i + 1)
  }

  /** `indexOfMagic(value)`: the cell carrying `value`, or -1. */
  function IndexOfMagic(value: int): (r: int)
    ensures r != -1 ==> 0 <= r < 9 && Magic[r] == value
  {
    IndexOfMagicFrom(value, 0)
  }

  /** `indexOfMagic` inverts the square: it gives back the cell of every
      cell's number, and -1 for any value that is not 1 to 9. */
  lemma IndexOfMagicInverts(i: int, value: int)
    requires 0 <= i < 9
    ensures IndexOfMagic(Magic[i]) == i
    ensures IndexOfMagic(value) == -1 <==> !(1 <= value <= 9)
  {
    MagicPermutation();
  }

  /** The cells of the list `pos` are cells of the board. */
  predicate OnBoard(pos: seq<int>)
  {
    forall t :: 0 <= t < |pos| ==> 0 <= pos[t] < 9
  }

  /** The first loop of `checkWin(p)` and `POSSWIN(p)` from cell `i` on:
      the cells holding `p`, in increasing order. */
  function OwnedFrom(b: Board, p: int, i: nat): (pos: seq<int>)
    requires |b| == 9 && i <= 9
    ensures forall t :: 0 <= t < |pos| ==> i <= pos[t] < 9 && b[pos[t]] == p
    ensures forall t, u :: 0 <= t < u < |pos| ==> pos[t] < pos[u]
    ensures forall j :: i <= j < 9 && b[j] == p ==> j in pos
    decreases 9 - i
  {
    if i == 9 then []
    else if b[i] == p then [i] + OwnedFrom(b, p, i + 1)
    else OwnedFrom(b, p, i + 1)
  }

  /** The cells holding `p`, in increasing order. */
  function Owned(b: Board, p: int): (pos: seq<int>)
    requires |b| == 9
    ensures OnBoard(pos)
  {
    OwnedFrom(b, p, 0)
  }

  /** Positions `x`, `y`, `z` of the list carry numbers summing to 15. */
  predicate SumsTo15(pos: seq<int>, x: nat, y: nat, z: nat)
    requires OnBoard(pos) && x < |pos| && y < |pos| && z < |pos|
  {
    Magic[pos[x]] + Magic[pos[y]] + Magic[pos[z]] == 15
  }

  /** The triple loop of `checkWin(p)` from positions `a`, `c`, `d` on:
      some three positions of the list, in increasing order and not before
      (`a`, `c`, `d`) in the loops' order, carry numbers summing to 15. */
  function TripleFrom(pos: seq<int>, a: nat, c: nat, d: nat): (w: bool)
    requires OnBoard(pos) && a < c < d
    ensures w <==> exists x: nat, y: nat, z: nat :: x < y < z < |pos| && (x > a || (x == a && (y > c || (y == c && z >= d)))) && SumsTo15(pos, x, y, z)
    decreases |pos| - a, |pos| - c, |pos| - d
  {
    if a >= |pos| then false
    else if c >= |pos| then TripleFrom(pos, a + 1, a + 2, a + 3)
    else if d >= |pos| then TripleFrom(pos, a, c + 1, c + 2)
    else if SumsTo15(pos, a, c, d) then true
    else TripleFrom(pos, a, c, d + 1)
  }

  /** `checkWin(p)`: three cells of `p` sum to 15. */
  function CheckWin(b: Board, p: int): bool
    requires |b| == 9
  {
    var pos := Owned(b, p);
    if |pos| < 3 then false else TripleFrom(pos, 0, 1, 2)
  }

  /** A cell holding `p` sits somewhere in the list of `p`'s cells, and
      the list's order is the cells' order. */
  lemma OwnedIndex(b: Board, p: int, u: int, v: int) returns (x: nat, y: nat)
    requires |b| == 9 && 0 <= u < v < 9 && b[u] == p && b[v] == p
    ensures x < y < |Owned(b, p)| && Owned(b, p)[x] == u && Owned(b, p)[y] == v
  {
    var pos := Owned(b, p);
    assert u in pos && v in pos;
    x :| 0 <= x < |pos| && pos[x] == u;
    y :| 0 <= y < |pos| && pos[y] == v;
  }

  /** `checkWin(p)` looks at every three of `p`'s cells once. */
  lemma CheckWinTriples(b: Board, p: int)
    requires |b| == 9
    ensures CheckWin(b, p) <==> exists x: nat, y: nat, z: nat :: x < y < z < |Owned(b, p)| && SumsTo15(Owned(b, p), x, y, z)
  {
  }

  /** Three of `p`'s cells summing to 15 are a line `p` owns. */
  lemma TripleOwns(b: Board, p: int, x: nat, y: nat, z: nat)
    requires |b| == 9 && x < y < z < |Owned(b, p)| && SumsTo15(Owned(b, p), x, y, z)
    ensures OwnsLine(b, p)
  {
    var pos := Owned(b, p);
    var u, v, w := pos[x], pos[y], pos[z];
    assert u < v < w && b[u] == p && b[v] == p && b[w] == p;
    LoShu(u, v, w);
    var l :| 0 <= l < 8 && Lines[l] == (u, v, w);
    assert Holds(b, p, l);
  }

  /** A line `p` owns is three of `p`'s cells summing to 15. */
  lemma OwnsTriple(b: Board, p: int, l: nat)
    requires |b| == 9 && l < 8 && Holds(b, p, l)
    ensures exists x: nat, y: nat, z: nat :: x < y < z < |Owned(b, p)| && SumsTo15(Owned(b, p), x, y, z)
  {
    LinesSorted();
    var (u, v, w) := Lines[l];
    assert Lines[l] in Lines;
    LoShu(u, v, w);
    var x, y := OwnedIndex(b, p, u, v);
    var y', z := OwnedIndex(b, p, v, w);
    assert y' == y;
    assert SumsTo15(Owned(b, p), x, y, z);
  }

  /** The magic-square test finds a win exactly when `p` owns a line. */
  lemma CheckWinOwns(b: Board, p: int)
    requires |b| == 9
    ensures CheckWin(b, p) <==> OwnsLine(b, p)
  {
    var pos := Owned(b, p);
    CheckWinTriples(b, p);
    if CheckWin(b, p) {
      var x: nat, y: nat, z: nat :| x < y < z < |pos| && SumsTo15(pos, x, y, z);
      TripleOwns(b, p, x, y, z);
    }
    if OwnsLine(b, p) {
      var l :| 0 <= l < 8 && Holds(b, p, l);
      OwnsTriple(b, p, l);
    }
  }

  /** What the pair loop of `POSSWIN(p)` makes of positions `x` and `y`:
      the empty cell whose number makes their sum 15, or -1. */
  function PairAnswer(b: Board, pos: seq<int>, x: nat, y: nat): (k: int)
    requires |b| == 9 && OnBoard(pos) && x < |pos| && y < |pos|
    ensures k != -1 ==> 0 <= k < 9 && b[k] == Blank && Magic[pos[x]] + Magic[pos[y]] + Magic[k] == 15
  {
    var needed := 15 - (Magic[pos[x]] + Magic[pos[y]]);
    if needed < 1 || needed > 9 then -1
    else
      var k := IndexOfMagic(needed);
      if k != -1 && b[k] == Blank then k else -1
  }

  /** The pair (x, y) comes at or after the pair (a, c) in the loop's
      order: by first position, then by second. */
  predicate After(a: nat, c: nat, x: nat, y: nat)
  {
    x > a || (x == a && y >= c)
  }

  /** Past the last second position the loop moves to the next row. */
  lemma AfterRow(n: nat, a: nat, c: nat)
    requires c >= n
    ensures forall x: nat, y: nat :: x < y < n ==> (After(a, c, x, y) <==> After(a + 1, a + 2, x, y))
  {
  }

  /** The pairs from (a, c) on are (a, c) and those from (a, c + 1) on. */
  lemma AfterNext(a: nat, c: nat)
    ensures forall x: nat, y: nat :: After(a, c, x, y) <==> (x == a && y == c) || After(a, c + 1, x, y)
  {
  }

  /** The pair loop of `POSSWIN(p)` from positions `a`, `c` on. */
  function PairFrom(b: Board, pos: seq<int>, a: nat, c: nat): (r: int)
    requires |b| == 9 && OnBoard(pos) && a < c
    ensures r == -1 <==> forall x: nat, y: nat :: x < y < |pos| && After(a, c, x, y) ==> PairAnswer(b, pos, x, y) == -1
    ensures r != -1 ==> exists x: nat, y: nat :: x < y < |pos| && After(a, c, x, y) && r == PairAnswer(b, pos, x, y)
    decreases |pos| - a, |pos| - c
  {
    if a >= |pos| then -1
    else if c >= |pos| then
      AfterRow(|pos|, a, c);
      PairFrom(b, pos, a + 1, a + 2)
    else if PairAnswer(b, pos, a, c) != -1 then
      assert After(a, c, a, c);
      PairAnswer(b, pos, a, c)
    else
      AfterNext(a, c);
      PairFrom(b, pos, a, c + 1)
  }

  /** `POSSWIN(p)` by the magic square. */
  function PossWin(b: Board, p: int): (r: int)
    requires |b| == 9
    ensures r != -1 ==> 0 <= r < 9 && b[r] == Blank
  {
    var pos := Owned(b, p);
    if |pos| < 2 then -1 else PairFrom(b, pos, 0, 1)
  }

  /** An empty cell whose number makes two of `p`'s cells sum to 15
      completes a line of `p`'s. */
  lemma PairCompletes(b: Board, p: int, u: int, v: int, k: int)
    requires |b| == 9 && p != Blank && 0 <= u < v < 9 && 0 <= k < 9
    requires b[u] == p && b[v] == p && b[k] == Blank && Magic[u] + Magic[v] + Magic[k] == 15
    ensures exists l :: 0 <= l < 8 && Completes(b, p, l, k)
  {
    if k < u {
      LoShu(k, u, v);
      var l :| 0 <= l < 8 && Lines[l] == (k, u, v);
      assert Completes(b, p, l, k);
    } else if k < v {
      LoShu(u, k, v);
      var l :| 0 <= l < 8 && Lines[l] == (u, k, v);
      assert Completes(b, p, l, k);
    } else {
      LoShu(u, v, k);
      var l :| 0 <= l < 8 && Lines[l] == (u, v, k);
      assert Completes(b, p, l, k);
    }
  }

  /** The two cells of `p` on a line `p` can complete, in increasing
      order, with the empty cell's number making the sum 15. */
  lemma ThreatPair(b: Board, p: int, l: nat, i: int) returns (u: int, v: int)
    requires |b| == 9 && p != Blank && l < 8 && Completes(b, p, l, i)
    ensures 0 <= u < v < 9 && 0 <= i < 9 && b[u] == p && b[v] == p && b[i] == Blank
    ensures Magic[u] + Magic[v] + Magic[i] == 15
  {
    LinesSorted();
    var (u0, v0, w0) := Lines[l];
    assert Lines[l] in Lines;
    LoShu(u0, v0, w0);
    u, v := if i == u0 then v0 else u0, if i == w0 then v0 else w0;
  }

  /** A pair with an answer makes `POSSWIN(p)` answer. */
  lemma PairFound(b: Board, p: int, x: nat, y: nat)
    requires |b| == 9 && x < y < |Owned(b, p)| && PairAnswer(b, Owned(b, p), x, y) != -1
    ensures PossWin(b, p) != -1
  {
  }

  /** The empty cell of a line holding two of `p` is found from the two. */
  lemma ThreatFound(b: Board, p: int, l: nat, i: int)
    requires |b| == 9 && p != Blank && l < 8 && Completes(b, p, l, i)
    ensures PossWin(b, p) != -1
  {
    var u, v := ThreatPair(b, p, l, i);
    var x, y := OwnedIndex(b, p, u, v);
    IndexOfMagicInverts(i, 0);
    assert PairAnswer(b, Owned(b, p), x, y) == i;
    PairFound(b, p, x, y);
  }

  /** `POSSWIN(p)` by the magic square answers as promised: -1 exactly
      when `p` has no line with two of its symbols and an empty cell, and
      otherwise that empty cell. */
  lemma PossWinAnswers(b: Board, p: int)
    requires |b| == 9 && p != Blank
    ensures WinAnswer(b, p, PossWin(b, p))
  {
    var r := PossWin(b, p);
    var pos := Owned(b, p);
    if r != -1 {
      var x: nat, y: nat :| x < y < |pos| && r == PairAnswer(b, pos, x, y);
      PairCompletes(b, p, pos[x], pos[y], r);
    }
    if Threat(b, p) {
      var l, i :| 0 <= l < 8 && 0 <= i < 9 && Completes(b, p, l, i);
      ThreatFound(b, p, l, i);
    }
  }

  /** `computerMove()`'s choice: the turn-by-turn rules, then `anyBlank()`
      if they give -1. */
  function ComputerMove(b: Board, turn: int, comp: int, user: int): (move: int)
    requires |b| == 9
    ensures -1 <= move < 9
  {
    WithFallback(b, Strategy(b, turn, PossWin(b, comp), PossWin(b, user)))
  }

  /** The fallback `if (move == -1) move = anyBlank()`. */
  function WithFallback(b: Board, m: int): (move: int)
    requires |b| == 9 && -1 <= m < 9
    ensures move == -1 <==> m == -1 && IsBoardFull(b)
    ensures m != -1 ==> move == m
    ensures m == -1 && move != -1 ==> 0 <= move < 9 && b[move] == Blank
  {
    if m == -1 then AnyBlank(b) else m
  }

  /** The computer's turn: `GO` when there is a move, otherwise nothing
      changes ("Computer has no legal move"). */
  function ComputerTurn(g: Game, comp: int, user: int): Game
    requires |g.board| == 9
  {
    var m := ComputerMove(g.board, g.turn, comp, user);
    if m != -1 then Go(g, m, comp).value else g
  }

  /** The fallback: the computer passes only on a full board, and on a
      turn number outside 1 to 9 it plays the first empty cell. */
  lemma Fallback(g: Game, comp: int, user: int)
    requires |g.board| == 9
    ensures ComputerMove(g.board, g.turn, comp, user) == -1 ==> IsBoardFull(g.board) && ComputerTurn(g, comp, user) == g
    ensures !(1 <= g.turn <= 9) ==> ComputerMove(g.board, g.turn, comp, user) == AnyBlank(g.board)
  {
  }

  /** From turn 5 on the computer wins when it can, and otherwise blocks
      the user's win when the user has one; on turn 4 it blocks. */
  lemma WinsOrBlocks(b: Board, turn: int, comp: int, user: int)
    requires |b| == 9 && Players(comp, user)
    ensures var m := ComputerMove(b, turn, comp, user);
      && (5 <= turn <= 9 && Threat(b, comp) ==> 0 <= m < 9 && b[m] == Blank && OwnsLine(b[m := comp], comp))
      && (5 <= turn <= 9 && !Threat(b, comp) && Threat(b, user) ==> 0 <= m < 9 && b[m] == Blank && OwnsLine(b[m := user], user))
      && (turn == 4 && Threat(b, user) ==> 0 <= m < 9 && b[m] == Blank && OwnsLine(b[m := user], user))
  {
    var compWin, userWin := PossWin(b, comp), PossWin(b, user);
    PossWinAnswers(b, comp);
    PossWinAnswers(b, user);
    FallbackWins(b, turn, comp, user, compWin, userWin);
  }

  /** The fallback leaves a winning or blocking move alone. */
  lemma FallbackWins(b: Board, turn: int, comp: int, user: int, compWin: int, userWin: int)
    requires |b| == 9 && comp != Blank && user != Blank && WinAnswer(b, comp, compWin) && WinAnswer(b, user, userWin)
    requires -1 <= compWin < 9 && -1 <= userWin < 9
    ensures var m := WithFallback(b, Strategy(b, turn, compWin, userWin));
      && (5 <= turn <= 9 && Threat(b, comp) ==> 0 <= m < 9 && b[m] == Blank && OwnsLine(b[m := comp], comp))
      && (5 <= turn <= 9 && !Threat(b, comp) && Threat(b, user) ==> 0 <= m < 9 && b[m] == Blank && OwnsLine(b[m := user], user))
      && (turn == 4 && Threat(b, user) ==> 0 <= m < 9 && b[m] == Blank && OwnsLine(b[m := user], user))
  {
    StrategyWins(b, turn, comp, user, compWin, userWin);
  }


  /** On turn 4 and from turn 6 on, the computer's turn fills an empty
      cell while one is left, keeping the turn count right. */
  lemma ComputerTurnPlays(g: Game, comp: int, user: int)
    requires Counted(g) && Players(comp, user) && !IsBoardFull(g.board)
    requires g.turn == 4 || 6 <= g.turn
    ensures var m := ComputerMove(g.board, g.turn, comp, user);
      && 0 <= m < 9 && g.board[m] == Blank
      && ComputerTurn(g, comp, user).board == g.board[m := comp]
      && Counted(ComputerTurn(g, comp, user))
  {
    var b := g.board;
    PossWinAnswers(b, comp);
    PossWinAnswers(b, user);
    StrategyPlays(b, g.turn, comp, user, PossWin(b, comp), PossWin(b, user));
    GoCounts(g, ComputerMove(b, g.turn, comp, user), comp);
  }

  /** On a board of empty cells, Xs and Os the magic-square program and
      the prime-product program agree: the same wins, and a `POSSWIN`
      answer from one exactly when from the other. */
  lemma AgreesWithProduct(b: Board, p: int)
    requires Cells(b) && p in {X, O}
    ensures CheckWin(b, p) == ProductWin(b, p)
    ensures PossWin(b, p) == -1 <==> TicTacToeProduct.PossWin(b, p) == -1
  {
    CheckWinOwns(b, p);
    ProductWinOwns(b, p);
    PossWinAnswers(b, p);
    TicTacToeProduct.PossWinAnswers(b, p);
  }
}

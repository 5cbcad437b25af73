/**
 * `TicTacToeAI`: the computer chooses its move by minimax over the whole
 * game tree. Every empty cell is tried in turn — set, scored, reset — and
 * the computer keeps the first cell with the best score: the highest when
 * it plays X, the lowest when it plays O.
 *
 * As written, a finished position scores 10 - depth when X has won and
 * -10 - depth when O has, and the maximizing side of the search places the
 * computer's symbol. When the computer plays O both are the wrong way round
 * (see PassesUpWin); the `Scoring` parameter selects the program as
 * written or the evidently intended search, in which X maximizes and an O
 * win scores -10 + depth.
 */
module TicTacToeAi {
  import opened Wrappers
  import opened TicTacToe

  datatype Scoring = AsWritten | Intended

  /** A board with the one empty cell `i` filled: one empty cell fewer. */
  lemma Fill(b: Board, i: nat, symbol: int)
    requires i < |b| && b[i] == Blank && symbol != Blank
    ensures Empties(b[i := symbol]) == Empties(b) - 1
  {
    assert b[i := symbol] == b[..i] + [symbol] + b[i + 1..];
    assert b == b[..i] + [Blank] + b[i + 1..];
  }

  /** A board has no more empty cells than cells. */
  lemma {:induction false} EmptiesAtMost(b: Board)
    ensures Empties(b) <= |b|
  {
    if |b| > 0 {
      EmptiesAtMost(b[1..]);
      assert b == [b[0]] + b[1..];
    }
  }

  /** The score of a position `p` has won, `depth` moves into the search:
      `(p == 3 ? 10 : -10) - depth` as written; 10 - depth for X and
      -10 + depth for O as intended, so each side prefers the quicker win. */
  function WinScore(s: Scoring, p: int, depth: nat): int
  {
    if s.AsWritten? then (if p == X then 10 else -10) - depth
    else if p == X then 10 - depth else -10 + depth
  }

  /** The symbol the side to move places: as written, the computer's on
      maximizing turns; as intended, X's. */
  function Mover(s: Scoring, comp: int, user: int, maximizing: bool): int
  {
    if s.AsWritten? then (if maximizing then comp else user)
    else if maximizing then X else O
  }

  /** `minimax(depth, isMaximizing)` on the board `b`: a win for the
      computer, then for the user, then a full board end the search;
      otherwise every empty cell is tried for the side to move. */
  function Minimax(s: Scoring, b: Board, comp: int, user: int, depth: nat, maximizing: bool): int
    requires |b| == 9 && Players(comp, user)
    decreases Empties(b), 1, 0
  {
    if ProductWin(b, comp) then WinScore(s, comp, depth)
    else if ProductWin(b, user) then WinScore(s, user, depth)
    else if IsBoardFull(b) then 0
    else BestFrom(s, b, comp, user, depth, maximizing, 0, if maximizing then MinInt else MaxInt)
  }

  /** The value of trying cell `j` for the side to move. */
  function Child(s: Scoring, b: Board, comp: int, user: int, depth: nat, maximizing: bool, j: nat): int
    requires |b| == 9 && Players(comp, user) && j < 9 && b[j] == Blank
    decreases Empties(b), 0, 0
  {
    Fill(b, j, Mover(s, comp, user, maximizing));
    Minimax(s, b[j := Mover(s, comp, user, maximizing)], comp, user, depth + 1, !maximizing)
  }

  /** The cell loop of `minimax` from cell `i` on, with the best score so
      far: `Math.max` when maximizing, `Math.min` otherwise. */
  function BestFrom(s: Scoring, b: Board, comp: int, user: int, depth: nat, maximizing: bool, i: nat, best: int): int
    requires |b| == 9 && Players(comp, user) && i <= 9
    decreases Empties(b), 0, 9 - i
  {
    if i == 9 then best
    else if b[i] == Blank then
      var c := Child(s, b, comp, user, depth, maximizing, i);
      BestFrom(s, b, comp, user, depth, maximizing, i + 1, if maximizing then (if c > best then c else best) else (if c < best then c else best))
    else BestFrom(s, b, comp, user, depth, maximizing, i + 1, best)
  }

  /** The cell loop computes the extreme of the starting score and the
      values of the empty cells from `i` on, and is one of them. */
  lemma BestIsExtreme(s: Scoring, b: Board, comp: int, user: int, depth: nat, maximizing: bool, i: nat, best: int)
    requires |b| == 9 && Players(comp, user) && i <= 9
    ensures var r := BestFrom(s, b, comp, user, depth, maximizing, i, best);
      && (maximizing ==> r >= best && forall j :: i <= j < 9 && b[j] == Blank ==> r >= Child(s, b, comp, user, depth, maximizing, j))
      && (!maximizing ==> r <= best && forall j :: i <= j < 9 && b[j] == Blank ==> r <= Child(s, b, comp, user, depth, maximizing, j))
      && (r == best || exists j :: i <= j < 9 && b[j] == Blank && r == Child(s, b, comp, user, depth, maximizing, j))
  {
    if maximizing {
      BestIsMax(s, b, comp, user, depth, i, best);
    } else {
      BestIsMin(s, b, comp, user, depth, i, best);
    }
    BestIsOne(s, b, comp, user, depth, maximizing, i, best);
  }

  /** Maximizing, the cell loop's result is at least the starting score
      and every empty cell's value from `i` on. */
  lemma {:induction false} BestIsMax(s: Scoring, b: Board, comp: int, user: int, depth: nat, i: nat, best: int)
    requires |b| == 9 && Players(comp, user) && i <= 9
    ensures var r := BestFrom(s, b, comp, user, depth, true, i, best);
      r >= best && forall j :: i <= j < 9 && b[j] == Blank ==> r >= Child(s, b, comp, user, depth, true, j)
    decreases 9 - i
  {
    if i < 9 {
      if b[i] == Blank {
        var c := Child(s, b, comp, user, depth, true, i);
        BestIsMax(s, b, comp, user, depth, i + 1, if c > best then c else best);
      } else {
        BestIsMax(s, b, comp, user, depth, i + 1, best);
      }
    }
  }

  /** Minimizing, the cell loop's result is at most the starting score
      and every empty cell's value from `i` on. */
  lemma {:induction false} BestIsMin(s: Scoring, b: Board, comp: int, user: int, depth: nat, i: nat, best: int)
    requires |b| == 9 && Players(comp, user) && i <= 9
    ensures var r := BestFrom(s, b, comp, user, depth, false, i, best);
      r <= best && forall j :: i <= j < 9 && b[j] == Blank ==> r <= Child(s, b, comp, user, depth, false, j)
    decreases 9 - i
  {
    if i < 9 {
      if b[i] == Blank {
        var c := Child(s, b, comp, user, depth, false, i);
        BestIsMin(s, b, comp, user, depth, i + 1, if c < best then c else best);
      } else {
        BestIsMin(s, b, comp, user, depth, i + 1, best);
      }
    }
  }

  /** The cell loop's result is the starting score or the value of an
      empty cell from `i` on. */
  lemma {:induction false} BestIsOne(s: Scoring, b: Board, comp: int, user: int, depth: nat, maximizing: bool, i: nat, best: int)
    requires |b| == 9 && Players(comp, user) && i <= 9
    ensures var r := BestFrom(s, b, comp, user, depth, maximizing, i, best);
      r == best || exists j :: i <= j < 9 && b[j] == Blank && r == Child(s, b, comp, user, depth, maximizing, j)
    decreases 9 - i
  {
    if i < 9 {
      if b[i] == Blank {
        var c := Child(s, b, comp, user, depth, maximizing, i);
        BestIsOne(s, b, comp, user, depth, maximizing, i + 1, if maximizing then (if c > best then c else best) else (if c < best then c else best));
      } else {
        BestIsOne(s, b, comp, user, depth, maximizing, i + 1, best);
      }
    }
  }

  /** The lowest score a search `depth` moves in with `e` empty cells
      can give: -10 - depth - e as written, where deeper O wins score
      lower; depth - 10 as intended. */
  function Floor(s: Scoring, depth: nat, e: nat): int
  {
    if s.AsWritten? then -10 - depth - e else depth - 10
  }

  /** Every score lies between Floor and 10 - depth, for the depths the
      search reaches: the sentinels `Integer.MIN_VALUE` and
      `Integer.MAX_VALUE` are never scores. */
  lemma {:induction false} MinimaxRange(s: Scoring, b: Board, comp: int, user: int, depth: nat, maximizing: bool)
    requires |b| == 9 && Players(comp, user) && depth + Empties(b) <= 10
    ensures Floor(s, depth, Empties(b)) <= Minimax(s, b, comp, user, depth, maximizing) <= 10 - depth
    decreases Empties(b), 2
  {
    if ProductWin(b, comp) {
      assert Minimax(s, b, comp, user, depth, maximizing) == WinScore(s, comp, depth);
    } else if ProductWin(b, user) {
      assert Minimax(s, b, comp, user, depth, maximizing) == WinScore(s, user, depth);
    } else if IsBoardFull(b) {
      assert Minimax(s, b, comp, user, depth, maximizing) == 0;
    } else {
      BestRange(s, b, comp, user, depth, maximizing);
    }
  }

  /** The non-final case of MinimaxRange. */
  lemma {:induction false} BestRange(s: Scoring, b: Board, comp: int, user: int, depth: nat, maximizing: bool)
    requires |b| == 9 && Players(comp, user) && depth + Empties(b) <= 10 && !IsBoardFull(b)
    ensures var r := BestFrom(s, b, comp, user, depth, maximizing, 0, if maximizing then MinInt else MaxInt);
      Floor(s, depth, Empties(b)) <= r <= 10 - depth
    decreases Empties(b), 1
  {
    var r := BestFrom(s, b, comp, user, depth, maximizing, 0, if maximizing then MinInt else MaxInt);
    BestIsChild(s, b, comp, user, depth, maximizing);
    var j :| 0 <= j < 9 && b[j] == Blank && r == Child(s, b, comp, user, depth, maximizing, j);
    var m := Mover(s, comp, user, maximizing);
    Fill(b, j, m);
    MinimaxRange(s, b[j := m], comp, user, depth + 1, !maximizing);
    assert r == Minimax(s, b[j := m], comp, user, depth + 1, !maximizing);
  }

  /** On a board with an empty cell the cell loop's result is the value
      of one of the empty cells, since each beats the sentinel. */
  lemma {:induction false} BestIsChild(s: Scoring, b: Board, comp: int, user: int, depth: nat, maximizing: bool)
    requires |b| == 9 && Players(comp, user) && depth + Empties(b) <= 10 && !IsBoardFull(b)
    ensures exists j :: 0 <= j < 9 && b[j] == Blank && BestFrom(s, b, comp, user, depth, maximizing, 0, if maximizing then MinInt else MaxInt) == Child(s, b, comp, user, depth, maximizing, j)
    decreases Empties(b), 0
  {
    var init := if maximizing then MinInt else MaxInt;
    var r := BestFrom(s, b, comp, user, depth, maximizing, 0, init);
    BestIsExtreme(s, b, comp, user, depth, maximizing, 0, init);
    var k := AnyBlank(b);
    var m := Mover(s, comp, user, maximizing);
    Fill(b, k, m);
    MinimaxRange(s, b[k := m], comp, user, depth + 1, !maximizing);
    var ck := Child(s, b, comp, user, depth, maximizing, k);
    assert Floor(s, depth + 1, Empties(b) - 1) <= ck <= 10 - depth - 1;
    assert r != init;
  }

  /** The score of the computer's trial move in cell `i`: the search
      after `BOARD[i] = computerSymbol`, with the user to move — as
      written `minimax(0, false)`, as intended maximizing when the user
      is X. */
  function Score(s: Scoring, b: Board, comp: int, user: int, i: nat): int
    requires |b| == 9 && Players(comp, user) && i < 9 && b[i] == Blank
  {
    Fill(b, i, comp);
    Minimax(s, b[i := comp], comp, user, 0, if s.AsWritten? then false else user == X)
  }

  /** Every trial score lies strictly between the sentinels. */
  lemma ScoreRange(s: Scoring, b: Board, comp: int, user: int, i: nat)
    requires |b| == 9 && Players(comp, user) && i < 9 && b[i] == Blank
    ensures MinInt < Score(s, b, comp, user, i) < MaxInt
  {
    Fill(b, i, comp);
    EmptiesAtMost(b[i := comp]);
    MinimaxRange(s, b[i := comp], comp, user, 0, if s.AsWritten? then false else user == X);
  }

  /** The trial scores of the empty cells (0 for a filled cell). */
  function Scores(s: Scoring, b: Board, comp: int, user: int): (sc: seq<int>)
    requires |b| == 9 && Players(comp, user)
    ensures |sc| == 9 && forall i :: 0 <= i < 9 && b[i] == Blank ==> sc[i] == Score(s, b, comp, user, i)
  {
    seq(9, i requires 0 <= i < 9 => if b[i] == Blank then Score(s, b, comp, user, i) else 0)
  }

  /** `v` beats `w` for the computer: higher for X, lower for O. */
  predicate Better(comp: int, v: int, w: int)
  {
    if comp == X then v > w else v < w
  }

  /** The sentinel `computerMove` starts its best score from. */
  function Sentinel(comp: int): int
  {
    if comp == X then MinInt else MaxInt
  }

  /** The trial loop of `computerMove` from cell `i` on, over the trial
      scores `sc`: the final `bestMove` and `bestScore`. */
  function ChooseFrom(b: Board, comp: int, sc: seq<int>, i: nat, bestMove: int, bestScore: int): (int, int)
    requires |b| == 9 && |sc| == 9 && i <= 9
    decreases 9 - i
  {
    if i == 9 then (bestMove, bestScore)
    else if b[i] == Blank && Better(comp, sc[i], bestScore) then ChooseFrom(b, comp, sc, i + 1, i, sc[i])
    else ChooseFrom(b, comp, sc, i + 1, bestMove, bestScore)
  }

  /** The loop's state after the cells before `i`: no move and the
      sentinel while no cell was empty, else the first empty cell with the
      best score so far. */
  predicate Chosen(b: Board, comp: int, sc: seq<int>, i: nat, bestMove: int, bestScore: int)
    requires |b| == 9 && |sc| == 9 && i <= 9
  {
    || (bestMove == -1 && bestScore == Sentinel(comp) && forall j :: 0 <= j < i ==> b[j] != Blank)
    || (0 <= bestMove < i && b[bestMove] == Blank && bestScore == sc[bestMove]
        && (forall j :: 0 <= j < i && b[j] == Blank ==> !Better(comp, sc[j], bestScore))
        && (forall j :: 0 <= j < bestMove && b[j] == Blank ==> sc[j] != bestScore))
  }

  /** The scores of the empty cells lie strictly between the sentinels. */
  predicate InRange(b: Board, sc: seq<int>)
    requires |b| == 9 && |sc| == 9
  {
    forall j :: 0 <= j < 9 && b[j] == Blank ==> MinInt < sc[j] < MaxInt
  }

  /** The loop keeps Chosen to its end. */
  lemma {:induction false} ChooseKeeps(b: Board, comp: int, sc: seq<int>, i: nat, bestMove: int, bestScore: int)
    requires |b| == 9 && |sc| == 9 && i <= 9 && InRange(b, sc) && Chosen(b, comp, sc, i, bestMove, bestScore)
    ensures var r := ChooseFrom(b, comp, sc, i, bestMove, bestScore);
      Chosen(b, comp, sc, 9, r.0, r.1)
    decreases 9 - i
  {
    if i < 9 {
      if b[i] == Blank && Better(comp, sc[i], bestScore) {
        ChooseKeeps(b, comp, sc, i + 1, i, sc[i]);
      } else {
        ChooseKeeps(b, comp, sc, i + 1, bestMove, bestScore);
      }
    }
  }

  /** The move `computerMove` hands to `GO`. */
  function ComputerMove(s: Scoring, b: Board, comp: int, user: int): int
    requires |b| == 9 && Players(comp, user)
  {
    ChooseFrom(b, comp, Scores(s, b, comp, user), 0, -1, Sentinel(comp)).0
  }

  /** `computerMove` plays an empty cell whenever there is one — the
      first whose score no other empty cell beats — and -1, which `GO`
      rejects, only on a full board. */
  lemma ComputerMoveBest(s: Scoring, b: Board, comp: int, user: int)
    requires |b| == 9 && Players(comp, user)
    ensures var m := ComputerMove(s, b, comp, user);
      && (m == -1 <==> IsBoardFull(b))
      && (m != -1 ==> 0 <= m < 9 && b[m] == Blank)
      && (m != -1 ==> forall j :: 0 <= j < 9 && b[j] == Blank ==> !Better(comp, Score(s, b, comp, user, j), Score(s, b, comp, user, m)))
      && (m != -1 ==> forall j :: 0 <= j < m && b[j] == Blank ==> Score(s, b, comp, user, j) != Score(s, b, comp, user, m))
  {
    var sc := Scores(s, b, comp, user);
    forall j | 0 <= j < 9 && b[j] == Blank
      ensures MinInt < sc[j] < MaxInt
    {
      ScoreRange(s, b, comp, user, j);
    }
    ChooseKeeps(b, comp, sc, 0, -1, Sentinel(comp));
  }

  /** The computer's turn: `computerMove` followed by `GO`. */
  function ComputerTurn(s: Scoring, g: Game, comp: int, user: int): Option<Game>
    requires |g.board| == 9 && Players(comp, user)
  {
    Go(g, ComputerMove(s, g.board, comp, user), comp)
  }

  /** The computer's turn fails only on a full board, and otherwise fills
      one empty cell with the computer's symbol and advances the turn,
      keeping the turn count right. */
  lemma ComputerTurnPlays(s: Scoring, g: Game, comp: int, user: int)
    requires Counted(g) && Players(comp, user)
    ensures ComputerTurn(s, g, comp, user).None? <==> IsBoardFull(g.board)
    ensures ComputerTurn(s, g, comp, user).Some? ==>
      var m := ComputerMove(s, g.board, comp, user);
      && g.board[m] == Blank && ComputerTurn(s, g, comp, user).value.board == g.board[m := comp]
      && Counted(ComputerTurn(s, g, comp, user).value)
  {
    ComputerMoveBest(s, g.board, comp, user);
    var m := ComputerMove(s, g.board, comp, user);
    if m != -1 {
      GoCounts(g, m, comp);
    }
  }

  /** As intended, a trial move that does not win for the computer
      scores strictly worse than one that does: the user's win scores the
      other way, a full board 0, and a search one move deeper at most 9. */
  lemma IntendedNonWin(b: Board, comp: int, user: int, i: nat)
    requires |b| == 9 && Players(comp, user) && i < 9 && b[i] == Blank && !ProductWin(b[i := comp], comp)
    ensures Better(comp, WinScore(Intended, comp, 0), Score(Intended, b, comp, user, i))
  {
    var c := b[i := comp];
    var max := user == X;
    Fill(b, i, comp);
    EmptiesAtMost(b);
    if !ProductWin(c, user) && !IsBoardFull(c) {
      var r := BestFrom(Intended, c, comp, user, 0, max, 0, if max then MinInt else MaxInt);
      BestIsChild(Intended, c, comp, user, 0, max);
      var j :| 0 <= j < 9 && c[j] == Blank && r == Child(Intended, c, comp, user, 0, max, j);
      var m := Mover(Intended, comp, user, max);
      Fill(c, j, m);
      MinimaxRange(Intended, c[j := m], comp, user, 1, !max);
      assert -9 <= r <= 9;
    }
  }

  /** As intended, the computer takes an immediate win whenever it has
      one: it plays the first empty cell that completes a line of its
      own. */
  lemma TakesFirstWin(b: Board, comp: int, user: int)
    requires |b| == 9 && Players(comp, user)
    requires exists i :: 0 <= i < 9 && b[i] == Blank && ProductWin(b[i := comp], comp)
    ensures var m := ComputerMove(Intended, b, comp, user);
      && 0 <= m < 9 && b[m] == Blank && ProductWin(b[m := comp], comp)
      && forall j :: 0 <= j < m && b[j] == Blank ==> !ProductWin(b[j := comp], comp)
  {
    ComputerMoveBest(Intended, b, comp, user);
    var m := ComputerMove(Intended, b, comp, user);
    forall j | 0 <= j < 9 && b[j] == Blank && ProductWin(b[j := comp], comp)
      ensures Score(Intended, b, comp, user, j) == WinScore(Intended, comp, 0)
    {
    }
    if !ProductWin(b[m := comp], comp) {
      IntendedNonWin(b, comp, user, m);
    }
  }

  /** A position from a game in which the user, X, moved first: O holds
      cells 4 and 6, X holds 5, 7 and 8, and the computer, O, is to move.
      Cell 2 completes O's diagonal 2-4-6 and also X's column 2-5-8. */
  const Trap: Board := [2, 2, 2, 2, 5, 3, 5, 3, 3]

  /** The empty cells of Trap are 0 to 3. */
  lemma TrapBlanks()
    ensures Trap[0] == Blank && Trap[1] == Blank && Trap[2] == Blank && Trap[3] == Blank
    ensures forall j :: 0 <= j < 9 && Trap[j] == Blank ==> j < 4
  {
  }

  /** O in cell 0 wins nothing yet, and X answering in cell 1 still
      leaves O a win in cell 2 and in cell 3. */
  lemma TrapPositions()
    ensures !ProductWin(Trap[0 := O], O) && !ProductWin(Trap[0 := O], X) && !IsBoardFull(Trap[0 := O])
    ensures var c := Trap[0 := O][1 := X];
      && !ProductWin(c, O) && !ProductWin(c, X) && !IsBoardFull(c)
      && ProductWin(c[2 := O], O) && ProductWin(c[3 := O], O)
  {
    var t := Trap[0 := O];
    assert t[0] == O && t[1] == Blank && t[2] == Blank && t[3] == Blank;
    assert t[4] == O && t[5] == X && t[6] == O && t[7] == X && t[8] == X;
    var c := t[1 := X];
    assert c[0] == O && c[1] == X && c[2] == Blank && c[3] == Blank;
    assert c[4] == O && c[5] == X && c[6] == O && c[7] == X && c[8] == X;
    assert Product(c[2 := O], 7) == 125;
    assert Product(c[3 := O], 3) == 125;
  }

  /** A finished position scores without searching further. */
  lemma WonScores(s: Scoring, c: Board, comp: int, user: int, depth: nat, maximizing: bool)
    requires |c| == 9 && Players(comp, user) && ProductWin(c, comp)
    ensures Minimax(s, c, comp, user, depth, maximizing) == WinScore(s, comp, depth)
  {
  }

  /** After O in cell 0 and X in cell 1, O to move two moves deep wins in
      cell 2 or cell 3, either worth -12 as written. */
  lemma TrapDeepChildren(c: Board)
    requires c == Trap[0 := O][1 := X]
    ensures Child(AsWritten, c, O, X, 1, true, 2) == -12
    ensures Child(AsWritten, c, O, X, 1, true, 3) == -12
  {
    TrapPositions();
    WonScores(AsWritten, c[2 := O], O, X, 2, false);
    WonScores(AsWritten, c[3 := O], O, X, 2, false);
  }

  /** In that position the empty cells are 2 and 3. */
  lemma TrapDeepBlanks(c: Board)
    requires c == Trap[0 := O][1 := X]
    ensures c[2] == Blank && c[3] == Blank
    ensures forall j :: 0 <= j < 9 && c[j] == Blank ==> j == 2 || j == 3
  {
    assert c[0] == O && c[1] == X && c[4] == O && c[5] == X && c[6] == O && c[7] == X && c[8] == X;
  }

  /** So that position is worth -12 to the as-written search. */
  lemma TrapDeep(c: Board)
    requires c == Trap[0 := O][1 := X]
    ensures Minimax(AsWritten, c, O, X, 1, true) == -12
  {
    TrapPositions();
    assert Minimax(AsWritten, c, O, X, 1, true) == BestFrom(AsWritten, c, O, X, 1, true, 0, MinInt);
    BestIsExtreme(AsWritten, c, O, X, 1, true, 0, MinInt);
    TrapDeepBlanks(c);
    TrapDeepChildren(c);
  }

  /** As written, the computer playing O after X, scoring cell 0, sees X
      answer in cell 1 and then — placing O for X on X's maximizing turn —
      an O win two moves deep, worth -12: lower, so better for O, than the
      immediate win in cell 2, worth -10. */
  lemma TrapScores(b: Board)
    requires b == Trap
    ensures Score(AsWritten, b, O, X, 0) <= -12
    ensures Score(AsWritten, b, O, X, 2) == -10
  {
    TrapBlanks();
    TrapPositions();
    var s0 := b[0 := O];
    assert s0[1] == Blank;
    assert Score(AsWritten, b, O, X, 0) == Minimax(AsWritten, s0, O, X, 0, false);
    assert Minimax(AsWritten, s0, O, X, 0, false) == BestFrom(AsWritten, s0, O, X, 0, false, 0, MaxInt);
    BestIsExtreme(AsWritten, s0, O, X, 0, false, 0, MaxInt);
    TrapDeep(s0[1 := X]);
    assert Child(AsWritten, s0, O, X, 0, false, 1) == -12;
    assert Product(b[2 := O], 7) == 125;
    WonScores(AsWritten, b[2 := O], O, X, 0, false);
  }

  /** Cells 0, 1 and 3 win nothing for O, and each leaves X the win in
      cell 2. */
  lemma TrapMisses(m: int)
    requires m == 0 || m == 1 || m == 3
    ensures !ProductWin(Trap[m := O], O) && ProductWin(Trap[m := O][2 := X], X)
  {
    var t := Trap[m := O];
    assert Product(t[2 := X], 5) == 27;
    assert t[2] == Blank && t[4] == O && t[5] == X && t[6] == O && t[7] == X && t[8] == X;
    if m == 0 {
      assert t[0] == O && t[1] == Blank && t[3] == Blank;
    } else if m == 1 {
      assert t[0] == Blank && t[1] == O && t[3] == Blank;
    } else {
      assert t[0] == Blank && t[1] == Blank && t[3] == O;
    }
  }

  /** The as-written computer on Trap plays cell 0, 1 or 3: an empty cell
      whose score beats the -10 of cell 2. */
  lemma TrapChoice(b: Board)
    requires b == Trap
    ensures var m := ComputerMove(AsWritten, b, O, X);
      m == 0 || m == 1 || m == 3
  {
    TrapBlanks();
    TrapScores(b);
    ComputerMoveBest(AsWritten, b, O, X);
  }

  /** The as-written search passes up the win: on Trap the computer
      playing O could complete its diagonal in cell 2, but plays another
      cell that wins nothing, after which X wins in cell 2. */
  lemma PassesUpWin()
    ensures ProductWin(Trap[2 := O], O)
    ensures var m := ComputerMove(AsWritten, Trap, O, X);
      && 0 <= m < 9 && Trap[m] == Blank && m != 2
      && !ProductWin(Trap[m := O], O) && ProductWin(Trap[m := O][2 := X], X)
  {
    assert Product(Trap[2 := O], 7) == 125;
    TrapChoice(Trap);
    TrapMisses(ComputerMove(AsWritten, Trap, O, X));
  }

  /** As intended, the computer on Trap takes its win in cell 2. */
  lemma TrapIntended()
    ensures ComputerMove(Intended, Trap, O, X) == 2
  {
    assert Product(Trap[2 := O], 7) == 125;
    assert Trap[2] == Blank && ProductWin(Trap[2 := O], O);
    TrapMisses(0);
    TrapMisses(1);
    TrapMisses(3);
    TakesFirstWin(Trap, O, X);
  }
}

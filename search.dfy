/** The engine's game-tree search: a pure minimax value as the reference,
    the fail-soft alpha-beta search that places and undoes marks on the
    shared board, and the root move choice. O maximises, X minimises. */
module Search {
  import opened Board
  import opened Evaluator

  function Max(a: int, b: int): int
  {
    if a < b then b else a
  }

  function Min(a: int, b: int): int
  {
    if a < b then a else b
  }

  /** The search stops here: a line is complete for O or X, or no cell is
      blank. */
  predicate Terminal(g: Grid)
  {
    Winner(g) == 'O' || Winner(g) == 'X' || BoardFull(g)
  }

  /** The unpruned minimax value of g, reached after d plies, with O to move
      when max holds. Children are visited in row-major order and folded
      from the same sentinels the search starts from. */
  function Minimax(g: Grid, d: int, max: bool): int
    decreases Blanks(g), 2, 0
  {
    if Terminal(g) then Evaluate(g, d)
    else if max then MaxFrom(g, d, 0, -1000)
    else MinFrom(g, d, 0, 1000)
  }

  /** The value after O takes the blank cell k. */
  function AfterO(g: Grid, d: int, k: nat): int
    requires k < 9 && g[k] == ' '
    decreases Blanks(g), 0, 0
  {
    Minimax(g[k := 'O'], d + 1, false)
  }

  /** The value after X takes the blank cell k. */
  function AfterX(g: Grid, d: int, k: nat): int
    requires k < 9 && g[k] == ' '
    decreases Blanks(g), 0, 0
  {
    Minimax(g[k := 'X'], d + 1, true)
  }

  /** acc raised to the values of O's moves at the blank cells k..8. */
  function MaxFrom(g: Grid, d: int, k: nat, acc: int): int
    requires k <= 9
    decreases Blanks(g), 1, 9 - k
  {
    if k == 9 then acc
    else if g[k] == ' ' then MaxFrom(g, d, k + 1, Max(acc, AfterO(g, d, k)))
    else MaxFrom(g, d, k + 1, acc)
  }

  /** acc lowered to the values of X's moves at the blank cells k..8. */
  function MinFrom(g: Grid, d: int, k: nat, acc: int): int
    requires k <= 9
    decreases Blanks(g), 1, 9 - k
  {
    if k == 9 then acc
    else if g[k] == ' ' then MinFrom(g, d, k + 1, Min(acc, AfterX(g, d, k)))
    else MinFrom(g, d, k + 1, acc)
  }

  /** The fail-soft alpha-beta contract for a result r searched in the
      window (alpha, beta) of a position whose exact value is v: inside the
      window r is exact, at or below alpha it is an upper bound, at or above
      beta a lower bound. */
  predicate FailSoft(r: int, alpha: int, beta: int, v: int)
  {
    (alpha < r < beta ==> r == v) && (r <= alpha ==> v <= r) && (r >= beta ==> v >= r)
  }

  /** MaxFrom is the maximum of acc and the children from k on, and it is
      one of them. */
  lemma {:induction false} MaxFromIsMax(g: Grid, d: int, k: nat, acc: int)
    requires k <= 9
    ensures MaxFrom(g, d, k, acc) >= acc
    ensures forall j :: k <= j < 9 && g[j] == ' ' ==> MaxFrom(g, d, k, acc) >= AfterO(g, d, j)
    ensures MaxFrom(g, d, k, acc) == acc ||
      exists j :: k <= j < 9 && g[j] == ' ' && MaxFrom(g, d, k, acc) == AfterO(g, d, j)
    decreases 9 - k
  {
    if k < 9 {
      if g[k] == ' ' {
        MaxFromIsMax(g, d, k + 1, Max(acc, AfterO(g, d, k)));
      } else {
        MaxFromIsMax(g, d, k + 1, acc);
      }
    }
  }

  /** MinFrom is the minimum of acc and the children from k on, and it is
      one of them. */
  lemma {:induction false} MinFromIsMin(g: Grid, d: int, k: nat, acc: int)
    requires k <= 9
    ensures MinFrom(g, d, k, acc) <= acc
    ensures forall j :: k <= j < 9 && g[j] == ' ' ==> MinFrom(g, d, k, acc) <= AfterX(g, d, j)
    ensures MinFrom(g, d, k, acc) == acc ||
      exists j :: k <= j < 9 && g[j] == ' ' && MinFrom(g, d, k, acc) == AfterX(g, d, j)
    decreases 9 - k
  {
    if k < 9 {
      if g[k] == ' ' {
        MinFromIsMin(g, d, k + 1, Min(acc, AfterX(g, d, k)));
      } else {
        MinFromIsMin(g, d, k + 1, acc);
      }
    }
  }

  /** A position reached after d plies, whose leaves all lie within 60
      plies, is worth between d - 100 and 100 - d, so the sentinels -1000
      and 1000 are never the value. */
  lemma {:induction false} MinimaxBounds(g: Grid, d: int, max: bool)
    requires 0 <= d && d + Blanks(g) <= 60
    ensures d - 100 <= Minimax(g, d, max) <= 100 - d
    decreases Blanks(g)
  {
    if Terminal(g) {
      EvaluateBounds(g, d);
    } else {
      var k :| 0 <= k < 9 && g[k] == ' ';
      if max {
        forall j | 0 <= j < 9 && g[j] == ' '
          ensures d + 1 - 100 <= AfterO(g, d, j) <= 100 - (d + 1)
        {
          MinimaxBounds(g[j := 'O'], d + 1, false);
        }
        MaxFromIsMax(g, d, 0, -1000);
      } else {
        forall j | 0 <= j < 9 && g[j] == ' '
          ensures d + 1 - 100 <= AfterX(g, d, j) <= 100 - (d + 1)
        {
          MinimaxBounds(g[j := 'X'], d + 1, true);
        }
        MinFromIsMin(g, d, 0, 1000);
      }
    }
  }

  /** Off the leaves, the value for the side to move is the best of its
      moves: no move beats it and some move attains it. */
  lemma MinimaxIsBestChild(g: Grid, d: int, max: bool)
    requires 0 <= d && d + Blanks(g) <= 60 && !Terminal(g)
    ensures max ==> forall j :: 0 <= j < 9 && g[j] == ' ' ==> AfterO(g, d, j) <= Minimax(g, d, max)
    ensures max ==> exists j :: 0 <= j < 9 && g[j] == ' ' && AfterO(g, d, j) == Minimax(g, d, max)
    ensures !max ==> forall j :: 0 <= j < 9 && g[j] == ' ' ==> AfterX(g, d, j) >= Minimax(g, d, max)
    ensures !max ==> exists j :: 0 <= j < 9 && g[j] == ' ' && AfterX(g, d, j) == Minimax(g, d, max)
  {
    MinimaxBounds(g, d, max);
    if max {
      MaxFromIsMax(g, d, 0, -1000);
    } else {
      MinFromIsMin(g, d, 0, 1000);
    }
  }

  /** With the root window (-1000, 1000) a fail-soft result is the exact
      minimax value: -1000 and 1000 lie outside every reachable value. */
  lemma RootWindowIsExact(g: Grid, d: int, max: bool, r: int)
    requires 0 <= d && d + Blanks(g) <= 60
    requires FailSoft(r, -1000, 1000, Minimax(g, d, max))
    ensures r == Minimax(g, d, max)
    ensures d - 100 <= r <= 100 - d
  {
    MinimaxBounds(g, d, max);
  }

  /** `minimaxAlphaBeta`: a leaf returns its heuristic score; otherwise the
      side to move searches its replies. */
  method MinimaxAlphaBeta(board: array2<char>, depth: int, isMaximizing: bool, alpha: int, beta: int)
    returns (r: int)
    requires Is3x3(board) && alpha < beta
    modifies board
    ensures Cells(board) == old(Cells(board))
    ensures FailSoft(r, alpha, beta, Minimax(old(Cells(board)), depth, isMaximizing))
    decreases Blanks(Cells(board)), 2
  {
    var score := EvaluateHeuristic(board, depth);
    var winner := CheckWin(board);
    if winner == 'O' || winner == 'X' {
      return score;
    }
    var full := IsFull(board);
    if full {
      return score;
    }
    if isMaximizing {
      r := MaxSearch(board, depth, alpha, beta);
    } else {
      r := MinSearch(board, depth, alpha, beta);
    }
  }

  /** The maximising branch of `minimaxAlphaBeta`: each blank cell in
      row-major order gets an O, is searched one ply deeper and is blanked
      again; the best value so far raises alpha, and the loop returns as
      soon as beta <= alpha. The C code raises its alpha parameter in place;
      here that is the local alpha'. */
  method MaxSearch(board: array2<char>, depth: int, alpha: int, beta: int) returns (best: int)
    requires Is3x3(board) && alpha < beta && !Terminal(Cells(board))
    modifies board
    ensures Cells(board) == old(Cells(board))
    ensures FailSoft(best, alpha, beta, MaxFrom(old(Cells(board)), depth, 0, -1000))
    decreases Blanks(Cells(board)), 1
  {
    ghost var g := Cells(board);
    best := -1000;
    var alpha' := alpha;
    ghost var acc := -1000;
    for i := 0 to 3
      invariant Cells(board) == g
      invariant alpha <= alpha' < beta && (alpha' == alpha || alpha' == best)
      invariant acc <= best && (best > alpha ==> best <= acc)
      invariant MaxFrom(g, depth, Idx(i, 0), acc) == MaxFrom(g, depth, 0, -1000)
    {
      for j := 0 to 3
        invariant Cells(board) == g
        invariant alpha <= alpha' < beta && (alpha' == alpha || alpha' == best)
        invariant acc <= best && (best > alpha ==> best <= acc)
        invariant MaxFrom(g, depth, Idx(i, j), acc) == MaxFrom(g, depth, 0, -1000)
      {
        CellAt(board, i, j);
        if board[i, j] == ' ' {
          var val := TryMove(board, i, j, 'O', depth + 1, alpha', beta);
          acc := Max(acc, AfterO(g, depth, Idx(i, j)));
          if val > best { best := val; }
          if best > alpha' { alpha' := best; }
          if beta <= alpha' {
            MaxFromIsMax(g, depth, Idx(i, j) + 1, acc);
            assert FailSoft(best, alpha, beta, MaxFrom(g, depth, 0, -1000));
            return best;
          }
        }
      }
    }
  }

  /** The minimising branch of `minimaxAlphaBeta`, with X, beta and
      beta' in the roles of O, alpha and alpha'. */
  method MinSearch(board: array2<char>, depth: int, alpha: int, beta: int) returns (best: int)
    requires Is3x3(board) && alpha < beta && !Terminal(Cells(board))
    modifies board
    ensures Cells(board) == old(Cells(board))
    ensures FailSoft(best, alpha, beta, MinFrom(old(Cells(board)), depth, 0, 1000))
    decreases Blanks(Cells(board)), 1
  {
    ghost var g := Cells(board);
    best := 1000;
    var beta' := beta;
    ghost var acc := 1000;
    for i := 0 to 3
      invariant Cells(board) == g
      invariant alpha < beta' <= beta && (beta' == beta || beta' == best)
      invariant best <= acc && (best < beta ==> acc <= best)
      invariant MinFrom(g, depth, Idx(i, 0), acc) == MinFrom(g, depth, 0, 1000)
    {
      for j := 0 to 3
        invariant Cells(board) == g
        invariant alpha < beta' <= beta && (beta' == beta || beta' == best)
        invariant best <= acc && (best < beta ==> acc <= best)
        invariant MinFrom(g, depth, Idx(i, j), acc) == MinFrom(g, depth, 0, 1000)
      {
        CellAt(board, i, j);
        if board[i, j] == ' ' {
          var val := TryMove(board, i, j, 'X', depth + 1, alpha, beta');
          acc := Min(acc, AfterX(g, depth, Idx(i, j)));
          if val < best { best := val; }
          if best < beta' { beta' := best; }
          if beta' <= alpha {
            MinFromIsMin(g, depth, Idx(i, j) + 1, acc);
            assert FailSoft(best, alpha, beta, MinFrom(g, depth, 0, 1000));
            return best;
          }
        }
      }
    }
  }

  /** One move tried in place: mark m goes into the blank cell (i, j), the
      position is searched at the given depth with the other side to move,
      and the cell is blanked again. */
  method TryMove(board: array2<char>, i: int, j: int, m: char, depth: int, alpha: int, beta: int)
    returns (val: int)
    requires Is3x3(board) && 0 <= i < 3 && 0 <= j < 3 && alpha < beta
    requires Cells(board)[Idx(i, j)] == ' ' && (m == 'O' || m == 'X')
    modifies board
    ensures Cells(board) == old(Cells(board))
    ensures FailSoft(val, alpha, beta, Minimax(old(Cells(board))[Idx(i, j) := m], depth, m == 'X'))
    decreases Blanks(Cells(board)), 0
  {
    ghost var g := Cells(board);
    SetCell(board, i, j, m);
    MarkRemovesBlank(g, Idx(i, j), m);
    val := MinimaxAlphaBeta(board, depth, m == 'X', alpha, beta);
    SetCell(board, i, j, ' ');
    assert g[Idx(i, j) := m][Idx(i, j) := ' '] == g;
  }

  /** The score `findBestMove` gives O's move at cell k: the search value of
      the position after it, at depth 0 with X to move. */
  function MoveScore(g: Grid, k: nat): int
    requires k < 9
  {
    Minimax(g[k := 'O'], 0, false)
  }

  /** Among the cells before k, m is the first blank cell of greatest move
      score, and that score is s. */
  predicate BestAmong(g: Grid, k: nat, m: nat, s: int)
    requires k <= 9
  {
    m < k && g[m] == ' ' && s == MoveScore(g, m) &&
    (forall j :: 0 <= j < m && g[j] == ' ' ==> MoveScore(g, j) < s) &&
    (forall j :: m < j < k && g[j] == ' ' ==> MoveScore(g, j) <= s)
  }

  /** Scanning cell k keeps the best move m when k is not blank or does
      not score more than s. */
  lemma BestAmongKept(g: Grid, k: nat, m: nat, s: int)
    requires k < 9 && BestAmong(g, k, m, s)
    requires g[k] == ' ' ==> MoveScore(g, k) <= s
    ensures BestAmong(g, k + 1, m, s)
  {
  }

  /** A blank cell k scoring more than the best so far becomes the best
      move. */
  lemma BestAmongReplaced(g: Grid, k: nat, m: nat, s: int)
    requires k < 9 && g[k] == ' '
    requires BestAmong(g, k, m, s) && MoveScore(g, k) > s
    ensures BestAmong(g, k + 1, k, MoveScore(g, k))
  {
  }

  /** The first blank cell is the best move among the cells up to it. */
  lemma BestAmongFirst(g: Grid, k: nat)
    requires k < 9 && g[k] == ' '
    requires forall j :: 0 <= j < k ==> g[j] != ' '
    ensures BestAmong(g, k + 1, k, MoveScore(g, k))
  {
  }

  /** The move `findBestMove` commits: the first blank cell, in row-major
      order, of greatest move score. */
  predicate IsBestMove(g: Grid, m: nat)
  {
    m < 9 && BestAmong(g, 9, m, MoveScore(g, m))
  }

  /** `findBestMove`: every blank cell in row-major order is tried with an
      O and searched with the root window; a strictly greater score replaces
      the best so far, and O is finally written into the best cell. */
  method FindBestMove(board: array2<char>) returns (row: int, col: int)
    requires Is3x3(board) && !BoardFull(Cells(board))
    modifies board
    ensures 0 <= row < 3 && 0 <= col < 3
    ensures IsBestMove(old(Cells(board)), Idx(row, col))
    ensures Cells(board) == old(Cells(board))[Idx(row, col) := 'O']
  {
    ghost var g := Cells(board);
    var bestScore := -1000;
    var bestRow, bestCol := -1, -1;
    for i := 0 to 3
      invariant Cells(board) == g
      invariant bestRow == -1 ==> bestScore == -1000 && forall k :: 0 <= k < Idx(i, 0) ==> g[k] != ' '
      invariant bestRow != -1 ==>
        0 <= bestRow < 3 && 0 <= bestCol < 3 && BestAmong(g, Idx(i, 0), Idx(bestRow, bestCol), bestScore)
    {
      for j := 0 to 3
        invariant Cells(board) == g
        invariant bestRow == -1 ==> bestScore == -1000 && forall k :: 0 <= k < Idx(i, j) ==> g[k] != ' '
        invariant bestRow != -1 ==>
          0 <= bestRow < 3 && 0 <= bestCol < 3 && BestAmong(g, Idx(i, j), Idx(bestRow, bestCol), bestScore)
      {
        CellAt(board, i, j);
        if board[i, j] == ' ' {
          var moveScore := TryMove(board, i, j, 'O', 0, -1000, 1000);
          RootWindowIsExact(g[Idx(i, j) := 'O'], 0, false, moveScore);
          if moveScore > bestScore {
            if bestRow == -1 {
              BestAmongFirst(g, Idx(i, j));
            } else {
              BestAmongReplaced(g, Idx(i, j), Idx(bestRow, bestCol), bestScore);
            }
            bestScore := moveScore;
            bestRow := i;
            bestCol := j;
          } else if bestRow != -1 {
            BestAmongKept(g, Idx(i, j), Idx(bestRow, bestCol), bestScore);
          }
        } else if bestRow != -1 {
          BestAmongKept(g, Idx(i, j), Idx(bestRow, bestCol), bestScore);
        }
      }
    }
    SetCell(board, bestRow, bestCol, 'O');
    row, col := bestRow, bestCol;
  }

  /** A move that completes a line of O ends the search at once with the
      depth-0 win score. */
  lemma WinningMoveScores100(g: Grid, m: nat)
    requires m < 9 && Winner(g[m := 'O']) == 'O'
    ensures MoveScore(g, m) == 100
  {
  }

  /** After a non-winning O move, each reply of X is worth at most 98: X
      wins at once (-99), fills the board without a winner (0), or O moves
      again at depth 2, where nothing scores above 98. */
  lemma ReplyAtMost98(h: Grid, x: nat)
    requires WellFormed(h) && Winner(h) == ' ' && x < 9 && h[x] == ' '
    ensures AfterX(h, 0, x) <= 98
  {
    var h' := h[x := 'X'];
    PlaceOnOpenBoard(h, x, 'X');
    if Winner(h') != 'X' && BoardFull(h') {
      FullBoardScoresZero(h', 1);
    } else if !Terminal(h') {
      forall j | 0 <= j < 9 && h'[j] == ' '
        ensures AfterO(h', 1, j) <= 98
      {
        MinimaxBounds(h'[j := 'O'], 2, false);
      }
      MaxFromIsMax(h', 1, 0, -1000);
    }
  }

  /** On a well-formed board without a winner, an O move that does not win
      at once scores at most 98. */
  lemma NonWinningMoveAtMost98(g: Grid, m: nat)
    requires WellFormed(g) && Winner(g) == ' ' && m < 9 && g[m] == ' '
    requires Winner(g[m := 'O']) != 'O'
    ensures MoveScore(g, m) <= 98
  {
    var h := g[m := 'O'];
    PlaceOnOpenBoard(g, m, 'O');
    if BoardFull(h) {
      FullBoardScoresZero(h, 0);
    } else {
      var x :| 0 <= x < 9 && h[x] == ' ';
      MinFromIsMin(h, 0, 0, 1000);
      ReplyAtMost98(h, x);
    }
  }

  /** When some blank cell lets O complete a line, the move `findBestMove`
      commits is such a cell: it scores 100 and every other move at most 98. */
  lemma BestMoveTakesImmediateWin(g: Grid, m: nat, w: nat)
    requires WellFormed(g) && Winner(g) == ' ' && IsBestMove(g, m)
    requires w < 9 && g[w] == ' ' && Winner(g[w := 'O']) == 'O'
    ensures Winner(g[m := 'O']) == 'O'
  {
    WinningMoveScores100(g, w);
    if Winner(g[m := 'O']) != 'O' {
      NonWinningMoveAtMost98(g, m);
    }
  }

  /** A board with a winner has a complete line holding the winner's mark. */
  lemma WinningLine(g: Grid) returns (l: nat)
    requires Winner(g) != ' '
    ensures l < 8 && Complete(g, l) && g[Pos(l, 0)] == Winner(g)
  {
    WinnerIsFirstCompleteLine(g);
    l :| 0 <= l < 8 && Complete(g, l) && g[Pos(l, 0)] == Winner(g) && forall j :: 0 <= j < l ==> !Complete(g, j);
  }

  /** A board with a complete line has a winner. */
  lemma LineGivesWinner(g: Grid, l: nat)
    requires l < 8 && Complete(g, l)
    ensures Winner(g) != ' '
  {
    WinnerIsFirstCompleteLine(g);
  }

  /** After a non-winning O move, an X reply that does not win at once is
      worth at least -98: the board is full (0) or O moves again at depth 2,
      where nothing scores below -98. */
  lemma ReplyAtLeastMinus98(h: Grid, x: nat)
    requires WellFormed(h) && Winner(h) == ' ' && x < 9 && h[x] == ' '
    requires Winner(h[x := 'X']) != 'X'
    ensures AfterX(h, 0, x) >= -98
  {
    var h' := h[x := 'X'];
    PlaceOnOpenBoard(h, x, 'X');
    if BoardFull(h') {
      FullBoardScoresZero(h', 1);
    } else {
      var j :| 0 <= j < 9 && h'[j] == ' ';
      MinimaxBounds(h'[j := 'O'], 2, false);
      MaxFromIsMax(h', 1, 0, -1000);
    }
  }

  /** When t is the only cell where X would complete a line, no X reply to
      an O move at t wins: a line X completes there avoids t, so X could
      already complete it at the reply cell alone. */
  lemma NoSecondThreat(g: Grid, t: nat, x: nat)
    requires Winner(g) == ' ' && t < 9 && x < 9 && t != x && g[t] == ' ' && g[x] == ' '
    requires forall u :: 0 <= u < 9 && g[u] == ' ' && Winner(g[u := 'X']) == 'X' ==> u == t
    ensures Winner(g[t := 'O'][x := 'X']) != 'X'
  {
    var b := g[t := 'O'][x := 'X'];
    if Winner(b) == 'X' {
      var l := WinningLine(b);
      var a := g[x := 'X'];
      assert a[Pos(l, 0)] == b[Pos(l, 0)] && a[Pos(l, 1)] == b[Pos(l, 1)] && a[Pos(l, 2)] == b[Pos(l, 2)];
      LineGivesWinner(a, l);
      PlaceOnOpenBoard(g, x, 'X');
    }
  }

  /** O blocking the only X threat at t, without winning itself, scores at
      least -98. */
  lemma BlockingMoveScore(g: Grid, t: nat)
    requires WellFormed(g) && Winner(g) == ' ' && t < 9 && g[t] == ' '
    requires Winner(g[t := 'O']) != 'O'
    requires forall u :: 0 <= u < 9 && g[u] == ' ' && Winner(g[u := 'X']) == 'X' ==> u == t
    ensures MoveScore(g, t) >= -98
  {
    var h := g[t := 'O'];
    PlaceOnOpenBoard(g, t, 'O');
    if BoardFull(h) {
      FullBoardScoresZero(h, 0);
    } else {
      forall x | 0 <= x < 9 && h[x] == ' '
        ensures AfterX(h, 0, x) >= -98
      {
        NoSecondThreat(g, t, x);
        ReplyAtLeastMinus98(h, x);
      }
      MinFromIsMin(h, 0, 0, 1000);
    }
  }

  /** An X threat at t survives an O move elsewhere: the line X would
      complete does not pass through the blank cell m. */
  lemma ThreatSurvives(g: Grid, t: nat, m: nat)
    requires Winner(g) == ' ' && t < 9 && m < 9 && t != m && g[t] == ' ' && g[m] == ' '
    requires Winner(g[m := 'O']) == ' ' && Winner(g[t := 'X']) == 'X'
    ensures Winner(g[m := 'O'][t := 'X']) == 'X'
  {
    var h := g[m := 'O'];
    var a, b := g[t := 'X'], h[t := 'X'];
    var l := WinningLine(a);
    assert a[Pos(l, 0)] == b[Pos(l, 0)] && a[Pos(l, 1)] == b[Pos(l, 1)] && a[Pos(l, 2)] == b[Pos(l, 2)];
    LineGivesWinner(b, l);
    PlaceOnOpenBoard(h, t, 'X');
  }

  /** An O move at m that neither wins nor blocks the X threat at t scores
      at most -99: X completes its line at depth 1. */
  lemma UnblockedThreatScore(g: Grid, t: nat, m: nat)
    requires Winner(g) == ' ' && t < 9 && m < 9 && t != m && g[t] == ' ' && g[m] == ' '
    requires Winner(g[m := 'O']) != 'O' && Winner(g[t := 'X']) == 'X'
    ensures MoveScore(g, m) <= -99
  {
    var h := g[m := 'O'];
    PlaceOnOpenBoard(g, m, 'O');
    ThreatSurvives(g, t, m);
    assert h[t] == ' ' && !Terminal(h);
    assert AfterX(h, 0, t) == -99;
    MinFromIsMin(h, 0, 0, 1000);
  }

  /** When O cannot win at once and X threatens to complete a line at a
      single cell t, the move `findBestMove` commits is t: blocking scores at
      least -98 and every other move at most -99. With two or more X threat
      cells every move scores -99, no move blocks, and the first blank cell
      is chosen. */
  lemma BestMoveBlocks(g: Grid, m: nat, t: nat)
    requires WellFormed(g) && Winner(g) == ' ' && IsBestMove(g, m)
    requires forall w :: 0 <= w < 9 && g[w] == ' ' ==> Winner(g[w := 'O']) != 'O'
    requires t < 9 && g[t] == ' ' && Winner(g[t := 'X']) == 'X'
    requires forall u :: 0 <= u < 9 && g[u] == ' ' && Winner(g[u := 'X']) == 'X' ==> u == t
    ensures m == t
  {
    BlockingMoveScore(g, t);
    if m != t {
      UnblockedThreatScore(g, t, m);
    }
  }
}

/** Position scoring for the search engine: a depth-adjusted score for a won
    board and a line-counting heuristic otherwise. O is the engine's mark,
    X the human's. */
module Evaluator {
  import opened Board

  /** How many of the first n cells of line k hold ch. */
  function CountOn(g: Grid, k: nat, n: nat, ch: char): nat
    requires k < 8 && n <= 3
  {
    if n == 0 then 0 else CountOn(g, k, n - 1, ch) + (if g[Pos(k, n - 1)] == ch then 1 else 0)
  }

  /** One more cell of line k, at grid index p, read into both counts. */
  lemma CountStep(g: Grid, k: nat, n: nat, p: nat)
    requires k < 8 && n < 3 && Pos(k, n) == p
    ensures CountOn(g, k, n + 1, 'O') == CountOn(g, k, n, 'O') + (if g[p] == 'O' then 1 else 0)
    ensures CountOn(g, k, n + 1, 'X') == CountOn(g, k, n, 'X') + (if g[p] == 'X' then 1 else 0)
  {
  }

  /** +5 for a line with two O and no X, -5 for two X and no O, else 0. */
  function LineScore(g: Grid, k: nat): int
    requires k < 8
  {
    var o := CountOn(g, k, 3, 'O');
    var x := CountOn(g, k, 3, 'X');
    (if o == 2 && x == 0 then 5 else 0) - (if x == 2 && o == 0 then 5 else 0)
  }

  /** The score of line k from its O and X counts. */
  lemma ScoreFromCounts(g: Grid, k: nat, o: nat, x: nat)
    requires k < 8 && o == CountOn(g, k, 3, 'O') && x == CountOn(g, k, 3, 'X')
    ensures LineScore(g, k) == (if o == 2 && x == 0 then 5 else 0) - (if x == 2 && o == 0 then 5 else 0)
  {
  }

  /** The heuristic summed over the first n lines. */
  function LineSum(g: Grid, n: nat): int
    requires n <= 8
  {
    if n == 0 then 0 else LineSum(g, n - 1) + LineScore(g, n - 1)
  }

  /** The value `evaluateHeuristic` gives a board reached after `depth` plies:
      wins count for more the sooner they come. */
  function Evaluate(g: Grid, depth: int): int
  {
    var w := Winner(g);
    if w == 'O' then 100 - depth
    else if w == 'X' then depth - 100
    else LineSum(g, 8)
  }

  /** Rows 0..n-1 and columns 0..n-1 together, in the order the row/column
      loop of `evaluateHeuristic` visits them. */
  function RowColSum(g: Grid, n: nat): int
    requires n <= 3
  {
    if n == 0 then 0 else RowColSum(g, n - 1) + LineScore(g, n - 1) + LineScore(g, 3 + n - 1)
  }

  lemma RowColStep(g: Grid, n: nat)
    requires n < 3
    ensures RowColSum(g, n + 1) == RowColSum(g, n) + LineScore(g, n) + LineScore(g, 3 + n)
  {
  }

  lemma RowsColsThenDiagonals(g: Grid)
    ensures RowColSum(g, 3) + LineScore(g, 6) + LineScore(g, 7) == LineSum(g, 8)
  {
    assert RowColSum(g, 3) == LineScore(g, 0) + LineScore(g, 3) + LineScore(g, 1) + LineScore(g, 4)
      + LineScore(g, 2) + LineScore(g, 5) by {
      assert RowColSum(g, 1) == LineScore(g, 0) + LineScore(g, 3);
      assert RowColSum(g, 2) == RowColSum(g, 1) + LineScore(g, 1) + LineScore(g, 4);
    }
    assert LineSum(g, 8) == LineScore(g, 0) + LineScore(g, 1) + LineScore(g, 2) + LineScore(g, 3)
      + LineScore(g, 4) + LineScore(g, 5) + LineScore(g, 6) + LineScore(g, 7) by {
      assert LineSum(g, 1) == LineScore(g, 0);
      assert LineSum(g, 2) == LineSum(g, 1) + LineScore(g, 1);
      assert LineSum(g, 3) == LineSum(g, 2) + LineScore(g, 2);
      assert LineSum(g, 4) == LineSum(g, 3) + LineScore(g, 3);
      assert LineSum(g, 5) == LineSum(g, 4) + LineScore(g, 4);
      assert LineSum(g, 6) == LineSum(g, 5) + LineScore(g, 5);
      assert LineSum(g, 7) == LineSum(g, 6) + LineScore(g, 6);
    }
  }

  /** Each line adds at most 5 in either direction, so the heuristic part of
      the score lies in [-40, 40]. */
  lemma {:induction false} LineSumBounds(g: Grid, n: nat)
    requires n <= 8
    ensures -5 * n <= LineSum(g, n) <= 5 * n
  {
    if n > 0 {
      LineSumBounds(g, n - 1);
    }
  }

  /** On a full board every line holds three marks. */
  lemma {:induction false} FullLineCounts(g: Grid, k: nat, n: nat)
    requires WellFormed(g) && BoardFull(g)
    requires k < 8 && n <= 3
    ensures CountOn(g, k, n, 'O') + CountOn(g, k, n, 'X') == n
  {
    if n > 0 {
      FullLineCounts(g, k, n - 1);
    }
  }

  lemma {:induction false} FullLineSum(g: Grid, n: nat)
    requires WellFormed(g) && BoardFull(g)
    requires n <= 8
    ensures LineSum(g, n) == 0
  {
    if n > 0 {
      FullLineSum(g, n - 1);
      FullLineCounts(g, n - 1, 3);
    }
  }

  /** A full board without a winner scores exactly 0: no line can hold two
      of one mark and none of the other. */
  lemma FullBoardScoresZero(g: Grid, depth: int)
    requires WellFormed(g) && BoardFull(g)
    ensures LineSum(g, 8) == 0
    ensures Winner(g) != 'O' && Winner(g) != 'X' ==> Evaluate(g, depth) == 0
  {
    FullLineSum(g, 8);
  }

  /** Win scores dominate the heuristic: within 60 plies a win for O scores
      above 40, a win for X below -40, and anything else lies in [-40, 40]. */
  lemma EvaluateBounds(g: Grid, depth: int)
    requires 0 <= depth <= 60
    ensures depth - 100 <= Evaluate(g, depth) <= 100 - depth
    ensures Winner(g) == 'O' ==> Evaluate(g, depth) == 100 - depth
    ensures Winner(g) == 'X' ==> Evaluate(g, depth) == depth - 100
    ensures Winner(g) != 'O' && Winner(g) != 'X' ==> -40 <= Evaluate(g, depth) <= 40
  {
    LineSumBounds(g, 8);
  }

  /** The inner loop of `evaluateHeuristic`: X and O counts of row i and
      of column i, read in one pass. */
  method CountRowAndColumn(board: array2<char>, i: nat) returns (rowX: nat, rowO: nat, colX: nat, colO: nat)
    requires Is3x3(board) && i < 3
    ensures rowX == CountOn(Cells(board), i, 3, 'X') && rowO == CountOn(Cells(board), i, 3, 'O')
    ensures colX == CountOn(Cells(board), 3 + i, 3, 'X') && colO == CountOn(Cells(board), 3 + i, 3, 'O')
  {
    ghost var g := Cells(board);
    rowX, rowO := 0, 0;
    colX, colO := 0, 0;
    for j := 0 to 3
      invariant rowX == CountOn(g, i, j, 'X') && rowO == CountOn(g, i, j, 'O')
      invariant colX == CountOn(g, 3 + i, j, 'X') && colO == CountOn(g, 3 + i, j, 'O')
    {
      CellAt(board, i, j);
      CountStep(g, i, j, Idx(i, j));
      CellAt(board, j, i);
      CountStep(g, 3 + i, j, Idx(j, i));
      if board[i, j] == 'X' { rowX := rowX + 1; }
      if board[i, j] == 'O' { rowO := rowO + 1; }
      if board[j, i] == 'X' { colX := colX + 1; }
      if board[j, i] == 'O' { colO := colO + 1; }
    }
  }

  /** The diagonal loop of `evaluateHeuristic`: O and X counts of the main
      diagonal and of the anti-diagonal, read in one pass. */
  method CountDiagonals(board: array2<char>) returns (diag1O: nat, diag1X: nat, diag2O: nat, diag2X: nat)
    requires Is3x3(board)
    ensures diag1O == CountOn(Cells(board), 6, 3, 'O') && diag1X == CountOn(Cells(board), 6, 3, 'X')
    ensures diag2O == CountOn(Cells(board), 7, 3, 'O') && diag2X == CountOn(Cells(board), 7, 3, 'X')
  {
    ghost var g := Cells(board);
    diag1O, diag1X := 0, 0;
    diag2O, diag2X := 0, 0;
    for i := 0 to 3
      invariant diag1O == CountOn(g, 6, i, 'O') && diag1X == CountOn(g, 6, i, 'X')
      invariant diag2O == CountOn(g, 7, i, 'O') && diag2X == CountOn(g, 7, i, 'X')
    {
      CellAt(board, i, i);
      CountStep(g, 6, i, Idx(i, i));
      CellAt(board, i, 3 - i - 1);
      CountStep(g, 7, i, Idx(i, 3 - i - 1));
      if board[i, i] == 'O' { diag1O := diag1O + 1; }
      if board[i, i] == 'X' { diag1X := diag1X + 1; }
      if board[i, 3 - i - 1] == 'O' { diag2O := diag2O + 1; }
      if board[i, 3 - i - 1] == 'X' { diag2X := diag2X + 1; }
    }
  }

  /** `evaluateHeuristic`: a won board scores ±(100 - depth); otherwise rows
      and columns are scored in one loop and the two diagonals after it. */
  method EvaluateHeuristic(board: array2<char>, depth: int) returns (score: int)
    requires Is3x3(board)
    ensures score == Evaluate(Cells(board), depth)
  {
    var winner := CheckWin(board);
    if winner == 'O' {
      return 100 - depth;
    }
    if winner == 'X' {
      return depth - 100;
    }

    ghost var g := Cells(board);
    score := 0;
    for i := 0 to 3
      invariant score == RowColSum(g, i)
    {
      var rowX, rowO, colX, colO := CountRowAndColumn(board, i);
      ScoreFromCounts(g, i, rowO, rowX);
      ScoreFromCounts(g, 3 + i, colO, colX);
      ghost var before := score;
      if rowO == 2 && rowX == 0 { score := score + 5; }
      if colO == 2 && colX == 0 { score := score + 5; }
      if rowX == 2 && rowO == 0 { score := score - 5; }
      if colX == 2 && colO == 0 { score := score - 5; }
      assert score == before + LineScore(g, i) + LineScore(g, 3 + i);
      RowColStep(g, i);
    }

    var diag1O, diag1X, diag2O, diag2X := CountDiagonals(board);
    ScoreFromCounts(g, 6, diag1O, diag1X);
    ScoreFromCounts(g, 7, diag2O, diag2X);
    if diag1O == 2 && diag1X == 0 { score := score + 5; }
    if diag2O == 2 && diag2X == 0 { score := score + 5; }
    if diag1X == 2 && diag1O == 0 { score := score - 5; }
    if diag2X == 2 && diag2O == 0 { score := score - 5; }
    RowsColsThenDiagonals(g);
  }
}

/** The 3×3 tic-tac-toe board shared by the two-player game and the search
    engine: its contents, its eight lines, the winner query and the
    full-board query. */
module Board {

  /** Board contents in row-major order: cell (r, c) is at index 3 * r + c. */
  type Grid = g: seq<char> | |g| == 9 witness "         "

  /** The board the games start from: every cell blank. */
  const EmptyGrid: Grid := "         "

  predicate Is3x3(a: array2<char>)
  {
    a.Length0 == 3 && a.Length1 == 3
  }

  function Idx(r: int, c: int): int
  {
    3 * r + c
  }

  /** The row of grid index k. */
  function RowOf(k: int): (r: int)
    requires 0 <= k < 9
    ensures 0 <= r < 3 && 0 <= k - 3 * r < 3
  {
    if k < 3 then 0 else if k < 6 then 1 else 2
  }

  /** The contents of a `char[3][3]` board as a grid. */
  function Cells(a: array2<char>): (g: Grid)
    reads a
    requires Is3x3(a)
  {
    seq(9, k requires 0 <= k < 9 reads a => a[RowOf(k), k - 3 * RowOf(k)])
  }

  /** Cell (i, j) of the array is cell Idx(i, j) of the grid. */
  lemma CellAt(a: array2<char>, i: int, j: int)
    requires Is3x3(a) && 0 <= i < 3 && 0 <= j < 3
    ensures Cells(a)[Idx(i, j)] == a[i, j]
  {
  }

  lemma AllCells(a: array2<char>)
    requires Is3x3(a)
    ensures forall i, j :: 0 <= i < 3 && 0 <= j < 3 ==> Cells(a)[Idx(i, j)] == a[i, j]
  {
    forall i, j | 0 <= i < 3 && 0 <= j < 3
      ensures Cells(a)[Idx(i, j)] == a[i, j]
    {
      CellAt(a, i, j);
    }
  }

  /** An array of blanks shows the starting board. */
  lemma BlankArray(a: array2<char>)
    requires Is3x3(a) && forall i, j :: 0 <= i < 3 && 0 <= j < 3 ==> a[i, j] == ' '
    ensures Cells(a) == EmptyGrid
  {
    forall k | 0 <= k < 9
      ensures Cells(a)[k] == EmptyGrid[k]
    {
    }
  }

  /** Every cell holds a blank or one of the two marks. */
  predicate WellFormed(g: Grid)
  {
    forall k :: 0 <= k < 9 ==> g[k] == ' ' || g[k] == 'X' || g[k] == 'O'
  }

  /** Number of blank cells; every recursive search step lowers it. */
  function Blanks(g: Grid): nat
  {
    multiset(g)[' ']
  }

  /** Marking a blank cell removes exactly one blank. */
  lemma MarkRemovesBlank(g: Grid, k: nat, m: char)
    requires k < 9 && g[k] == ' ' && m != ' '
    ensures Blanks(g[k := m]) == Blanks(g) - 1
  {
  }

  /** The t-th cell of line k, in the order the winner check compares them:
      lines 0..2 are the rows, 3..5 the columns, 6 the main diagonal
      (0,0)-(2,2) and 7 the anti-diagonal (0,2)-(2,0). */
  function Pos(k: nat, t: nat): (p: nat)
    requires k < 8 && t < 3
    ensures p < 9
  {
    if k < 3 then Idx(k, t)
    else if k < 6 then Idx(t, k - 3)
    else if k == 6 then Idx(t, t)
    else Idx(t, 2 - t)
  }

  /** Line k holds one non-blank character in all three cells. */
  predicate Complete(g: Grid, k: nat)
    requires k < 8
  {
    g[Pos(k, 0)] != ' ' && g[Pos(k, 0)] == g[Pos(k, 1)] && g[Pos(k, 1)] == g[Pos(k, 2)]
  }

  /** The mark of the first complete line among lines k..7, or blank. */
  function WinnerFrom(g: Grid, k: nat): char
    requires k <= 8
    decreases 8 - k
  {
    if k == 8 then ' '
    else if Complete(g, k) then g[Pos(k, 0)]
    else WinnerFrom(g, k + 1)
  }

  /** The winner as `checkWin` reports it: the mark of the first complete
      line, rows before columns before diagonals. */
  function Winner(g: Grid): char
  {
    WinnerFrom(g, 0)
  }

  /** No cell is blank. */
  predicate BoardFull(g: Grid)
  {
    forall k :: 0 <= k < 9 ==> g[k] != ' '
  }

  lemma {:induction false} WinnerFromSpec(g: Grid, k: nat)
    requires k <= 8
    ensures WinnerFrom(g, k) == ' ' <==> forall j :: k <= j < 8 ==> !Complete(g, j)
    ensures WinnerFrom(g, k) != ' ' ==>
      exists j :: k <= j < 8 && Complete(g, j) && g[Pos(j, 0)] == WinnerFrom(g, k) &&
        forall i :: k <= i < j ==> !Complete(g, i)
    decreases 8 - k
  {
    if k < 8 {
      if Complete(g, k) {
        assert k <= k < 8 && Complete(g, k) && g[Pos(k, 0)] == WinnerFrom(g, k);
      } else {
        WinnerFromSpec(g, k + 1);
        if WinnerFrom(g, k) != ' ' {
          var j :| k + 1 <= j < 8 && Complete(g, j) && g[Pos(j, 0)] == WinnerFrom(g, k + 1) &&
            forall i :: k + 1 <= i < j ==> !Complete(g, i);
          assert forall i :: k <= i < j ==> !Complete(g, i);
        }
      }
    }
  }

  /** The winner is blank exactly when no line is complete; otherwise it is
      the mark of a complete line, and no earlier line is complete. */
  lemma WinnerIsFirstCompleteLine(g: Grid)
    ensures Winner(g) == ' ' <==> forall k :: 0 <= k < 8 ==> !Complete(g, k)
    ensures Winner(g) != ' ' ==>
      exists k :: 0 <= k < 8 && Complete(g, k) && g[Pos(k, 0)] == Winner(g) &&
        forall j :: 0 <= j < k ==> !Complete(g, j)
  {
    WinnerFromSpec(g, 0);
  }

  /** The starting board is well formed, has no winner and has blanks. */
  lemma EmptyGridIsOpen()
    ensures WellFormed(EmptyGrid) && Winner(EmptyGrid) == ' ' && !BoardFull(EmptyGrid)
  {
    forall k | 0 <= k < 8
      ensures !Complete(EmptyGrid, k)
    {
      assert EmptyGrid[Pos(k, 0)] == ' ';
    }
    WinnerIsFirstCompleteLine(EmptyGrid);
    assert EmptyGrid[0] == ' ';
  }

  /** Marking one blank cell of a board without a complete line can only
      produce a win for that mark. */
  lemma PlaceOnOpenBoard(g: Grid, k: nat, m: char)
    requires k < 9 && g[k] == ' ' && m != ' '
    requires Winner(g) == ' '
    ensures Winner(g[k := m]) == ' ' || Winner(g[k := m]) == m
  {
    var h := g[k := m];
    WinnerIsFirstCompleteLine(g);
    WinnerIsFirstCompleteLine(h);
    if Winner(h) != ' ' {
      var l :| 0 <= l < 8 && Complete(h, l) && h[Pos(l, 0)] == Winner(h);
      assert !Complete(g, l);
      assert Pos(l, 0) == k || Pos(l, 1) == k || Pos(l, 2) == k;
    }
  }

  /** Line k of a board, read off the array at the three cells
      (r0, c0), (r1, c1), (r2, c2) that the line visits. */
  lemma LineOnArray(a: array2<char>, g: Grid, k: nat, r0: int, c0: int, r1: int, c1: int, r2: int, c2: int)
    requires Is3x3(a) && g == Cells(a) && k < 8
    requires 0 <= r0 < 3 && 0 <= c0 < 3 && 0 <= r1 < 3 && 0 <= c1 < 3 && 0 <= r2 < 3 && 0 <= c2 < 3
    requires Pos(k, 0) == Idx(r0, c0) && Pos(k, 1) == Idx(r1, c1) && Pos(k, 2) == Idx(r2, c2)
    ensures g[Pos(k, 0)] == a[r0, c0]
    ensures Complete(g, k) <==> a[r0, c0] != ' ' && a[r0, c0] == a[r1, c1] && a[r1, c1] == a[r2, c2]
  {
    CellAt(a, r0, c0);
    CellAt(a, r1, c1);
    CellAt(a, r2, c2);
  }

  /** Row i of the board as line i. */
  lemma RowOnArray(a: array2<char>, g: Grid, i: nat)
    requires Is3x3(a) && g == Cells(a) && i < 3
    ensures g[Pos(i, 0)] == a[i, 0]
    ensures Complete(g, i) <==> a[i, 0] != ' ' && a[i, 0] == a[i, 1] && a[i, 1] == a[i, 2]
  {
    LineOnArray(a, g, i, i, 0, i, 1, i, 2);
  }

  /** Column i of the board as line 3 + i. */
  lemma ColumnOnArray(a: array2<char>, g: Grid, i: nat)
    requires Is3x3(a) && g == Cells(a) && i < 3
    ensures g[Pos(3 + i, 0)] == a[0, i]
    ensures Complete(g, 3 + i) <==> a[0, i] != ' ' && a[0, i] == a[1, i] && a[1, i] == a[2, i]
  {
    LineOnArray(a, g, 3 + i, 0, i, 1, i, 2, i);
  }

  /** `checkWin`: rows, then columns, then the two diagonals; the first line
      whose three cells are equal and not blank gives the winner. */
  method CheckWin(board: array2<char>) returns (w: char)
    requires Is3x3(board)
    ensures w == Winner(Cells(board))
  {
    ghost var g := Cells(board);
    for i := 0 to 3
      invariant Winner(g) == WinnerFrom(g, i)
    {
      RowOnArray(board, g, i);
      if board[i, 0] != ' ' && board[i, 0] == board[i, 1] && board[i, 1] == board[i, 2] {
        return board[i, 0];
      }
    }
    for i := 0 to 3
      invariant Winner(g) == WinnerFrom(g, 3 + i)
    {
      ColumnOnArray(board, g, i);
      if board[0, i] != ' ' && board[0, i] == board[1, i] && board[1, i] == board[2, i] {
        return board[0, i];
      }
    }
    LineOnArray(board, g, 6, 0, 0, 1, 1, 2, 2);
    if board[0, 0] != ' ' && board[0, 0] == board[1, 1] && board[1, 1] == board[2, 2] {
      return board[0, 0];
    }
    assert Winner(g) == WinnerFrom(g, 6);
    LineOnArray(board, g, 7, 0, 2, 1, 1, 2, 0);
    if board[0, 2] != ' ' && board[0, 2] == board[1, 1] && board[1, 1] == board[2, 0] {
      return board[0, 2];
    }
    assert Winner(g) == WinnerFrom(g, 8);
    return ' ';
  }

  /** A fresh board with every cell blanked, as both games set it up. */
  method NewBoard() returns (board: array2<char>)
    ensures fresh(board) && Is3x3(board) && Cells(board) == EmptyGrid
  {
    board := new char[3, 3];
    for i := 0 to 3
      invariant forall r, c :: 0 <= r < i && 0 <= c < 3 ==> board[r, c] == ' '
    {
      for j := 0 to 3
        invariant forall r, c :: 0 <= r < 3 && 0 <= c < 3 && (r < i || (r == i && c < j)) ==> board[r, c] == ' '
      {
        board[i, j] := ' ';
      }
    }
    BlankArray(board);
  }

  /** `board[i][j] = m`: one cell written, every other cell kept. */
  method SetCell(board: array2<char>, i: int, j: int, m: char)
    requires Is3x3(board) && 0 <= i < 3 && 0 <= j < 3
    modifies board
    ensures Cells(board) == old(Cells(board))[Idx(i, j) := m]
  {
    board[i, j] := m;
  }

  /** `isFull`: scans the cells row by row and stops at the first blank. */
  method IsFull(board: array2<char>) returns (full: bool)
    requires Is3x3(board)
    ensures full <==> BoardFull(Cells(board))
  {
    for i := 0 to 3
      invariant forall r, c :: 0 <= r < i && 0 <= c < 3 ==> board[r, c] != ' '
    {
      for j := 0 to 3
        invariant forall r, c :: 0 <= r < 3 && 0 <= c < 3 && (r < i || (r == i && c < j)) ==> board[r, c] != ' '
      {
        if board[i, j] == ' ' {
          CellAt(board, i, j);
          return false;
        }
      }
    }
    AllCells(board);
    SameCellsFull(Cells(board));
    return true;
  }

  lemma SameCellsFull(g: Grid)
    requires forall i, j :: 0 <= i < 3 && 0 <= j < 3 ==> g[Idx(i, j)] != ' '
    ensures BoardFull(g)
  {
    forall k | 0 <= k < 9
      ensures g[k] != ' '
    {
      assert k == Idx(RowOf(k), k - 3 * RowOf(k));
    }
  }
}

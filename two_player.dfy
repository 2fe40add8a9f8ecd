/** The two-player game: X and O take turns entering a row and a column
    from 1 to 3; a move into a cell outside the board or into an occupied
    cell is refused and the same player enters another. */
module TwoPlayer {
  import opened Board

  /** What one entered move leads to. */
  datatype Outcome = Rejected | Won(winner: char) | Draw | Continue

  /** The player who moves after p. */
  function Other(p: char): char
  {
    if p == 'X' then 'O' else 'X'
  }

  /** How many cells hold ch. */
  function Count(g: Grid, ch: char): nat
  {
    multiset(g)[ch]
  }

  /** X moves first, so with X to move both have placed as many marks, and
      with O to move X has placed one more. */
  predicate Balanced(g: Grid, p: char)
  {
    (p == 'X' && Count(g, 'X') == Count(g, 'O')) || (p == 'O' && Count(g, 'X') == Count(g, 'O') + 1)
  }

  /** The move (row, col), counted from 1, is on the board and its cell is
      blank. */
  predicate Accepts(g: Grid, row: int, col: int)
  {
    1 <= row <= 3 && 1 <= col <= 3 && g[Idx(row - 1, col - 1)] == ' '
  }

  /** A balanced board stays balanced when the player to move marks a blank
      cell and the turn passes to the other player. */
  lemma PlaceKeepsBalance(g: Grid, k: nat, p: char)
    requires k < 9 && g[k] == ' ' && Balanced(g, p)
    ensures Balanced(g[k := p], Other(p))
  {
    assert multiset(g[k := p]) == multiset(g) - multiset{' '} + multiset{p};
  }

  /** At every turn boundary X has placed as many marks as O or one more. */
  lemma BalancedMarkDifference(g: Grid, p: char)
    requires Balanced(g, p)
    ensures 0 <= Count(g, 'X') - Count(g, 'O') <= 1
    ensures Count(g, 'X') - Count(g, 'O') == (if p == 'X' then 0 else 1)
  {
  }

  /** The state at the start of every turn: a well-formed board without a
      winner and with a blank cell, marks balanced for the player p to move. */
  predicate Open(g: Grid, p: char)
  {
    WellFormed(g) && Balanced(g, p) && Winner(g) == ' ' && !BoardFull(g)
  }

  /** What one turn leaves behind: its outcome, the board and the player to
      move next. */
  datatype Step = Step(outcome: Outcome, grid: Grid, player: char)

  /** One pass of the two-player turn loop with player p entering (row, col),
      counted from 1. */
  function Turn(g: Grid, p: char, row: int, col: int): Step
  {
    if !Accepts(g, row, col) then Step(Rejected, g, p)
    else
      var h := g[Idx(row - 1, col - 1) := p];
      if Winner(h) != ' ' then Step(Won(Winner(h)), h, p)
      else if BoardFull(h) then Step(Draw, h, p)
      else Step(Continue, h, Other(p))
  }

  /** A move is refused exactly when it is off the board or on a taken cell,
      and a refused move changes neither the board nor the player. */
  lemma TurnRejects(g: Grid, p: char, row: int, col: int)
    ensures Turn(g, p, row, col).outcome == Rejected <==>
      !(1 <= row <= 3 && 1 <= col <= 3) || g[Idx(row - 1, col - 1)] != ' '
    ensures Turn(g, p, row, col).outcome == Rejected ==>
      Turn(g, p, row, col).grid == g && Turn(g, p, row, col).player == p
  {
  }

  /** An accepted move writes the player's mark into that one cell and
      changes no other cell. */
  lemma TurnWritesOneCell(g: Grid, p: char, row: int, col: int)
    requires Accepts(g, row, col)
    ensures Turn(g, p, row, col).grid[Idx(row - 1, col - 1)] == p
    ensures forall k :: 0 <= k < 9 && k != Idx(row - 1, col - 1) ==> Turn(g, p, row, col).grid[k] == g[k]
  {
  }

  /** From an open position a turn either is refused or continues, leaving an
      open position with the turn passed on, or ends the game: a win only for
      the player who moved (with the player kept), or a draw on a full board
      without a winner. */
  lemma TurnFromOpen(g: Grid, p: char, row: int, col: int)
    requires Open(g, p)
    ensures var s := Turn(g, p, row, col);
      (s.outcome == Rejected ==> Open(s.grid, s.player)) &&
      (s.outcome == Continue ==> Open(s.grid, s.player) && s.player == Other(p)) &&
      (s.outcome.Won? ==> s.outcome.winner == p && Winner(s.grid) == p && s.player == p) &&
      (s.outcome == Draw ==> BoardFull(s.grid) && Winner(s.grid) == ' ' && s.player == p)
  {
    if Accepts(g, row, col) {
      var k := Idx(row - 1, col - 1);
      PlaceOnOpenBoard(g, k, p);
      PlaceKeepsBalance(g, k, p);
      assert WellFormed(g[k := p]);
    }
  }

  /** One game between two human players: the shared board and the player
      to move. */
  class Match {
    const board: array2<char>
    var currentPlayer: char

    predicate Valid()
      reads this, board
    {
      Is3x3(board) && Open(Cells(board), currentPlayer)
    }

    /** An empty board with X to move. */
    constructor ()
      ensures Valid() && fresh(board)
      ensures Cells(board) == EmptyGrid && currentPlayer == 'X'
    {
      var cells := NewBoard();
      board := cells;
      currentPlayer := 'X';
      new;
      EmptyGridIsOpen();
      assert multiset(EmptyGrid) == multiset{' ', ' ', ' ', ' ', ' ', ' ', ' ', ' ', ' '};
    }

    /** One pass of the turn loop: validate the move, place the current
        player's mark, then report a win or a draw, or pass the turn. */
    method Play(row: int, col: int) returns (outcome: Outcome)
      requires Valid()
      modifies this, board
      ensures Step(outcome, Cells(board), currentPlayer) == Turn(old(Cells(board)), old(currentPlayer), row, col)
      ensures outcome == Rejected || outcome == Continue ==> Valid()
    {
      ghost var g, p := Cells(board), currentPlayer;
      if row < 1 || row > 3 || col < 1 || col > 3 {
        assert Turn(g, p, row, col) == Step(Rejected, g, p);
        TurnFromOpen(g, p, row, col);
        return Rejected;
      }
      CellAt(board, row - 1, col - 1);
      if board[row - 1, col - 1] != ' ' {
        assert Turn(g, p, row, col) == Step(Rejected, g, p);
        TurnFromOpen(g, p, row, col);
        return Rejected;
      }
      SetCell(board, row - 1, col - 1, currentPlayer);
      ghost var h := Cells(board);
      assert Accepts(g, row, col) && h == g[Idx(row - 1, col - 1) := p];
      var winner := CheckWin(board);
      if winner != ' ' {
        assert Turn(g, p, row, col) == Step(Won(winner), h, p);
        return Won(winner);
      }
      var full := IsFull(board);
      if full {
        assert Turn(g, p, row, col) == Step(Draw, h, p);
        return Draw;
      }
      assert Turn(g, p, row, col) == Step(Continue, h, Other(p));
      currentPlayer := if currentPlayer == 'X' then 'O' else 'X';
      assert Cells(board) == h;
      TurnFromOpen(g, p, row, col);
      return Continue;
    }
  }
}

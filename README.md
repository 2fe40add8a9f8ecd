# Terminal board games — a verified model of their core

Three small C games keep their whole state in fixed-size grids that they change in place:

- a tic-tac-toe engine (`tictactoe_heuristic.c`), where O is searched by fail-soft alpha-beta minimax over one shared `char[3][3]`;
- a two-player tic-tac-toe (`tictactoe.c`);
- a Tetris playfield (`tetris_not_mine.c`): a 25×15 board and one 4×4 piece.

This project models their core in Dafny and proves what the code promises about it.

- `board.dfy` (module `Board`) holds the tic-tac-toe board, which both tic-tac-toe games share.
  - The C `char[3][3]` is an `array2<char>`. `Cells` shows its contents as a 9-character grid in row-major order.
  - `checkWin` and `isFull` are the methods `CheckWin` and `IsFull`. They are specified by the pure `Winner` (the mark of the first complete line, in row, column, diagonal order) and `BoardFull`.
  - The two C files define `checkWin` and `isFull` identically (`tictactoe.c` lines 24-54 and 57-65), so one model serves both.
- `evaluator.dfy` (module `Evaluator`) holds `evaluateHeuristic`, as a method specified by the pure `Evaluate`.
  - Its two counting loops are separate helper methods: `CountRowAndColumn` and `CountDiagonals`.
- `search.dfy` (module `Search`) holds `minimaxAlphaBeta` and `findBestMove`.
  - Both write marks into the caller's array and undo them.
  - The reference is an unpruned `Minimax`. It visits children in row-major order and folds them from the same sentinels (−1000 and 1000) that the C search starts from.
  - The search is proved against it through the fail-soft contract `FailSoft`, together with restoration of the board.
  - The maximising and minimising branches of `minimaxAlphaBeta` are the helper methods `MaxSearch` and `MinSearch`.
  - The set / search / reset of one child is `TryMove`.
  - The C `alpha` and `beta` parameters, which the loops update, are locals `alpha'` and `beta'`.
  - `findBestMove` returns the chosen (row, col) as out-parameters as well as writing O there.
- `two_player.dfy` (module `TwoPlayer`) holds one pass of the `main` loop of `tictactoe.c`, without its input and output.
  - The pass is the method `Match.Play`, over the board and `currentPlayer`.
  - It is specified by the pure `Turn`, which gives the outcome, the new board and the next player.
- `tetris.dfy` (module `Tetris`) holds the class `Game` over the global `board` and `block` arrays.
  - `View` shows an array as a sequence of rows.
  - `checkCollision`, `lockBlock`, `rotateBlock` and `clearLines` are proved against the pure `Collides`, `Locked`, `Rotate` and `Cleared`.
  - The rotate-and-undo step of the key handler is `RotateOrUndo`.
  - Each of the two copy loops of `rotateBlock` is a helper method (`RotatedCopy`, `CopyBack`), and so are the shift and the fullness test of `clearLines` (`ShiftDown`, `RowIsFull`).

Types:

- C `int` flags and results that are only 0/1 (`isFull`, `isMaximizing`, `checkCollision`) are `bool`.
- The Tetris board's `char` cells are `int` (0 empty, non-zero filled).
- The C integers never leave a small range here (scores within ±1000, depths below 10), so unbounded `int` matches them.

## Model

| member | source | states |
|---|---|---|
| Board.CheckWin | tictactoe_heuristic.c:24-50 | the result is the mark of the first line, rows then columns then the two diagonals, whose three cells are one non-blank mark, and blank when there is none |
| Board.WinnerIsFirstCompleteLine | tictactoe_heuristic.c:24-50 | the winner is blank exactly when no line is complete; otherwise some complete line holds it and no earlier line in scan order is complete |
| Board.WinnerFromSpec | tictactoe_heuristic.c:26-49 | the same characterisation for the lines from line k onward, the scan the three loops/tests perform |
| Board.IsFull | tictactoe_heuristic.c:53-59 | the result is true exactly when no cell is blank |
| Board.NewBoard | tictactoe.c:89-91 | a fresh 3×3 array whose every cell is blank |
| Board.EmptyGridIsOpen | tictactoe.c:89-93 | the starting board is well formed, has no winner and is not full |
| Board.SetCell | tictactoe_heuristic.c:165 | writing one cell changes exactly that cell of the grid |
| Board.MarkRemovesBlank | tictactoe_heuristic.c:165-166 | marking a blank cell lowers the number of blanks by one, so the recursion terminates |
| Board.PlaceOnOpenBoard | tictactoe.c:114-118 | marking a blank cell of a board without a winner yields no winner or a win for that mark only |
| Evaluator.EvaluateHeuristic | tictactoe_heuristic.c:62-102 | the result equals `Evaluate`: ±(100 − depth) for a win of O or X, else the sum over the 8 lines of +5 (two O, no X) and −5 (two X, no O) |
| Evaluator.CountRowAndColumn | tictactoe_heuristic.c:70-78 | the four counters are the X and O counts of row i and of column i |
| Evaluator.CountDiagonals | tictactoe_heuristic.c:88-95 | the four counters are the O and X counts of the main and the anti-diagonal |
| Evaluator.RowsColsThenDiagonals | tictactoe_heuristic.c:69-99 | scoring rows and columns pairwise and then the diagonals adds up every one of the 8 lines |
| Evaluator.EvaluateBounds | tictactoe_heuristic.c:63-101 | a win of O scores 100 − depth, a win of X depth − 100, anything else lies in [−40, 40], and every score lies in [depth − 100, 100 − depth] |
| Evaluator.LineSumBounds | tictactoe_heuristic.c:81-99 | the first n lines add up to a value in [−5n, 5n] |
| Evaluator.FullLineCounts | tictactoe_heuristic.c:73-78 | on a full well-formed board every line holds three marks, O and X together |
| Evaluator.FullLineSum | tictactoe_heuristic.c:81-99 | on a full well-formed board no line scores |
| Evaluator.FullBoardScoresZero | tictactoe_heuristic.c:67-101 | a full board without a winner scores exactly 0 |
| Search.MinimaxAlphaBeta | tictactoe_heuristic.c:148-210 | the board is left exactly as found; the result is fail-soft against unpruned minimax: exact inside (alpha, beta), an upper bound at or below alpha, a lower bound at or above beta |
| Search.MaxSearch | tictactoe_heuristic.c:160-184 | O's loop with its cut-off at beta ≤ alpha: board restored, result fail-soft against the maximum over O's moves from −1000 |
| Search.MinSearch | tictactoe_heuristic.c:185-209 | X's loop with its cut-off: board restored, result fail-soft against the minimum over X's moves from 1000 |
| Search.TryMove | tictactoe_heuristic.c:164-167 | set the cell, search the child, reset the cell: board restored, result fail-soft against the child's minimax value |
| Search.MaxFromIsMax | tictactoe_heuristic.c:161-168 | the maximum fold is at least its start, at least every child of O, and equal to its start or to some child |
| Search.MinFromIsMin | tictactoe_heuristic.c:186-193 | the minimum fold is at most its start, at most every child of X, and equal to its start or to some child |
| Search.MinimaxBounds | tictactoe_heuristic.c:149-152 | within 60 plies every minimax value lies in [d − 100, 100 − d], strictly inside the root window |
| Search.MinimaxIsBestChild | tictactoe_heuristic.c:160-209 | on a non-terminal board the minimax value bounds every child and is attained by one |
| Search.RootWindowIsExact | tictactoe_heuristic.c:221 | with the window (−1000, 1000) a fail-soft result is the exact unpruned minimax value, so pruning never changes a move score |
| Search.FindBestMove | tictactoe_heuristic.c:213-232 | on a board with a blank, the move is on the board, is the first blank cell in row-major order of strictly greatest score, and only that cell changes, to O |
| Search.BestAmongFirst | tictactoe_heuristic.c:219-227 | the first blank cell beats the −1000 sentinel and becomes the best move |
| Search.BestAmongKept | tictactoe_heuristic.c:223 | a cell that is taken or scores no more than the best keeps the best move |
| Search.BestAmongReplaced | tictactoe_heuristic.c:223-227 | a blank cell scoring strictly more replaces the best move |
| Search.WinningMoveScores100 | tictactoe_heuristic.c:64 | an O move completing a line scores 100 at depth 0 |
| Search.ReplyAtMost98 | tictactoe_heuristic.c:185-208 | after a non-winning O move, every reply of X is worth at most 98 |
| Search.NonWinningMoveAtMost98 | tictactoe_heuristic.c:221 | on an open board an O move that does not win at once scores at most 98 |
| Search.BestMoveTakesImmediateWin | tictactoe_heuristic.c:213-232 | when some blank cell completes an O line, the move chosen completes an O line |
| Search.ReplyAtLeastMinus98 | tictactoe_heuristic.c:185-208 | after a non-winning O move, an X reply that does not win at once is worth at least −98 |
| Search.NoSecondThreat | tictactoe_heuristic.c:190-191 | when t is the only cell where X completes a line, no X reply to O at t wins |
| Search.BlockingMoveScore | tictactoe_heuristic.c:220-221 | O blocking the only X threat, without winning itself, scores at least −98 |
| Search.ThreatSurvives | tictactoe_heuristic.c:190-191 | an X threat at t still completes a line after an O move at another blank cell |
| Search.UnblockedThreatScore | tictactoe_heuristic.c:220-221 | an O move that neither wins nor blocks the X threat scores at most −99 |
| Search.BestMoveBlocks | tictactoe_heuristic.c:213-232 | when O cannot win at once and X threatens to complete a line at a single cell, the move chosen is that cell |
| TwoPlayer.TurnRejects | tictactoe.c:104-112 | a move is refused exactly when row or column is outside 1..3 or the cell is taken, and a refused move keeps board and player |
| TwoPlayer.TurnWritesOneCell | tictactoe.c:114 | an accepted move writes the current player into that cell and changes no other cell |
| TwoPlayer.TurnFromOpen | tictactoe.c:114-127 | from an open position a refused or continuing turn leaves an open position, a continuing one passes the turn, a win is the mover's, a draw is a full board without a winner |
| TwoPlayer.PlaceKeepsBalance | tictactoe.c:114-127 | a move followed by the switch of player keeps the mark counts balanced |
| TwoPlayer.BalancedMarkDifference | tictactoe.c:93-127 | at every turn boundary X has as many marks as O or one more |
| TwoPlayer.Match.constructor | tictactoe.c:88-93 | the game starts on a blank board with X to move |
| TwoPlayer.Match.Play | tictactoe.c:104-127 | outcome, new board and next player are exactly `Turn` of the old board and player; a refused or continuing turn keeps the game state valid |
| Tetris.Game.constructor | tetris_not_mine.c:22-29 | an empty board and the L-shaped starting piece |
| Tetris.Game.CheckCollision | tetris_not_mine.c:89-98 | true exactly when some filled piece cell falls below the floor, outside the side walls or on a filled board cell; nothing changes |
| Tetris.NonNegativeRowIsBelowTop | tetris_not_mine.c:161-176 | a piece placed at a row ≥ 0, as the game loop keeps it, never reaches above the board |
| Tetris.FreeMeansInsideAndEmpty | tetris_not_mine.c:89-106 | without a collision every filled piece cell lands inside the board on an empty cell, so stamping it writes in bounds |
| Tetris.Game.LockBlock | tetris_not_mine.c:101-106 | the board becomes `Locked`: 1 under every filled piece cell, every other cell unchanged |
| Tetris.LockedPieceCollides | tetris_not_mine.c:101-106 | after stamping, the same piece at the same place collides |
| Tetris.Game.RotatedCopy | tetris_not_mine.c:110-113 | the scratch array holds the piece turned a quarter |
| Tetris.Game.CopyBack | tetris_not_mine.c:114-116 | the piece takes every cell of the scratch array |
| Tetris.Game.RotateBlock | tetris_not_mine.c:109-117 | the piece becomes `Rotate` of the old piece |
| Tetris.RotateMovesCells | tetris_not_mine.c:113 | the quarter turn moves cell (y, x) to (x, 3 − y) |
| Tetris.RotateFourTimes | tetris_not_mine.c:192-195 | four quarter turns give back the piece |
| Tetris.RotateKeepsFilledCount | tetris_not_mine.c:111-113 | the filled cells of the turned piece are the turned positions of the old ones, as many as before |
| Tetris.Game.RotateOrUndo | tetris_not_mine.c:192-195 | the piece ends turned when the turned piece fits, and unchanged when it collides |
| Tetris.Game.RowIsFull | tetris_not_mine.c:122-124 | true exactly when every cell of row y is filled |
| Tetris.Game.ShiftDown | tetris_not_mine.c:125-130 | the rows above y move down one, overwriting row y, and row 0 becomes empty |
| Tetris.Game.ClearLines | tetris_not_mine.c:120-134 | the board becomes `Cleared` of the old one — its non-full rows in order under one empty row per full row — no row is full, and Width filled cells are removed per full row |
| Tetris.ClearFullLast | tetris_not_mine.c:125-131 | removing a full bottom row of the scanned part equals putting an empty row on top of it, and lowers the full-row count by one |
| Tetris.ClearKeptLast | tetris_not_mine.c:121-125 | a non-full bottom row of the scanned part stays at the bottom |
| Tetris.KeptRowsAreNotFull | tetris_not_mine.c:120-134 | the kept rows are not full and together with the full ones number as many as all rows |
| Tetris.ClearedHasNoFullRow | tetris_not_mine.c:120-134 | after clearing no row is full and the number of rows is unchanged |
| Tetris.KeptRowsFilled | tetris_not_mine.c:125-131 | all rows hold the filled cells of the kept rows plus Width per full row |
| Tetris.ClearedFilled | tetris_not_mine.c:125-131 | clearing lowers the filled-cell count by exactly Width per full row |

## Left out

- Output and input: all `printf`, `printBoard`, `scanf`, and the search trace lines of `minimaxAlphaBeta` in `tictactoe_heuristic.c`. They change no value or branch.
- The interactive `main` loops are left out. The model keeps one turn of `tictactoe.c` (`Match.Play`) and the rotate-and-undo step of the Tetris key handler (`Game.RotateOrUndo`).
  - Not modelled: the human-versus-engine loop of `tictactoe_heuristic.c`, and the Tetris drop timer, movement keys, hard drop, spawn and game-over test.
- `srand(time(NULL))` in both `tictactoe_heuristic.c` and `tetris_not_mine.c` is left out. Its random numbers are never used.
- The commented-out untraced `minimaxAlphaBeta` in `tictactoe_heuristic.c` is not modelled separately. It is the same algorithm without its `printf` trace.
- `ComputerMove` in `tictactoe.c` is left out. It picks cells at random, and as written it does not compile: the condition assigns a string literal, and a statement lacks its semicolon.
- `gomoku.c` is not part of this model. It declares its functions without bodies, and what remains is a size prompt and printing.
- Tetris terminal handling is left out: raw mode, `ioctl`, `drawBoard`, `clearScreen`, `readKey` escape sequences, `clock` and `usleep`.
- Search.FindBestMove: requires a board with a blank cell. On a full board the C code writes to `board[-1][-1]`.
- Search.MinimaxAlphaBeta: requires `alpha < beta`. Every caller in the source keeps this: the root window is (−1000, 1000), and a child is searched only while no cut-off has occurred.
- Search.RootWindowIsExact: requires the depth plus the number of blanks to be at most 60, which is true of every 3×3 board searched from depth 0.
- Tetris.Game.CheckCollision: requires that no filled piece cell is above row 0. The C reads `board[ny][nx]` with negative `ny` otherwise, and its game loop keeps the piece's row at 0 or below.
- Tetris.Game.LockBlock: requires every filled piece cell to lie on the board, which the game loop ensures by locking only a non-colliding piece.
- The 8-bit `char` of the boards is not modelled: they only ever hold `' '`, `'X'`, `'O'`, 0 and 1.
- Whole-game claims, such as optimal play from the empty board ending in a draw, are not stated. The code does not assert them.

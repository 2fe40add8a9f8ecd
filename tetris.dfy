/** The Tetris playfield: a 25-row, 15-column board of cells that are 0
    (empty) or non-zero (filled), and one 4×4 piece that can be tested
    against the board, stamped into it and rotated; full rows are cleared
    with the rows above shifted down. */
module Tetris {
  const Width := 15
  const Height := 25

  type Matrix = seq<seq<int>>

  /** m has h rows of w cells each. */
  predicate IsMatrix(m: Matrix, h: nat, w: nat)
  {
    |m| == h && forall r :: 0 <= r < h ==> |m[r]| == w
  }

  predicate IsBoard(b: Matrix)
  {
    IsMatrix(b, Height, Width)
  }

  predicate IsPiece(p: Matrix)
  {
    IsMatrix(p, 4, 4)
  }

  // ---------------------------------------------------------------------
  // Array views

  /** Row r of a matrix held in an array. */
  function RowSeq(a: array2<int>, r: int): seq<int>
    reads a
    requires 0 <= r < a.Length0
  {
    seq(a.Length1, c requires 0 <= c < a.Length1 reads a => a[r, c])
  }

  /** The rows of an array, top to bottom. */
  function View(a: array2<int>): Matrix
    reads a
  {
    seq(a.Length0, r requires 0 <= r < a.Length0 reads a => RowSeq(a, r))
  }

  lemma ViewShape(a: array2<int>)
    ensures IsMatrix(View(a), a.Length0, a.Length1)
  {
  }

  lemma ViewAt(a: array2<int>, r: int, c: int)
    requires 0 <= r < a.Length0 && 0 <= c < a.Length1
    ensures |View(a)| == a.Length0 && |View(a)[r]| == a.Length1 && View(a)[r][c] == a[r, c]
  {
  }

  /** An array whose cells agree with m shows m. */
  lemma ViewIs(a: array2<int>, m: Matrix)
    requires IsMatrix(m, a.Length0, a.Length1)
    requires forall r, c :: 0 <= r < a.Length0 && 0 <= c < a.Length1 ==> a[r, c] == m[r][c]
    ensures View(a) == m
  {
    forall r | 0 <= r < a.Length0
      ensures View(a)[r] == m[r]
    {
      assert RowSeq(a, r) == m[r];
    }
  }

  // ---------------------------------------------------------------------
  // Collision

  /** Every filled cell of piece p, with its top-left corner at row py,
      lands on a row the board has or below it (never above the top). */
  predicate BelowTop(p: Matrix, py: int)
    requires IsPiece(p)
  {
    forall y, x :: 0 <= y < 4 && 0 <= x < 4 && p[y][x] != 0 ==> py + y >= 0
  }

  /** Piece cell (y, x) placed at column px, row py falls through the floor,
      leaves the board sideways, or lands on a filled cell. */
  predicate Blocked(b: Matrix, px: int, py: int, y: int, x: int)
    requires IsBoard(b) && py + y >= 0
  {
    py + y >= Height || px + x < 0 || px + x >= Width || b[py + y][px + x] != 0
  }

  /** Some filled cell of the piece is blocked. */
  predicate Collides(b: Matrix, p: Matrix, px: int, py: int)
    requires IsBoard(b) && IsPiece(p) && BelowTop(p, py)
  {
    exists y, x :: 0 <= y < 4 && 0 <= x < 4 && p[y][x] != 0 && Blocked(b, px, py, y, x)
  }

  /** Every filled cell of the piece lands inside the board. */
  predicate Inside(p: Matrix, px: int, py: int)
    requires IsPiece(p)
  {
    forall y, x :: 0 <= y < 4 && 0 <= x < 4 && p[y][x] != 0 ==>
      0 <= py + y < Height && 0 <= px + x < Width
  }

  /** Without a collision, every filled cell of the piece lands inside the
      board on an empty cell. */
  lemma FreeMeansInsideAndEmpty(b: Matrix, p: Matrix, px: int, py: int)
    requires IsBoard(b) && IsPiece(p) && BelowTop(p, py)
    requires !Collides(b, p, px, py)
    ensures Inside(p, px, py)
    ensures forall y, x :: 0 <= y < 4 && 0 <= x < 4 && p[y][x] != 0 ==> b[py + y][px + x] == 0
  {
    forall y, x | 0 <= y < 4 && 0 <= x < 4 && p[y][x] != 0
      ensures 0 <= py + y < Height && 0 <= px + x < Width && b[py + y][px + x] == 0
    {
      assert !Blocked(b, px, py, y, x);
    }
  }

  // ---------------------------------------------------------------------
  // Locking

  /** The piece covers board cell (r, c) with a filled cell. */
  predicate Covers(p: Matrix, px: int, py: int, r: int, c: int)
    requires IsPiece(p)
  {
    0 <= r - py < 4 && 0 <= c - px < 4 && p[r - py][c - px] != 0
  }

  /** The board with a 1 stamped under every filled cell of the piece. */
  function Locked(b: Matrix, p: Matrix, px: int, py: int): (l: Matrix)
    requires IsBoard(b) && IsPiece(p)
    ensures IsBoard(l)
  {
    seq(Height, r requires 0 <= r < Height =>
      seq(Width, c requires 0 <= c < Width => if Covers(p, px, py, r, c) then 1 else b[r][c]))
  }

  /** Once locked, a piece that fits and has a filled cell collides with
      itself: the cells it occupied are now filled. */
  lemma LockedPieceCollides(b: Matrix, p: Matrix, px: int, py: int, y: int, x: int)
    requires IsBoard(b) && IsPiece(p) && BelowTop(p, py) && Inside(p, px, py)
    requires 0 <= y < 4 && 0 <= x < 4 && p[y][x] != 0
    ensures Collides(Locked(b, p, px, py), p, px, py)
  {
    assert Locked(b, p, px, py)[py + y][px + x] == 1;
    assert Blocked(Locked(b, p, px, py), px, py, y, x);
  }

  // ---------------------------------------------------------------------
  // Rotation

  /** A quarter turn of a 4×4 piece. */
  function Rotate(p: Matrix): (q: Matrix)
    requires IsPiece(p)
    ensures IsPiece(q)
  {
    seq(4, r requires 0 <= r < 4 => seq(4, c requires 0 <= c < 4 => p[3 - c][r]))
  }

  /** The quarter turn moves cell (y, x) to (x, 3 - y). */
  lemma RotateMovesCells(p: Matrix)
    requires IsPiece(p)
    ensures forall y, x :: 0 <= y < 4 && 0 <= x < 4 ==> Rotate(p)[x][3 - y] == p[y][x]
  {
  }

  /** Four quarter turns give back the piece. */
  lemma RotateFourTimes(p: Matrix)
    requires IsPiece(p)
    ensures Rotate(Rotate(Rotate(Rotate(p)))) == p
  {
    var q := Rotate(Rotate(Rotate(Rotate(p))));
    forall r | 0 <= r < 4
      ensures q[r] == p[r]
    {
      forall c | 0 <= c < 4
        ensures q[r][c] == p[r][c]
      {
        assert q[r][c] == Rotate(Rotate(Rotate(p)))[3 - c][r];
        assert Rotate(Rotate(Rotate(p)))[3 - c][r] == Rotate(Rotate(p))[3 - r][3 - c];
        assert Rotate(Rotate(p))[3 - r][3 - c] == Rotate(p)[c][3 - r];
      }
    }
  }

  /** The positions of the filled cells of a piece. */
  function FilledCells(p: Matrix): set<(int, int)>
    requires IsPiece(p)
  {
    set y, x | 0 <= y < 4 && 0 <= x < 4 && p[y][x] != 0 :: (y, x)
  }

  function RotatePos(pos: (int, int)): (int, int)
  {
    (pos.1, 3 - pos.0)
  }

  /** A one-to-one map keeps the size of a set. */
  lemma {:induction false} RotatePosKeepsSize(s: set<(int, int)>)
    ensures |set pos | pos in s :: RotatePos(pos)| == |s|
    decreases |s|
  {
    if s != {} {
      var e :| e in s;
      var s' := s - {e};
      RotatePosKeepsSize(s');
      assert (set pos | pos in s :: RotatePos(pos)) == (set pos | pos in s' :: RotatePos(pos)) + {RotatePos(e)};
      assert RotatePos(e) !in (set pos | pos in s' :: RotatePos(pos));
    }
  }

  /** A quarter turn moves the filled cells and keeps their number. */
  lemma RotateKeepsFilledCount(p: Matrix)
    requires IsPiece(p)
    ensures FilledCells(Rotate(p)) == set pos | pos in FilledCells(p) :: RotatePos(pos)
    ensures |FilledCells(Rotate(p))| == |FilledCells(p)|
  {
    var q := Rotate(p);
    forall pos | pos in FilledCells(q)
      ensures pos in set pos | pos in FilledCells(p) :: RotatePos(pos)
    {
      var r, c := pos.0, pos.1;
      assert q[r][c] == p[3 - c][r];
      assert RotatePos((3 - c, r)) == pos;
    }
    RotatePosKeepsSize(FilledCells(p));
  }

  // ---------------------------------------------------------------------
  // Line clearing

  /** Every cell of the row is filled. */
  predicate Full(row: seq<int>)
  {
    forall c :: 0 <= c < |row| ==> row[c] != 0
  }

  /** A row of Width empty cells. */
  function EmptyRow(): (row: seq<int>)
    ensures |row| == Width && !Full(row)
  {
    var row := seq(Width, c => 0);
    assert row[0] == 0;
    row
  }

  /** n empty rows. */
  function EmptyRows(n: nat): (rows: Matrix)
    ensures |rows| == n && forall r :: 0 <= r < n ==> rows[r] == EmptyRow()
  {
    seq(n, r => EmptyRow())
  }

  /** How many rows are full. */
  function FullCount(rows: Matrix): nat
  {
    if rows == [] then 0
    else FullCount(rows[..|rows| - 1]) + (if Full(rows[|rows| - 1]) then 1 else 0)
  }

  /** The rows that are not full, in their order. */
  function KeptRows(rows: Matrix): Matrix
  {
    if rows == [] then []
    else KeptRows(rows[..|rows| - 1]) + (if Full(rows[|rows| - 1]) then [] else [rows[|rows| - 1]])
  }

  /** The board after `clearLines`: the rows that were not full, in their
      order, under one empty row per full row removed. */
  function Cleared(rows: Matrix): Matrix
  {
    EmptyRows(FullCount(rows)) + KeptRows(rows)
  }

  lemma {:induction false} KeptRowsPrependEmpty(rows: Matrix)
    ensures KeptRows([EmptyRow()] + rows) == [EmptyRow()] + KeptRows(rows)
    ensures FullCount([EmptyRow()] + rows) == FullCount(rows)
  {
    if rows == [] {
      assert [EmptyRow()] + rows == [EmptyRow()];
      assert [EmptyRow()][..0] == [];
    } else {
      var front := rows[..|rows| - 1];
      assert ([EmptyRow()] + rows)[..|rows|] == [EmptyRow()] + front;
      KeptRowsPrependEmpty(front);
    }
  }

  /** Clearing one full row at the bottom of a prefix is the same as
      putting an empty row at its top. */
  lemma ClearFullLast(front: Matrix, row: seq<int>)
    requires Full(row)
    ensures Cleared(front + [row]) == Cleared([EmptyRow()] + front)
    ensures FullCount(front + [row]) == FullCount([EmptyRow()] + front) + 1
  {
    assert (front + [row])[..|front|] == front;
    KeptRowsPrependEmpty(front);
    assert EmptyRows(FullCount(front) + 1) == EmptyRows(FullCount(front)) + [EmptyRow()];
  }

  /** A row that is not full at the bottom of a prefix stays there. */
  lemma ClearKeptLast(front: Matrix, row: seq<int>)
    requires !Full(row)
    ensures Cleared(front + [row]) == Cleared(front) + [row]
    ensures FullCount(front + [row]) == FullCount(front)
  {
    assert (front + [row])[..|front|] == front;
  }

  lemma {:induction false} KeptRowsAreNotFull(rows: Matrix)
    ensures forall r :: 0 <= r < |KeptRows(rows)| ==> !Full(KeptRows(rows)[r])
    ensures |KeptRows(rows)| + FullCount(rows) == |rows|
  {
    if rows != [] {
      KeptRowsAreNotFull(rows[..|rows| - 1]);
    }
  }

  /** After clearing no row is full, and the number of rows is kept. */
  lemma ClearedHasNoFullRow(rows: Matrix)
    ensures |Cleared(rows)| == |rows|
    ensures forall r :: 0 <= r < |rows| ==> !Full(Cleared(rows)[r])
  {
    KeptRowsAreNotFull(rows);
    forall r | 0 <= r < |rows|
      ensures !Full(Cleared(rows)[r])
    {
      if r < FullCount(rows) {
        assert Cleared(rows)[r] == EmptyRow();
      } else {
        assert Cleared(rows)[r] == KeptRows(rows)[r - FullCount(rows)];
      }
    }
  }

  /** The number of filled cells of a row. */
  function FilledInRow(row: seq<int>): nat
  {
    if row == [] then 0 else FilledInRow(row[..|row| - 1]) + (if row[|row| - 1] != 0 then 1 else 0)
  }

  /** The number of filled cells of a board. */
  function Filled(rows: Matrix): nat
  {
    if rows == [] then 0 else Filled(rows[..|rows| - 1]) + FilledInRow(rows[|rows| - 1])
  }

  lemma {:induction false} FullRowFilled(row: seq<int>)
    requires Full(row)
    ensures FilledInRow(row) == |row|
  {
    if row != [] {
      FullRowFilled(row[..|row| - 1]);
    }
  }

  lemma {:induction false} EmptyRowFilled(n: nat)
    requires n <= Width
    ensures FilledInRow(EmptyRow()[..n]) == 0
  {
    if n > 0 {
      assert EmptyRow()[..n][..n - 1] == EmptyRow()[..n - 1];
      EmptyRowFilled(n - 1);
    }
  }

  lemma {:induction false} FilledAppend(a: Matrix, b: Matrix)
    ensures Filled(a + b) == Filled(a) + Filled(b)
    decreases |b|
  {
    if b == [] {
      assert a + b == a;
    } else {
      var b' := b[..|b| - 1];
      assert (a + b)[..|a + b| - 1] == a + b';
      FilledAppend(a, b');
    }
  }

  lemma {:induction false} EmptyRowsFilled(n: nat)
    ensures Filled(EmptyRows(n)) == 0
  {
    if n > 0 {
      assert EmptyRows(n)[..n - 1] == EmptyRows(n - 1);
      EmptyRowsFilled(n - 1);
      assert EmptyRow()[..Width] == EmptyRow();
      EmptyRowFilled(Width);
    }
  }

  lemma {:induction false} KeptRowsFilled(rows: Matrix)
    requires forall r :: 0 <= r < |rows| ==> |rows[r]| == Width
    ensures Filled(rows) == Filled(KeptRows(rows)) + Width * FullCount(rows)
  {
    if rows != [] {
      var front, last := rows[..|rows| - 1], rows[|rows| - 1];
      KeptRowsFilled(front);
      if Full(last) {
        FullRowFilled(last);
        assert KeptRows(rows) == KeptRows(front);
        assert Filled(front) == Filled(KeptRows(front)) + Width * FullCount(front);
        assert Filled(rows) == Filled(front) + Width;
        assert Width * FullCount(rows) == Width * FullCount(front) + Width;
      } else {
        FilledAppend(KeptRows(front), [last]);
        assert [last][..0] == [];
      }
    }
  }

  /** Clearing removes exactly Width filled cells per full row. */
  lemma ClearedFilled(rows: Matrix)
    requires forall r :: 0 <= r < |rows| ==> |rows[r]| == Width
    ensures Filled(Cleared(rows)) == Filled(rows) - Width * FullCount(rows)
  {
    KeptRowsFilled(rows);
    FilledAppend(EmptyRows(FullCount(rows)), KeptRows(rows));
    EmptyRowsFilled(FullCount(rows));
  }

  /** Rows at or below the top (py >= 0) never put a piece cell above the
      board, which is how the game loop calls the collision test. */
  lemma NonNegativeRowIsBelowTop(p: Matrix, py: int)
    requires IsPiece(p) && py >= 0
    ensures BelowTop(p, py)
  {
  }

  // ---------------------------------------------------------------------
  // The game state

  /** The piece the game starts with: an L. */
  const LShape: Matrix := [[0, 1, 0, 0], [0, 1, 0, 0], [0, 1, 1, 0], [0, 0, 0, 0]]

  /** The playfield and the falling piece, both changed in place. */
  class Game {
    const board: array2<int>
    const block: array2<int>

    predicate Valid()
      reads this
    {
      board.Length0 == Height && board.Length1 == Width &&
      block.Length0 == 4 && block.Length1 == 4 && board != block
    }

    /** An empty board and the L piece. */
    constructor ()
      ensures Valid() && fresh(board) && fresh(block)
      ensures View(board) == EmptyRows(Height) && View(block) == LShape
    {
      board := new int[Height, Width]((r, c) => 0);
      block := new int[4, 4]((y, x) requires 0 <= y < 4 && 0 <= x < 4 => LShape[y][x]);
      new;
      ViewIs(board, EmptyRows(Height));
      ViewIs(block, LShape);
    }

    /** `checkCollision`: reports whether the piece placed with its top-left
        corner at column px, row py hits the floor, a wall or a filled cell. */
    method CheckCollision(px: int, py: int) returns (hit: bool)
      requires Valid() && BelowTop(View(block), py)
      ensures hit <==> Collides(View(board), View(block), px, py)
    {
      ghost var b, p := View(board), View(block);
      ViewShape(board);
      ViewShape(block);
      for y := 0 to 4
        invariant forall yy, xx :: 0 <= yy < y && 0 <= xx < 4 && p[yy][xx] != 0 ==> !Blocked(b, px, py, yy, xx)
      {
        for x := 0 to 4
          invariant forall yy, xx :: 0 <= yy < y && 0 <= xx < 4 && p[yy][xx] != 0 ==> !Blocked(b, px, py, yy, xx)
          invariant forall xx :: 0 <= xx < x && p[y][xx] != 0 ==> !Blocked(b, px, py, y, xx)
        {
          ViewAt(block, y, x);
          if block[y, x] != 0 {
            var ny, nx := py + y, px + x;
            if ny >= Height || nx < 0 || nx >= Width || board[ny, nx] != 0 {
              if 0 <= nx < Width && ny < Height {
                ViewAt(board, ny, nx);
              }
              assert Blocked(b, px, py, y, x);
              return true;
            }
            ViewAt(board, ny, nx);
          }
        }
      }
      return false;
    }

    /** `lockBlock`: stamps a 1 into every board cell under a filled piece
        cell; the piece must lie inside the board. */
    method LockBlock(px: int, py: int)
      requires Valid() && Inside(View(block), px, py)
      modifies board
      ensures View(board) == Locked(old(View(board)), View(block), px, py)
    {
      ghost var b, p := View(board), View(block);
      ViewShape(board);
      ViewShape(block);
      for y := 0 to 4
        invariant forall r, c :: 0 <= r < Height && 0 <= c < Width ==>
          board[r, c] == if Covers(p, px, py, r, c) && r - py < y then 1 else b[r][c]
      {
        for x := 0 to 4
          invariant forall r, c :: 0 <= r < Height && 0 <= c < Width ==>
            board[r, c] == if Covers(p, px, py, r, c) && (r - py < y || (r - py == y && c - px < x)) then 1 else b[r][c]
        {
          ViewAt(block, y, x);
          if block[y, x] != 0 {
            board[py + y, px + x] := 1;
          }
        }
      }
      ViewIs(board, Locked(b, p, px, py));
    }

    /** The first half of `rotateBlock`: a scratch array holding the piece
        turned a quarter, filled cell by cell from (y, x) to (x, 3 - y). */
    method RotatedCopy() returns (temp: array2<int>)
      requires Valid()
      ensures fresh(temp) && temp.Length0 == 4 && temp.Length1 == 4
      ensures forall r, c :: 0 <= r < 4 && 0 <= c < 4 ==> temp[r, c] == Rotate(View(block))[r][c]
    {
      ghost var p := View(block);
      ViewShape(block);
      temp := new int[4, 4];
      for y := 0 to 4
        invariant forall yy, xx :: 0 <= yy < y && 0 <= xx < 4 ==> temp[xx, 3 - yy] == p[yy][xx]
      {
        for x := 0 to 4
          invariant forall yy, xx :: 0 <= yy < y && 0 <= xx < 4 ==> temp[xx, 3 - yy] == p[yy][xx]
          invariant forall xx :: 0 <= xx < x ==> temp[xx, 3 - y] == p[y][xx]
        {
          ViewAt(block, y, x);
          temp[x, 3 - y] := block[y, x];
        }
      }
      forall r, c | 0 <= r < 4 && 0 <= c < 4
        ensures temp[r, c] == Rotate(p)[r][c]
      {
        assert temp[r, 3 - (3 - c)] == p[3 - c][r];
      }
    }

    /** The second half of `rotateBlock`: the piece takes the scratch
        array's cells. */
    method CopyBack(temp: array2<int>)
      requires Valid() && temp.Length0 == 4 && temp.Length1 == 4 && temp != block
      modifies block
      ensures forall r, c :: 0 <= r < 4 && 0 <= c < 4 ==> block[r, c] == temp[r, c]
    {
      for y := 0 to 4
        invariant forall yy, xx :: 0 <= yy < y && 0 <= xx < 4 ==> block[yy, xx] == temp[yy, xx]
      {
        for x := 0 to 4
          invariant forall yy, xx :: 0 <= yy < y && 0 <= xx < 4 ==> block[yy, xx] == temp[yy, xx]
          invariant forall xx :: 0 <= xx < x ==> block[y, xx] == temp[y, xx]
        {
          block[y, x] := temp[y, x];
        }
      }
    }

    /** `rotateBlock`: a quarter turn of the piece through a scratch array;
        old cell (y, x) ends up at (x, 3 - y). */
    method RotateBlock()
      requires Valid()
      modifies block
      ensures View(block) == Rotate(old(View(block)))
    {
      ghost var p := View(block);
      var temp := RotatedCopy();
      CopyBack(temp);
      ViewIs(block, Rotate(p));
    }

    /** The rotation key of the game loop: turn the piece, and if it then
        collides turn it three more times, back to where it was. */
    method RotateOrUndo(px: int, py: int)
      requires Valid() && py >= 0
      modifies block
      ensures !Collides(View(board), Rotate(old(View(block))), px, py) ==> View(block) == Rotate(old(View(block)))
      ensures Collides(View(board), Rotate(old(View(block))), px, py) ==> View(block) == old(View(block))
    {
      ghost var p := View(block);
      RotateBlock();
      NonNegativeRowIsBelowTop(View(block), py);
      var hit := CheckCollision(px, py);
      if hit {
        RotateBlock();
        RotateBlock();
        RotateBlock();
        RotateFourTimes(p);
      }
    }

    /** The shift of `clearLines` once row y is found full: every row above
        y moves down one, overwriting row y, and row 0 becomes empty. */
    method ShiftDown(y: int)
      requires Valid() && 0 <= y < Height
      modifies board
      ensures View(board) == [EmptyRow()] + old(View(board))[..y] + old(View(board))[y + 1..]
    {
      ghost var b := View(board);
      ViewShape(board);
      var ty := y;
      while ty > 0
        invariant 0 <= ty <= y
        invariant forall r, c :: 0 <= r < Height && 0 <= c < Width ==>
          board[r, c] == if ty < r <= y then b[r - 1][c] else b[r][c]
      {
        for tx := 0 to Width
          invariant forall r, c :: 0 <= r < Height && 0 <= c < Width ==>
            board[r, c] == if ty < r <= y || (r == ty && c < tx) then b[r - 1][c] else b[r][c]
        {
          board[ty, tx] := board[ty - 1, tx];
        }
        ty := ty - 1;
      }
      for tx := 0 to Width
        invariant forall r, c :: 0 <= r < Height && 0 <= c < Width ==>
          board[r, c] == if r == 0 && c < tx then 0 else if 0 < r <= y then b[r - 1][c] else b[r][c]
      {
        board[0, tx] := 0;
      }
      ghost var m := [EmptyRow()] + b[..y] + b[y + 1..];
      forall r, c | 0 <= r < Height && 0 <= c < Width
        ensures board[r, c] == m[r][c]
      {
        if r == 0 {
        } else if r <= y {
          assert m[r] == b[r - 1];
        } else {
          assert m[r] == b[r];
        }
      }
      ViewIs(board, m);
    }

    /** The inner loop of `clearLines`: whether every cell of row y is
        filled. */
    method RowIsFull(y: int) returns (full: bool)
      requires Valid() && 0 <= y < Height
      ensures full <==> Full(View(board)[y])
    {
      ghost var v := View(board);
      ViewShape(board);
      full := true;
      for x := 0 to Width
        invariant full <==> forall c :: 0 <= c < x ==> v[y][c] != 0
      {
        ViewAt(board, y, x);
        if board[y, x] == 0 {
          full := false;
        }
      }
    }

    /** `clearLines`: scans the rows from the bottom up; a full row is
        removed by shifting everything above it down one, and the same row
        index is examined again. */
    method ClearLines()
      requires Valid()
      modifies board
      ensures View(board) == Cleared(old(View(board)))
      ensures forall r :: 0 <= r < Height ==> !Full(View(board)[r])
      ensures Filled(View(board)) == Filled(old(View(board))) - Width * FullCount(old(View(board)))
    {
      ghost var b0 := View(board);
      ViewShape(board);
      assert b0[..Height] == b0 && b0[Height..] == [];
      var y := Height - 1;
      while y >= 0
        invariant -1 <= y < Height
        invariant Cleared(b0) == Cleared(View(board)[..y + 1]) + View(board)[y + 1..]
        decreases y + 1 + FullCount(View(board)[..y + 1])
      {
        ghost var v := View(board);
        ViewShape(board);
        var full := RowIsFull(y);
        assert v[..y + 1] == v[..y] + [v[y]];
        if full {
          ShiftDown(y);
          ClearFullLast(v[..y], v[y]);
          ghost var top := [EmptyRow()] + v[..y];
          assert View(board) == top + v[y + 1..];
          assert View(board)[..y + 1] == top;
          assert View(board)[y + 1..] == v[y + 1..];
          y := y + 1;
        } else {
          ClearKeptLast(v[..y], v[y]);
          assert v[y..] == [v[y]] + v[y + 1..];
        }
        y := y - 1;
      }
      assert View(board)[..0] == [];
      ClearedHasNoFullRow(b0);
      ClearedFilled(b0);
    }
  }
}

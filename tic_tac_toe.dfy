/** The canvas variant (tic_tac_toe.py): a pure winner check that reports the
    winning mark with the two end cells of its line, a click handler that maps
    a pixel to a cell, and a game object whose fields the handler and the
    reset update in place. */
module TicTacToe {
  import opened Board

  const GridSize := Size

  /** Width and height of one cell on the canvas, in pixels. */
  const CellSize := 140

  /** What `check_winner` returns: `(None, None)`, or the winning mark with
      the first and last cell of its line. */
  datatype Verdict = NoWinner | Winner(mark: Mark, cells: (Coord, Coord))

  // The four tests of `check_winner`: the first cell of the line holds a
  // mark and every cell of the line equals it.

  predicate RowWins(b: Grid, i: nat)
    requires IsBoard(b) && i < GridSize
  {
    b[i][0] != Empty && forall j :: 0 <= j < GridSize ==> b[i][j] == b[i][0]
  }

  predicate ColumnWins(b: Grid, i: nat)
    requires IsBoard(b) && i < GridSize
  {
    b[0][i] != Empty && forall j :: 0 <= j < GridSize ==> b[j][i] == b[0][i]
  }

  predicate MainDiagonalWins(b: Grid)
    requires IsBoard(b)
  {
    b[0][0] != Empty && forall j :: 0 <= j < GridSize ==> b[j][j] == b[0][0]
  }

  predicate AntiDiagonalWins(b: Grid)
    requires IsBoard(b)
  {
    var N := GridSize;
    b[0][N - 1] != Empty && forall j :: 0 <= j < N ==> b[j][N - 1 - j] == b[0][N - 1]
  }

  /** The row and column tests for i hold exactly when lines 2i and 2i+1 of
      the scan are complete. */
  lemma TestsMatchLines(b: Grid, i: nat)
    requires IsBoard(b) && i < GridSize
    ensures RowWins(b, i) <==> Completes(b, ScanLine(2 * i))
    ensures ColumnWins(b, i) <==> Completes(b, ScanLine(2 * i + 1))
  {
    ScanRow(b, i);
    ScanColumn(b, i);
  }

  /** The two diagonal tests hold exactly when lines 6 and 7 of the scan are
      complete. */
  lemma DiagonalTestsMatchLines(b: Grid)
    requires IsBoard(b)
    ensures MainDiagonalWins(b) <==> Completes(b, ScanLine(6))
    ensures AntiDiagonalWins(b) <==> Completes(b, ScanLine(7))
  {
    ScanDiagonals(b);
  }

  /** Row i, then column i, for i from `i` up; then the two diagonals. */
  function ScanFrom(b: Grid, i: nat): Verdict
    requires IsBoard(b) && i <= GridSize
    decreases GridSize - i
  {
    var N := GridSize;
    if i < N then
      if RowWins(b, i) then Winner(b[i][0].mark, ((i, 0), (i, N - 1)))
      else if ColumnWins(b, i) then Winner(b[0][i].mark, ((0, i), (N - 1, i)))
      else ScanFrom(b, i + 1)
    else if MainDiagonalWins(b) then Winner(b[0][0].mark, ((0, 0), (N - 1, N - 1)))
    else if AntiDiagonalWins(b) then Winner(b[0][N - 1].mark, ((0, N - 1), (N - 1, 0)))
    else NoWinner
  }

  /** The verdict for the k-th line of the scan when it is complete: its mark
      and its two end cells. */
  function Reported(b: Grid, k: nat): Verdict
    requires IsBoard(b) && k < LineCount && Completes(b, ScanLine(k))
  {
    var line := ScanLine(k);
    Winner(At(b, line[0]).mark, (line[0], line[Size - 1]))
  }

  /** The verdict the scan order of the board model prescribes. */
  function Expected(b: Grid, first: Option<nat>): Verdict
    requires IsBoard(b)
    requires first.Some? ==> first.value < LineCount && Completes(b, ScanLine(first.value))
  {
    match first
    case None => NoWinner
    case Some(k) => Reported(b, k)
  }

  /** From row i on, the loop reports what the board model's scan reports
      from line 2i on. */
  lemma {:induction false} ScanFromAgrees(b: Grid, i: nat)
    requires IsBoard(b) && i <= GridSize
    ensures ScanFrom(b, i) == Expected(b, FirstCompleteFrom(b, 2 * i))
    decreases GridSize - i
  {
    if i < GridSize {
      TestsMatchLines(b, i);
      ScanRow(b, i);
      ScanColumn(b, i);
      ScanFromAgrees(b, i + 1);
    } else {
      ScanDiagonals(b);
      DiagonalTestsMatchLines(b);
    }
  }

  function CheckWinner(b: Grid): (v: Verdict)
    requires IsBoard(b)
    ensures v == Expected(b, FirstComplete(b))
    ensures v.NoWinner? <==> !HasWinner(b)
  {
    ScanFromAgrees(b, 0);
    ScanFrom(b, 0)
  }

  /** A reported winner owns a whole line of the board, whose first and last
      cells are the reported ones. */
  lemma WinnerOwnsLine(b: Grid)
    requires IsBoard(b)
    ensures var v := CheckWinner(b);
      v.Winner? ==>
        exists k :: 0 <= k < LineCount && Completes(b, ScanLine(k))
          && ScanLine(k)[0] == v.cells.0 && ScanLine(k)[Size - 1] == v.cells.1
          && forall j :: 0 <= j < Size ==> At(b, ScanLine(k)[j]) == Taken(v.mark)
  {
  }

  /** The cell (row, column) under pixel (x, y): Python's `//` by the
      positive `CellSize`, which Dafny's `/` computes for every sign of x and y. */
  function CellOfPixel(x: int, y: int): (rc: Coord)
    ensures rc.0 * CellSize <= y < (rc.0 + 1) * CellSize
    ensures rc.1 * CellSize <= x < (rc.1 + 1) * CellSize
  {
    (y / CellSize, x / CellSize)
  }

  /** A pixel lands on a cell of the board exactly when it lies on the canvas. */
  lemma PixelOnCanvas(x: int, y: int)
    ensures InBounds(CellOfPixel(x, y)) <==>
      0 <= x < CellSize * GridSize && 0 <= y < CellSize * GridSize
  {
  }

  /** The game state of the canvas variant. */
  class NeonTicTacToe {
    var board: Grid
    var turn: Mark
    var gameOver: bool
    var winningCells: Option<(Coord, Coord)>

    /** The game is over exactly when someone has won or the board is full;
        the end cells are recorded exactly when someone has won; and the
        marks on the board agree with whose turn it is. */
    ghost predicate Valid()
      reads this
    {
      IsBoard(board)
      && gameOver == (HasWinner(board) || IsFull(board))
      && winningCells == (if HasWinner(board) then Some(CheckWinner(board).cells) else None)
      && TurnBalanced(board, turn, gameOver)
    }

    constructor ()
      ensures Valid()
      ensures board == EmptyBoard() && turn == X && !gameOver && winningCells == None
    {
      board := EmptyBoard();
      turn := X;
      gameOver := false;
      winningCells := None;
      EmptyBoardStart();
    }

    /** Starts a new game from any state. */
    method ResetGame()
      modifies this
      ensures Valid()
      ensures board == EmptyBoard() && turn == X && !gameOver && winningCells == None
    {
      board := EmptyBoard();
      turn := X;
      gameOver := false;
      winningCells := None;
      EmptyBoardStart();
    }

    /** A click at pixel (x, y). It is ignored once the game is over, off
        the board, or on an occupied cell. Otherwise the current mark is
        placed; a win or a full board ends the game without changing the
        turn, and any other move passes the turn. */
    method HandleClick(x: int, y: int)
      requires Valid()
      modifies this
      ensures Valid()
      ensures var (r, c) := CellOfPixel(x, y);
        if old(gameOver) || !InBounds((r, c)) || old(board)[r][c] != Empty then
          board == old(board) && turn == old(turn) && gameOver == old(gameOver)
          && winningCells == old(winningCells)
        else
          board == Place(old(board), r, c, old(turn))
          && (if CheckWinner(board).Winner? then
                gameOver && winningCells == Some(CheckWinner(board).cells) && turn == old(turn)
              else if IsFull(board) then
                gameOver && winningCells == None && turn == old(turn)
              else
                !gameOver && winningCells == old(winningCells) && turn == Other(old(turn)))
    {
      if gameOver {
        return;
      }
      var c := x / CellSize;
      var r := y / CellSize;
      if 0 <= r < GridSize && 0 <= c < GridSize && board[r][c] == Empty {
        ghost var before := board;
        MoveKeepsBalance(before, r, c, turn);
        board := Place(board, r, c, turn);
        var verdict := CheckWinner(board);
        if verdict.Winner? {
          gameOver := true;
          winningCells := Some(verdict.cells);
        } else if IsFull(board) {
          gameOver := true;
          winningCells := None;
        } else {
          turn := if turn == X then O else X;
        }
      }
    }
  }
}

# Neon tic-tac-toe: the game rules, verified

This project models, in Dafny, the game logic of the two desktop
tic-tac-toe programs of the repository, `tic.py` (the button variant) and
`tic_tac_toe.py` (the canvas variant). Both keep a 3×3 board of cells that
are empty or hold "X" or "O", scan it for a complete line in the same order
(row i, then column i, for i = 0, 1, 2, then the main diagonal, then the
anti-diagonal), and run a small turn machine in which X moves first.

- `board.dfy`, module `Board`: the data both variants share. It holds the
  marks, cells and board, the eight lines in scan order, the first complete
  line (`FirstCompleteFrom`), placing a mark (`Place`), and the count of each
  mark. The invariant `TurnBalanced` ties the board to whose turn it is.
  While play goes on, X has one mark more than O exactly when O is to move.
  Once the game is over, X has one mark more exactly when X moved last.
- `tic.dfy`, module `Tic`: the button variant. Its `NeonTicTacToe` class
  holds the fields `board`, `scores`, `currentPlayer` and `winningCombo`.
  Its methods update them in place as `_check_winner`, `_is_tie`,
  `_on_click` and `_reset_board` do. `CheckWinner` is a loop that records
  the full three-cell line it finds. It is proved to find exactly the first
  complete line of the scan.
- `tic_tac_toe.dfy`, module `TicTacToe`: the canvas variant.
  - `CheckWinner` is a pure function, as `check_winner` is. It returns
    `NoWinner` or the winning mark with the first and last cell of its line.
  - `CellOfPixel` maps a click to a cell.
  - The class `NeonTicTacToe` holds `board`, `turn`, `gameOver` and
    `winningCells`. `HandleClick` and `ResetGame` update them in place.

Each class has an invariant `Valid()`. Every method that changes the board,
the turn or the scores requires it and re-establishes it.
- In the button variant, `Valid()` says that both marks have a score, that
  the marks agree with the turn, and that after a win the recorded line is
  the first complete one.
- In the canvas variant, `Valid()` says that `gameOver` holds exactly when
  someone has won or the board is full. It also says that `winningCells`
  holds the reported end cells exactly when someone has won, and that the
  marks agree with the turn.

Python's `//` on the click position is Dafny's `/`. The divisor
`CellSize` = 140 is positive, and for a positive divisor both round towards
minus infinity. So a click left of or above the canvas maps to a negative
index, which the bounds test rejects.

## Model

| member | source | states |
|---|---|---|
| Board.Other | tic_tac_toe.py:129 | the next player is never the current one; X and O alternate |
| Board.EmptyBoard | tic.py:93 | a new board is 3×3 with every cell empty |
| Board.FirstCompleteFrom | tic.py:119-134 | the scan from position k returns only a line that is complete, at or after k |
| Board.FirstCompleteFromIsFirst | tic.py:121-133 | no line the scan passes over before the one it returns is complete, and when the scan returns nothing no line is complete |
| Board.WinningLineOwned | tic.py:122-132 | the first complete line lists three in-bound cells that all hold the same non-empty mark |
| Board.ScanRow | tic.py:122-123 | line 2i of the scan is (i,0),(i,1),(i,2), and it is complete exactly when row i holds three equal marks |
| Board.ScanColumn | tic.py:125-126 | line 2i+1 of the scan is (0,i),(1,i),(2,i), and it is complete exactly when column i holds three equal marks |
| Board.ScanDiagonals | tic.py:128-132 | lines 6 and 7 are the main and the anti-diagonal, each complete exactly when it holds three equal marks |
| Board.HasWinnerIff | tic.py:119-134 | the scan finds a line if and only if some row, column or diagonal holds three equal non-empty marks |
| Board.Place | tic.py:105 | placing a mark sets exactly that cell to the mark and leaves every other cell as it was |
| Board.PlaceCounts | tic_tac_toe.py:120 | a move adds one to the mover's mark count and leaves the other count unchanged |
| Board.EmptyBoardStart | tic.py:92-97 | a new game has no winner, is not full, and has X to move |
| Board.MoveKeepsBalance | tic.py:105-116 | after a move the mover counts as having moved last, and the other player is next to move |
| Tic.RestartConsistent | tic.py:92-97 | a restart gives a consistent game with any scores and any recorded line |
| Tic.MoveConsistent | tic.py:105-116 | an accepted click keeps the game consistent: a win credits the mover and records the line, a full board keeps the turn, and any other move passes it |
| Tic.NeonTicTacToe.constructor | tic.py:14-20 | the game starts with an empty board, X to move, both scores 0 and no recorded line |
| Tic.NeonTicTacToe.ResetBoard | tic.py:92-97 | the board is emptied and X is to move; scores and the recorded line are untouched |
| Tic.NeonTicTacToe.CheckWinner | tic.py:119-134 | the result is true exactly when a line is complete; the first complete line of the scan is then recorded, and otherwise the recorded line is left alone |
| Tic.NeonTicTacToe.IsTie | tic.py:141-142 | the result is true exactly when every cell is filled and nobody has won; the winner check, and its recording, runs only on a full board |
| Tic.NeonTicTacToe.OnClick | tic.py:100-117 | a click on a taken cell or after a win changes nothing; otherwise exactly the clicked cell gets the current mark, a win adds one to the mover's score only, and the turn passes only when the move neither wins nor fills the board |
| TicTacToe.TestsMatchLines | tic_tac_toe.py:137-140 | the row test and the column test for i, each an `all(...)`, hold exactly when lines 2i and 2i+1 of the scan are complete |
| TicTacToe.DiagonalTestsMatchLines | tic_tac_toe.py:141-144 | the two diagonal `all(...)` tests hold exactly when lines 6 and 7 of the scan are complete |
| TicTacToe.ScanFromAgrees | tic_tac_toe.py:136-145 | the loop from row i on reports what the shared scan reports from line 2i on |
| TicTacToe.CheckWinner | tic_tac_toe.py:133-145 | the verdict is the mark and the end cells of the first complete line of the scan, and it is `NoWinner` exactly when no line is complete |
| TicTacToe.WinnerOwnsLine | tic_tac_toe.py:137-144 | a reported winner owns a whole complete line whose first and last cells are the reported ones |
| TicTacToe.CellOfPixel | tic_tac_toe.py:117-118 | the click lies inside the square of the cell it maps to: row * 140 <= y < (row + 1) * 140, and the same for the column and x |
| TicTacToe.PixelOnCanvas | tic_tac_toe.py:117-119 | a click maps to a cell of the board exactly when it lies on the 420 × 420 canvas |
| TicTacToe.NeonTicTacToe.constructor | tic_tac_toe.py:25-28 | the game starts with an empty board, X to move, not over, no winning cells |
| TicTacToe.NeonTicTacToe.ResetGame | tic_tac_toe.py:43-47 | from any state: an empty board, X to move, not over, no winning cells |
| TicTacToe.NeonTicTacToe.HandleClick | tic_tac_toe.py:114-129 | a click once the game is over, off the board or on a taken cell changes nothing; otherwise the current mark is placed there; a win ends the game with the line's end cells and the same turn; a full board ends it with no cells and the same turn; any other move passes the turn |

## Left out

- Window, widget and canvas code: `_create_widgets`, `_center_window`,
  `_highlight_winner`, `_disable_all_buttons`, `draw_board`, `draw_x`,
  `draw_o`, `draw_win_line`, the hover bindings, colours and fonts. These
  are toolkit calls with no effect on the game state.
- Output side effects: `play_beep`, `messagebox.showinfo`,
  `update_turn_label`, `_get_score_text` and every label update.
- The `itertools.cycle` of (mark, colour) pairs in tic.py is modelled as
  the two-valued toggle `Other`. The colours are dropped. Restarting the
  cycle on reset is modelled as setting X to move.
- tic.py tests the button's text before a move. The model tests the board
  cell instead, because the button always shows the cell's mark.
- Tic.NeonTicTacToe.OnClick: requires a row and column in 0..2. The tic.py
  handler is only reached from the nine buttons of the grid. Any other
  coordinate would fail on the button lookup, and the code never checks it.
- Boards other than 3×3. Both programs fix the size at 3, and tic.py
  writes the indices 0..2 out.
- In-place mutation of the nested Python lists is modelled as replacing a
  `seq` field. Nothing else holds a reference to the board, so no aliasing
  is lost.
- tic.py's `all(...)` in `_is_tie` stops at the first empty cell. The
  model's loop looks at every cell. The result is the same.
- Before the first win, tic.py has no `winning_combo` attribute at all. The
  model writes `None` for that state.
- Python integers are unbounded, so scores are `nat`.
- tic_tac_toe.py's `check_winner` reports only the two end cells of the
  winning line, not the whole line as tic.py does. The model reports the
  same two cells.

/** The button variant (tic.py): a game object holding the board, the score
    of each mark, the player to move and the last winning line found. Its
    winner check scans the board and records the full line it finds; a click
    places the current mark, credits a winner and passes the turn only while
    play goes on; a restart clears the board and keeps the scores. */
module Tic {
  import opened Board

  /** The invariant of the game object, over its field values: both marks
      have a score; the marks on the board agree with whose turn it is (the
      game being over once someone has won or the board is full); and when
      someone has won, the recorded line is the one the scan finds first. */
  ghost predicate Consistent(board: Grid, scores: map<Mark, nat>, player: Mark, combo: Option<seq<Coord>>) {
    IsBoard(board)
    && X in scores && O in scores
    && TurnBalanced(board, player, HasWinner(board) || IsFull(board))
    && (HasWinner(board) ==> combo == Some(WinningLine(board)))
  }

  /** A restart yields a consistent game whatever the scores and the last line. */
  lemma RestartConsistent(scores: map<Mark, nat>, combo: Option<seq<Coord>>)
    requires X in scores && O in scores
    ensures Consistent(EmptyBoard(), scores, X, combo)
  {
    EmptyBoardStart();
  }

  /** An accepted click keeps the game consistent: a winning move credits
      the mover and records the line, a move that fills the board keeps the
      turn, and any other move passes it. */
  lemma MoveConsistent(b: Grid, scores: map<Mark, nat>, p: Mark, combo: Option<seq<Coord>>, row: int, col: int)
    requires Consistent(b, scores, p, combo)
    requires 0 <= row < Size && 0 <= col < Size && b[row][col] == Empty && !HasWinner(b)
    ensures var b' := Place(b, row, col, p);
      if HasWinner(b') then Consistent(b', scores[p := scores[p] + 1], p, Some(WinningLine(b')))
      else if IsFull(b') then Consistent(b', scores, p, combo)
      else Consistent(b', scores, Other(p), combo)
  {
    MoveKeepsBalance(b, row, col, p);
  }

  class NeonTicTacToe {
    var board: Grid
    var scores: map<Mark, nat>
    var currentPlayer: Mark
    /** None until the first win of the session; a restart leaves it alone. */
    var winningCombo: Option<seq<Coord>>

    ghost predicate Valid()
      reads this
    {
      Consistent(board, scores, currentPlayer, winningCombo)
    }

    constructor ()
      ensures Valid()
      ensures board == EmptyBoard() && currentPlayer == X
      ensures scores == map[X := 0, O := 0] && winningCombo == None
    {
      scores := map[X := 0, O := 0];
      winningCombo := None;
      board := EmptyBoard();
      currentPlayer := X;
      RestartConsistent(map[X := 0, O := 0], None);
    }

    /** Starts a new game: an empty board with X to move. The scores and the
        last recorded line are left as they were. */
    method ResetBoard()
      requires Valid()
      modifies this`board, this`currentPlayer
      ensures Valid()
      ensures board == EmptyBoard() && currentPlayer == X
    {
      board := EmptyBoard();
      currentPlayer := X;
      RestartConsistent(scores, winningCombo);
    }

    /** Row i then column i for each i, then the main diagonal, then the
        anti-diagonal; the first complete line found is recorded. */
    method CheckWinner() returns (won: bool)
      requires IsBoard(board)
      modifies this`winningCombo
      ensures won == HasWinner(board)
      ensures winningCombo == if won then Some(WinningLine(board)) else old(winningCombo)
    {
      var b := board;
      for i := 0 to Size
        invariant NoneCompleteBefore(b, 2 * i)
        invariant winningCombo == old(winningCombo)
      {
        ScanRow(b, i);
        if b[i][0] == b[i][1] && b[i][1] == b[i][2] && b[i][2] != Empty {
          FirstCompleteIs(b, 2 * i);
          winningCombo := Some([(i, 0), (i, 1), (i, 2)]);
          return true;
        }
        ScanPasses(b, 2 * i);
        ScanColumn(b, i);
        if b[0][i] == b[1][i] && b[1][i] == b[2][i] && b[2][i] != Empty {
          FirstCompleteIs(b, 2 * i + 1);
          winningCombo := Some([(0, i), (1, i), (2, i)]);
          return true;
        }
        ScanPasses(b, 2 * i + 1);
      }
      ScanDiagonals(b);
      if b[0][0] == b[1][1] && b[1][1] == b[2][2] && b[2][2] != Empty {
        FirstCompleteIs(b, 6);
        winningCombo := Some([(0, 0), (1, 1), (2, 2)]);
        return true;
      }
      ScanPasses(b, 6);
      if b[0][2] == b[1][1] && b[1][1] == b[2][0] && b[2][0] != Empty {
        FirstCompleteIs(b, 7);
        winningCombo := Some([(0, 2), (1, 1), (2, 0)]);
        return true;
      }
      ScanPasses(b, 7);
      NoCompleteLine(b);
      return false;
    }

    /** Every cell filled and nobody has won. The winner check, and so its
        recording of a line, runs only on a full board. */
    method IsTie() returns (tie: bool)
      requires IsBoard(board)
      modifies this`winningCombo
      ensures tie == (IsFull(board) && !HasWinner(board))
      ensures winningCombo == if IsFull(board) && HasWinner(board) then Some(WinningLine(board)) else old(winningCombo)
    {
      var full := true;
      for r := 0 to Size
        invariant full == forall i, j :: 0 <= i < r && 0 <= j < Size ==> board[i][j] != Empty
      {
        for c := 0 to Size
          invariant full == ((forall i, j :: 0 <= i < r && 0 <= j < Size ==> board[i][j] != Empty)
                             && forall j :: 0 <= j < c ==> board[r][j] != Empty)
        {
          full := full && board[r][c] != Empty;
        }
      }
      if full {
        var won := CheckWinner();
        tie := !won;
      } else {
        tie := false;
      }
    }

    /** A click on the button at (row, col). It is ignored when the cell is
        taken or someone has already won. Otherwise the current mark is
        placed; a win adds one to that player's score, and the turn passes
        only when the move neither wins nor fills the board. */
    method OnClick(row: int, col: int)
      requires Valid() && 0 <= row < Size && 0 <= col < Size
      modifies this
      ensures Valid()
      ensures
        if old(board)[row][col] != Empty || old(HasWinner(board)) then
          board == old(board) && scores == old(scores)
          && currentPlayer == old(currentPlayer) && winningCombo == old(winningCombo)
        else
          var mover := old(currentPlayer);
          board == Place(old(board), row, col, mover)
          && (if HasWinner(board) then
                scores == old(scores)[mover := old(scores)[mover] + 1]
                && currentPlayer == mover && winningCombo == Some(WinningLine(board))
              else
                scores == old(scores) && winningCombo == old(winningCombo)
                && currentPlayer == if IsFull(board) then mover else Other(mover))
    {
      if board[row][col] == Empty {
        var over := CheckWinner();
        if !over {
          MoveConsistent(board, scores, currentPlayer, winningCombo, row, col);
          board := Place(board, row, col, currentPlayer);
          var won := CheckWinner();
          if won {
            scores := scores[currentPlayer := scores[currentPlayer] + 1];
          } else {
            var tie := IsTie();
            if !tie {
              currentPlayer := Other(currentPlayer);
            }
          }
        }
      }
    }
  }
}

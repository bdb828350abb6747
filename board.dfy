/** The 3×3 board shared by both programs: marks, cells, the eight lines in
    the order both programs examine them, the first complete line, placing a
    mark, and the mark counts that tie the board to whose turn it is. */
module Board {

  datatype Option<T> = None | Some(value: T)

  /** The two marks, written "X" and "O" by the programs. */
  datatype Mark = X | O

  /** A cell holds "" (Empty) or one of the two marks. */
  datatype Cell = Empty | Taken(mark: Mark)

  /** A (row, column) pair. */
  type Coord = (int, int)

  /** The board as a list of rows, row-major. */
  type Grid = seq<seq<Cell>>

  /** Both programs hard-wire a 3×3 board. */
  const Size := 3

  /** Number of lines: Size rows, Size columns and two diagonals. */
  const LineCount := 2 * Size + 2

  /** Turn order: X then O then X again. */
  function Other(m: Mark): (r: Mark)
    ensures r != m
  {
    if m == X then O else X
  }

  predicate IsBoard(b: Grid) {
    |b| == Size && forall r :: 0 <= r < Size ==> |b[r]| == Size
  }

  predicate InBounds(c: Coord) {
    0 <= c.0 < Size && 0 <= c.1 < Size
  }

  function At(b: Grid, c: Coord): Cell
    requires IsBoard(b) && InBounds(c)
  {
    b[c.0][c.1]
  }

  /** The board a new game starts from. */
  function EmptyBoard(): (b: Grid)
    ensures IsBoard(b)
    ensures forall r, c :: 0 <= r < Size && 0 <= c < Size ==> b[r][c] == Empty
  {
    seq(Size, _ => seq(Size, _ => Empty))
  }

  predicate IsFull(b: Grid)
    requires IsBoard(b)
  {
    forall r, c :: 0 <= r < Size && 0 <= c < Size ==> b[r][c] != Empty
  }

  // The lines, each listed cell by cell from its first to its last coordinate.

  function Row(i: int): seq<Coord> {
    [(i, 0), (i, 1), (i, 2)]
  }

  function Column(i: int): seq<Coord> {
    [(0, i), (1, i), (2, i)]
  }

  function MainDiagonal(): seq<Coord> {
    [(0, 0), (1, 1), (2, 2)]
  }

  function AntiDiagonal(): seq<Coord> {
    [(0, 2), (1, 1), (2, 0)]
  }

  /** The lines in the order both programs examine them: row 0, column 0,
      row 1, column 1, row 2, column 2, then the main diagonal, then the
      anti-diagonal. */
  const ScanOrder: seq<seq<Coord>> :=
    [Row(0), Column(0), Row(1), Column(1), Row(2), Column(2), MainDiagonal(), AntiDiagonal()]

  /** The k-th line examined. */
  function ScanLine(k: nat): seq<Coord>
    requires k < LineCount
  {
    ScanOrder[k]
  }

  /** Three equal marks, none of them empty. */
  predicate SameThree(p: Cell, q: Cell, r: Cell) {
    p != Empty && p == q && q == r
  }

  /** A line of three cells inside the board that all hold the same mark. */
  predicate Completes(b: Grid, line: seq<Coord>)
    requires IsBoard(b)
  {
    |line| == Size
    && InBounds(line[0]) && InBounds(line[1]) && InBounds(line[2])
    && SameThree(At(b, line[0]), At(b, line[1]), At(b, line[2]))
  }

  /** The index of the first complete line at or after position k of the scan. */
  function FirstCompleteFrom(b: Grid, k: nat): (r: Option<nat>)
    requires IsBoard(b) && k <= LineCount
    ensures r.Some? ==> k <= r.value < LineCount && Completes(b, ScanLine(r.value))
    decreases LineCount - k
  {
    if k == LineCount then None
    else if Completes(b, ScanLine(k)) then Some(k)
    else FirstCompleteFrom(b, k + 1)
  }

  /** No line the scan passes over before the one it returns is complete,
      and when it returns nothing, no line from k on is complete. */
  lemma {:induction false} FirstCompleteFromIsFirst(b: Grid, k: nat)
    requires IsBoard(b) && k <= LineCount
    ensures var r := FirstCompleteFrom(b, k);
      (r.Some? ==> forall j :: k <= j < r.value ==> !Completes(b, ScanLine(j)))
      && (r.None? ==> forall j :: k <= j < LineCount ==> !Completes(b, ScanLine(j)))
    decreases LineCount - k
  {
    if k < LineCount && !Completes(b, ScanLine(k)) {
      FirstCompleteFromIsFirst(b, k + 1);
      assert FirstCompleteFrom(b, k) == FirstCompleteFrom(b, k + 1);
    }
  }

  /** The index, in scan order, of the first complete line of the board. */
  function FirstComplete(b: Grid): Option<nat>
    requires IsBoard(b)
  {
    FirstCompleteFrom(b, 0)
  }

  predicate HasWinner(b: Grid)
    requires IsBoard(b)
  {
    FirstComplete(b).Some?
  }

  /** The first complete line, as the list of its coordinates. */
  function WinningLine(b: Grid): seq<Coord>
    requires IsBoard(b) && HasWinner(b)
  {
    ScanLine(FirstComplete(b).value)
  }

  /** The first complete line lists three cells of the board, all holding
      the same mark. */
  lemma WinningLineOwned(b: Grid)
    requires IsBoard(b) && HasWinner(b)
    ensures |WinningLine(b)| == 3
    ensures forall j :: 0 <= j < 3 ==> InBounds(WinningLine(b)[j])
    ensures At(b, WinningLine(b)[0]).Taken?
    ensures forall j :: 0 <= j < 3 ==> At(b, WinningLine(b)[j]) == At(b, WinningLine(b)[0])
  {
  }

  /** No line before position n of the scan is complete. */
  predicate NoneCompleteBefore(b: Grid, n: nat)
    requires IsBoard(b) && n <= LineCount
  {
    forall k :: 0 <= k < n ==> !Completes(b, ScanLine(k))
  }

  /** The first complete line is determined by being complete with no
      complete line before it in the scan. */
  lemma FirstCompleteIs(b: Grid, k: nat)
    requires IsBoard(b) && k < LineCount && Completes(b, ScanLine(k))
    requires NoneCompleteBefore(b, k)
    ensures FirstComplete(b) == Some(k)
    ensures HasWinner(b) && WinningLine(b) == ScanLine(k)
  {
    FirstCompleteFromIsFirst(b, 0);
  }

  /** An incomplete line at position k extends the prefix the scan has passed. */
  lemma ScanPasses(b: Grid, k: nat)
    requires IsBoard(b) && k < LineCount && !Completes(b, ScanLine(k))
    requires NoneCompleteBefore(b, k)
    ensures NoneCompleteBefore(b, k + 1)
  {
  }

  /** With no complete line anywhere, nobody has won. */
  lemma NoCompleteLine(b: Grid)
    requires IsBoard(b) && NoneCompleteBefore(b, LineCount)
    ensures !HasWinner(b)
  {
    FirstCompleteFromIsFirst(b, 0);
  }

  /** Three equal marks in some row, column or diagonal, with no regard to order. */
  predicate ThreeInARow(b: Grid)
    requires IsBoard(b)
  {
    (exists i :: 0 <= i < Size && SameThree(b[i][0], b[i][1], b[i][2]))
    || (exists i :: 0 <= i < Size && SameThree(b[0][i], b[1][i], b[2][i]))
    || SameThree(b[0][0], b[1][1], b[2][2])
    || SameThree(b[0][2], b[1][1], b[2][0])
  }

  /** Line 2i of the scan is row i, and is complete exactly when row i
      holds three equal marks. */
  lemma ScanRow(b: Grid, i: int)
    requires IsBoard(b) && 0 <= i < Size
    ensures ScanLine(2 * i) == [(i, 0), (i, 1), (i, 2)]
    ensures Completes(b, ScanLine(2 * i)) <==> SameThree(b[i][0], b[i][1], b[i][2])
  {
    assert ScanLine(2 * i) == Row(i);
  }

  /** Line 2i + 1 of the scan is column i, and is complete exactly when
      column i holds three equal marks. */
  lemma ScanColumn(b: Grid, i: int)
    requires IsBoard(b) && 0 <= i < Size
    ensures ScanLine(2 * i + 1) == [(0, i), (1, i), (2, i)]
    ensures Completes(b, ScanLine(2 * i + 1)) <==> SameThree(b[0][i], b[1][i], b[2][i])
  {
    assert ScanLine(2 * i + 1) == Column(i);
  }

  /** Lines 6 and 7 of the scan are the main and the anti-diagonal. */
  lemma ScanDiagonals(b: Grid)
    requires IsBoard(b)
    ensures ScanLine(6) == [(0, 0), (1, 1), (2, 2)]
    ensures ScanLine(7) == [(0, 2), (1, 1), (2, 0)]
    ensures Completes(b, ScanLine(6)) <==> SameThree(b[0][0], b[1][1], b[2][2])
    ensures Completes(b, ScanLine(7)) <==> SameThree(b[0][2], b[1][1], b[2][0])
  {
  }

  /** The scan finds a line exactly when the board has three in a row somewhere. */
  lemma HasWinnerIff(b: Grid)
    requires IsBoard(b)
    ensures HasWinner(b) <==> ThreeInARow(b)
  {
    ScanRow(b, 0);
    ScanRow(b, 1);
    ScanRow(b, 2);
    ScanColumn(b, 0);
    ScanColumn(b, 1);
    ScanColumn(b, 2);
    ScanDiagonals(b);
    FirstCompleteFromIsFirst(b, 0);
    var r := FirstComplete(b);
    if r.Some? {
      var k := r.value;
      if k == 0 { assert SameThree(b[0][0], b[0][1], b[0][2]); }
      else if k == 1 { assert SameThree(b[0][0], b[1][0], b[2][0]); }
      else if k == 2 { assert SameThree(b[1][0], b[1][1], b[1][2]); }
      else if k == 3 { assert SameThree(b[0][1], b[1][1], b[2][1]); }
      else if k == 4 { assert SameThree(b[2][0], b[2][1], b[2][2]); }
      else if k == 5 { assert SameThree(b[0][2], b[1][2], b[2][2]); }
    } else {
      assert !Completes(b, ScanLine(0)) && !Completes(b, ScanLine(1));
      assert !Completes(b, ScanLine(2)) && !Completes(b, ScanLine(3));
      assert !Completes(b, ScanLine(4)) && !Completes(b, ScanLine(5));
      assert !Completes(b, ScanLine(6)) && !Completes(b, ScanLine(7));
    }
  }

  /** Placing mark m at (r, c) changes that cell and no other. */
  function Place(b: Grid, r: int, c: int, m: Mark): (b': Grid)
    requires IsBoard(b) && 0 <= r < Size && 0 <= c < Size
    ensures IsBoard(b') && b'[r][c] == Taken(m)
    ensures forall i, j :: 0 <= i < Size && 0 <= j < Size && (i, j) != (r, c) ==> b'[i][j] == b[i][j]
  {
    b[r := b[r][c := Taken(m)]]
  }

  // Counting marks, to relate the board to whose turn it is.

  function CountInRow(row: seq<Cell>, m: Mark): nat {
    if row == [] then 0
    else (if row[0] == Taken(m) then 1 else 0) + CountInRow(row[1..], m)
  }

  function Count(b: Grid, m: Mark): nat {
    if b == [] then 0 else CountInRow(b[0], m) + Count(b[1..], m)
  }

  lemma {:induction false} CountInRowSet(row: seq<Cell>, c: nat, v: Mark, m: Mark)
    requires c < |row| && row[c] == Empty
    ensures CountInRow(row[c := Taken(v)], m) == CountInRow(row, m) + (if v == m then 1 else 0)
  {
    var row' := row[c := Taken(v)];
    if c == 0 {
      assert row'[1..] == row[1..];
    } else {
      assert row'[1..] == row[1..][c - 1 := Taken(v)];
      CountInRowSet(row[1..], c - 1, v, m);
    }
  }

  lemma {:induction false} CountSet(b: Grid, r: nat, c: nat, v: Mark, m: Mark)
    requires r < |b| && c < |b[r]| && b[r][c] == Empty
    ensures Count(b[r := b[r][c := Taken(v)]], m) == Count(b, m) + (if v == m then 1 else 0)
  {
    var b' := b[r := b[r][c := Taken(v)]];
    if r == 0 {
      assert b'[1..] == b[1..];
      CountInRowSet(b[0], c, v, m);
    } else {
      assert b'[1..] == b[1..][r - 1 := b[1..][r - 1][c := Taken(v)]];
      CountSet(b[1..], r - 1, c, v, m);
    }
  }

  /** A move adds one to the mover's count and leaves the other's alone. */
  lemma PlaceCounts(b: Grid, r: int, c: int, v: Mark)
    requires IsBoard(b) && 0 <= r < Size && 0 <= c < Size && b[r][c] == Empty
    ensures Count(Place(b, r, c, v), v) == Count(b, v) + 1
    ensures Count(Place(b, r, c, v), Other(v)) == Count(b, Other(v))
  {
    CountSet(b, r, c, v, v);
    CountSet(b, r, c, v, Other(v));
  }

  lemma {:induction false} CountInRowEmpty(row: seq<Cell>, m: Mark)
    requires forall j :: 0 <= j < |row| ==> row[j] == Empty
    ensures CountInRow(row, m) == 0
  {
    if row != [] {
      CountInRowEmpty(row[1..], m);
    }
  }

  lemma {:induction false} CountEmpty(b: Grid, m: Mark)
    requires forall i, j :: 0 <= i < |b| && 0 <= j < |b[i]| ==> b[i][j] == Empty
    ensures Count(b, m) == 0
  {
    if b != [] {
      CountInRowEmpty(b[0], m);
      CountEmpty(b[1..], m);
    }
  }

  /** X moves first and the two players alternate. While play goes on,
      `turn` is the player to move, so X is one mark ahead exactly when O is
      to move; once the game is over, `turn` is the player who moved last,
      so X is one mark ahead exactly when X moved last. */
  predicate TurnBalanced(b: Grid, turn: Mark, over: bool) {
    Count(b, X) == Count(b, O) + (if over == (turn == X) then 1 else 0)
  }

  /** A new game: nobody has won, the board is not full, and X is to move. */
  lemma EmptyBoardStart()
    ensures !HasWinner(EmptyBoard()) && !IsFull(EmptyBoard())
    ensures TurnBalanced(EmptyBoard(), X, false)
  {
    var b := EmptyBoard();
    CountEmpty(b, X);
    CountEmpty(b, O);
    assert b[0][0] == Empty;
  }

  /** A move by the player whose turn it is keeps the counts in step with
      the turn: the mover has moved last, and the other player is next. */
  lemma MoveKeepsBalance(b: Grid, r: int, c: int, turn: Mark)
    requires IsBoard(b) && 0 <= r < Size && 0 <= c < Size && b[r][c] == Empty
    requires TurnBalanced(b, turn, false)
    ensures TurnBalanced(Place(b, r, c, turn), turn, true)
    ensures TurnBalanced(Place(b, r, c, turn), Other(turn), false)
  {
    PlaceCounts(b, r, c, turn);
  }
}

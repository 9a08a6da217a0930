/// The game around the board: which box a cell belongs to, which numbers the
/// console accepts, and the starting puzzle.

module Game {

  import opened Rules
  import opened Boards

  /** The box that holds the 0-based cell (row, column). */
  function FindBox(row: int, column: int): (b: int)
    ensures 0 <= b < 9
    ensures 0 <= row < 9 && 0 <= column < 9 ==> b == 3 * (row / 3) + column / 3
  {
    if row <= 2 then
      if column <= 2 then 0 else if column <= 5 then 1 else 2
    else if row <= 5 then
      if column <= 2 then 3 else if column <= 5 then 4 else 5
    else
      if column <= 2 then 6 else if column <= 5 then 7 else 8
  }

  /** Every cell lies in the box FindBox names and in no other: the nine
    * boxes partition the grid. */
  lemma BoxesPartitionGrid(row: int, column: int)
    requires 0 <= row < 9 && 0 <= column < 9
    ensures exists t ::
      0 <= t < 9 && BoxRow(FindBox(row, column), t) == row && BoxColumn(FindBox(row, column), t) == column
    ensures forall b, t :: 0 <= b < 9 && 0 <= t < 9 && BoxRow(b, t) == row && BoxColumn(b, t) == column ==>
      b == FindBox(row, column)
  {
    var b := FindBox(row, column);
    var t := 3 * (row % 3) + column % 3;
    ReadingOrder(row / 3, column / 3);
    ReadingOrder(row % 3, column % 3);
    assert BoxRow(b, t) == row && BoxColumn(b, t) == column;
    forall b', t' | 0 <= b' < 9 && 0 <= t' < 9 && BoxRow(b', t') == row && BoxColumn(b', t') == column
      ensures b' == b
    {
      ReadingOrder(b' / 3, b' % 3);
      ReadingOrder(t' / 3, t' % 3);
      ReadingOrder(b' / 3, t' / 3);
      ReadingOrder(b' % 3, t' % 3);
    }
  }

  /** A guess built from accepted numbers lands inside the board and keeps
    * every cell a blank or a digit. */
  lemma AcceptedGuessKeepsCellsInRange(g: Grid, guess: int, row: int, column: int)
    requires IsGrid(g) && CellsInRange(g)
    requires IsAcceptedInput(guess) && IsAcceptedInput(row) && IsAcceptedInput(column)
    ensures 0 <= row - 1 < 9 && 0 <= column - 1 < 9
    ensures CellsInRange(Place(g, guess, row, column))
  {
  }

  /** The grid the game starts from, entry by entry. */
  function Puzzle(): (g: Grid)
    ensures IsGrid(g) && CellsInRange(g)
  {
    [
      [0, 7, 1, 0, 0, 0, 0, 0, 6],
      [0, 0, 9, 0, 0, 0, 8, 0, 0],
      [5, 0, 4, 9, 0, 0, 0, 7, 1],
      [0, 0, 0, 0, 0, 0, 9, 0, 0],
      [0, 0, 0, 4, 3, 0, 0, 0, 0],
      [7, 0, 0, 0, 0, 0, 0, 0, 0],
      [8, 0, 0, 0, 6, 0, 4, 3, 5],
      [0, 0, 3, 1, 4, 0, 0, 0, 8],
      [6, 0, 0, 0, 0, 7, 0, 0, 0]
    ]
  }

  /** The starting puzzle is a 9x9 grid of blanks and digits with a blank
    * left, so the game is not over at the start. */
  lemma PuzzleIsOpen()
    ensures IsGrid(Puzzle()) && CellsInRange(Puzzle())
    ensures HasBlank(Puzzle()) && !Solved(Puzzle())
  {
    assert Puzzle()[0][0] == 0;
  }

  /** The board the game starts from. */
  method NewGame() returns (sudoku: SudokuBoard)
    ensures sudoku.Valid() && fresh(sudoku.board)
    ensures sudoku.Cells() == Puzzle()
  {
    var puzzle := new int[9, 9]((r, c) requires 0 <= r < 9 && 0 <= c < 9 => Puzzle()[r][c]);
    sudoku := new SudokuBoard(puzzle);
    assert forall r :: 0 <= r < 9 ==> sudoku.Cells()[r] == Puzzle()[r];
  }

  /** The game loop's first completion check, on the freshly built board,
    * says the game is not over. */
  method GameStartsUnfinished() returns (over: bool)
    ensures !over
  {
    var sudoku := NewGame();
    over := sudoku.IsGameOver();
    PuzzleIsOpen();
  }
}

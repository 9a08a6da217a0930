# Sudoku board, modelled in Dafny

A console Sudoku game holds a 9x9 grid of integers in which 0 is a blank
cell. The player's guesses overwrite single cells. The board answers four
questions: is a row valid, is a column valid, is a 3x3 box valid, and is the
game over. This project models that board and the small pure helpers of the
game around it, and proves what each operation computes.

- `rules.dfy`, module `Rules`: the grid as a value (`Grid`, nine rows of nine
  cells), the uniqueness rule the checks decide (`NoRepeats`, `RowValid`,
  `ColumnValid`, `BoxValid`, `Solved`), a guess as a change of value
  (`Place`), and Sudoku's rule as usually stated (`IsSudokuSolution`: every
  row, column and box holds each digit 1..9), with the proof that the
  game's completion rule is exactly that rule.
- `board.dfy`, module `Boards`: class `SudokuBoard` over an `array2<int>`.
  The constructor copies its argument with nested loops. `MakeGuess`
  overwrites one cell in place. The three checks and `IsGameOver` are
  methods with the source's loops, proved against the predicates of `Rules`
  through the ghost view `Cells()`.
- `game.dfy`, module `Game`: `FindBox`, the starting puzzle (`Puzzle`) and
  the board built from it. The console's acceptance rule for a number,
  `IsAcceptedInput`, sits in `Rules`, where it is also the precondition of
  a guess.

Behaviour kept as the source has it:

- Blanks count as values. Two blanks in a row, column or box make it
  invalid (`BlanksCountAsValues`). `IsGameOver` rejects every board with a
  blank before it looks at the checks, so this never changes its verdict.
- `isValidBox` uses its `row` and `column` variables the other way round
  from their names: `column` selects the first index. Box `b` therefore
  covers rows `3*(b/3)..3*(b/3)+2` and columns `3*(b%3)..3*(b%3)+2`. The
  boxes are numbered left to right, then top to bottom, which is what
  `FindBox` returns.
- The `switch` in `isValidBox` has no `default`, so a box number outside 0..8
  checks box 0.
- The box scan compares each cell with itself and with every cell after it
  in reading order. Its `firstMark` counter ignores exactly the first
  equality, the self-comparison. In the model the scan of one cell is the
  method `RepeatsLater`, and the two loops over the cells are
  `NoRepeatsInBox`. The variables, loop bounds and early exit are the
  source's own.
- A guess may overwrite any cell, a clue included.

Where the names and comments in the source and its code differ, the model
follows the code:

- Read by their names, the corners in `isValidBox`'s `switch` would put box 1
  at row 3, column 0. The code indexes `board[column][row]`, so box 1 is the
  top middle box.
- The class comment numbers rows and columns 1..9 and boxes from 1. Only
  `makeGuess` takes 1-based positions; the checks take 0-based rows and
  columns and box numbers 0..8.

## Model

| member | source | states |
|---|---|---|
| `Boards.SudokuBoard.constructor` | src/SudokuBoard.java:17-23 | the board is a freshly allocated 9x9 array, so it is not shared with the argument, and every cell equals the argument's cell |
| `Boards.SudokuBoard.MakeGuess` | src/SudokuBoard.java:31-33 | for 1-based row and column in 1..9, the new contents are the old ones with the cell at (row-1, column-1) set to the guess |
| `Rules.Place` | src/SudokuBoard.java:31-33 | the placed cell holds the guess and every other cell keeps its value |
| `Boards.SudokuBoard.IsValidRow` | src/SudokuBoard.java:40-54 | for a row in 0..8, the result is true exactly when no two positions of the row hold equal values, blanks included; the board is not changed |
| `Boards.SudokuBoard.IsValidColumn` | src/SudokuBoard.java:61-74 | for a column in 0..8, the result is true exactly when no two positions of the column hold equal values, blanks included; the board is not changed |
| `Boards.SudokuBoard.IsValidBox` | src/SudokuBoard.java:81-164 | for b in 0..8, the result is true exactly when no two of the cells (3*(b/3)+x, 3*(b%3)+y), x and y in 0..2, are equal; for any other number it is box 0's result; the board is not changed |
| `Boards.BoxCopyInReadingOrder` | src/SudokuBoard.java:114-119 | the local 3x3 copy holds box b's cell number 3*x+y, in reading order, at position (x, y), once the corner comes from the swapped row and column variables |
| `Boards.BoxCopyValid` | src/SudokuBoard.java:114-119 | a copy of box b has a repeat exactly when box b has one |
| `Boards.NoRepeatsInBox` | src/SudokuBoard.java:131-163 | the scan over all nine starting cells returns true exactly when no cell equals a later cell of the copy |
| `Boards.RepeatsLater` | src/SudokuBoard.java:133-160 | the scan from one cell reports a repeat exactly when some later cell in reading order equals it; the self-comparison it meets first is never reported |
| `Boards.SudokuBoard.IsGameOver` | src/SudokuBoard.java:170-193 | the result is true exactly when no cell is blank and every row, column and box 0..8 is valid; it is false whenever some cell is blank |
| `Rules.SolvedIffSudokuSolution` | src/SudokuBoard.java:170-193 | on a grid whose cells are blanks or digits, the completion rule holds exactly when every row, column and box holds each digit 1..9 |
| `Rules.BlanksCountAsValues` | src/SudokuBoard.java:43-52 | a line passes the uniqueness check exactly when every value, blank included, occurs at most once in it, so two blanks fail it |
| `Rules.OverwriteWithRowDigit` | src/SudokuBoard.java:31-54 | on a solved grid, writing into a cell a different digit that its row already holds makes that row invalid and the grid unsolved, and every other row stays valid |
| `Game.FindBox` | src/SudokuGame.java:81-115 | the result is in 0..8 for any integers, and for a cell in 0..8 x 0..8 it is 3*(row/3) + column/3 |
| `Game.BoxesPartitionGrid` | src/SudokuGame.java:81-115 | every cell is one of the cells the box check examines for box FindBox(row, column), and of no other box's, so the nine boxes partition the grid |
| `Game.AcceptedGuessKeepsCellsInRange` | src/SudokuGame.java:62-71 | numbers the console accepts (1..9) give 0-based indices inside the board, and a guess made of them keeps every cell a blank or a digit |
| `Rules.IsAcceptedInput` | src/SudokuGame.java:62-68 | a number is accepted exactly when it is in 1..9, and an accepted number, taken as a 1-based position, lands inside the board; `Place` and `MakeGuess` require exactly this of their row and column |
| `Game.Puzzle` | src/SudokuGame.java:12-22 | the starting grid, entry by entry: nine rows of nine cells, each a blank or a digit |
| `Game.PuzzleIsOpen` | src/SudokuGame.java:12-22 | the starting puzzle is 9x9, every entry is in 0..9, it has a blank, and it is not solved |
| `Game.NewGame` | src/SudokuGame.java:12-24 | the board built from the starting puzzle holds exactly the puzzle, in an array of its own |
| `Game.GameStartsUnfinished` | src/SudokuGame.java:24-29 | the game loop's first completion check on the fresh board returns false |

## Left out

- `printBoard` (src/SudokuBoard.java:198-233): console formatting only.
- `main`'s read-and-print loop and `collectInput`'s `Scanner` handling and
  re-prompting (src/SudokuGame.java:27-41, 50-73): console I/O. Only the
  rule that a number is accepted exactly when it is in 1..9 is kept, as
  `Rules.IsAcceptedInput`.
- Index exceptions: the out-of-range row or column indices that make
  `makeGuess`, `isValidRow` and `isValidColumn` throw are excluded by
  `requires` clauses instead of being modelled as behaviour.
- The constructor on an argument that is not 9x9: its loop bounds mix the
  two dimensions, and the model requires a 9x9 argument.
- The source's `int[][]` is an array of separately allocated rows. The model
  uses one `array2<int>`, so it does not capture the rows being shared with
  other arrays.
- Java's 32-bit `int`: the only arithmetic on values coming from outside is
  `row - 1` and `column - 1` on numbers in 1..9, which cannot overflow.
- The board does not keep its cells in 0..9 by itself, because the source
  does not check guesses or the constructor's argument.
  `AcceptedGuessKeepsCellsInRange` states what the console's rule gives.
- The completed grid of the starting puzzle is not part of this model,
  because the source does not contain it. The winning case is still covered for
  every solution: `IsGameOver` returns true exactly when `Solved` holds, and
  `SolvedIffSudokuSolution` shows that `Solved` is Sudoku's usual rule.
  `OverwriteWithRowDigit` states the overwrite-one-cell scenario for every
  solved grid.

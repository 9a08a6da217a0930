/// The Sudoku board: a 9x9 grid of integers, 0 for a blank, that guesses
/// overwrite in place and that answers the row, column, box and completion
/// checks.

module Boards {

  import opened Rules

  class SudokuBoard {

    var board: array2<int>

    ghost predicate Valid()
      reads this
    {
      board.Length0 == 9 && board.Length1 == 9
    }

    /** The board's current contents as a value. */
    ghost function Cells(): (g: Grid)
      reads this, board
      requires Valid()
      ensures IsGrid(g)
      ensures forall r, c :: 0 <= r < 9 && 0 <= c < 9 ==> g[r][c] == board[r, c]
    {
      var a := board;
      seq(9, r requires 0 <= r < 9 reads a => seq(9, c requires 0 <= c < 9 reads a => a[r, c]))
    }

    /** Copies arr into a board of its own. */
    constructor (arr: array2<int>)
      requires arr.Length0 == 9 && arr.Length1 == 9
      ensures Valid() && fresh(board)
      ensures forall r, c :: 0 <= r < 9 && 0 <= c < 9 ==> Cells()[r][c] == arr[r, c]
    {
      board := new int[9, 9];
      new;
      for i := 0 to arr.Length1
        invariant Valid() && fresh(board)
        invariant forall r, c :: 0 <= r < i && 0 <= c < 9 ==> board[r, c] == arr[r, c]
      {
        for j := 0 to arr.Length0
          invariant Valid() && fresh(board)
          invariant forall r, c :: 0 <= r < i && 0 <= c < 9 ==> board[r, c] == arr[r, c]
          invariant forall c :: 0 <= c < j ==> board[i, c] == arr[i, c]
        {
          board[i, j] := arr[i, j];
        }
      }
    }

    /** Writes guess at the 1-based position (row, column), whatever the cell
      * held before. */
    method MakeGuess(guess: int, row: int, column: int)
      requires Valid() && IsAcceptedInput(row) && IsAcceptedInput(column)
      modifies board
      ensures Valid()
      ensures Cells() == Place(old(Cells()), guess, row, column)
    {
      board[row - 1, column - 1] := guess;
      ghost var h := Place(old(Cells()), guess, row, column);
      assert forall r, c :: 0 <= r < 9 && 0 <= c < 9 ==> Cells()[r][c] == h[r][c];
      assert forall r :: 0 <= r < 9 ==> Cells()[r] == h[r];
    }

    /** Whether no two cells of the 0-based row hold the same value. */
    method IsValidRow(row: int) returns (valid: bool)
      requires Valid() && 0 <= row < 9
      ensures valid <==> RowValid(Cells(), row)
    {
      valid := true;
      for i := 0 to board.Length1 - 1
        invariant valid <==> forall p, q :: 0 <= p < i && p < q < 9 ==> board[row, p] != board[row, q]
      {
        for j := 1 to board.Length1
          invariant valid <==>
            (forall p, q :: 0 <= p < i && p < q < 9 ==> board[row, p] != board[row, q]) &&
            (forall q :: i < q < i + j && q < 9 ==> board[row, i] != board[row, q])
        {
          if j + i > board.Length1 - 1 {
            break;
          } else if board[row, i] == board[row, j + i] {
            valid := false;
          }
        }
      }
    }

    /** Whether no two cells of the 0-based column hold the same value. */
    method IsValidColumn(column: int) returns (valid: bool)
      requires Valid() && 0 <= column < 9
      ensures valid <==> ColumnValid(Cells(), column)
    {
      valid := true;
      for i := 0 to board.Length1 - 1
        invariant valid <==> forall p, q :: 0 <= p < i && p < q < 9 ==> board[p, column] != board[q, column]
      {
        for j := 1 to board.Length1
          invariant valid <==>
            (forall p, q :: 0 <= p < i && p < q < 9 ==> board[p, column] != board[q, column]) &&
            (forall q :: i < q < i + j && q < 9 ==> board[i, column] != board[q, column])
        {
          if j + i > board.Length1 - 1 {
            break;
          } else if board[i, column] == board[j + i, column] {
            valid := false;
          }
        }
      }
      assert forall i :: 0 <= i < 9 ==> Column(Cells(), column)[i] == board[i, column];
    }

    /** Whether no two cells of box boxNumber hold the same value. A number
      * outside 0..8 selects box 0. */
    method IsValidBox(boxNumber: int) returns (valid: bool)
      requires Valid()
      ensures 0 <= boxNumber < 9 ==> (valid <==> BoxValid(Cells(), boxNumber))
      ensures !(0 <= boxNumber < 9) ==> (valid <==> BoxValid(Cells(), 0))
    {
      // The corner's two coordinates come out named the other way round from
      // the indices they are used at: column picks the first index.
      var column, row := 0, 0;
      match boxNumber {
      case 0 => row, column := 0, 0;
      case 1 => row, column := 3, 0;
      case 2 => row, column := 6, 0;
      case 3 => row, column := 0, 3;
      case 4 => row, column := 3, 3;
      case 5 => row, column := 6, 3;
      case 6 => row, column := 0, 6;
      case 7 => row, column := 3, 6;
      case 8 => row, column := 6, 6;
      case _ =>
      }
      ghost var b := if 0 <= boxNumber < 9 then boxNumber else 0;
      assert column == 3 * (b / 3) && row == 3 * (b % 3);

      var box := [
        [board[column, row], board[column, row + 1], board[column, row + 2]],
        [board[column + 1, row], board[column + 1, row + 1], board[column + 1, row + 2]],
        [board[column + 2, row], board[column + 2, row + 1], board[column + 2, row + 2]]
      ];
      BoxCopyInReadingOrder(Cells(), b, column, row, box);
      BoxCopyValid(Cells(), b, box);

      valid := NoRepeatsInBox(box);
    }

    /** Whether the game is finished: no blank left and every row, column and
      * box valid. */
    method IsGameOver() returns (over: bool)
      requires Valid()
      ensures over <==> Solved(Cells())
      ensures HasBlank(Cells()) ==> !over
    {
      for r := 0 to board.Length0
        invariant forall p, c :: 0 <= p < r && 0 <= c < 9 ==> board[p, c] != 0
      {
        for j := 0 to board.Length1
          invariant forall p, c :: 0 <= p < r && 0 <= c < 9 ==> board[p, c] != 0
          invariant forall c :: 0 <= c < j ==> board[r, c] != 0
        {
          if board[r, j] == 0 {
            return false;
          }
        }
      }
      for j := 0 to 9
        invariant forall n :: 0 <= n < j ==> RowValid(Cells(), n) && ColumnValid(Cells(), n)
      {
        var rowOk := IsValidRow(j);
        var columnOk := rowOk;
        if rowOk {
          columnOk := IsValidColumn(j);
        }
        if !rowOk || !columnOk {
          return false;
        }
      }
      for k := 0 to 9
        invariant forall n :: 0 <= n < k ==> BoxValid(Cells(), n)
      {
        var boxOk := IsValidBox(k);
        if !boxOk {
          return false;
        }
      }
      return true;
    }
  }

  /** Whether no two cells of a 3x3 box are equal: each cell, in reading
    * order, is compared with itself and every cell after it. */
  method NoRepeatsInBox(box: seq<seq<int>>) returns (valid: bool)
    requires IsBox(box)
    ensures valid <==> NoRepeatsFrom(box, 9)
  {
    for columnStarter := 0 to |box|
      invariant NoRepeatsFrom(box, 3 * columnStarter)
    {
      for boxStarter := 0 to |box[0]|
        invariant NoRepeatsFrom(box, 3 * columnStarter + boxStarter)
      {
        var repeated := RepeatsLater(box, columnStarter, boxStarter);
        if repeated {
          return false;
        }
        forall x, y | 0 <= x < 3 && 0 <= y < 3 && 3 * x + y == 3 * columnStarter + boxStarter
          ensures box[x][y] == box[columnStarter][boxStarter]
        {
          SamePosition(x, y, columnStarter, boxStarter);
        }
      }
    }
    return true;
  }

  /** Whether the cell at (columnStarter, boxStarter) of a 3x3 box is equal
    * to a cell after it in reading order. The scan starts at the cell itself
    * and ignores the first equality it meets, which is that one. */
  method RepeatsLater(box: seq<seq<int>>, columnStarter: int, boxStarter: int) returns (repeated: bool)
    requires IsBox(box) && 0 <= columnStarter < 3 && 0 <= boxStarter < 3
    ensures !repeated <==> forall x, y :: 0 <= x < 3 && 0 <= y < 3 && 3 * columnStarter + boxStarter < 3 * x + y ==>
      box[x][y] != box[columnStarter][boxStarter]
  {
    ghost var s := 3 * columnStarter + boxStarter;
    var k, j, firstMark := 0, 0, 0;
    var rowStarter := boxStarter;
    // next: the number, in reading order, of the cell compared next.
    ghost var next := s;
    while columnStarter + k <= 2
      invariant 0 <= k && columnStarter + k <= 3
      invariant 0 <= rowStarter <= 2 && 0 <= j && rowStarter + j <= 3
      invariant k == 0 ==> rowStarter == boxStarter
      invariant k > 0 ==> rowStarter == 0
      invariant columnStarter + k == 3 ==> rowStarter + j == 0
      invariant next == 3 * (columnStarter + k) + rowStarter + j
      invariant s <= next <= 9
      invariant firstMark == if next > s then 1 else 0
      invariant forall x, y :: 0 <= x < 3 && 0 <= y < 3 && s < 3 * x + y < next ==>
        box[x][y] != box[columnStarter][boxStarter]
      decreases 9 - next
    {
      if rowStarter + j > 2 {
        k := k + 1;
        j := 0;
        rowStarter := 0;
      }
      if columnStarter + k > 2 {
        break;
      }
      forall x, y | 0 <= x < 3 && 0 <= y < 3 && 3 * x + y == next
        ensures box[x][y] == box[columnStarter + k][rowStarter + j]
      {
        SamePosition(x, y, columnStarter + k, rowStarter + j);
      }
      if box[columnStarter][boxStarter] == box[columnStarter + k][rowStarter + j] {
        if firstMark != 0 {
          return true;
        } else {
          firstMark := firstMark + 1;
        }
      }
      j := j + 1;
      next := next + 1;
    }
    return false;
  }

  predicate IsBox(box: seq<seq<int>>) {
    |box| == 3 && forall x :: 0 <= x < 3 ==> |box[x]| == 3
  }

  /** No cell of a 3x3 box numbered below limit, in reading order, equals a
    * cell numbered after it. */
  predicate NoRepeatsFrom(box: seq<seq<int>>, limit: int)
    requires IsBox(box)
  {
    forall x1, y1, x2, y2 ::
      0 <= x1 < 3 && 0 <= y1 < 3 && 0 <= x2 < 3 && 0 <= y2 < 3 &&
      3 * x1 + y1 < limit && 3 * x1 + y1 < 3 * x2 + y2 ==>
      box[x1][y1] != box[x2][y2]
  }

  /** The 3x3 copy that IsValidBox makes of box b holds, at position (x, y),
    * the box's cell number 3 * x + y in reading order. */
  lemma BoxCopyInReadingOrder(g: Grid, b: int, column: int, row: int, box: seq<seq<int>>)
    requires IsGrid(g) && 0 <= b < 9
    requires column == 3 * (b / 3) && row == 3 * (b % 3)
    requires box == [
      [g[column][row], g[column][row + 1], g[column][row + 2]],
      [g[column + 1][row], g[column + 1][row + 1], g[column + 1][row + 2]],
      [g[column + 2][row], g[column + 2][row + 1], g[column + 2][row + 2]]
    ]
    ensures IsBox(box)
    ensures forall x, y :: 0 <= x < 3 && 0 <= y < 3 ==> box[x][y] == Box(g, b)[3 * x + y]
  {
    forall x, y | 0 <= x < 3 && 0 <= y < 3
      ensures box[x][y] == Box(g, b)[3 * x + y]
    {
      ReadingOrder(x, y);
      assert BoxRow(b, 3 * x + y) == column + x && BoxColumn(b, 3 * x + y) == row + y;
    }
  }

  /** A 3x3 copy of box b has a repeat exactly when box b has. */
  lemma BoxCopyValid(g: Grid, b: int, box: seq<seq<int>>)
    requires IsGrid(g) && 0 <= b < 9 && IsBox(box)
    requires forall x, y :: 0 <= x < 3 && 0 <= y < 3 ==> box[x][y] == Box(g, b)[3 * x + y]
    ensures NoRepeatsFrom(box, 9) <==> BoxValid(g, b)
  {
    if NoRepeatsFrom(box, 9) {
      forall s, t | 0 <= s < t < 9 ensures Box(g, b)[s] != Box(g, b)[t] {
        ReadingOrder(s / 3, s % 3);
        ReadingOrder(t / 3, t % 3);
        assert box[s / 3][s % 3] != box[t / 3][t % 3];
      }
    }
  }

  /** Different positions of a 3x3 box have different numbers. */
  lemma SamePosition(x1: int, y1: int, x2: int, y2: int)
    requires 0 <= x1 < 3 && 0 <= y1 < 3 && 0 <= x2 < 3 && 0 <= y2 < 3
    requires 3 * x1 + y1 == 3 * x2 + y2
    ensures x1 == x2 && y1 == y2
  {
  }

  /** Position (x, y) of a 3x3 box is cell number 3 * x + y in reading order. */
  lemma ReadingOrder(x: int, y: int)
    requires 0 <= x < 3 && 0 <= y < 3
    ensures (3 * x + y) / 3 == x && (3 * x + y) % 3 == y
  {
  }
}

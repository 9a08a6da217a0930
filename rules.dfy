/// The board's contents as a value, and the uniqueness rule the board's
/// checks decide. A grid is nine rows of nine cells; the first index is the
/// row, the second the column, and 0 stands for a blank cell.

module Rules {

  type Grid = seq<seq<int>>

  predicate IsGrid(g: Grid) {
    |g| == 9 && forall r :: 0 <= r < 9 ==> |g[r]| == 9
  }

  /** Every cell is a blank or one of the digits 1..9. */
  predicate CellsInRange(g: Grid)
    requires IsGrid(g)
  {
    forall r, c :: 0 <= r < 9 && 0 <= c < 9 ==> 0 <= g[r][c] <= 9
  }

  predicate HasBlank(g: Grid)
    requires IsGrid(g)
  {
    exists r, c :: 0 <= r < 9 && 0 <= c < 9 && g[r][c] == 0
  }

  /** No two positions of s hold the same value. A blank is a value like any
    * other here, so two blanks are a repeat. */
  predicate NoRepeats(s: seq<int>) {
    forall i, k :: 0 <= i < k < |s| ==> s[i] != s[k]
  }

  function Column(g: Grid, c: int): seq<int>
    requires IsGrid(g) && 0 <= c < 9
  {
    seq(9, i requires 0 <= i < 9 => g[i][c])
  }

  /** Row (first index) of the t-th cell, counted left to right and then top
    * to bottom, of box b. Boxes are numbered the same way. */
  function BoxRow(b: int, t: int): (r: int)
    ensures 0 <= b < 9 && 0 <= t < 9 ==> 0 <= r < 9
  {
    3 * (b / 3) + t / 3
  }

  /** Column (second index) of the t-th cell of box b. */
  function BoxColumn(b: int, t: int): (c: int)
    ensures 0 <= b < 9 && 0 <= t < 9 ==> 0 <= c < 9
  {
    3 * (b % 3) + t % 3
  }

  /** The nine cells of box b in reading order. */
  function Box(g: Grid, b: int): seq<int>
    requires IsGrid(g) && 0 <= b < 9
  {
    seq(9, t requires 0 <= t < 9 => g[BoxRow(b, t)][BoxColumn(b, t)])
  }

  predicate RowValid(g: Grid, r: int)
    requires IsGrid(g) && 0 <= r < 9
  {
    NoRepeats(g[r])
  }

  predicate ColumnValid(g: Grid, c: int)
    requires IsGrid(g) && 0 <= c < 9
  {
    NoRepeats(Column(g, c))
  }

  predicate BoxValid(g: Grid, b: int)
    requires IsGrid(g) && 0 <= b < 9
  {
    NoRepeats(Box(g, b))
  }

  /** The game's completion rule: no blank is left, and every row, column
    * and box passes its uniqueness check. */
  predicate Solved(g: Grid)
    requires IsGrid(g)
  {
    !HasBlank(g) &&
    forall n :: 0 <= n < 9 ==> RowValid(g, n) && ColumnValid(g, n) && BoxValid(g, n)
  }

  // ----- Sudoku's rule as usually stated, and its agreement with Solved -----

  predicate HasEveryDigit(s: seq<int>) {
    forall d :: 1 <= d <= 9 ==> d in s
  }

  /** Each row, column and box holds every digit 1..9. */
  predicate IsSudokuSolution(g: Grid)
    requires IsGrid(g)
  {
    forall n :: 0 <= n < 9 ==>
      HasEveryDigit(g[n]) && HasEveryDigit(Column(g, n)) && HasEveryDigit(Box(g, n))
  }

  function Values(s: seq<int>): set<int> {
    set x | x in s
  }

  const Digits: set<int> := {1, 2, 3, 4, 5, 6, 7, 8, 9}

  /** A sequence has at most as many distinct values as positions, and
    * exactly as many when it has no repeats. */
  lemma {:induction false} ValuesCount(s: seq<int>)
    ensures |Values(s)| <= |s|
    ensures |Values(s)| == |s| <==> NoRepeats(s)
  {
    if s != [] {
      var p, x := s[..|s| - 1], s[|s| - 1];
      assert s == p + [x];
      ValuesCount(p);
      assert Values(s) == Values(p) + {x};
      if x in Values(p) {
        var i :| 0 <= i < |p| && p[i] == x;
        assert s[i] == s[|s| - 1];
      } else {
        assert NoRepeats(s) <==> NoRepeats(p) by {
          if NoRepeats(p) {
            forall i, k | 0 <= i < k < |s| ensures s[i] != s[k] {
              if k < |p| { assert s[i] == p[i] && s[k] == p[k]; }
              else { assert s[i] in Values(p); }
            }
          }
        }
      }
    }
  }

  /** Nine pairwise different digits are all nine digits. */
  lemma DistinctDigitsAreAllDigits(s: seq<int>)
    requires |s| == 9 && NoRepeats(s)
    requires forall i :: 0 <= i < 9 ==> 1 <= s[i] <= 9
    ensures HasEveryDigit(s)
  {
    ValuesCount(s);
    assert Values(s) <= Digits;
    assert |Digits| == 9;
    SubsetOfSameSize(Values(s), Digits);
  }

  /** Nine cells that hold every digit hold nothing else and no repeat. */
  lemma AllDigitsAreDistinctDigits(s: seq<int>)
    requires |s| == 9 && HasEveryDigit(s)
    ensures NoRepeats(s)
    ensures forall i :: 0 <= i < 9 ==> 1 <= s[i] <= 9
  {
    ValuesCount(s);
    assert Digits <= Values(s);
    assert |Digits| == 9;
    SubsetSize(Digits, Values(s));
    SubsetOfSameSize(Digits, Values(s));
    forall i | 0 <= i < 9 ensures 1 <= s[i] <= 9 {
      assert s[i] in Values(s);
    }
  }

  lemma SubsetSize(a: set<int>, b: set<int>)
    requires a <= b
    ensures |a| <= |b|
  {
    assert b == a + (b - a);
  }

  lemma SubsetOfSameSize(a: set<int>, b: set<int>)
    requires a <= b && |a| == |b|
    ensures a == b
  {
    assert b == a + (b - a);
    assert |b - a| == 0;
  }

  /** On a grid of blanks and digits, the game's completion rule is exactly
    * Sudoku's: every row, column and box holds each digit 1..9 once. */
  lemma SolvedIffSudokuSolution(g: Grid)
    requires IsGrid(g) && CellsInRange(g)
    ensures Solved(g) <==> IsSudokuSolution(g)
  {
    if Solved(g) {
      forall n | 0 <= n < 9
        ensures HasEveryDigit(g[n]) && HasEveryDigit(Column(g, n)) && HasEveryDigit(Box(g, n))
      {
        forall i | 0 <= i < 9 ensures 1 <= g[n][i] <= 9 && 1 <= g[i][n] <= 9 {
          assert g[n][i] != 0 && g[i][n] != 0;
        }
        forall t | 0 <= t < 9 ensures 1 <= Box(g, n)[t] <= 9 {
          assert g[BoxRow(n, t)][BoxColumn(n, t)] != 0;
        }
        assert RowValid(g, n) && ColumnValid(g, n) && BoxValid(g, n);
        DistinctDigitsAreAllDigits(g[n]);
        DistinctDigitsAreAllDigits(Column(g, n));
        DistinctDigitsAreAllDigits(Box(g, n));
      }
    }
    if IsSudokuSolution(g) {
      forall n | 0 <= n < 9
        ensures RowValid(g, n) && ColumnValid(g, n) && BoxValid(g, n)
        ensures forall c :: 0 <= c < 9 ==> g[n][c] != 0
      {
        AllDigitsAreDistinctDigits(g[n]);
        AllDigitsAreDistinctDigits(Column(g, n));
        AllDigitsAreDistinctDigits(Box(g, n));
      }
    }
  }

  /** Two blanks in one row, column or box make it invalid: the checks treat
    * blank as a value. A line with at most one blank and otherwise different
    * digits stays valid. */
  lemma {:induction false} BlanksCountAsValues(s: seq<int>)
    ensures NoRepeats(s) <==> forall v :: multiset(s)[v] <= 1
  {
    if s != [] {
      var p, x := s[..|s| - 1], s[|s| - 1];
      assert s == p + [x];
      BlanksCountAsValues(p);
      assert multiset(s) == multiset(p) + multiset{x};
      if x in p {
        var i :| 0 <= i < |p| && p[i] == x;
        assert s[i] == s[|s| - 1];
        assert multiset(s)[x] >= 2;
      } else {
        assert NoRepeats(s) <==> NoRepeats(p) by {
          if NoRepeats(p) {
            forall i, k | 0 <= i < k < |s| ensures s[i] != s[k] {
              if k < |p| { assert s[i] == p[i] && s[k] == p[k]; }
              else { assert s[i] in p; }
            }
          }
        }
        assert multiset(p)[x] == 0;
        forall v ensures multiset(s)[v] == multiset(p)[v] + (if v == x then 1 else 0) { }
      }
    }
  }

  // ----- a guess, as a change of value -----

  /** The console's rule for a guess, a row or a column: one of the nine
    * digits, which as a 1-based position lands inside the board. */
  predicate IsAcceptedInput(num: int): (ok: bool)
    ensures ok <==> num in Digits
    ensures ok ==> 0 <= num - 1 < 9
  {
    1 <= num <= 9
  }

  /** The grid after the value guess is written at the 1-based position
    * (row, column). */
  function Place(g: Grid, guess: int, row: int, column: int): (h: Grid)
    requires IsGrid(g) && IsAcceptedInput(row) && IsAcceptedInput(column)
    ensures IsGrid(h)
    ensures h[row - 1][column - 1] == guess
    ensures forall r, c :: 0 <= r < 9 && 0 <= c < 9 && (r != row - 1 || c != column - 1) ==> h[r][c] == g[r][c]
  {
    g[row - 1 := g[row - 1][column - 1 := guess]]
  }

  /** Overwriting a cell of a solved grid with a digit already elsewhere in
    * its row makes that row invalid and the grid unsolved; every other row
    * keeps its verdict. */
  lemma OverwriteWithRowDigit(g: Grid, d: int, row: int, column: int)
    requires IsGrid(g) && Solved(g) && IsAcceptedInput(row) && IsAcceptedInput(column)
    requires d in g[row - 1] && d != g[row - 1][column - 1]
    ensures !RowValid(Place(g, d, row, column), row - 1)
    ensures !Solved(Place(g, d, row, column))
    ensures forall r :: 0 <= r < 9 && r != row - 1 ==> RowValid(Place(g, d, row, column), r)
  {
    var h := Place(g, d, row, column);
    var p :| 0 <= p < 9 && g[row - 1][p] == d;
    assert h[row - 1][p] == d == h[row - 1][column - 1];
    forall r | 0 <= r < 9 && r != row - 1 ensures RowValid(h, r) {
      assert RowValid(g, r) && h[r] == g[r];
    }
  }
}

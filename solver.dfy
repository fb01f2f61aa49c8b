/** The solver object: the clue grid and the solution grid as 9×9 arrays,
    the copy of the clue into the solution, the three membership checks,
    their conjunction, and the recursive backtracking `Solve`, each proved
    against the value-level model in `Grids` and `Backtracking`. */
module Solver {
  import opened Grids
  import opened Backtracking

  class SudokuSolver {
    /** The puzzle as given; never written after construction. */
    const myClue: array2<int>
    /** The working grid the search fills in. */
    const mySolution: array2<int>

    /** The puzzle as a grid value. */
    ghost const clue: Grid
    /** The current contents of `mySolution` as a grid value. */
    ghost var solution: Grid

    /** Both arrays are 9×9 and distinct, and `clue` mirrors `myClue` cell by cell. */
    ghost predicate ClueLoaded()
      reads this, myClue
    {
      && myClue.Length0 == DIMENSION && myClue.Length1 == DIMENSION
      && mySolution.Length0 == DIMENSION && mySolution.Length1 == DIMENSION
      && myClue != mySolution
      && IsGrid(clue)
      && forall r, c :: InGrid(r, c) ==> myClue[r, c] == clue[r][c]
    }

    /** In addition, `solution` mirrors `mySolution` cell by cell. */
    ghost predicate Valid()
      reads this, myClue, mySolution
    {
      && ClueLoaded()
      && IsGrid(solution)
      && forall r, c :: InGrid(r, c) ==> mySolution[r, c] == solution[r][c]
    }

    /** Builds a solver for `puzzle`, whose 81 entries stand for the numbers read
        from the puzzle file, and copies the clue into the solution grid. */
    constructor (puzzle: Grid)
      requires IsGrid(puzzle)
      ensures Valid() && fresh(myClue) && fresh(mySolution)
      ensures clue == puzzle && solution == puzzle
    {
      myClue := new int[DIMENSION, DIMENSION]((r, c) => if InGrid(r, c) then puzzle[r][c] else BLANK);
      mySolution := new int[DIMENSION, DIMENSION];
      clue := puzzle;
      solution := seq(DIMENSION, r => seq(DIMENSION, c => BLANK));
      new;
      CopyClueToSolution();
    }

    /** The constructor's copy loop: every cell of the clue goes into the solution. */
    method CopyClueToSolution()
      requires ClueLoaded()
      modifies this, mySolution
      ensures Valid() && solution == clue
    {
      for i := 0 to DIMENSION
        invariant forall r, c :: 0 <= r < i && 0 <= c < DIMENSION ==> mySolution[r, c] == myClue[r, c]
      {
        for j := 0 to DIMENSION
          invariant forall r, c :: 0 <= r < i && 0 <= c < DIMENSION ==> mySolution[r, c] == myClue[r, c]
          invariant forall c :: 0 <= c < j ==> mySolution[i, c] == myClue[i, c]
        {
          mySolution[i, j] := myClue[i, j];
        }
      }
      solution := clue;
    }

    /** `isInRow`: scans column `column` over all rows (despite its name). */
    method IsInRow(row: int, column: int, element: int) returns (found: bool)
      requires Valid() && 0 <= column < DIMENSION
      ensures found == ColumnContains(solution, column, element)
    {
      for i := 0 to DIMENSION
        invariant forall r :: 0 <= r < i ==> mySolution[r, column] != element
      {
        if mySolution[i, column] == element {
          assert solution[i][column] == element;
          return true;
        }
      }
      return false;
    }

    /** `isInColumn`: scans row `row` over all columns (despite its name). */
    method IsInColumn(row: int, column: int, element: int) returns (found: bool)
      requires Valid() && 0 <= row < DIMENSION
      ensures found == RowContains(solution, row, element)
    {
      for i := 0 to DIMENSION
        invariant forall c :: 0 <= c < i ==> mySolution[row, c] != element
      {
        if mySolution[row, i] == element {
          assert solution[row][i] == element;
          return true;
        }
      }
      return false;
    }

    /** `isInBox`: scans the 3×3 box whose top-left corner is
        ((row / 3) * 3, (column / 3) * 3). */
    method IsInBox(row: int, column: int, element: int) returns (found: bool)
      requires Valid() && InGrid(row, column)
      ensures found == BoxContains(solution, row, column, element)
    {
      var tempRow := (row / REGION_DIM) * REGION_DIM;
      var tempCol := (column / REGION_DIM) * REGION_DIM;
      for i := 0 to REGION_DIM
        invariant forall a, b :: 0 <= a < i && 0 <= b < REGION_DIM ==> BoxCell(solution, row, column, a, b) != element
      {
        for j := 0 to REGION_DIM
          invariant forall a, b :: 0 <= a < i && 0 <= b < REGION_DIM ==> BoxCell(solution, row, column, a, b) != element
          invariant forall b :: 0 <= b < j ==> BoxCell(solution, row, column, i, b) != element
        {
          if mySolution[i + tempRow, j + tempCol] == element {
            assert BoxCell(solution, row, column, i, j) == element;
            return true;
          }
        }
      }
      return false;
    }

    /** `allConditionsMet`: `element` may go at (row, col) exactly when none of the
        three checks finds it. */
    method AllConditionsMet(row: int, col: int, element: int) returns (ok: bool)
      requires Valid() && InGrid(row, col)
      ensures ok == Placeable(solution, row, col, element)
    {
      var inRow := IsInRow(row, col, element);
      var inCol := IsInColumn(row, col, element);
      var inBox := IsInBox(row, col, element);
      if !inRow && !inCol && !inBox {
        return true;
      }
      return false;
    }

    /** A write `mySolution[row][col] = v` of `solve`, with the mirror kept in step. */
    method SetCell(row: int, col: int, v: int)
      requires Valid() && InGrid(row, col)
      modifies this, mySolution
      ensures Valid() && solution == Place(old(solution), row, col, v)
    {
      mySolution[row, col] := v;
      solution := Place(solution, row, col, v);
    }

    /** `solve(row, col)`: fills the blank cells from (row, col) on by backtracking.
        Its result and the grid it leaves are those of the model `Search`. Each
        recursive call goes to `Next(row, col)`, which is the source's choice
        between `solve(row, col + 1)` and `solve(row + 1, 0)`. */
    method Solve(row: int, col: int) returns (b: bool)
      requires Valid() && IsStart(row, col)
      modifies this, mySolution
      decreases CELLS - Pos(row, col)
      ensures Valid()
      ensures b == Search(clue, old(solution), row, col).solved
      ensures solution == Search(clue, old(solution), row, col).grid
    {
      var possibleNumbers := [1, 2, 3, 4, 5, 6, 7, 8, 9];
      if row == DIMENSION {
        return true;
      } else if myClue[row, col] != BLANK {
        // The source guards this branch with `row < DIMENSION`, which always holds here.
        SearchSkipsGiven(clue, solution, row, col);
        var n := Next(row, col);
        b := Solve(n.0, n.1);
        return b;
      } else {
        SearchTriesBlank(clue, solution, row, col);
        for i := 0 to |possibleNumbers|
          invariant Valid()
          invariant TryDigits(clue, solution, row, col, i + 1) == Search(clue, old(solution), row, col)
        {
          assert possibleNumbers[i] == i + 1;
          var conditionCheck := AllConditionsMet(row, col, possibleNumbers[i]);
          if conditionCheck {
            TryDigitsPlaced(clue, solution, row, col, i + 1);
            SetCell(row, col, possibleNumbers[i]);
            var n := Next(row, col);
            var solved := Solve(n.0, n.1);
            if !solved {
              SetCell(row, col, BLANK);
            } else {
              return true;
            }
          } else {
            TryDigitsSkipped(clue, solution, row, col, i + 1);
          }
        }
      }
      return false;
    }
  }
}

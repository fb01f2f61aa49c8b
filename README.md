# Sudoku backtracking solver, modelled in Dafny

The modelled program is a small Java class, `SudokuSolver`, that solves 9×9 Sudoku
puzzles. It holds two 9×9 integer arrays: the clue (0 marks a blank cell) and the
solution grid.

- The constructor copies the clue into the solution grid.
- `solve(row, col)` walks the cells in row-major order. It skips given cells. At each
  blank cell it tries the digits 1..9 in ascending order.
- A digit is placed only if three checks accept it:
  - `isInRow` is false (despite its name, this scans the cell's column);
  - `isInColumn` is false (this scans the cell's row);
  - `isInBox` is false (this scans the cell's 3×3 box).
- After placing a digit, `solve` recurses on the next cell. If that fails, it resets
  the cell to blank and tries the next digit.
- It returns true once the position passes the last row.

The project has four modules:

- `Grids` (`grids.dfy`) defines the grid as a value (`seq<seq<int>>`). It holds the
  constants `BLANK`, `DIMENSION` and `REGION_DIM`, the three checks as predicates,
  and what it means for a grid to be consistent, filled, or a solution of a clue.
- `Backtracking` (`search.dfy`) is `solve` as a pair of mutually recursive functions:
  - `Search` handles one position;
  - `TryDigits` is the candidate loop at a blank cell.

  Their `Outcome` is the boolean result together with the grid the search leaves
  behind. That grid includes the reset to blank on the grid a failed recursive call
  leaves behind.
- `Solver` (`solver.dfy`) is the Java class as a Dafny `class`:
  - two `array2<int>` fields;
  - the copy loop;
  - the three scans and their conjunction, as methods with loop invariants;
  - the recursive `Solve` method.

  Two ghost fields mirror the arrays: `clue` mirrors `myClue`, and `solution` mirrors
  `mySolution`. `Solve` is proved against `Search`: its result, and what
  `mySolution` holds afterwards, are exactly `Search`'s outcome.
- `SearchProperties` (`properties.dfy`) proves what the search guarantees:
  - given cells and cells before the start are never written;
  - a failed search restores the grid;
  - a successful search fills every blank with a digit that passed the checks;
  - consistency is preserved;
  - completeness: if the clue has a solution, `solve(0, 0)` returns true;
  - the smallest digit whose continuation succeeds is the one kept;
  - a blank puzzle is solved.

The code does not validate the clue. A puzzle whose clues already clash is not
necessarily reported unsolvable. A fully given clue with duplicates is accepted
unchanged: `solve` skips every given cell and returns true (`DuplicateCluesAccepted`).
The model follows the code. The correctness theorems therefore assume a consistent
clue where they need one.

## Model

| member | source | states |
|---|---|---|
| Solver.SudokuSolver.constructor | src/SudokuSolver.java:81-108 | Builds two distinct 9×9 arrays. After construction the clue array holds the puzzle and the solution array holds a copy of it. |
| Solver.SudokuSolver.CopyClueToSolution | src/SudokuSolver.java:104-108 | After the copy loop, every cell of the solution array equals the same cell of the clue array. |
| Solver.SudokuSolver.IsInRow | src/SudokuSolver.java:299-310 | Returns true exactly when `element` occurs somewhere in column `column` of the solution grid; `row` is ignored. |
| Solver.SudokuSolver.IsInColumn | src/SudokuSolver.java:322-334 | Returns true exactly when `element` occurs somewhere in row `row` of the solution grid; `column` is ignored. |
| Solver.SudokuSolver.IsInBox | src/SudokuSolver.java:346-367 | Returns true exactly when `element` occurs among the nine cells of the box whose corner is ((row/3)·3, (column/3)·3). |
| Solver.SudokuSolver.AllConditionsMet | src/SudokuSolver.java:380-391 | Returns true exactly when all three scans return false, i.e. when `element` is absent from the cell's column, row and box. |
| Solver.SudokuSolver.SetCell | src/SudokuSolver.java:161-178 | One write `mySolution[row][col] = v`. That cell becomes `v` and every other cell is unchanged. |
| Solver.SudokuSolver.Solve | src/SudokuSolver.java:122-194 | Returns `Search(clue, old grid, row, col).solved` and leaves the solution array equal to `Search`'s grid. The clue is never written. It terminates because each call moves one cell forward. Both recursive calls go to `Next(row, col)`, which is the source's `col < DIMENSION - 1` choice. |
| Backtracking.Next | src/SudokuSolver.java:141-148 | The next position is exactly one cell later in row-major order. It is a valid start for `solve`. It is past the grid exactly when the current cell is the last one. |
| Backtracking.Search | src/SudokuSolver.java:135-153 | The value-level `solve`: true past the last row; a given cell goes on to the next cell; a blank cell runs the candidate loop. It always yields a 9×9 grid. |
| Backtracking.TryDigits | src/SudokuSolver.java:155-192 | The candidate loop from digit `d`. An accepted digit is placed and the search recurses. On failure the cell is reset to blank and the next digit is tried. After 9 the loop returns false. It always yields a 9×9 grid. |
| Grids.Place | src/SudokuSolver.java:161 | Placing `v` at (r, c) yields a 9×9 grid holding `v` at (r, c), with every other cell unchanged. |
| Grids.PlaceBack | src/SudokuSolver.java:167 | Writing a cell's previous value back undoes a placement. |
| Grids.Clash | src/SudokuSolver.java:380-391 | A value held by another cell in the same row, column or box fails the checks at (r, c). |
| Grids.BoxContainsSameBox | src/SudokuSolver.java:346-367 | Every cell of the 3×3 box holding (r, c) is inspected by the box check at (r, c). |
| Grids.PlaceKeepsConsistent | src/SudokuSolver.java:158-167 | Placing a digit that passes the checks keeps a consistent grid consistent. So does resetting a cell to blank. |
| SearchProperties.SearchKeepsFrozen | src/SudokuSolver.java:138-149 | `solve(row, col)` never changes a given cell or a cell before (row, col). |
| SearchProperties.TryDigitsKeepsFrozen | src/SudokuSolver.java:155-189 | The candidate loop at (row, col) only writes (row, col) and later blank cells. |
| SearchProperties.SearchRollsBack | src/SudokuSolver.java:122-194 | Suppose every cell from (row, col) on still holds its clue value. Then a `solve(row, col)` that returns false leaves the grid exactly as it found it. |
| SearchProperties.TryDigitsRollsBack | src/SudokuSolver.java:165-178 | Under the same condition, a candidate loop that fails leaves the grid unchanged, because each failed digit is reset to blank. |
| SearchProperties.SearchFillsBlanks | src/SudokuSolver.java:122-194 | When `solve(row, col)` returns true, every blank clue cell from (row, col) on holds a digit 1..9. |
| SearchProperties.TryDigitsFillsBlanks | src/SudokuSolver.java:155-171 | When the candidate loop succeeds, the current cell and every later blank clue cell hold a digit 1..9. |
| SearchProperties.SearchKeepsConsistent | src/SudokuSolver.java:122-194 | Started on a grid with no duplicate in any row, column or box, `solve` leaves a grid with none, whatever it returns. |
| SearchProperties.TryDigitsKeepsConsistent | src/SudokuSolver.java:155-189 | Every placement and every reset the candidate loop makes keeps the grid consistent. |
| SearchProperties.GivenCellsAgree | src/SudokuSolver.java:138 | A grid that agrees with a solution before (row, col) and equals the clue from there on agrees with that solution on every non-blank cell. |
| SearchProperties.SolutionDigitPlaceable | src/SudokuSolver.java:158 | In that situation, the solution's digit for the blank cell (row, col) passes all three checks. |
| SearchProperties.TryDigitsPastFailure | src/SudokuSolver.java:165-167 | With the rest of the grid as in the clue, a digit whose continuation fails puts the loop exactly where skipping that digit would. |
| SearchProperties.TryDigitsOnSuccess | src/SudokuSolver.java:169-171 | A digit whose continuation succeeds ends the loop with that continuation's outcome, and the digit is still in the cell. |
| SearchProperties.SearchCompletes | src/SudokuSolver.java:111-121 | Completeness. Assume a solution extends the clue, the grid agrees with it before (row, col), and the grid equals the clue from there on. Then `solve(row, col)` returns true. |
| SearchProperties.TryDigitsCompletes | src/SudokuSolver.java:155-189 | Under those conditions, the candidate loop started at a digit no larger than the solution's digit succeeds. |
| SearchProperties.TryDigitsFirstSuccess | src/SudokuSolver.java:155-189 | If the loop from `d` succeeds, the kept digit `v` is at least `d` and passes the checks. The outcome is that of continuing with `v`, and every accepted digit from `d` up to `v` fails. |
| SearchProperties.TryDigitsAllFail | src/SudokuSolver.java:155-192 | If the loop from `d` fails, every accepted digit from `d` to 9 has a failing continuation. |
| SearchProperties.SearchTakesFirstSuccess | src/SudokuSolver.java:153-192 | At a blank cell, `solve` succeeds exactly when some accepted digit's continuation succeeds. It then keeps the smallest such digit and that continuation's grid. |
| SearchProperties.SearchOverGivenCells | src/SudokuSolver.java:135-149 | When no blank clue cell remains from (row, col) on, `solve` returns true with the grid unchanged. |
| SearchProperties.DuplicateCluesAccepted | src/SudokuSolver.java:135-149 | A fully given clue made all of 5s is inconsistent. Still, `solve(0, 0)` returns true and leaves it unchanged. |
| SearchProperties.SolveFromClue | src/SudokuSolver.java:122-194 | On the copied clue, `solve(0, 0)` either succeeds or fails. On success it keeps every given cell and fills every blank with 1..9; if the clue holds only 0..9, the grid is fully filled, and if the clue is also consistent, the grid is a solution. On failure the grid is the clue again. |
| SearchProperties.SolvableIsSolved | src/SudokuSolver.java:111-121 | If the clue has any solution, `solve(0, 0)` returns true. |
| SearchProperties.SolvedIffSolvable | src/SudokuSolver.java:111-121 | Take a consistent clue of digits 0..9. Then `solve(0, 0)` returns true exactly when the puzzle has a solution. |
| SearchProperties.BlankPuzzleSolved | src/SudokuSolver.java:122-194 | On a puzzle with every cell blank, `solve(0, 0)` returns true and leaves a full solution in the grid. |

## Left out

- `main` (src/SudokuSolver.java:36-73): the file chooser, the console messages and the call to `display` are user interaction. The call `solve(0, 0)` on the copied clue is what `SolveFromClue` describes.
- Reading the puzzle file (src/SudokuSolver.java:88-101) is file I/O. The constructor takes the 81 numbers directly as a grid. The model does not cover a missing file or a file with too few numbers, where the program exits or throws.
- `print` (src/SudokuSolver.java:200-217), `display` and `DisplayFrame` (src/SudokuSolver.java:223-287) are console and GUI output.
- The `DEBUG` constant, the keyboard scanner and the debugging block at the start of `solve` (src/SudokuSolver.java:28-30, 84-86, 127-131) are switched off by `DEBUG = false`.
- Solver.SudokuSolver.Solve does not test `row < DIMENSION` at src/SudokuSolver.java:139. That condition always holds in that branch. As a result, the source's fall-through to `return false` after that test cannot happen and is not modelled.
- Solver.SudokuSolver.Solve requires `IsStart(row, col)`, which restricts `col` to 0..8 even when `row` is DIMENSION. In the source, `solve(DIMENSION, c)` returns true for every `c` before it reads any array (src/SudokuSolver.java:135-136), so calls such as `solve(9, 9)` or `solve(9, -1)` are not modelled. No caller reaches them: `main` calls `solve(0, 0)` and the recursion only reaches `(DIMENSION, 0)`.
- Solver.SudokuSolver.IsInRow, IsInColumn, IsInBox, AllConditionsMet and Solve (at a row below DIMENSION) require indices inside the grid, which is all `solve` ever passes. For other indices Java throws an index exception, except in `isInBox`, where truncating division sends rows or columns −2..−1 to the first box. Neither behaviour is modelled.
- Solver.SudokuSolver.SetCell does not exist in the source; it stands for the inline assignments `mySolution[row][col] = …` at src/SudokuSolver.java:161, 167 and 178.
- Integer width: the code only compares cell values and computes small indices, so 32-bit overflow cannot occur and is not modelled.
- Recursion depth: the JVM's stack is not modelled. `Solve` decreases the number of remaining cells, so at most 82 calls are nested.
- The worked example, a standard published easy puzzle whose solution begins with the row 5 3 4 6 7 8 9 1 2, is not proved. Proving it would mean evaluating the search on that one concrete grid. The general theorems (`SolveFromClue`, `SolvedIffSolvable`) cover what it illustrates.

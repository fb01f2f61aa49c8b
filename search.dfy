/** The backtracking search of `SudokuSolver.solve` as a function on grid
    values. `Search(clue, g, row, col)` is what `solve(row, col)` does when
    the clue is `clue` and the solution grid holds `g` on entry: whether it
    returns true, and what the solution grid holds when it returns. */
module Backtracking {
  import opened Grids

  /** The result of a search and the grid it leaves behind. */
  datatype Outcome = Outcome(solved: bool, grid: Grid)

  /** Number of cells in the grid. */
  const CELLS := DIMENSION * DIMENSION

  /** Linear row-major position of (r, c). */
  function Pos(r: int, c: int): int {
    r * DIMENSION + c
  }

  /** The positions `solve` may be called with: a cell, or a column of the row past
      the last one (the recursion only ever reaches (DIMENSION, 0) there). */
  predicate IsStart(row: int, col: int) {
    0 <= row <= DIMENSION && 0 <= col < DIMENSION
  }

  /** The cell after (r, c) in row-major order; past the last cell it is (DIMENSION, 0). */
  function Next(r: int, c: int): (n: (int, int))
    requires InGrid(r, c)
    ensures Pos(n.0, n.1) == Pos(r, c) + 1
    ensures IsStart(n.0, n.1)
    ensures n.0 == DIMENSION <==> Pos(r, c) == CELLS - 1
  {
    if c < DIMENSION - 1 then (r, c + 1) else (r + 1, 0)
  }

  /** `solve(row, col)`: past the last row the search has succeeded; a given cell is
      skipped; a blank cell is handed to the candidate loop, starting at digit 1. */
  function Search(clue: Grid, g: Grid, row: int, col: int): (o: Outcome)
    requires IsGrid(clue) && IsGrid(g) && IsStart(row, col)
    ensures IsGrid(o.grid)
    decreases CELLS - Pos(row, col), DIMENSION + 2
  {
    if row == DIMENSION then
      Outcome(true, g)
    else if clue[row][col] != BLANK then
      var n := Next(row, col);
      Search(clue, g, n.0, n.1)
    else
      TryDigits(clue, g, row, col, 1)
  }

  /** The candidate loop of `solve` at a blank cell, from digit `d` on: a digit that
      passes the three checks is placed and the search goes on at the next cell;
      when that fails, the cell is reset to BLANK in the grid the failed search left
      behind and the next digit is tried. After digit 9 the loop reports failure. */
  function TryDigits(clue: Grid, g: Grid, row: int, col: int, d: int): (o: Outcome)
    requires IsGrid(clue) && IsGrid(g) && InGrid(row, col) && 1 <= d <= DIMENSION + 1
    ensures IsGrid(o.grid)
    decreases CELLS - Pos(row, col), DIMENSION + 1 - d
  {
    if d > DIMENSION then
      Outcome(false, g)
    else if Placeable(g, row, col, d) then
      var n := Next(row, col);
      var sub := Search(clue, Place(g, row, col, d), n.0, n.1);
      if sub.solved then sub
      else TryDigits(clue, Place(sub.grid, row, col, BLANK), row, col, d + 1)
    else
      TryDigits(clue, g, row, col, d + 1)
  }

  /** One round of the candidate loop when digit `d` passes the three checks. */
  lemma TryDigitsPlaced(clue: Grid, g: Grid, row: int, col: int, d: int)
    requires IsGrid(clue) && IsGrid(g) && InGrid(row, col) && 1 <= d <= DIMENSION
    requires Placeable(g, row, col, d)
    ensures var n := Next(row, col);
            var sub := Search(clue, Place(g, row, col, d), n.0, n.1);
            TryDigits(clue, g, row, col, d)
            == if sub.solved then sub else TryDigits(clue, Place(sub.grid, row, col, BLANK), row, col, d + 1)
  {
  }

  /** One round of the candidate loop when digit `d` fails a check. */
  lemma TryDigitsSkipped(clue: Grid, g: Grid, row: int, col: int, d: int)
    requires IsGrid(clue) && IsGrid(g) && InGrid(row, col) && 1 <= d <= DIMENSION
    requires !Placeable(g, row, col, d)
    ensures TryDigits(clue, g, row, col, d) == TryDigits(clue, g, row, col, d + 1)
  {
  }

  /** `solve` at a given cell goes straight on to the next cell. */
  lemma SearchSkipsGiven(clue: Grid, g: Grid, row: int, col: int)
    requires IsGrid(clue) && IsGrid(g) && InGrid(row, col) && clue[row][col] != BLANK
    ensures var n := Next(row, col);
            Search(clue, g, row, col) == Search(clue, g, n.0, n.1)
  {
  }

  /** `solve` at a blank cell is the candidate loop from digit 1. */
  lemma SearchTriesBlank(clue: Grid, g: Grid, row: int, col: int)
    requires IsGrid(clue) && IsGrid(g) && InGrid(row, col) && clue[row][col] == BLANK
    ensures Search(clue, g, row, col) == TryDigits(clue, g, row, col, 1)
  {
  }
}

/** The 9×9 Sudoku grid as a value: its constants, the three membership
    checks the solver runs before placing a digit, and what it means for a
    grid to be consistent or solved. */
module Grids {

  /** Symbol used for a blank grid position. */
  const BLANK := 0
  /** Overall size of the grid. */
  const DIMENSION := 9
  /** Size of a sub region (box). */
  const REGION_DIM := 3

  /** A grid as a sequence of rows: `g[r][c]` is the cell in row `r`, column `c`. */
  type Grid = seq<seq<int>>

  predicate IsGrid(g: Grid) {
    |g| == DIMENSION && forall r :: 0 <= r < DIMENSION ==> |g[r]| == DIMENSION
  }

  predicate InGrid(r: int, c: int) {
    0 <= r < DIMENSION && 0 <= c < DIMENSION
  }

  /** Every cell is BLANK or one of the digits 1..9 (what the puzzle file is expected to hold). */
  ghost predicate HasDigitsOnly(g: Grid)
    requires IsGrid(g)
  {
    forall r, c :: InGrid(r, c) ==> 0 <= g[r][c] <= DIMENSION
  }

  /** The grid with cell (r, c) set to v. */
  function Place(g: Grid, r: int, c: int, v: int): (h: Grid)
    requires IsGrid(g) && InGrid(r, c)
    ensures IsGrid(h)
    ensures h[r][c] == v
    ensures forall a, b :: InGrid(a, b) && (a != r || b != c) ==> h[a][b] == g[a][b]
  {
    g[r := g[r][c := v]]
  }

  /** Writing back the value a cell had undoes a placement. */
  lemma PlaceBack(g: Grid, r: int, c: int, v: int)
    requires IsGrid(g) && InGrid(r, c)
    ensures Place(Place(g, r, c, v), r, c, g[r][c]) == g
  {
    assert g[r][c := v][c := g[r][c]] == g[r];
  }

  // ---------------------------------------------------------------------
  // The three membership checks. The solver's `isInRow` performs the first
  // (it keeps the column fixed) and `isInColumn` the second (it keeps the
  // row fixed); they are named here after what they scan.
  // ---------------------------------------------------------------------

  /** `e` occurs somewhere in column `c`. */
  predicate ColumnContains(g: Grid, c: int, e: int)
    requires IsGrid(g) && 0 <= c < DIMENSION
  {
    exists r :: 0 <= r < DIMENSION && g[r][c] == e
  }

  /** `e` occurs somewhere in row `r`. */
  predicate RowContains(g: Grid, r: int, e: int)
    requires IsGrid(g) && 0 <= r < DIMENSION
  {
    exists c :: 0 <= c < DIMENSION && g[r][c] == e
  }

  /** First row (or column) of the box holding row (or column) `x`. */
  function BoxStart(x: int): int {
    (x / REGION_DIM) * REGION_DIM
  }

  /** The cell at offset (i, j) inside the box that holds (r, c). */
  function BoxCell(g: Grid, r: int, c: int, i: int, j: int): int
    requires IsGrid(g) && InGrid(r, c) && 0 <= i < REGION_DIM && 0 <= j < REGION_DIM
  {
    g[BoxStart(r) + i][BoxStart(c) + j]
  }

  /** `e` occurs somewhere in the 3×3 box that holds (r, c). */
  predicate BoxContains(g: Grid, r: int, c: int, e: int)
    requires IsGrid(g) && InGrid(r, c)
  {
    exists i, j :: 0 <= i < REGION_DIM && 0 <= j < REGION_DIM && BoxCell(g, r, c, i, j) == e
  }

  /** The solver may place `e` at (r, c): it is absent from the column, the row and the box. */
  predicate Placeable(g: Grid, r: int, c: int, e: int)
    requires IsGrid(g) && InGrid(r, c)
  {
    !ColumnContains(g, c, e) && !RowContains(g, r, e) && !BoxContains(g, r, c, e)
  }

  // ---------------------------------------------------------------------
  // Consistency and solved grids.
  // ---------------------------------------------------------------------

  predicate SameBox(r: int, c: int, r': int, c': int) {
    r / REGION_DIM == r' / REGION_DIM && c / REGION_DIM == c' / REGION_DIM
  }

  /** Two cells share a row, a column or a box. */
  predicate SameUnit(r: int, c: int, r': int, c': int) {
    r == r' || c == c' || SameBox(r, c, r', c')
  }

  /** Distinct cells (r, c) and (r', c') of one unit do not hold the same digit. */
  predicate NoClash(g: Grid, r: int, c: int, r': int, c': int)
    requires IsGrid(g) && InGrid(r, c) && InGrid(r', c')
  {
    (r != r' || c != c') && SameUnit(r, c, r', c') && g[r][c] != BLANK ==> g[r][c] != g[r'][c']
  }

  /** No digit occurs twice in a row, a column or a box; blanks are ignored. */
  ghost predicate Consistent(g: Grid)
    requires IsGrid(g)
  {
    forall r, c, r', c' :: InGrid(r, c) && InGrid(r', c') ==> NoClash(g, r, c, r', c')
  }

  /** No cell is blank and every cell holds a digit 1..9. */
  ghost predicate Filled(g: Grid)
    requires IsGrid(g)
  {
    forall r, c :: InGrid(r, c) ==> 1 <= g[r][c] <= DIMENSION
  }

  /** `s` keeps every given (non-blank) cell of `clue`. */
  ghost predicate Extends(clue: Grid, s: Grid)
    requires IsGrid(clue) && IsGrid(s)
  {
    forall r, c :: InGrid(r, c) && clue[r][c] != BLANK ==> s[r][c] == clue[r][c]
  }

  /** `s` is a solution of the puzzle `clue`. */
  ghost predicate IsSolutionOf(clue: Grid, s: Grid)
    requires IsGrid(clue)
  {
    IsGrid(s) && Filled(s) && Consistent(s) && Extends(clue, s)
  }

  // ---------------------------------------------------------------------
  // Lemmas about the checks.
  // ---------------------------------------------------------------------

  /** Every cell of the box at (r, c) is found by the box check at (r, c). */
  lemma BoxContainsSameBox(g: Grid, r: int, c: int, r': int, c': int)
    requires IsGrid(g) && InGrid(r, c) && InGrid(r', c') && SameBox(r, c, r', c')
    ensures BoxContains(g, r, c, g[r'][c'])
  {
    var i, j := r' - BoxStart(r), c' - BoxStart(c);
    assert BoxCell(g, r, c, i, j) == g[r'][c'];
  }

  /** The cells the box check inspects are exactly the cells of the same box. */
  lemma BoxCellSameBox(r: int, c: int, i: int, j: int)
    requires InGrid(r, c) && 0 <= i < REGION_DIM && 0 <= j < REGION_DIM
    ensures InGrid(BoxStart(r) + i, BoxStart(c) + j)
    ensures SameBox(r, c, BoxStart(r) + i, BoxStart(c) + j)
  {
  }

  /** Placing a digit that passes the three checks, or blanking a cell, keeps a grid consistent. */
  lemma PlaceKeepsConsistent(g: Grid, r: int, c: int, v: int)
    requires IsGrid(g) && Consistent(g) && InGrid(r, c)
    requires v == BLANK || Placeable(g, r, c, v)
    ensures Consistent(Place(g, r, c, v))
  {
    var h := Place(g, r, c, v);
    forall a, b, a', b' | InGrid(a, b) && InGrid(a', b')
      ensures NoClash(h, a, b, a', b')
    {
      assert NoClash(g, a, b, a', b');
      if (a != a' || b != b') && SameUnit(a, b, a', b') && h[a][b] == h[a'][b'] && h[a][b] != BLANK {
        if a == r && b == c {
          Clash(g, r, c, a', b');
        } else if a' == r && b' == c {
          assert SameUnit(r, c, a, b);
          Clash(g, r, c, a, b);
        }
      }
    }
  }

  /** A different cell of the same unit holding `g[a][b]` makes that value fail the checks at (r, c). */
  lemma Clash(g: Grid, r: int, c: int, a: int, b: int)
    requires IsGrid(g) && InGrid(r, c) && InGrid(a, b) && SameUnit(r, c, a, b)
    ensures !Placeable(g, r, c, g[a][b])
  {
    if a == r {
      assert g[r][b] == g[a][b];
    } else if b == c {
      assert g[a][c] == g[a][b];
    } else {
      BoxContainsSameBox(g, r, c, a, b);
    }
  }
}

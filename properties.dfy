/** What the backtracking search guarantees: which cells it may write, that a
    failed search leaves the grid as it found it, that a successful one fills
    every blank with a digit that passed the checks, that it keeps a grid
    consistent, that it finds a solution whenever one exists, and which
    solution it finds. */
module SearchProperties {
  import opened Grids
  import opened Backtracking

  // ---------------------------------------------------------------------
  // Vocabulary.
  // ---------------------------------------------------------------------

  /** A cell the search started at (row, col) never writes: a given cell of the
      clue, or a cell before (row, col) in row-major order. */
  predicate Frozen(clue: Grid, row: int, col: int, r: int, c: int)
    requires IsGrid(clue) && InGrid(r, c)
  {
    clue[r][c] != BLANK || Pos(r, c) < Pos(row, col)
  }

  /** `h` agrees with `g` on every cell frozen for a search started at (row, col). */
  ghost predicate KeepsFrozen(clue: Grid, row: int, col: int, g: Grid, h: Grid)
    requires IsGrid(clue) && IsGrid(g) && IsGrid(h)
  {
    forall r, c :: InGrid(r, c) && Frozen(clue, row, col, r, c) ==> h[r][c] == g[r][c]
  }

  /** Every cell from (row, col) on still holds its clue value: the state in which
      `solve(row, col)` is reached from `solve(0, 0)` after the clue is copied. */
  ghost predicate RestIsClue(clue: Grid, g: Grid, row: int, col: int)
    requires IsGrid(clue) && IsGrid(g)
  {
    forall r, c :: InGrid(r, c) && Pos(row, col) <= Pos(r, c) ==> g[r][c] == clue[r][c]
  }

  /** Every blank clue cell from (row, col) on holds a digit 1..9 in `h`. */
  ghost predicate FilledFrom(clue: Grid, h: Grid, row: int, col: int)
    requires IsGrid(clue) && IsGrid(h)
  {
    forall r, c :: InGrid(r, c) && Pos(row, col) <= Pos(r, c) && clue[r][c] == BLANK ==> 1 <= h[r][c] <= DIMENSION
  }

  /** `g` agrees with `s` on every cell before (row, col). */
  ghost predicate AgreesBefore(s: Grid, g: Grid, row: int, col: int)
    requires IsGrid(s) && IsGrid(g)
  {
    forall r, c :: InGrid(r, c) && Pos(r, c) < Pos(row, col) ==> g[r][c] == s[r][c]
  }

  /** Placing at (row, col) leaves the cells after it as they were. */
  lemma RestIsClueAfterPlace(clue: Grid, g: Grid, row: int, col: int, v: int)
    requires IsGrid(clue) && IsGrid(g) && InGrid(row, col) && RestIsClue(clue, g, row, col)
    ensures var n := Next(row, col);
            RestIsClue(clue, Place(g, row, col, v), n.0, n.1)
  {
  }

  /** Placing the solution's own digit at (row, col) extends the agreement by one cell. */
  lemma AgreesBeforeAfterPlace(s: Grid, g: Grid, row: int, col: int)
    requires IsGrid(s) && IsGrid(g) && InGrid(row, col) && AgreesBefore(s, g, row, col)
    ensures var n := Next(row, col);
            AgreesBefore(s, Place(g, row, col, s[row][col]), n.0, n.1)
  {
  }

  /** The search from the next cell, after `d` is placed at (row, col). */
  function Continue(clue: Grid, g: Grid, row: int, col: int, d: int): Outcome
    requires IsGrid(clue) && IsGrid(g) && InGrid(row, col)
  {
    var n := Next(row, col);
    Search(clue, Place(g, row, col, d), n.0, n.1)
  }

  // ---------------------------------------------------------------------
  // Given cells and cells already passed are never written.
  // ---------------------------------------------------------------------

  lemma {:induction false} SearchKeepsFrozen(clue: Grid, g: Grid, row: int, col: int)
    requires IsGrid(clue) && IsGrid(g) && IsStart(row, col)
    ensures KeepsFrozen(clue, row, col, g, Search(clue, g, row, col).grid)
    decreases CELLS - Pos(row, col), DIMENSION + 2
  {
    if row == DIMENSION {
    } else if clue[row][col] != BLANK {
      var n := Next(row, col);
      SearchKeepsFrozen(clue, g, n.0, n.1);
    } else {
      TryDigitsKeepsFrozen(clue, g, row, col, 1);
    }
  }

  lemma {:induction false} TryDigitsKeepsFrozen(clue: Grid, g: Grid, row: int, col: int, d: int)
    requires IsGrid(clue) && IsGrid(g) && InGrid(row, col) && clue[row][col] == BLANK && 1 <= d <= DIMENSION + 1
    ensures KeepsFrozen(clue, row, col, g, TryDigits(clue, g, row, col, d).grid)
    decreases CELLS - Pos(row, col), DIMENSION + 1 - d
  {
    if d <= DIMENSION {
      var n := Next(row, col);
      if Placeable(g, row, col, d) {
        var p := Place(g, row, col, d);
        SearchKeepsFrozen(clue, p, n.0, n.1);
        var sub := Search(clue, p, n.0, n.1);
        if !sub.solved {
          TryDigitsKeepsFrozen(clue, Place(sub.grid, row, col, BLANK), row, col, d + 1);
        }
      } else {
        TryDigitsKeepsFrozen(clue, g, row, col, d + 1);
      }
    }
  }

  // ---------------------------------------------------------------------
  // A failed search undoes all its tentative placements.
  // ---------------------------------------------------------------------

  lemma {:induction false} SearchRollsBack(clue: Grid, g: Grid, row: int, col: int)
    requires IsGrid(clue) && IsGrid(g) && IsStart(row, col) && RestIsClue(clue, g, row, col)
    ensures !Search(clue, g, row, col).solved ==> Search(clue, g, row, col).grid == g
    decreases CELLS - Pos(row, col), DIMENSION + 2
  {
    if row == DIMENSION {
    } else if clue[row][col] != BLANK {
      var n := Next(row, col);
      SearchRollsBack(clue, g, n.0, n.1);
    } else {
      TryDigitsRollsBack(clue, g, row, col, 1);
    }
  }

  lemma {:induction false} TryDigitsRollsBack(clue: Grid, g: Grid, row: int, col: int, d: int)
    requires IsGrid(clue) && IsGrid(g) && InGrid(row, col) && clue[row][col] == BLANK && 1 <= d <= DIMENSION + 1
    requires RestIsClue(clue, g, row, col)
    ensures !TryDigits(clue, g, row, col, d).solved ==> TryDigits(clue, g, row, col, d).grid == g
    decreases CELLS - Pos(row, col), DIMENSION + 1 - d
  {
    if d <= DIMENSION {
      var n := Next(row, col);
      if Placeable(g, row, col, d) {
        var p := Place(g, row, col, d);
        SearchRollsBack(clue, p, n.0, n.1);
        var sub := Search(clue, p, n.0, n.1);
        if !sub.solved {
          PlaceBack(g, row, col, d);
          TryDigitsRollsBack(clue, g, row, col, d + 1);
        }
      } else {
        TryDigitsRollsBack(clue, g, row, col, d + 1);
      }
    }
  }

  // ---------------------------------------------------------------------
  // A successful search fills every blank from its start on.
  // ---------------------------------------------------------------------

  /** Filling from the next cell on, plus a digit at (row, col) unless it is given,
      is filling from (row, col) on. */
  lemma FilledFromStep(clue: Grid, h: Grid, row: int, col: int)
    requires IsGrid(clue) && IsGrid(h) && InGrid(row, col)
    requires var n := Next(row, col); FilledFrom(clue, h, n.0, n.1)
    requires clue[row][col] != BLANK || 1 <= h[row][col] <= DIMENSION
    ensures FilledFrom(clue, h, row, col)
  {
  }

  lemma {:induction false} SearchFillsBlanks(clue: Grid, g: Grid, row: int, col: int)
    requires IsGrid(clue) && IsGrid(g) && IsStart(row, col)
    ensures Search(clue, g, row, col).solved ==> FilledFrom(clue, Search(clue, g, row, col).grid, row, col)
    decreases CELLS - Pos(row, col), DIMENSION + 2
  {
    if row == DIMENSION {
    } else if clue[row][col] != BLANK {
      var n := Next(row, col);
      SearchFillsBlanks(clue, g, n.0, n.1);
      if Search(clue, g, row, col).solved {
        FilledFromStep(clue, Search(clue, g, n.0, n.1).grid, row, col);
      }
    } else {
      TryDigitsFillsBlanks(clue, g, row, col, 1);
    }
  }

  lemma {:induction false} TryDigitsFillsBlanks(clue: Grid, g: Grid, row: int, col: int, d: int)
    requires IsGrid(clue) && IsGrid(g) && InGrid(row, col) && clue[row][col] == BLANK && 1 <= d <= DIMENSION + 1
    ensures TryDigits(clue, g, row, col, d).solved ==> FilledFrom(clue, TryDigits(clue, g, row, col, d).grid, row, col)
    decreases CELLS - Pos(row, col), DIMENSION + 1 - d
  {
    if d <= DIMENSION {
      var n := Next(row, col);
      if Placeable(g, row, col, d) {
        var p := Place(g, row, col, d);
        var sub := Search(clue, p, n.0, n.1);
        if sub.solved {
          SearchFillsBlanks(clue, p, n.0, n.1);
          SearchKeepsFrozen(clue, p, n.0, n.1);
          assert sub.grid[row][col] == d;
          FilledFromStep(clue, sub.grid, row, col);
        } else {
          TryDigitsFillsBlanks(clue, Place(sub.grid, row, col, BLANK), row, col, d + 1);
        }
      } else {
        TryDigitsFillsBlanks(clue, g, row, col, d + 1);
      }
    }
  }

  // ---------------------------------------------------------------------
  // The search keeps a consistent grid consistent.
  // ---------------------------------------------------------------------

  lemma {:induction false} SearchKeepsConsistent(clue: Grid, g: Grid, row: int, col: int)
    requires IsGrid(clue) && IsGrid(g) && IsStart(row, col) && Consistent(g)
    ensures Consistent(Search(clue, g, row, col).grid)
    decreases CELLS - Pos(row, col), DIMENSION + 2
  {
    if row == DIMENSION {
    } else if clue[row][col] != BLANK {
      var n := Next(row, col);
      SearchKeepsConsistent(clue, g, n.0, n.1);
    } else {
      TryDigitsKeepsConsistent(clue, g, row, col, 1);
    }
  }

  lemma {:induction false} TryDigitsKeepsConsistent(clue: Grid, g: Grid, row: int, col: int, d: int)
    requires IsGrid(clue) && IsGrid(g) && InGrid(row, col) && 1 <= d <= DIMENSION + 1 && Consistent(g)
    ensures Consistent(TryDigits(clue, g, row, col, d).grid)
    decreases CELLS - Pos(row, col), DIMENSION + 1 - d
  {
    if d <= DIMENSION {
      var n := Next(row, col);
      if Placeable(g, row, col, d) {
        var p := Place(g, row, col, d);
        PlaceKeepsConsistent(g, row, col, d);
        SearchKeepsConsistent(clue, p, n.0, n.1);
        var sub := Search(clue, p, n.0, n.1);
        if !sub.solved {
          PlaceKeepsConsistent(sub.grid, row, col, BLANK);
          TryDigitsKeepsConsistent(clue, Place(sub.grid, row, col, BLANK), row, col, d + 1);
        }
      } else {
        TryDigitsKeepsConsistent(clue, g, row, col, d + 1);
      }
    }
  }

  /** Reached with the rest of the grid as in the clue, a digit whose continuation
      fails leaves the candidate loop exactly where skipping it would. */
  lemma TryDigitsPastFailure(clue: Grid, g: Grid, row: int, col: int, d: int)
    requires IsGrid(clue) && IsGrid(g) && InGrid(row, col) && clue[row][col] == BLANK && 1 <= d <= DIMENSION
    requires RestIsClue(clue, g, row, col) && Placeable(g, row, col, d)
    requires !Continue(clue, g, row, col, d).solved
    ensures TryDigits(clue, g, row, col, d) == TryDigits(clue, g, row, col, d + 1)
  {
    var n := Next(row, col);
    var p := Place(g, row, col, d);
    RestIsClueAfterPlace(clue, g, row, col, d);
    SearchRollsBack(clue, p, n.0, n.1);
    PlaceBack(g, row, col, d);
  }

  /** A digit whose continuation succeeds ends the candidate loop with that
      continuation's outcome, which still holds the digit at (row, col). */
  lemma TryDigitsOnSuccess(clue: Grid, g: Grid, row: int, col: int, d: int)
    requires IsGrid(clue) && IsGrid(g) && InGrid(row, col) && clue[row][col] == BLANK && 1 <= d <= DIMENSION
    requires Placeable(g, row, col, d) && Continue(clue, g, row, col, d).solved
    ensures TryDigits(clue, g, row, col, d) == Continue(clue, g, row, col, d)
    ensures Continue(clue, g, row, col, d).grid[row][col] == d
  {
    var n := Next(row, col);
    SearchKeepsFrozen(clue, Place(g, row, col, d), n.0, n.1);
    assert Frozen(clue, n.0, n.1, row, col);
  }

  // ---------------------------------------------------------------------
  // Completeness: a solution that extends the clue is always found.
  // ---------------------------------------------------------------------

  /** Every non-blank cell of `g` agrees with the solution `s`. */
  lemma GivenCellsAgree(clue: Grid, s: Grid, g: Grid, row: int, col: int)
    requires IsGrid(clue) && IsGrid(g) && IsSolutionOf(clue, s)
    requires AgreesBefore(s, g, row, col) && RestIsClue(clue, g, row, col)
    ensures forall r, c :: InGrid(r, c) && g[r][c] != BLANK ==> g[r][c] == s[r][c]
  {
    forall r, c | InGrid(r, c) && g[r][c] != BLANK
      ensures g[r][c] == s[r][c]
    {
      if Pos(row, col) <= Pos(r, c) {
        assert g[r][c] == clue[r][c];
      }
    }
  }

  /** At a blank cell, the digit of a solution passes the three checks. */
  lemma SolutionDigitPlaceable(clue: Grid, s: Grid, g: Grid, row: int, col: int)
    requires IsGrid(clue) && IsGrid(g) && IsSolutionOf(clue, s) && InGrid(row, col)
    requires AgreesBefore(s, g, row, col) && RestIsClue(clue, g, row, col) && clue[row][col] == BLANK
    ensures Placeable(g, row, col, s[row][col])
  {
    GivenCellsAgree(clue, s, g, row, col);
    var v := s[row][col];
    assert g[row][col] == BLANK;
    forall r | 0 <= r < DIMENSION
      ensures g[r][col] != v
    {
      assert NoClash(s, r, col, row, col);
    }
    forall c | 0 <= c < DIMENSION
      ensures g[row][c] != v
    {
      assert NoClash(s, row, c, row, col);
    }
    forall i, j | 0 <= i < REGION_DIM && 0 <= j < REGION_DIM
      ensures BoxCell(g, row, col, i, j) != v
    {
      var r, c := BoxStart(row) + i, BoxStart(col) + j;
      BoxCellSameBox(row, col, i, j);
      assert NoClash(s, r, c, row, col);
    }
  }

  lemma {:induction false} SearchCompletes(clue: Grid, s: Grid, g: Grid, row: int, col: int)
    requires IsGrid(clue) && IsGrid(g) && IsStart(row, col) && IsSolutionOf(clue, s)
    requires AgreesBefore(s, g, row, col) && RestIsClue(clue, g, row, col)
    ensures Search(clue, g, row, col).solved
    decreases CELLS - Pos(row, col), DIMENSION + 2
  {
    if row == DIMENSION {
    } else if clue[row][col] != BLANK {
      var n := Next(row, col);
      SearchCompletes(clue, s, g, n.0, n.1);
    } else {
      TryDigitsCompletes(clue, s, g, row, col, 1);
    }
  }

  lemma {:induction false} TryDigitsCompletes(clue: Grid, s: Grid, g: Grid, row: int, col: int, d: int)
    requires IsGrid(clue) && IsGrid(g) && InGrid(row, col) && IsSolutionOf(clue, s)
    requires clue[row][col] == BLANK && 1 <= d <= s[row][col]
    requires AgreesBefore(s, g, row, col) && RestIsClue(clue, g, row, col)
    ensures TryDigits(clue, g, row, col, d).solved
    decreases CELLS - Pos(row, col), DIMENSION + 1 - d
  {
    if d == s[row][col] {
      var n := Next(row, col);
      var p := Place(g, row, col, d);
      SolutionDigitPlaceable(clue, s, g, row, col);
      RestIsClueAfterPlace(clue, g, row, col, d);
      AgreesBeforeAfterPlace(s, g, row, col);
      SearchCompletes(clue, s, p, n.0, n.1);
    } else if Placeable(g, row, col, d) && !Continue(clue, g, row, col, d).solved {
      TryDigitsPastFailure(clue, g, row, col, d);
      TryDigitsCompletes(clue, s, g, row, col, d + 1);
    } else if !Placeable(g, row, col, d) {
      TryDigitsCompletes(clue, s, g, row, col, d + 1);
    }
  }

  // ---------------------------------------------------------------------
  // Which solution is found: the first digit, in ascending order, whose
  // continuation succeeds.
  // ---------------------------------------------------------------------

  /** `o` is the outcome of continuing with the digit `v` that `o` keeps at
      (row, col): the first digit from `d` on that passes the checks and whose
      continuation succeeds. */
  ghost predicate KeptFirst(clue: Grid, g: Grid, row: int, col: int, d: int, o: Outcome)
    requires IsGrid(clue) && IsGrid(g) && InGrid(row, col) && IsGrid(o.grid)
  {
    var v := o.grid[row][col];
    && d <= v <= DIMENSION && Placeable(g, row, col, v)
    && o == Continue(clue, g, row, col, v)
    && forall e :: d <= e < v && Placeable(g, row, col, e) ==> !Continue(clue, g, row, col, e).solved
  }

  /** A digit that does not lead to success does not change which digit is first. */
  lemma KeptFirstExtends(clue: Grid, g: Grid, row: int, col: int, d: int, o: Outcome)
    requires IsGrid(clue) && IsGrid(g) && InGrid(row, col) && IsGrid(o.grid) && 1 <= d
    requires KeptFirst(clue, g, row, col, d + 1, o)
    requires !(Placeable(g, row, col, d) && Continue(clue, g, row, col, d).solved)
    ensures KeptFirst(clue, g, row, col, d, o)
  {
    var v := o.grid[row][col];
    forall e | d <= e < v && Placeable(g, row, col, e)
      ensures !Continue(clue, g, row, col, e).solved
    {
      if e > d {
        assert d + 1 <= e < v;
      }
    }
  }

  lemma {:induction false} TryDigitsFirstSuccess(clue: Grid, g: Grid, row: int, col: int, d: int)
    requires IsGrid(clue) && IsGrid(g) && InGrid(row, col) && clue[row][col] == BLANK && 1 <= d <= DIMENSION + 1
    requires RestIsClue(clue, g, row, col)
    ensures TryDigits(clue, g, row, col, d).solved ==> KeptFirst(clue, g, row, col, d, TryDigits(clue, g, row, col, d))
    decreases DIMENSION + 1 - d
  {
    if d <= DIMENSION {
      if Placeable(g, row, col, d) && Continue(clue, g, row, col, d).solved {
        TryDigitsOnSuccess(clue, g, row, col, d);
      } else {
        if Placeable(g, row, col, d) {
          TryDigitsPastFailure(clue, g, row, col, d);
        } else {
          TryDigitsSkipped(clue, g, row, col, d);
        }
        TryDigitsFirstSuccess(clue, g, row, col, d + 1);
        var o := TryDigits(clue, g, row, col, d + 1);
        if o.solved {
          KeptFirstExtends(clue, g, row, col, d, o);
        }
      }
    }
  }

  /** Every digit from `d` to 9 that passes the checks at (row, col) has a failing continuation. */
  ghost predicate AllFailFrom(clue: Grid, g: Grid, row: int, col: int, d: int)
    requires IsGrid(clue) && IsGrid(g) && InGrid(row, col)
  {
    forall e :: d <= e <= DIMENSION && Placeable(g, row, col, e) ==> !Continue(clue, g, row, col, e).solved
  }

  /** A digit that does not lead to success extends the run of failures down by one. */
  lemma AllFailExtends(clue: Grid, g: Grid, row: int, col: int, d: int)
    requires IsGrid(clue) && IsGrid(g) && InGrid(row, col)
    requires AllFailFrom(clue, g, row, col, d + 1)
    requires !(Placeable(g, row, col, d) && Continue(clue, g, row, col, d).solved)
    ensures AllFailFrom(clue, g, row, col, d)
  {
    forall e | d <= e <= DIMENSION && Placeable(g, row, col, e)
      ensures !Continue(clue, g, row, col, e).solved
    {
      if e > d {
        assert d + 1 <= e <= DIMENSION;
      }
    }
  }

  lemma {:induction false} TryDigitsAllFail(clue: Grid, g: Grid, row: int, col: int, d: int)
    requires IsGrid(clue) && IsGrid(g) && InGrid(row, col) && clue[row][col] == BLANK && 1 <= d <= DIMENSION + 1
    requires RestIsClue(clue, g, row, col)
    ensures !TryDigits(clue, g, row, col, d).solved ==> AllFailFrom(clue, g, row, col, d)
    decreases DIMENSION + 1 - d
  {
    if d <= DIMENSION {
      if Placeable(g, row, col, d) && Continue(clue, g, row, col, d).solved {
        TryDigitsOnSuccess(clue, g, row, col, d);
      } else {
        if Placeable(g, row, col, d) {
          TryDigitsPastFailure(clue, g, row, col, d);
        } else {
          TryDigitsSkipped(clue, g, row, col, d);
        }
        TryDigitsAllFail(clue, g, row, col, d + 1);
        if !TryDigits(clue, g, row, col, d + 1).solved {
          AllFailExtends(clue, g, row, col, d);
        }
      }
    }
  }

  /** At a blank cell reached with the rest of the grid as in the clue, `solve`
      succeeds exactly when some digit passes the checks and its continuation
      succeeds, and then it keeps the smallest such digit and that continuation's
      grid. */
  lemma SearchTakesFirstSuccess(clue: Grid, g: Grid, row: int, col: int)
    requires IsGrid(clue) && IsGrid(g) && InGrid(row, col) && clue[row][col] == BLANK
    requires RestIsClue(clue, g, row, col)
    ensures var o := Search(clue, g, row, col);
            o.solved <==> exists e :: 1 <= e <= DIMENSION && Placeable(g, row, col, e) && Continue(clue, g, row, col, e).solved
    ensures var o := Search(clue, g, row, col);
            o.solved ==>
              var v := o.grid[row][col];
              && 1 <= v <= DIMENSION && Placeable(g, row, col, v)
              && o == Continue(clue, g, row, col, v)
              && forall e :: 1 <= e < v && Placeable(g, row, col, e) ==> !Continue(clue, g, row, col, e).solved
  {
    TryDigitsFirstSuccess(clue, g, row, col, 1);
    TryDigitsAllFail(clue, g, row, col, 1);
  }

  // ---------------------------------------------------------------------
  // A clue with no blank is accepted as it is.
  // ---------------------------------------------------------------------

  lemma {:induction false} SearchOverGivenCells(clue: Grid, g: Grid, row: int, col: int)
    requires IsGrid(clue) && IsGrid(g) && IsStart(row, col)
    requires forall r, c :: InGrid(r, c) && Pos(row, col) <= Pos(r, c) ==> clue[r][c] != BLANK
    ensures Search(clue, g, row, col) == Outcome(true, g)
    decreases CELLS - Pos(row, col)
  {
    if row < DIMENSION {
      var n := Next(row, col);
      SearchOverGivenCells(clue, g, n.0, n.1);
    }
  }

  /** A fully given clue holding two 5s in a row is not rejected: the search skips
      every cell and succeeds with the clue unchanged. */
  lemma DuplicateCluesAccepted()
    ensures var clue := seq(DIMENSION, r => seq(DIMENSION, c => 5));
            && IsGrid(clue) && clue[0][0] == clue[0][1] == 5 && !Consistent(clue)
            && Search(clue, clue, 0, 0) == Outcome(true, clue)
  {
    var clue := seq(DIMENSION, r => seq(DIMENSION, c => 5));
    assert !NoClash(clue, 0, 0, 0, 1);
    SearchOverGivenCells(clue, clue, 0, 0);
  }

  // ---------------------------------------------------------------------
  // `solve(0, 0)` on the copied clue.
  // ---------------------------------------------------------------------

  /** On success every given cell is kept and every blank holds a digit 1..9 (so the
      whole grid does when the clue holds only digits); on failure the grid is the
      clue again; when the clue is also consistent, success yields a solution of
      the puzzle. */
  lemma SolveFromClue(clue: Grid)
    requires IsGrid(clue)
    ensures var o := Search(clue, clue, 0, 0);
            && (o.solved ==> Extends(clue, o.grid) && FilledFrom(clue, o.grid, 0, 0))
            && (o.solved && HasDigitsOnly(clue) ==> Filled(o.grid))
            && (!o.solved ==> o.grid == clue)
            && (o.solved && HasDigitsOnly(clue) && Consistent(clue) ==> IsSolutionOf(clue, o.grid))
  {
    var o := Search(clue, clue, 0, 0);
    SearchKeepsFrozen(clue, clue, 0, 0);
    SearchFillsBlanks(clue, clue, 0, 0);
    SearchRollsBack(clue, clue, 0, 0);
    if Consistent(clue) {
      SearchKeepsConsistent(clue, clue, 0, 0);
    }
    if o.solved {
      forall r, c | InGrid(r, c) && clue[r][c] != BLANK
        ensures o.grid[r][c] == clue[r][c]
      {
        assert Frozen(clue, 0, 0, r, c);
      }
    }
  }

  /** A puzzle whose solutions the search can miss does not exist: whenever the clue
      has a solution, `solve(0, 0)` returns true. */
  lemma SolvableIsSolved(clue: Grid, s: Grid)
    requires IsGrid(clue) && IsSolutionOf(clue, s)
    ensures Search(clue, clue, 0, 0).solved
  {
    SearchCompletes(clue, s, clue, 0, 0);
  }

  /** For a consistent clue of digits, `solve(0, 0)` returns true exactly when the
      puzzle has a solution. */
  lemma SolvedIffSolvable(clue: Grid)
    requires IsGrid(clue) && HasDigitsOnly(clue) && Consistent(clue)
    ensures Search(clue, clue, 0, 0).solved <==> exists s :: IsSolutionOf(clue, s)
  {
    SolveFromClue(clue);
    if exists s :: IsSolutionOf(clue, s) {
      var s :| IsSolutionOf(clue, s);
      SolvableIsSolved(clue, s);
    }
  }

  // ---------------------------------------------------------------------
  // The blank puzzle is solved.
  // ---------------------------------------------------------------------

  /** The puzzle with every cell blank. */
  function BlankGrid(): (g: Grid)
    ensures IsGrid(g)
  {
    seq(DIMENSION, r => seq(DIMENSION, c => BLANK))
  }

  /** Row-shift of the classic pattern solution: rows 0, 3, 6 start at 0, 1, 2. */
  function Shift(r: int): int {
    REGION_DIM * (r % REGION_DIM) + r / REGION_DIM
  }

  /** A filled grid built from shifted rows 1..9. */
  function PatternGrid(): (g: Grid)
    ensures IsGrid(g)
  {
    seq(DIMENSION, r => seq(DIMENSION, c => (Shift(r) + c) % DIMENSION + 1))
  }

  /** Numbers less than DIMENSION apart have different remainders modulo DIMENSION. */
  lemma ModDistinct(x: int, y: int)
    requires 0 <= x && 0 <= y && x != y && -DIMENSION < x - y < DIMENSION
    ensures x % DIMENSION != y % DIMENSION
  {
    var q, q' := x / DIMENSION, y / DIMENSION;
    assert x == DIMENSION * q + x % DIMENSION && y == DIMENSION * q' + y % DIMENSION;
  }

  /** Each row starts at a different shift. */
  lemma ShiftInjective(r: int, r': int)
    requires 0 <= r < DIMENSION && 0 <= r' < DIMENSION && r != r'
    ensures 0 <= Shift(r) < DIMENSION && Shift(r) != Shift(r')
  {
    assert r == REGION_DIM * (r / REGION_DIM) + r % REGION_DIM;
    assert r' == REGION_DIM * (r' / REGION_DIM) + r' % REGION_DIM;
  }

  /** Within one band of rows the shifts differ by a multiple of REGION_DIM. */
  lemma ShiftInBand(r: int, r': int)
    requires 0 <= r < DIMENSION && 0 <= r' < DIMENSION && r / REGION_DIM == r' / REGION_DIM
    ensures Shift(r) - Shift(r') == REGION_DIM * (r % REGION_DIM - r' % REGION_DIM)
    ensures r % REGION_DIM == r' % REGION_DIM ==> r == r'
  {
    assert r == REGION_DIM * (r / REGION_DIM) + r % REGION_DIM;
    assert r' == REGION_DIM * (r' / REGION_DIM) + r' % REGION_DIM;
  }

  lemma PatternNoClash(r: int, c: int, r': int, c': int)
    requires InGrid(r, c) && InGrid(r', c')
    ensures NoClash(PatternGrid(), r, c, r', c')
  {
    var g := PatternGrid();
    var x, y := Shift(r) + c, Shift(r') + c';
    assert g[r][c] == x % DIMENSION + 1 && g[r'][c'] == y % DIMENSION + 1;
    if (r != r' || c != c') && SameUnit(r, c, r', c') {
      if r == r' {
        ModDistinct(x, y);
      } else if c == c' {
        ShiftInjective(r, r');
        ShiftInjective(r', r);
        ModDistinct(x, y);
      } else {
        ShiftInBand(r, r');
        ModDistinct(x, y);
      }
    }
  }

  /** The pattern grid solves the blank puzzle. */
  lemma PatternSolvesBlank()
    ensures IsSolutionOf(BlankGrid(), PatternGrid())
  {
    forall r, c, r', c' | InGrid(r, c) && InGrid(r', c')
      ensures NoClash(PatternGrid(), r, c, r', c')
    {
      PatternNoClash(r, c, r', c');
    }
  }

  /** `solve(0, 0)` on a blank puzzle returns true with a solution in the grid. */
  lemma BlankPuzzleSolved()
    ensures Search(BlankGrid(), BlankGrid(), 0, 0).solved
    ensures IsSolutionOf(BlankGrid(), Search(BlankGrid(), BlankGrid(), 0, 0).grid)
  {
    PatternSolvesBlank();
    SolvableIsSolved(BlankGrid(), PatternGrid());
    SolveFromClue(BlankGrid());
    assert Consistent(BlankGrid());
  }
}

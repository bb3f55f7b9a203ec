/**
 * The solver as every copy of the program writes it: one 9x9 integer grid,
 * read by the presence checks and the empty-cell scan, and written in place
 * by the recursive backtracking routine, which sets a cell to a candidate
 * digit and resets it to 0 when the recursion fails.
 */
module Solver {
  import opened Grid
  import opened Backtracking

  /** The program's one grid (sudokuGrid, GRID) with the routines that read and write it. */
  class Sudoku {
    /** The 9x9 buffer the routines read and the solver writes. */
    var grid: array2<int>
    /** The buffer's contents as a value. */
    ghost var cells: Board

    ghost predicate Valid()
      reads this, grid
    {
      grid.Length0 == Size && grid.Length1 == Size && IsGrid(cells) &&
      forall r, c :: 0 <= r < Size && 0 <= c < Size ==> grid[r, c] == cells[r][c]
    }

    /** A grid whose every cell is 0, as each program allocates it. */
    constructor ()
      ensures Valid() && fresh(grid)
      ensures forall r, c :: 0 <= r < Size && 0 <= c < Size ==> cells[r][c] == Empty
    {
      grid := new int[Size, Size]((r, c) => Empty);
      cells := seq(Size, r => seq(Size, c => Empty));
    }

    /** isGuessNumberPresentInColumn: does `guess` occur in column `column`? */
    method PresentInColumn(column: int, guess: int) returns (present: bool)
      requires Valid() && 0 <= column < Size
      ensures present <==> ColumnHas(cells, column, guess)
    {
      var row := 0;
      while row < Size
        invariant 0 <= row <= Size
        invariant forall r :: 0 <= r < row ==> cells[r][column] != guess
      {
        if grid[row, column] == guess {
          return true;
        }
        row := row + 1;
      }
      return false;
    }

    /** isGuessNumberPresentInRow: does `guess` occur in row `row`? */
    method PresentInRow(row: int, guess: int) returns (present: bool)
      requires Valid() && 0 <= row < Size
      ensures present <==> RowHas(cells, row, guess)
    {
      var column := 0;
      while column < Size
        invariant 0 <= column <= Size
        invariant forall c :: 0 <= c < column ==> cells[row][c] != guess
      {
        if grid[row, column] == guess {
          return true;
        }
        column := column + 1;
      }
      return false;
    }

    /** isGuessNumberPresentInBox: does `guess` occur in the 3x3 block starting at (boxStartRow, boxStartColumn)? */
    method PresentInBox(boxStartRow: int, boxStartColumn: int, guess: int) returns (present: bool)
      requires Valid()
      requires 0 <= boxStartRow <= Size - BoxSize && 0 <= boxStartColumn <= Size - BoxSize
      ensures present <==> BoxHas(cells, boxStartRow, boxStartColumn, guess)
    {
      var row := 0;
      while row < BoxSize
        invariant 0 <= row <= BoxSize
        invariant forall r, c ::
                    (boxStartRow <= r < boxStartRow + row && boxStartColumn <= c < boxStartColumn + BoxSize) ==>
                    cells[r][c] != guess
      {
        var column := 0;
        while column < BoxSize
          invariant 0 <= column <= BoxSize
          invariant forall r, c ::
                      (boxStartRow <= r < boxStartRow + row && boxStartColumn <= c < boxStartColumn + BoxSize) ==>
                      cells[r][c] != guess
          invariant forall r, c ::
                      (r == boxStartRow + row && boxStartColumn <= c < boxStartColumn + column) ==>
                      cells[r][c] != guess
        {
          if grid[row + boxStartRow, column + boxStartColumn] == guess {
            return true;
          }
          column := column + 1;
        }
        row := row + 1;
      }
      return false;
    }

    /**
     * isGuessNumberValidInCell: `guess` is absent from the cell's row, its
     * column and its aligned box, that is, from every cell that shares a unit
     * with it. Only reads the grid.
     */
    method ValidInCell(row: int, column: int, guess: int) returns (valid: bool)
      requires Valid() && 0 <= row < Size && 0 <= column < Size
      ensures valid <==> CanPlace(cells, row, column, guess)
    {
      var inRow := PresentInRow(row, guess);
      if inRow {
        return false;
      }
      var inColumn := PresentInColumn(column, guess);
      if inColumn {
        return false;
      }
      var inBox := PresentInBox(row - row % BoxSize, column - column % BoxSize, guess);
      return !inBox;
    }

    /**
     * findEmptyCell with in-out coordinates (the Swift and Rust copies): on
     * success the first empty cell in row-major order; otherwise the
     * coordinates come back as they went in.
     */
    method FindEmptyCell(rowIn: int, columnIn: int) returns (found: bool, row: int, column: int)
      requires Valid()
      ensures found <==> !Full(cells)
      ensures found ==> IsFirstEmpty(cells, row, column)
      ensures !found ==> row == rowIn && column == columnIn
    {
      var rowWork := 0;
      while rowWork < Size
        invariant 0 <= rowWork <= Size
        invariant forall r, c :: 0 <= r < rowWork && 0 <= c < Size ==> cells[r][c] != Empty
      {
        var columnWork := 0;
        while columnWork < Size
          invariant 0 <= columnWork <= Size
          invariant forall r, c :: 0 <= r < rowWork && 0 <= c < Size ==> cells[r][c] != Empty
          invariant forall c :: 0 <= c < columnWork ==> cells[rowWork][c] != Empty
        {
          if grid[rowWork, columnWork] == Empty {
            return true, rowWork, columnWork;
          }
          columnWork := columnWork + 1;
        }
        rowWork := rowWork + 1;
      }
      return false, rowIn, columnIn;
    }

    /**
     * findEmptyCell with the coordinates as loop counters (the C++ and Go
     * copies): on success the first empty cell in row-major order; otherwise
     * both counters have run to 9.
     */
    method FindEmptyCellByCounters() returns (found: bool, row: int, column: int)
      requires Valid()
      ensures found <==> !Full(cells)
      ensures found ==> IsFirstEmpty(cells, row, column)
      ensures !found ==> row == Size && column == Size
    {
      row, column := 0, 0;
      while row < Size
        invariant 0 <= row <= Size
        invariant row == Size ==> column == Size
        invariant forall r, c :: 0 <= r < row && 0 <= c < Size ==> cells[r][c] != Empty
      {
        column := 0;
        while column < Size
          invariant 0 <= column <= Size
          invariant forall r, c :: 0 <= r < row && 0 <= c < Size ==> cells[r][c] != Empty
          invariant forall c :: 0 <= c < column ==> cells[row][c] != Empty
        {
          if grid[row, column] == Empty {
            return true, row, column;
          }
          column := column + 1;
        }
        row := row + 1;
      }
      return false, row, column;
    }

    /**
     * findEmptyCell over a two-element position list (the Python copy): on
     * success the first empty cell in row-major order is written into it;
     * otherwise it receives the last values of the loop variables, (8, 8).
     */
    method FindEmptyCellOrLast(position: array<int>) returns (found: bool)
      requires Valid() && position.Length == 2
      modifies position
      ensures found <==> !Full(cells)
      ensures found ==> IsFirstEmpty(cells, position[0], position[1])
      ensures !found ==> position[0] == Size - 1 && position[1] == Size - 1
    {
      // Each `for ... in range(0, 9)` assigns its variable every value in
      // turn; after a complete pass the variable keeps the last one, 8.
      var row, column := position[0], position[1];
      var r := 0;
      while r < Size
        invariant 0 <= r <= Size
        invariant r > 0 ==> row == r - 1 && column == Size - 1
        invariant forall r', c :: 0 <= r' < r && 0 <= c < Size ==> cells[r'][c] != Empty
      {
        row := r;
        var c := 0;
        while c < Size
          invariant 0 <= c <= Size
          invariant c > 0 ==> column == c - 1
          invariant forall r', c' :: 0 <= r' < r && 0 <= c' < Size ==> cells[r'][c'] != Empty
          invariant forall c' :: 0 <= c' < c ==> cells[row][c'] != Empty
        {
          column := c;
          if grid[row, column] == Empty {
            position[0] := row;
            position[1] := column;
            return true;
          }
          c := c + 1;
        }
        r := r + 1;
      }
      position[0] := row;
      position[1] := column;
      return false;
    }

    /**
     * findEmptyCell over a two-element coordinate array (the Java copy). Both
     * loops start from the incoming coordinates, and the inner one restarts
     * from coordinates[1] on every row, so the scan covers the rectangle of
     * cells at or right of that column and at or below that row. The solver
     * always passes (0, 0), for which this is the first empty cell of the grid.
     */
    method FindEmptyCellFrom(coordinates: array<int>) returns (found: bool)
      requires Valid() && coordinates.Length == 2 && coordinates[0] >= 0 && coordinates[1] >= 0
      modifies coordinates
      ensures found <==> exists r, c :: old(coordinates[0]) <= r < Size && old(coordinates[1]) <= c < Size &&
                                        cells[r][c] == Empty
      ensures found ==> old(coordinates[0]) <= coordinates[0] < Size && old(coordinates[1]) <= coordinates[1] < Size &&
                        cells[coordinates[0]][coordinates[1]] == Empty
      ensures found ==> forall r, c ::
                          (old(coordinates[0]) <= r < Size && old(coordinates[1]) <= c < Size &&
                           Before(r, c, coordinates[0], coordinates[1])) ==> cells[r][c] != Empty
      ensures !found ==> coordinates[0] == old(coordinates[0]) && coordinates[1] == old(coordinates[1])
      ensures old(coordinates[0]) == 0 && old(coordinates[1]) == 0 ==>
                (found <==> !Full(cells)) && (found ==> IsFirstEmpty(cells, coordinates[0], coordinates[1]))
    {
      var startRow, startColumn := coordinates[0], coordinates[1];
      var row := coordinates[0];
      while row < Size
        invariant startRow <= row && (startRow < Size ==> row <= Size)
        invariant coordinates[0] == startRow && coordinates[1] == startColumn
        invariant forall r, c :: startRow <= r < row && r < Size && startColumn <= c < Size ==> cells[r][c] != Empty
      {
        var column := coordinates[1];
        while column < Size
          invariant startColumn <= column && (startColumn < Size ==> column <= Size)
          invariant forall r, c :: startRow <= r < row && r < Size && startColumn <= c < Size ==> cells[r][c] != Empty
          invariant forall c :: startColumn <= c < column && c < Size ==> cells[row][c] != Empty
        {
          if grid[row, column] == Empty {
            coordinates[0] := row;
            coordinates[1] := column;
            return true;
          }
          column := column + 1;
        }
        row := row + 1;
      }
      return false;
    }

    /** One assignment `sudokuGrid[row][column] = value`: that cell changes and no other. */
    method SetCell(row: int, column: int, value: int)
      requires Valid() && 0 <= row < Size && 0 <= column < Size
      modifies this, grid
      ensures Valid() && grid == old(grid)
      ensures cells == Place(old(cells), row, column, value)
    {
      grid[row, column] := value;
      cells := Place(cells, row, column, value);
    }

    /**
     * solveSudoku: computes exactly the reference search. On success the grid
     * is full, every seed value is still in place, every cell that was empty
     * holds a digit 1..9, and a seed without duplicates ends as a solved
     * Sudoku. On failure the grid is back in its entry state and no solution
     * of the entry grid exists. Each recursive call starts with one empty
     * cell fewer than its caller.
     */
    method Solve() returns (solved: bool)
      requires Valid()
      modifies this, grid
      ensures Valid() && grid == old(grid)
      ensures solved <==> Search(old(cells)).Some?
      ensures solved ==> cells == Search(old(cells)).value
      ensures solved ==> Completes(cells, old(cells))
      ensures solved && NoDuplicates(old(cells)) ==> IsSolutionOf(cells, old(cells))
      ensures !solved ==> cells == old(cells)
      ensures !solved ==> forall s :: !IsSolutionOf(s, old(cells))
      decreases ZeroCount(cells), 2
    {
      ghost var entry := cells;
      var found, row, column := FindEmptyCell(0, 0);
      if !found {
        SearchWhenFull(entry);
        SearchSound(entry);
        return true;
      }
      SearchAtFirstEmpty(entry, row, column);
      solved := TryCandidates(row, column);
      if solved {
        SearchSound(entry);
      } else {
        SearchFailsOnlyWithoutSolution(entry);
      }
    }

    /**
     * The candidate loop of solveSudoku for the first empty cell (row,
     * column): the digits 1..9 in ascending order, stopping at the first one
     * whose recursive search succeeds. It ends with the reference search's
     * result for the candidates 1..9, or with the grid unchanged when every
     * candidate fails.
     */
    method TryCandidates(row: int, column: int) returns (solved: bool)
      requires Valid() && 0 <= row < Size && 0 <= column < Size && cells[row][column] == Empty
      modifies this, grid
      ensures Valid() && grid == old(grid)
      ensures solved ==> TryDigits(old(cells), row, column, 1) == Some(cells)
      ensures !solved ==> cells == old(cells) && TryDigits(old(cells), row, column, 1).None?
      decreases ZeroCount(cells), 1
    {
      ghost var entry := cells;
      var guess := 1;
      while guess <= Size
        invariant 1 <= guess <= Size + 1
        invariant Valid() && grid == old(grid) && cells == entry
        invariant TryDigits(entry, row, column, 1) == TryDigits(entry, row, column, guess)
      {
        var done := TryGuess(row, column, guess);
        if done {
          return true;
        }
        guess := guess + 1;
      }
      return false;
    }

    /**
     * One pass of solveSudoku's candidate loop for the empty cell (row,
     * column): if `guess` passes the placement test it is written, the search
     * recurses, and on failure the cell is reset to 0. The outcome is the
     * reference search's step for this one candidate: either the grid it
     * reaches, or the unchanged grid when the candidate fails.
     */
    method TryGuess(row: int, column: int, guess: int) returns (done: bool)
      requires Valid() && 0 <= row < Size && 0 <= column < Size && cells[row][column] == Empty
      requires 1 <= guess <= Size
      modifies this, grid
      ensures Valid() && grid == old(grid)
      ensures done ==> Attempt(old(cells), row, column, guess) == Some(cells)
      ensures !done ==> cells == old(cells) && Attempt(old(cells), row, column, guess).None?
      decreases ZeroCount(cells), 0
    {
      ghost var entry := cells;
      var valid := ValidInCell(row, column, guess);
      if !valid {
        return false;
      }
      SetCell(row, column, guess);
      ZeroCountPlace(entry, row, column, guess);
      done := Solve();
      if done {
        return true;
      }
      SetCell(row, column, Empty);
      PlaceUndo(entry, row, column, guess);
      return false;
    }
  }
}

/**
 * The web copy of the solver: checkSudokuData checks the shape of the
 * request's grid and copies it into the program's one global grid, and
 * doSudoku runs the solver on that grid and hands it back. The global grid
 * outlives a request, so whatever the copy does not overwrite keeps the
 * values an earlier request left there.
 */
module Service {
  import opened Grid
  import opened Backtracking
  import opened Solver

  /** SudokuError: the one way doSudoku can fail. */
  datatype SudokuError = InvalidData

  /** What doSudoku does: return a grid, or throw. */
  datatype Result<T> = Success(value: T) | Failure(error: SudokuError)

  /** checkSudokuData's verdict when its row loop runs over rows 0 .. bound-1. */
  predicate Accepts(data: Board, bound: int) {
    |data| == Size && forall r :: 0 <= r < bound && r < |data| ==> |data[r]| == Size
  }

  /** The first row in r .. bound-1 whose length is not 9, or bound when there is none. */
  function FirstShortRow(data: Board, r: int, bound: int): (k: int)
    requires 0 <= r <= bound <= |data|
    ensures r <= k <= bound
    ensures forall i :: r <= i < k ==> |data[i]| == Size
    ensures k < bound ==> |data[k]| != Size
    decreases bound - r
  {
    if r == bound then bound
    else if |data[r]| != Size then r
    else FirstShortRow(data, r + 1, bound)
  }

  /**
   * `b` with the cells in rows 0 .. rows-1 and columns 0 .. columns-1 taken
   * from `data`.
   */
  function Overlay(b: Board, data: Board, rows: int, columns: int): (o: Board)
    requires IsGrid(b) && 0 <= rows <= Size && 0 <= columns <= Size
    requires rows <= |data| && forall r :: 0 <= r < rows ==> |data[r]| == Size
    ensures IsGrid(o)
    ensures forall r, c :: 0 <= r < Size && 0 <= c < Size ==>
              o[r][c] == (if r < rows && c < columns then data[r][c] else b[r][c])
  {
    seq(Size, (r: int) requires 0 <= r < Size =>
      seq(Size, (c: int) requires 0 <= c < Size =>
        if r < rows && c < columns then data[r][c] else b[r][c]))
  }

  /**
   * The global grid after checkSudokuData with row and column loops bounded by
   * `bound`: unchanged when the row count is wrong; otherwise every row before
   * the first short one is copied in its first `bound` columns, and the copy
   * stops there.
   */
  function Ingested(b: Board, data: Board, bound: int): (o: Board)
    requires IsGrid(b) && 0 <= bound <= Size
    ensures IsGrid(o)
  {
    if |data| != Size then b
    else Overlay(b, data, FirstShortRow(data, 0, bound), bound)
  }

  /**
   * checkSudokuData, with the bound of its two loops as a parameter: the source
   * runs them to numberMaxCells - 1 (DoSudoku below), the evident intent is
   * numberMaxCells (DoSudokuCorrected). The verdict is the shape check, and the
   * global grid receives exactly the copy described by Ingested, on success and
   * on failure alike.
   */
  method CheckSudokuData(s: Sudoku, data: Board, bound: int) returns (ok: bool)
    requires s.Valid() && 0 <= bound <= Size
    modifies s, s.grid
    ensures s.Valid() && s.grid == old(s.grid)
    ensures ok <==> Accepts(data, bound)
    ensures s.cells == Ingested(old(s.cells), data, bound)
  {
    ghost var entry := s.cells;
    if |data| != Size {
      return false;
    }
    var row := 0;
    while row < bound
      invariant 0 <= row <= bound
      invariant s.Valid() && s.grid == old(s.grid)
      invariant forall i :: 0 <= i < row ==> |data[i]| == Size
      invariant forall r, c :: 0 <= r < Size && 0 <= c < Size ==>
                  s.cells[r][c] == (if r < row && c < bound then data[r][c] else entry[r][c])
    {
      if |data[row]| != Size {
        SameBoard(s.cells, Overlay(entry, data, row, bound));
        return false;
      }
      var col := 0;
      while col < bound
        invariant 0 <= col <= bound
        invariant s.Valid() && s.grid == old(s.grid)
        invariant forall r, c :: 0 <= r < Size && 0 <= c < Size ==>
                    s.cells[r][c] ==
                    (if (r < row && c < bound) || (r == row && c < col) then data[r][c] else entry[r][c])
      {
        s.SetCell(row, col, data[row][col]);
        col := col + 1;
      }
      row := row + 1;
    }
    SameBoard(s.cells, Overlay(entry, data, bound, bound));
    return true;
  }

  /** The grid doSudoku returns: a copy of the global grid's contents. */
  method GridContents(s: Sudoku) returns (b: Board)
    requires s.Valid()
    ensures b == s.cells
  {
    b := [];
    var row := 0;
    while row < Size
      invariant 0 <= row <= Size && |b| == row
      invariant forall r :: 0 <= r < row ==> b[r] == s.cells[r]
    {
      var line: seq<int> := [];
      var column := 0;
      while column < Size
        invariant 0 <= column <= Size && |line| == column
        invariant forall c :: 0 <= c < column ==> line[c] == s.cells[row][c]
      {
        line := line + [s.grid[row, column]];
        column := column + 1;
      }
      b := b + [line];
      row := row + 1;
    }
  }

  /** What doSudoku returns for a seed that checkSudokuData let through: the solved grid, or the seed itself. */
  function Outcome(seed: Board): Board
    requires IsGrid(seed)
  {
    match Search(seed)
    case Some(solution) => solution
    case None => seed
  }

  /**
   * doSudoku as written: throws InvalidData exactly when checkSudokuData
   * rejects the data (its loops stop one row and one column short); otherwise
   * solves the global grid in place and returns it, solved or, when no
   * solution exists, as the search left it, which is the grid it started from.
   */
  method DoSudoku(s: Sudoku, data: Board) returns (result: Result<Board>)
    requires s.Valid()
    modifies s, s.grid
    ensures s.Valid() && s.grid == old(s.grid)
    ensures result.Failure? <==> !Accepts(data, Size - 1)
    ensures result.Failure? ==> s.cells == Ingested(old(s.cells), data, Size - 1)
    ensures result.Success? ==> result.value == s.cells &&
                                s.cells == Outcome(Ingested(old(s.cells), data, Size - 1))
  {
    var ok := CheckSudokuData(s, data, Size - 1);
    if !ok {
      return Failure(InvalidData);
    }
    var solved := s.Solve();
    var b := GridContents(s);
    return Success(b);
  }

  /**
   * doSudoku with checkSudokuData's loops running over all nine rows and
   * columns: throws exactly when the data is not a 9x9 grid; otherwise the
   * result depends on the data alone, not on what an earlier request left in
   * the global grid.
   */
  method DoSudokuCorrected(s: Sudoku, data: Board) returns (result: Result<Board>)
    requires s.Valid()
    modifies s, s.grid
    ensures s.Valid() && s.grid == old(s.grid)
    ensures result.Failure? <==> !IsGrid(data)
    ensures result.Success? ==> IsGrid(data) && result.value == s.cells && s.cells == Outcome(data)
  {
    var ok := CheckSudokuData(s, data, Size);
    AcceptsAllRows(data);
    if !ok {
      return Failure(InvalidData);
    }
    IngestedAllRows(old(s.cells), data);
    var solved := s.Solve();
    var b := GridContents(s);
    return Success(b);
  }

  // ---------------------------------------------------------------------------
  // What the copy does
  // ---------------------------------------------------------------------------

  /** When the data is accepted, every row before the bound is copied in its first `bound` columns. */
  lemma AcceptedCopiesSquare(b: Board, data: Board, bound: int)
    requires IsGrid(b) && 0 <= bound <= Size && Accepts(data, bound)
    ensures Ingested(b, data, bound) == Overlay(b, data, bound, bound)
  {
    assert FirstShortRow(data, 0, bound) == bound;
  }

  /** With loops over all nine rows the check accepts exactly the 9x9 grids. */
  lemma AcceptsAllRows(data: Board)
    ensures Accepts(data, Size) <==> IsGrid(data)
  {
  }

  /** With loops over all nine rows and columns an accepted grid is copied whole: the old contents do not matter. */
  lemma IngestedAllRows(b: Board, data: Board)
    requires IsGrid(b) && IsGrid(data)
    ensures Ingested(b, data, Size) == data
  {
    AcceptedCopiesSquare(b, data, Size);
    SameBoard(Overlay(b, data, Size, Size), data);
  }

  /** A rejected grid still has every row before the first short one copied into the global grid. */
  lemma RejectedKeepsPartialCopy(b: Board, data: Board, bound: int, row: int)
    requires IsGrid(b) && 0 <= bound <= Size && |data| == Size
    requires 0 <= row < bound && |data[row]| != Size
    requires forall i :: 0 <= i < row ==> |data[i]| == Size
    ensures !Accepts(data, bound)
    ensures forall r, c :: 0 <= r < row && 0 <= c < bound ==> Ingested(b, data, bound)[r][c] == data[r][c]
    ensures forall r, c :: row <= r < Size && 0 <= c < Size ==> Ingested(b, data, bound)[r][c] == b[r][c]
  {
    assert FirstShortRow(data, 0, bound) == row;
  }

  // ---------------------------------------------------------------------------
  // The finding: checkSudokuData's loops stop one short
  // ---------------------------------------------------------------------------

  /** A nine-row grid whose last row is empty: not a 9x9 grid. */
  function ShortLastRow(): (data: Board)
    ensures |data| == Size && |data[Size - 1]| == 0
  {
    seq(Size, (r: int) => if r < Size - 1 then seq(Size, (c: int) => Empty) else [])
  }

  /** As written, the check lets through a grid whose last row is missing. */
  lemma ShortLastRowAccepted()
    ensures !IsGrid(ShortLastRow()) && Accepts(ShortLastRow(), Size - 1)
  {
  }

  /** As written, row 8 and column 8 of an accepted grid are never copied: they keep their old values. */
  lemma LastRowAndColumnNotCopied(b: Board, data: Board)
    requires IsGrid(b) && Accepts(data, Size - 1)
    ensures forall r, c :: 0 <= r < Size && 0 <= c < Size && (r == Size - 1 || c == Size - 1) ==>
              Ingested(b, data, Size - 1)[r][c] == b[r][c]
  {
    AcceptedCopiesSquare(b, data, Size - 1);
  }

  /** A complete 9x9 request to a grid still holding another value in cell (8, 8) comes out with that stale value. */
  lemma StaleCornerSurvives(b: Board, data: Board)
    requires IsGrid(b) && IsGrid(data) && b[Size - 1][Size - 1] != data[Size - 1][Size - 1]
    ensures Accepts(data, Size - 1)
    ensures Ingested(b, data, Size - 1) != data
  {
    LastRowAndColumnNotCopied(b, data);
    assert Ingested(b, data, Size - 1)[Size - 1][Size - 1] == b[Size - 1][Size - 1];
  }
}

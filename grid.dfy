/**
 * The 9x9 Sudoku grid as a value: the presence checks for a row, a column and
 * an aligned 3x3 box, the placement test built from them, the row-major order
 * in which the solver looks for the next empty cell, and the count of empty
 * cells that bounds the search.
 */
module Grid {

  /** Number of rows, of columns and of digits (numberMaxCells). */
  const Size: int := 9
  /** Side of a box (numberCellsInBox). */
  const BoxSize: int := 3
  /** The value that marks an empty cell (emptyCell). */
  const Empty: int := 0

  datatype Option<T> = None | Some(value: T)

  /** The coordinates of one cell. */
  datatype Cell = Cell(row: int, column: int)

  /** Rows of cell values; 0 marks an empty cell. No code path checks that values lie in 0..9. */
  type Board = seq<seq<int>>

  /** Exactly nine rows of exactly nine values. */
  predicate IsGrid(b: Board) {
    |b| == Size && forall r :: 0 <= r < Size ==> |b[r]| == Size
  }

  // ---------------------------------------------------------------------------
  // The three presence checks and the placement test
  // ---------------------------------------------------------------------------

  /** Digit `g` occurs somewhere in row `row`. */
  predicate RowHas(b: Board, row: int, g: int)
    requires IsGrid(b) && 0 <= row < Size
  {
    exists c :: 0 <= c < Size && b[row][c] == g
  }

  /** Digit `g` occurs somewhere in column `column`. */
  predicate ColumnHas(b: Board, column: int, g: int)
    requires IsGrid(b) && 0 <= column < Size
  {
    exists r :: 0 <= r < Size && b[r][column] == g
  }

  /** Digit `g` occurs in the 3x3 block whose top-left cell is (boxRow, boxColumn). */
  predicate BoxHas(b: Board, boxRow: int, boxColumn: int, g: int)
    requires IsGrid(b)
    requires 0 <= boxRow <= Size - BoxSize && 0 <= boxColumn <= Size - BoxSize
  {
    exists r, c :: boxRow <= r < boxRow + BoxSize && boxColumn <= c < boxColumn + BoxSize && b[r][c] == g
  }

  /** The start `x - x % 3` that every caller passes to the box check. */
  function BoxStart(x: int): (s: int)
    requires 0 <= x < Size
    ensures 0 <= s <= Size - BoxSize && s % BoxSize == 0
    ensures s <= x < s + BoxSize
  {
    x - x % BoxSize
  }

  /** Two cells lie in the same one of the nine boxes. */
  predicate SameBox(r1: int, c1: int, r2: int, c2: int) {
    r1 / BoxSize == r2 / BoxSize && c1 / BoxSize == c2 / BoxSize
  }

  /** Two cells share a row, a column or a box. */
  predicate SameUnit(r1: int, c1: int, r2: int, c2: int) {
    r1 == r2 || c1 == c2 || SameBox(r1, c1, r2, c2)
  }

  /** The placement test: `g` is absent from the row, the column and the aligned box of the cell. */
  predicate CanPlace(b: Board, row: int, column: int, g: int)
    requires IsGrid(b) && 0 <= row < Size && 0 <= column < Size
  {
    !RowHas(b, row, g) && !ColumnHas(b, column, g) && !BoxHas(b, BoxStart(row), BoxStart(column), g)
  }

  /** A value in 0..8 lies in the three rows (or columns) starting at BoxStart(x) iff it is in x's band. */
  lemma {:induction false} BandOfBoxStart(x: int, y: int)
    requires 0 <= x < Size && 0 <= y < Size
    ensures BoxStart(x) <= y < BoxStart(x) + BoxSize <==> x / BoxSize == y / BoxSize
  {
    assert x == BoxSize * (x / BoxSize) + x % BoxSize;
    assert y == BoxSize * (y / BoxSize) + y % BoxSize;
    assert BoxStart(x) == BoxSize * (x / BoxSize);
    assert 0 <= x / BoxSize < BoxSize && 0 <= y / BoxSize < BoxSize;
  }

  /** The box check at the aligned start reports exactly whether `g` occurs in the cell's box. */
  lemma {:induction false} BoxHasAligned(b: Board, row: int, column: int, g: int)
    requires IsGrid(b) && 0 <= row < Size && 0 <= column < Size
    ensures BoxHas(b, BoxStart(row), BoxStart(column), g) <==>
            exists r, c :: 0 <= r < Size && 0 <= c < Size && SameBox(row, column, r, c) && b[r][c] == g
  {
    forall r, c | 0 <= r < Size && 0 <= c < Size
      ensures (BoxStart(row) <= r < BoxStart(row) + BoxSize && BoxStart(column) <= c < BoxStart(column) + BoxSize)
              <==> SameBox(row, column, r, c)
    {
      BandOfBoxStart(row, r);
      BandOfBoxStart(column, c);
    }
  }

  /** The placement test holds iff no cell sharing a row, a column or a box with (row, column) holds `g`. */
  lemma {:induction false} CanPlaceExactly(b: Board, row: int, column: int, g: int)
    requires IsGrid(b) && 0 <= row < Size && 0 <= column < Size
    ensures CanPlace(b, row, column, g) <==>
            forall r, c :: 0 <= r < Size && 0 <= c < Size && SameUnit(row, column, r, c) ==> b[r][c] != g
  {
    BoxHasAligned(b, row, column, g);
  }

  // ---------------------------------------------------------------------------
  // Filled grids, seeds and the Sudoku constraint
  // ---------------------------------------------------------------------------

  /** No cell is empty. */
  predicate Full(b: Board)
    requires IsGrid(b)
  {
    forall r, c :: 0 <= r < Size && 0 <= c < Size ==> b[r][c] != Empty
  }

  /** Every cell that is non-zero in `b` holds the same value in `s`. */
  predicate Keeps(b: Board, s: Board)
    requires IsGrid(b) && IsGrid(s)
  {
    forall r, c :: 0 <= r < Size && 0 <= c < Size && b[r][c] != Empty ==> s[r][c] == b[r][c]
  }

  /** Every cell that is empty in `b` holds a digit 1..9 in `s`. */
  predicate FillsWithDigits(b: Board, s: Board)
    requires IsGrid(b) && IsGrid(s)
  {
    forall r, c :: 0 <= r < Size && 0 <= c < Size && b[r][c] == Empty ==> 1 <= s[r][c] <= Size
  }

  /** No two distinct cells of one row, column or box hold the same non-zero value. */
  predicate NoDuplicates(b: Board)
    requires IsGrid(b)
  {
    forall r1, c1, r2, c2 ::
      0 <= r1 < Size && 0 <= c1 < Size && 0 <= r2 < Size && 0 <= c2 < Size &&
      (r1 != r2 || c1 != c2) && SameUnit(r1, c1, r2, c2) && b[r1][c1] != Empty
      ==> b[r1][c1] != b[r2][c2]
  }

  /** `s` fills every empty cell of `b` with a digit and keeps every seed value. */
  predicate Completes(s: Board, b: Board)
    requires IsGrid(b)
  {
    IsGrid(s) && Full(s) && Keeps(b, s) && FillsWithDigits(b, s)
  }

  /** `s` is a solved Sudoku for the seed `b`. */
  predicate IsSolutionOf(s: Board, b: Board)
    requires IsGrid(b)
  {
    Completes(s, b) && NoDuplicates(s)
  }

  /** The grid with `g` written at (row, column). */
  function Place(b: Board, row: int, column: int, g: int): (p: Board)
    requires IsGrid(b) && 0 <= row < Size && 0 <= column < Size
    ensures IsGrid(p)
  {
    b[row := b[row][column := g]]
  }

  /** Writing a digit into an empty cell and then resetting the cell to 0 gives back the grid. */
  lemma {:induction false} PlaceUndo(b: Board, row: int, column: int, g: int)
    requires IsGrid(b) && 0 <= row < Size && 0 <= column < Size && b[row][column] == Empty
    ensures Place(Place(b, row, column, g), row, column, Empty) == b
  {
    assert Place(Place(b, row, column, g), row, column, Empty)[row] == b[row];
  }

  /** A digit that passes the placement test, written into an empty cell, keeps the grid free of duplicates. */
  lemma {:induction false} PlaceKeepsNoDuplicates(b: Board, row: int, column: int, g: int)
    requires IsGrid(b) && 0 <= row < Size && 0 <= column < Size && b[row][column] == Empty
    requires NoDuplicates(b) && CanPlace(b, row, column, g)
    ensures NoDuplicates(Place(b, row, column, g))
  {
    CanPlaceExactly(b, row, column, g);
    var p := Place(b, row, column, g);
    forall r1, c1, r2, c2 |
      0 <= r1 < Size && 0 <= c1 < Size && 0 <= r2 < Size && 0 <= c2 < Size &&
      (r1 != r2 || c1 != c2) && SameUnit(r1, c1, r2, c2) && p[r1][c1] != Empty
      ensures p[r1][c1] != p[r2][c2]
    {
      if r1 == row && c1 == column {
        assert p[r2][c2] == b[r2][c2];
      } else if r2 == row && c2 == column {
        assert SameUnit(row, column, r1, c1);
      }
    }
  }

  // ---------------------------------------------------------------------------
  // The empty cells: row-major scan and count
  // ---------------------------------------------------------------------------

  /** Cell (r1, c1) comes before cell (r2, c2) in row-major order. */
  predicate Before(r1: int, c1: int, r2: int, c2: int) {
    r1 < r2 || (r1 == r2 && c1 < c2)
  }

  /** (row, column) is empty and every cell before it in row-major order is not. */
  predicate IsFirstEmpty(b: Board, row: int, column: int)
    requires IsGrid(b)
  {
    0 <= row < Size && 0 <= column < Size && b[row][column] == Empty &&
    forall r, c :: 0 <= r < Size && 0 <= c < Size && Before(r, c, row, column) ==> b[r][c] != Empty
  }

  /** The first empty cell at or after (r, c) in row-major order, if any. */
  function FirstEmptyFrom(b: Board, r: int, c: int): (res: Option<Cell>)
    requires IsGrid(b) && 0 <= r <= Size && 0 <= c <= Size
    ensures res.Some? ==> 0 <= res.value.row < Size && 0 <= res.value.column < Size &&
                          b[res.value.row][res.value.column] == Empty &&
                          !Before(res.value.row, res.value.column, r, c)
    ensures forall r2, c2 ::
              0 <= r2 < Size && 0 <= c2 < Size && !Before(r2, c2, r, c) &&
              (res.None? || Before(r2, c2, res.value.row, res.value.column))
              ==> b[r2][c2] != Empty
    decreases Size - r, Size - c
  {
    if r == Size then None
    else if c == Size then FirstEmptyFrom(b, r + 1, 0)
    else if b[r][c] == Empty then Some(Cell(r, c))
    else FirstEmptyFrom(b, r, c + 1)
  }

  /** The cell the solver fills next: none iff the grid is full, otherwise the unique first empty cell. */
  function FirstEmpty(b: Board): (res: Option<Cell>)
    requires IsGrid(b)
    ensures res.None? <==> Full(b)
    ensures forall r, c :: IsFirstEmpty(b, r, c) <==> res == Some(Cell(r, c))
  {
    FirstEmptyFromStartFull(b);
    FirstEmptyFromStartUnique(b);
    FirstEmptyFrom(b, 0, 0)
  }

  /** The scan from (0, 0) finds nothing exactly when the grid is full. */
  lemma FirstEmptyFromStartFull(b: Board)
    requires IsGrid(b)
    ensures FirstEmptyFrom(b, 0, 0).None? <==> Full(b)
  {
    var res := FirstEmptyFrom(b, 0, 0);
    if res.Some? {
      assert b[res.value.row][res.value.column] == Empty;
    } else {
      forall r, c | 0 <= r < Size && 0 <= c < Size
        ensures b[r][c] != Empty
      {
        assert !Before(r, c, 0, 0);
      }
    }
  }

  /** What the scan from (0, 0) finds is the unique first empty cell. */
  lemma FirstEmptyFromStartUnique(b: Board)
    requires IsGrid(b)
    ensures forall r, c :: IsFirstEmpty(b, r, c) <==> FirstEmptyFrom(b, 0, 0) == Some(Cell(r, c))
  {
    var res := FirstEmptyFrom(b, 0, 0);
    forall r, c | IsFirstEmpty(b, r, c)
      ensures res == Some(Cell(r, c))
    {
      assert res.Some?;
      assert !Before(r, c, res.value.row, res.value.column);
      assert !Before(res.value.row, res.value.column, r, c);
    }
  }

  /** The number of empty cells in one row. */
  function RowZeros(row: seq<int>): nat
  {
    if row == [] then 0 else (if row[0] == Empty then 1 else 0) + RowZeros(row[1..])
  }

  /** The number of empty cells in the grid. */
  function ZeroCount(b: Board): nat
  {
    if b == [] then 0 else RowZeros(b[0]) + ZeroCount(b[1..])
  }

  lemma {:induction false} RowZerosUpdate(row: seq<int>, c: int, g: int)
    requires 0 <= c < |row| && row[c] == Empty && g != Empty
    ensures RowZeros(row[c := g]) == RowZeros(row) - 1
  {
    if c == 0 {
      assert row[c := g][1..] == row[1..];
    } else {
      assert row[c := g][1..] == row[1..][c - 1 := g];
      RowZerosUpdate(row[1..], c - 1, g);
    }
  }

  lemma {:induction false} ZeroCountUpdate(b: Board, r: int, row: seq<int>)
    requires 0 <= r < |b|
    ensures ZeroCount(b[r := row]) == ZeroCount(b) - RowZeros(b[r]) + RowZeros(row)
  {
    if r == 0 {
      assert b[r := row][1..] == b[1..];
    } else {
      assert b[r := row][1..] == b[1..][r - 1 := row];
      ZeroCountUpdate(b[1..], r - 1, row);
    }
  }

  /** Filling one empty cell with a non-zero value leaves exactly one empty cell fewer. */
  lemma {:induction false} ZeroCountPlace(b: Board, row: int, column: int, g: int)
    requires IsGrid(b) && 0 <= row < Size && 0 <= column < Size && b[row][column] == Empty && g != Empty
    ensures ZeroCount(Place(b, row, column, g)) == ZeroCount(b) - 1
  {
    RowZerosUpdate(b[row], column, g);
    ZeroCountUpdate(b, row, b[row][column := g]);
  }

  lemma {:induction false} RowZerosBound(row: seq<int>)
    ensures RowZeros(row) <= |row|
  {
    if row != [] {
      RowZerosBound(row[1..]);
    }
  }

  lemma {:induction false} ZeroCountRows(b: Board)
    requires forall r :: 0 <= r < |b| ==> |b[r]| == Size
    ensures ZeroCount(b) <= Size * |b|
  {
    if b != [] {
      RowZerosBound(b[0]);
      ZeroCountRows(b[1..]);
    }
  }

  /** A grid has at most 81 empty cells, so the solver's recursion is at most 81 deep. */
  lemma ZeroCountBound(b: Board)
    requires IsGrid(b)
    ensures ZeroCount(b) <= Size * Size
  {
    ZeroCountRows(b);
  }

  /** Two grids that agree on every cell are equal. */
  lemma SameBoard(a: Board, b: Board)
    requires IsGrid(a) && IsGrid(b)
    requires forall r, c :: 0 <= r < Size && 0 <= c < Size ==> a[r][c] == b[r][c]
    ensures a == b
  {
    assert forall r :: 0 <= r < Size ==> a[r] == b[r];
  }
}

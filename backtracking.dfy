/**
 * The backtracking search as a value-level reference: take the first empty
 * cell in row-major order, try the digits 1..9 in ascending order, keep the
 * first one that passes the placement test and whose recursive search
 * succeeds. The solver's in-place method is proved to compute exactly this.
 */
module Backtracking {
  import opened Grid

  /** The grid the solver ends with on success, or None when it reports failure. */
  function Search(b: Board): Option<Board>
    requires IsGrid(b)
    decreases ZeroCount(b), 1, 0
  {
    match FirstEmpty(b)
    case None => Some(b)
    case Some(cell) => TryDigits(b, cell.row, cell.column, 1)
  }

  /** The candidates g, g+1, ..., 9 for the empty cell (row, column), in that order. */
  function TryDigits(b: Board, row: int, column: int, g: int): Option<Board>
    requires IsGrid(b) && 0 <= row < Size && 0 <= column < Size && b[row][column] == Empty
    requires 1 <= g <= Size + 1
    decreases ZeroCount(b), 0, Size + 1 - g
  {
    if g == Size + 1 then None
    else
      match Attempt(b, row, column, g)
      case Some(s) => Some(s)
      case None => TryDigits(b, row, column, g + 1)
  }

  /** One candidate: the search below the grid with g written, when g passes the placement test. */
  function Attempt(b: Board, row: int, column: int, g: int): Option<Board>
    requires IsGrid(b) && 0 <= row < Size && 0 <= column < Size && b[row][column] == Empty
    requires 1 <= g <= Size
    decreases ZeroCount(b), 0, 0
  {
    if CanPlace(b, row, column, g) then
      ZeroCountPlace(b, row, column, g);
      Search(Place(b, row, column, g))
    else None
  }

  /** A full grid is its own search result. */
  lemma SearchWhenFull(b: Board)
    requires IsGrid(b) && Full(b)
    ensures Search(b) == Some(b)
  {
  }

  /** On a grid that is not full the search starts with the digit 1 at the first empty cell. */
  lemma SearchAtFirstEmpty(b: Board, row: int, column: int)
    requires IsGrid(b) && IsFirstEmpty(b, row, column)
    ensures Search(b) == TryDigits(b, row, column, 1)
  {
    assert FirstEmpty(b) == Some(Cell(row, column));
  }

  /**
   * Soundness: a successful search fills every empty cell with a digit 1..9,
   * leaves every seed value in place, and never introduces a duplicate.
   */
  lemma {:induction false} SearchSound(b: Board)
    requires IsGrid(b)
    ensures Search(b).Some? ==> Completes(Search(b).value, b)
    ensures Search(b).Some? && NoDuplicates(b) ==> IsSolutionOf(Search(b).value, b)
    decreases ZeroCount(b), 1, 0
  {
    match FirstEmpty(b)
    case None =>
    case Some(cell) => TryDigitsSound(b, cell.row, cell.column, 1);
  }

  lemma {:induction false} TryDigitsSound(b: Board, row: int, column: int, g: int)
    requires IsGrid(b) && 0 <= row < Size && 0 <= column < Size && b[row][column] == Empty
    requires 1 <= g <= Size + 1
    ensures TryDigits(b, row, column, g).Some? ==> Completes(TryDigits(b, row, column, g).value, b)
    ensures TryDigits(b, row, column, g).Some? && NoDuplicates(b) ==>
              IsSolutionOf(TryDigits(b, row, column, g).value, b)
    decreases ZeroCount(b), 0, Size + 1 - g
  {
    if g <= Size {
      AttemptSound(b, row, column, g);
      if Attempt(b, row, column, g).None? {
        assert TryDigits(b, row, column, g) == TryDigits(b, row, column, g + 1);
        TryDigitsSound(b, row, column, g + 1);
      } else {
        assert TryDigits(b, row, column, g) == Attempt(b, row, column, g);
      }
    }
  }

  lemma {:induction false} AttemptSound(b: Board, row: int, column: int, g: int)
    requires IsGrid(b) && 0 <= row < Size && 0 <= column < Size && b[row][column] == Empty
    requires 1 <= g <= Size
    ensures Attempt(b, row, column, g).Some? ==> Completes(Attempt(b, row, column, g).value, b)
    ensures Attempt(b, row, column, g).Some? && NoDuplicates(b) ==>
              IsSolutionOf(Attempt(b, row, column, g).value, b)
    decreases ZeroCount(b), 0, 0
  {
    if CanPlace(b, row, column, g) {
      var p := Place(b, row, column, g);
      ZeroCountPlace(b, row, column, g);
      SearchSound(p);
      assert Attempt(b, row, column, g) == Search(p);
      if Search(p).Some? {
        CompletesThroughPlace(b, row, column, g, Search(p).value);
        if NoDuplicates(b) {
          PlaceKeepsNoDuplicates(b, row, column, g);
        }
      }
    }
  }

  /** A completion of the grid with a digit written into an empty cell is a completion of the grid. */
  lemma {:induction false} CompletesThroughPlace(b: Board, row: int, column: int, g: int, s: Board)
    requires IsGrid(b) && 0 <= row < Size && 0 <= column < Size && b[row][column] == Empty
    requires 1 <= g <= Size
    requires Completes(s, Place(b, row, column, g))
    ensures Completes(s, b)
  {
    var p := Place(b, row, column, g);
    assert p[row][column] == g;
    forall r, c | 0 <= r < Size && 0 <= c < Size && b[r][c] == Empty
      ensures 1 <= s[r][c] <= Size
    {
      if r == row && c == column {
        assert s[r][c] == g;
      } else {
        assert p[r][c] == Empty;
      }
    }
  }

  /** The digit a solution puts into an empty cell passes the placement test. */
  lemma {:induction false} SolutionDigitPasses(b: Board, s: Board, row: int, column: int)
    requires IsGrid(b) && IsSolutionOf(s, b)
    requires 0 <= row < Size && 0 <= column < Size && b[row][column] == Empty
    ensures CanPlace(b, row, column, s[row][column])
  {
    CanPlaceExactly(b, row, column, s[row][column]);
    forall r, c | 0 <= r < Size && 0 <= c < Size && SameUnit(row, column, r, c)
      ensures b[r][c] != s[row][column]
    {
      if b[r][c] != Empty && (r != row || c != column) {
        assert s[r][c] == b[r][c];
      }
    }
  }

  /** A solution of a grid is still a solution once one of its digits is written into the grid. */
  lemma {:induction false} SolutionOfPlace(b: Board, s: Board, row: int, column: int)
    requires IsGrid(b) && IsSolutionOf(s, b)
    requires 0 <= row < Size && 0 <= column < Size && b[row][column] == Empty
    ensures IsSolutionOf(s, Place(b, row, column, s[row][column]))
  {
  }

  /** Completeness: when the seed has a solution, the search does not report failure. */
  lemma {:induction false} SearchComplete(b: Board, s: Board)
    requires IsGrid(b) && IsSolutionOf(s, b)
    ensures Search(b).Some?
    decreases ZeroCount(b), 1, 0
  {
    match FirstEmpty(b)
    case None =>
    case Some(cell) =>
      TryDigitsComplete(b, s, cell.row, cell.column, 1);
  }

  lemma {:induction false} TryDigitsComplete(b: Board, s: Board, row: int, column: int, g: int)
    requires IsGrid(b) && IsSolutionOf(s, b)
    requires 0 <= row < Size && 0 <= column < Size && b[row][column] == Empty
    requires 1 <= g <= s[row][column]
    ensures TryDigits(b, row, column, g).Some?
    decreases ZeroCount(b), 0, Size + 1 - g
  {
    assert s[row][column] <= Size;
    if Attempt(b, row, column, g).Some? {
      assert TryDigits(b, row, column, g) == Attempt(b, row, column, g);
    } else {
      assert TryDigits(b, row, column, g) == TryDigits(b, row, column, g + 1);
      if g == s[row][column] {
        AttemptComplete(b, s, row, column);
        assert false;
      } else {
        TryDigitsComplete(b, s, row, column, g + 1);
      }
    }
  }

  /** The digit a solution holds for the cell passes the test and leads to a successful search. */
  lemma {:induction false} AttemptComplete(b: Board, s: Board, row: int, column: int)
    requires IsGrid(b) && IsSolutionOf(s, b)
    requires 0 <= row < Size && 0 <= column < Size && b[row][column] == Empty
    ensures Attempt(b, row, column, s[row][column]).Some?
    decreases ZeroCount(b), 0, 0
  {
    var g := s[row][column];
    SolutionDigitPasses(b, s, row, column);
    ZeroCountPlace(b, row, column, g);
    SolutionOfPlace(b, s, row, column);
    SearchComplete(Place(b, row, column, g), s);
    assert Attempt(b, row, column, g) == Search(Place(b, row, column, g));
  }

  /**
   * A failed search means the seed has no solution at all; for a seed without
   * duplicates, failure happens exactly when no solution exists.
   */
  lemma SearchFailsOnlyWithoutSolution(b: Board)
    requires IsGrid(b)
    ensures Search(b).None? ==> forall s :: !IsSolutionOf(s, b)
    ensures NoDuplicates(b) ==> (Search(b).None? <==> forall s :: !IsSolutionOf(s, b))
  {
    if Search(b).None? {
      forall s | IsSolutionOf(s, b) ensures false {
        SearchComplete(b, s);
      }
    } else {
      SearchSound(b);
    }
  }
}

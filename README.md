# Backtracking Sudoku solver, modelled in Dafny

The repository holds one brute-force backtracking Sudoku solver copied into
seven languages: Java, Swift (command line), Swift (web service), C++,
Python, Rust and Go. Every copy works on a single 9x9 integer grid in which
0 marks an empty cell. Every copy has the same routines:

- the three presence checks for a row, a column and a 3x3 box;
- the placement test that combines them;
- the row-major scan for the first empty cell;
- `solveSudoku`, which tries the digits 1..9 in ascending order on that
  cell. It writes each candidate that passes the test into the grid and
  recurses, and it resets the cell to 0 when the recursion fails.

The web copy adds two more routines. `checkSudokuData` checks the shape of
the incoming grid and copies it into the global grid. `doSudoku` runs the
check, then the solver, and returns the grid.

The model has four modules:

- `Grid` (grid.dfy) is the grid as a value (`seq<seq<int>>`). It defines the
  presence checks, the placement test, the row-major scan, the
  empty-cell count, and what "completes the seed" and "solves the seed" mean.
- `Backtracking` (backtracking.dfy) is the search as a pure function.
  `Search` takes the first empty cell, and `TryDigits` tries the candidates
  from `g` up to 9. `Attempt` is one candidate: the search below the grid
  with `g` written, if `g` passes the test. The lemmas prove the search
  sound (a result completes the seed, and solves it when the seed has no
  duplicates). They also prove it complete (no result means no solution
  exists).
- `Solver` (solver.dfy) is the imperative program. The class `Sudoku` holds
  the grid as an `array2<int>`, with a ghost value `cells` kept equal to it.
  Each routine is a method on it:
  - the three presence checks and the placement test only read the array;
  - the four copies' variants of the empty-cell scan differ only in what
    they leave in their out-parameters when the grid is full;
  - `Solve` writes and resets cells in place.

  `Solve` is proved to compute `Backtracking.Search` of its entry grid. On
  failure it restores the entry grid exactly. The recursion measure is the
  number of empty cells, which drops by exactly one per level.
- `Service` (service.dfy) models the web copy's `checkSudokuData` and
  `doSudoku` as written. A corrected `doSudoku` sits beside it (see
  Findings).

All seven copies run the same solver. There is one `Solve`, and it calls
the Swift/Rust form of the scan. On success every scan variant yields the
same cell, and each variant's contract states that.

## Model

| member | source | states |
|---|---|---|
| Grid.BoxStart | java/Djcv_sudoku.java:125 | the start `x - x % 3` passed to the box check is a multiple of 3 in 0..6 and lies within 3 of `x`, so the box check reads only indices 0..8; being at least 0, it cannot underflow in the Rust copy's `usize` |
| Grid.BandOfBoxStart | c++/djcv-sudoku.cpp:145 | an index lies in the three rows (or columns) starting at `x - x % 3` iff it is in the same band of three as `x` |
| Grid.BoxHasAligned | swift/djcv-sudoku/djcv-sudoku/main.swift:82-92 | the box check at the aligned start reports exactly whether `g` occurs in a cell of the same box as (row, column) |
| Grid.CanPlaceExactly | java/Djcv_sudoku.java:121-126 | the placement test holds iff no cell sharing a row, a column or a box with (row, column) holds `g` |
| Grid.PlaceUndo | java/Djcv_sudoku.java:159-166 | writing a digit into an empty cell and then resetting it to 0 gives back the grid |
| Grid.PlaceKeepsNoDuplicates | go/djcv-sudoku.go:158-160 | a digit that passes the placement test, written into an empty cell, keeps a duplicate-free grid duplicate-free |
| Grid.FirstEmptyFrom | swift/djcv-sudoku/djcv-sudoku/main.swift:118-129 | the scan from (r, c) returns an empty cell at or after (r, c), and every cell between (r, c) and it, or every cell from (r, c) on when it finds none, is non-zero |
| Grid.FirstEmpty | swift/djcv-sudoku/djcv-sudoku/main.swift:118-129 | the scan finds nothing iff the grid is full, and it returns (r, c) iff (r, c) is the first empty cell in row-major order |
| Grid.ZeroCountPlace | java/Djcv_sudoku.java:161-162 | writing a digit into an empty cell leaves exactly one empty cell fewer, so each recursive call starts with one empty cell fewer than its caller |
| Grid.ZeroCountBound | pyhton/djcv-sudoku.py:158-164 | a grid has at most 81 empty cells, which bounds the recursion depth |
| Backtracking.SearchWhenFull | java/Djcv_sudoku.java:149-151 | on a full grid the search succeeds and returns the grid unchanged |
| Backtracking.SearchAtFirstEmpty | java/Djcv_sudoku.java:149-157 | on a grid that is not full, the search is the candidate loop at the first empty cell, starting from 1 |
| Backtracking.SearchSound | swift/djcv-sudoku/djcv-sudoku/main.swift:140-165 | a successful search returns a full grid that keeps every seed value and holds a digit 1..9 in every cell that was empty; for a duplicate-free seed the result is a solved Sudoku |
| Backtracking.TryDigitsSound | c++/djcv-sudoku.cpp:156-166 | the same for the candidates g..9 at one empty cell |
| Backtracking.AttemptSound | c++/djcv-sudoku.cpp:158-162 | the same for one candidate: it is written only if it passes the placement test, so no duplicate is introduced |
| Backtracking.CompletesThroughPlace | rust/djcv-sudoku/src/main.rs:202-212 | a completion of the grid with one digit written into an empty cell is a completion of the grid |
| Backtracking.SolutionDigitPasses | go/djcv-sudoku.go:156-160 | the digit a solution holds for an empty cell passes the placement test |
| Backtracking.SolutionOfPlace | go/djcv-sudoku.go:160-166 | a solution of the grid is still a solution once its digit for an empty cell is written into the grid |
| Backtracking.SearchComplete | java/Djcv_sudoku.java:145-169 | when the seed has a solution the search does not fail |
| Backtracking.TryDigitsComplete | java/Djcv_sudoku.java:157-166 | at an empty cell, the candidate loop from any g up to the solution's digit does not fail |
| Backtracking.AttemptComplete | java/Djcv_sudoku.java:159-163 | the solution's own digit passes the test and its recursive search succeeds |
| Backtracking.SearchFailsOnlyWithoutSolution | wSudoku/Sources/App/doSudoku.swift:205-211 | a failed search ("No solution exists") means that no solution exists; for a duplicate-free seed the search fails iff no solution exists |
| Solver.Sudoku.constructor | wSudoku/Sources/App/doSudoku.swift:59 | the grid starts as 9x9 and holds 0 in every cell |
| Solver.Sudoku.PresentInColumn | java/Djcv_sudoku.java:64-71 | true iff some row r in 0..8 holds `guess` in the column (the same loop in every copy); reads only |
| Solver.Sudoku.PresentInRow | java/Djcv_sudoku.java:74-82 | true iff some column c in 0..8 holds `guess` in the row (the same loop in every copy); reads only |
| Solver.Sudoku.PresentInBox | java/Djcv_sudoku.java:85-95 | for a start in 0..6, true iff `guess` occurs in the 3x3 block starting there; only indices 0..8 are read (the same nested loop in every copy) |
| Solver.Sudoku.ValidInCell | java/Djcv_sudoku.java:121-126 | true iff `guess` is absent from the cell's row, its column and its aligned box `row - row % 3`, `column - column % 3`; reads the grid and writes nothing (the same conjunction in every copy) |
| Solver.Sudoku.FindEmptyCell | swift/djcv-sudoku/djcv-sudoku/main.swift:118-129 | true iff some cell is 0, and then (row, column) is the first empty cell in row-major order; on false the in-out coordinates come back as they went in; the grid is not written (the Rust `find_empty_cell` with `&mut usize` is the same) |
| Solver.Sudoku.FindEmptyCellByCounters | c++/djcv-sudoku.cpp:130-137 | the pointer out-parameters are the loop counters: on true they name the first empty cell in row-major order, on false (grid full) both are 9 (the Go copy loops on its pointers the same way) |
| Solver.Sudoku.FindEmptyCellOrLast | pyhton/djcv-sudoku.py:130-142 | on True the first empty cell in row-major order is written into `position`; on False (grid full) `position` receives the loop variables' last values, (8, 8) |
| Solver.Sudoku.FindEmptyCellFrom | java/Djcv_sudoku.java:130-142 | both loops start from the incoming coordinates, and the inner one restarts at `coordinates[1]` on every row; the result is the first empty cell of that rectangle, with the coordinates untouched when there is none; from (0, 0), as `solveSudoku` calls it, true iff some cell is 0, and then the first empty cell of the grid |
| Solver.Sudoku.SetCell | java/Djcv_sudoku.java:161 | one assignment to the grid changes that cell and no other |
| Solver.Sudoku.Solve | java/Djcv_sudoku.java:145-169 | the result is true iff the reference search succeeds, and the grid is then its result: full, seed values kept, every empty cell holding a digit 1..9, solved when the seed has no duplicates; on false the grid equals its entry state and the entry grid has no solution (every copy's `solveSudoku` has this shape) |
| Solver.Sudoku.TryCandidates | swift/djcv-sudoku/djcv-sudoku/main.swift:148-164 | the loop over 1..9 ascending at the first empty cell ends with the reference candidate loop's result, or restores the grid when every candidate fails |
| Solver.Sudoku.TryGuess | swift/djcv-sudoku/djcv-sudoku/main.swift:150-162 | one candidate: if it passes the test it is written and the search recurses (one empty cell fewer); the outcome is the reference step `Attempt`, and on failure the cell is reset to 0 so the grid is its entry state |
| Service.FirstShortRow | wSudoku/Sources/App/doSudoku.swift:175-178 | the first row of the loop's range with a length other than 9, or the bound when all have length 9 |
| Service.Overlay | wSudoku/Sources/App/doSudoku.swift:181-183 | each cell in the copied rows and columns holds the request's value, with no range check; every other cell keeps the old grid's value |
| Service.CheckSudokuData | wSudoku/Sources/App/doSudoku.swift:168-188 | true iff there are 9 rows and every row the loop visits (0..7 as written) has 9 entries; the global grid then holds the copy `Ingested`: nothing on a wrong row count, and the rows before the first short row when one is found |
| Service.GridContents | wSudoku/Sources/App/doSudoku.swift:212 | the returned value is the global grid's contents |
| Service.DoSudoku | wSudoku/Sources/App/doSudoku.swift:195-213 | throws `invalidData` iff `checkSudokuData` returns false; otherwise returns the global grid after `solveSudoku`: the search result of the ingested grid, or that grid itself when the search fails |
| Service.AcceptedCopiesSquare | wSudoku/Sources/App/doSudoku.swift:175-185 | when the check succeeds, every row before the bound is copied in its first `bound` columns |
| Service.RejectedKeepsPartialCopy | wSudoku/Sources/App/doSudoku.swift:175-178 | when row k is short, the check fails and the rows before k have already been copied into the global grid, while rows k..8 keep their old values |
| Service.LastRowAndColumnNotCopied | wSudoku/Sources/App/doSudoku.swift:181-182 | after an accepted request, row 8 and column 8 of the global grid keep whatever an earlier request left there |
| Service.ShortLastRowAccepted | wSudoku/Sources/App/doSudoku.swift:175-177 | a nine-row grid whose last row is empty is not a 9x9 grid, yet the check accepts it |
| Service.StaleCornerSurvives | wSudoku/Sources/App/doSudoku.swift:181-182 | a complete 9x9 request to a grid holding another value at (8, 8) is accepted and does not arrive intact |
| Service.AcceptsAllRows | wSudoku/Sources/App/doSudoku.swift:171-178 | with the loop over all nine rows, the check accepts exactly the 9x9 grids |
| Service.IngestedAllRows | wSudoku/Sources/App/doSudoku.swift:175-183 | with both loops over all nine indices, an accepted grid is copied whole, whatever the global grid held before |
| Service.DoSudokuCorrected | wSudoku/Sources/App/doSudoku.swift:195-213 | throws iff the data is not a 9x9 grid; otherwise the result is the search result of the data itself, or the data when the search fails |

## Left out

- File readers (`readFileToSudokuGrid`, `read_file_to_sudoku_grid`): file I/O and library integer parsing, whose errors are swallowed, panic or exit. The grid reaches the model as a value.
- `printSudokuGrid` / `print_sudoku_grid`, the console messages in `doSudoku`, and every `main`: console output, argument-count checks and exit codes.
- The Vapor glue: wSudoku/Sources/App/routes.swift (JSON decode and encode, route registration) and wSudoku/Sources/App/configure.swift (host and port). Note that routes.swift reports `sucess = true` whenever `doSudoku` returns, including when the search fails and the unsolved grid comes back. Only a thrown `invalidData` gives `sucess = false` with a zero grid. The model covers `doSudoku`'s return and throw, not this mapping.
- The global or instance grid of each copy, Rust's `static mut` with `unsafe`, and concurrent requests sharing the web copy's global grid. The grid is one object, and each method says what it may change. The persistence of the grid across requests appears only as the `old` grid that `Service.CheckSudokuData` starts from.
- Value ranges: no copy checks that a cell value lies in 0..9, and neither does the model. A seed may hold any integer. The soundness lemmas need no range assumption, because they speak of seed values kept and of empty cells filled with 1..9. The header comment of wSudoku/Sources/App/doSudoku.swift describes each line as numbers from 0 to 9, but no code enforces it. The model follows the code.
- Integer widths: row, column and digit values stay within 0..9, so the ints, `usize` values and pointers of the copies are modelled as unbounded `int` with no loss.
- Solver.Sudoku.Solve: the solver calls the in-out-coordinate form of the scan (Swift, Rust). The Java, C++, Go and Python forms give the same cell on success, and their own contracts state that, but the model does not re-run `Solve` with each of them.

## Findings

| source | as written | input that shows it | evidently intended | confidence | as-written member | corrected member |
|---|---|---|---|---|---|---|
| wSudoku/Sources/App/doSudoku.swift:175-182 | both loops of `checkSudokuData` run to `numberMaxCells - 1`, so the length of row 8 is never checked, and row 8 and column 8 are never copied into the global grid | nine rows whose last row is empty are accepted (`ShortLastRow`). A complete 9x9 request sent to a grid that still holds an earlier request's value at (8, 8) is solved with that stale value in place of the request's own | check and copy all nine rows and columns, so that an accepted request is a 9x9 grid and is copied whole | not executed | Service.ShortLastRowAccepted, Service.StaleCornerSurvives | Service.DoSudokuCorrected, Service.IngestedAllRows |

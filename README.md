# Backtracking Sudoku solver, modelled in Dafny

This project models the solver of a desktop Sudoku program (`SudokuSolver.java`).
The solver fills a 9x9 `int` board in place. A 0 marks an empty cell.

- `isSafe(board, row, col, num)` scans the whole row, the whole column and the
  3x3 box of the target cell for `num`. The target cell is part of the scan.
- `solveSudokuRecursive` is a depth-first search over the 81 cells in
  row-major order. It skips filled cells. At an empty cell it tries the digits
  1..9 in ascending order: it writes each safe digit, recurses, keeps the
  first success and writes 0 back after a failed branch.
- `solveSudoku` starts the search at (0, 0).
- `isSudokuSolved` reports whether no cell is 0.

The model has two modules:

- `SudokuRules` (SudokuRules.dfy) holds the rules of the puzzle on an immutable 9x9
  snapshot `Grid`. It has ghost predicates for the three scans of `isSafe`
  (`InRow`, `InCol`, `InBox`, `Safe`), for peers and clashes (`Peer`, `Absent`,
  `NoClash`, `Consistent`), for fullness (`Full`) and for valid solutions that
  keep the givens (`Solved`, `Extends`, `HasSolution`). It also holds the
  lemmas about them.
- `SudokuSolver` (SudokuSolver.dfy) holds the solver's methods. They work on an
  `array2<int>` board and are specified through `Cells(board)`, the board's
  current contents as a `Grid`. `IsSafe` and `IsSudokuSolved` keep the
  source's nested loops and early returns. `SolveSudokuRecursive` keeps the
  in-place writes, the ascending `for` loop over digits, the undo to 0 and
  the recursion on the next cell. It terminates on the measure
  `81 - (9*row + col)`.

What the search is proved to do, at every level of recursion (`Outcome`):

- It never changes a cell that was non-zero on entry, and never a cell before
  its start position.
- A failure leaves the board exactly as it was on entry.
- A success leaves no empty cell from the start position on. Every cell that
  was empty now holds a digit 1..9 that no cell in its row, column or box
  repeats.
- A board already full from the start position succeeds without changing anything.
- A failure means that no valid solution keeps the givens. The search is
  complete.

`SolveSudoku` states the same from (0, 0). It also states that when the givens
are in range and do not clash with each other, the search succeeds exactly when
a solution exists, and that success leaves a valid solution. Its lemmas then
show that every row, column and box of a valid solution holds each digit 1..9.

The search never checks the givens against each other. It only checks each
digit it places. So "a board whose givens clash is reported unsolvable" is not
what the code does: if the empty cells can be filled without clashing with
anything, the search succeeds and the clashing givens stay on the board. The
model follows the code. Its validity guarantee has the hypothesis that the
givens are consistent, and its per-cell guarantee speaks only of the cells the
search filled in.

## Model

| member | source | states |
|---|---|---|
| `SudokuRules.BoxStart` | SudokuSolver.java:49-52 | `r - r % 3` lies in 0..6, is a multiple of 3, and its 3 rows are exactly the rows `i` with `i / 3 == r / 3`; so the box lies inside the board |
| `SudokuSolver.IsSafe` | SudokuSolver.java:41-59 | the loops return true exactly when `num` is in none of: the row, the column, the box (`Safe`) |
| `SudokuRules.SafeIff` | SudokuSolver.java:43-58 | `Safe` holds iff the target cell does not hold `num` and no peer holds `num` (both directions) |
| `SudokuRules.SafeRejectsOwnValue` | SudokuSolver.java:43-54 | asked about the value a cell already holds, `isSafe` is always false, because the scans include the target cell |
| `SudokuRules.SafeOnEmptyCell` | SudokuSolver.java:41-59 | on an empty target cell, `isSafe` is true iff `num != 0` and no cell of the row, column or box holds `num` |
| `SudokuRules.PlaceKeepsConsistent` | SudokuSolver.java:26-27 | writing a safe digit into an empty cell keeps a clash-free board clash-free |
| `SudokuSolver.IsSudokuSolved` | SudokuSolver.java:60-69 | the loops return true exactly when no cell is 0 (`Full`) |
| `SudokuRules.FullDoesNotMeanSolved` | SudokuSolver.java:60-69 | some full board has clashing cells, so `isSudokuSolved` does not check validity |
| `SudokuSolver.SolveSudoku` | SudokuSolver.java:9-11 | givens unchanged; failure restores the board; success leaves a full board whose filled cells clash with nothing; failure means no solution; with consistent givens, success iff a solution exists, and success yields a valid solution |
| `SudokuSolver.SolveSudokuRecursive` | SudokuSolver.java:13-39 | `Outcome` from position `9*row+col`: earlier cells and givens unchanged, failure restores the board, success fills every later empty cell with a non-clashing digit, full board succeeds, failure means no solution |
| `SudokuSolver.SkipGiven` | SudokuSolver.java:18-23 | skipping a filled cell moves the search's promise from the next position back to this one |
| `SudokuSolver.PlacementFills` | SudokuSolver.java:25-32 | a safe digit placed in an empty cell, followed by a successful search from the next cell, fills everything from this cell, the placed digit clashing with nothing |
| `SudokuRules.SolutionDigitIsSafe` | SudokuSolver.java:25-31 | the digit a solution keeping the givens puts in an empty cell passes `isSafe` there |
| `SudokuRules.UnsafeDigitHasNoSolution` | SudokuSolver.java:25-26 | no solution keeps a digit that `isSafe` rejects, so skipping it loses no solution |
| `SudokuRules.SolutionSplits` | SudokuSolver.java:25-38 | a board with an empty cell has a solution iff some digit 1..9 placed in that cell leaves a board that has one |
| `SudokuRules.CompletionIsSolution` | SudokuSolver.java:14-31 | consistent givens in range, kept, with every empty cell filled by a non-clashing digit, form a valid full solution |
| `SudokuRules.SolvedRowHoldsEveryDigit` | SudokuSolver.java:43-46 | each row of a valid solution holds every digit 1..9 |
| `SudokuRules.SolvedColHoldsEveryDigit` | SudokuSolver.java:43-46 | each column of a valid solution holds every digit 1..9 |
| `SudokuRules.SolvedBoxHoldsEveryDigit` | SudokuSolver.java:49-57 | each 3x3 box of a valid solution holds every digit 1..9 |
| `SudokuRules.LoneDigitReportedUnsafe` | SudokuVisualizer.java:155-166 | a board holding only a 5 in its corner: that 5 clashes with nothing, yet `isSafe` on it is false |
| `SudokuRules.SafeIgnoringSelfIsNoClash` | SudokuVisualizer.java:155-166 | the corrected check, which scans a filled cell's peers only, is true exactly when the cell's digit clashes with nothing |

## Left out

- The `visualizer.updateBoard` callbacks and the `delay` sleeps after each write and each undo (SudokuSolver.java:28-29, 34-35, 71-77) are left out. They call into the user interface and the clock. `updateBoard` reads the board (SudokuVisualizer.java:159, 163, 173) but never writes to it, and `delay` does not touch it. The snapshots they send to the window are not modelled.
- The `SudokuSolver` constructor and its `visualizer` field (SudokuSolver.java:3-7) are left out. The callback was their only use.
- Thread interruption inside `delay` is left out: it is concurrency in the user interface.
- `SudokuVisualizer.java` is not part of this model: the window, the text fields, the colours and blinking, the key listeners, `generateRandomBoard` with its random source, and the background worker with its completion dialog. Only its two calls of `isSafe` on filled cells are studied, under Findings.
- Java's `int[][]` can be jagged or null, and a row or column outside 0..8 makes it throw. The model takes a 9x9 `array2<int>` and positions in range, as every caller in the program supplies.
- No integer arithmetic in the solver can overflow 32 bits (positions stay below 81, digits below 10), so Java's `int` is modelled as `int`.
- SudokuSolver.SolveSudokuRecursive: it is not proved that the solution found is the first one in row-major, ascending-digit order. The recursion and the ascending loop do have that order, but only success, soundness and completeness are stated.
- SudokuSolver.SolveSudokuRecursive: it does not state that each digit was safe against the board at the moment it was written: there is no trace of intermediate boards. It states instead that every digit it wrote clashes with no cell of the final board, which is what that per-step check guarantees once the search succeeds.

## Findings

| source | as written | input that shows it | evidently intended | confidence | as-written member | corrected member |
|---|---|---|---|---|---|---|
| SudokuVisualizer.java:163 | `updateBoard` colours a changed cell green when `isSafe(board, row, col, board[row][col])` holds. The key listener does the same with the typed value (SudokuVisualizer.java:66-67). Both scans include the cell itself, so the check is always false and the "correct" branch cannot run. | a board holding only a 5 at (0, 0): `isSafe(board, 0, 0, 5)` is false | check the cell's digit against the other cells of its row, column and box | high; not executed | `SudokuRules.LoneDigitReportedUnsafe` | `SudokuRules.SafeIgnoringSelfIsNoClash` |

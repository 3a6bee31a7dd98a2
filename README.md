# Backtracking Sudoku solver, modelled in Dafny

The repository solves a 9x9 Sudoku by depth-first backtracking. The board is
a 9x9 grid of integers in which 0 marks an empty cell. `solve_sudoku`
does the following:

- It looks for the first empty cell in row-major order (`find_empty`).
- It tries the digits 1..9 there in ascending order.
- It writes each digit that `check_if_safe` accepts. That check combines
  `in_row`, `in_col` and `in_box` on the 3x3 box anchored at
  `(row - row % 3, col - col % 3)`.
- It recurses. When the recursion fails, it writes 0 back.

`get_board` returns the same grid, now solved, or raises `ValueError`.

There are three modules, one per file.

- `board.dfy`, module `Board`, holds the board as a value (`Grid = seq<seq<int>>`):
  - the row, column and box scans as predicates;
  - the first-empty-cell scan;
  - the board invariants: no duplicate among peers, a completion that keeps the givens, and a valid solved board;
  - the count of empty cells that makes the search terminate;
  - the pigeonhole argument that a valid board holds exactly the digits 1..9 in every row, column and box.
- `search.dfy`, module `Backtracking`, holds the search as a pure function:
  - `Solve` and `TryDigits` return the board the search ends with, or `None`;
  - Soundness lemmas: success yields a completion, and a consistent input stays consistent.
  - Completeness lemmas: failure means no valid board keeps the givens.
- `solver.dfy`, module `Solver`, holds the repository's own functions as methods on a 9x9 `array2<int>`:
  - The loops run over the array, find_empty writes into its two-element out-list (`array<int>`), and solve_sudoku writes trial digits into the grid in place and undoes them.
  - `Snapshot(grid)` is the board value the array holds.
  - Each method is proved against the `Board` and `Backtracking` definitions. `SolveSudoku` leaves exactly `Solve(old(Snapshot(grid)))` behind and restores the grid on failure.
  - `GetBoard` states what get_board promises directly.

`get_board`'s `ValueError` becomes `Failure(ValueError)` of a `Result`.
`Main.py` lines 1-82 are the same text as `Solver.py` lines 1-82. The
model covers both, and the table cites `Solver.py`.

## Model

| member | source | states |
|---|---|---|
| Board.Place | Solver.py:72 | the assignment `grid[row][col] = v` changes cell (row, col) to v and leaves every other cell as it was |
| Board.PlaceUndo | Solver.py:72-79 | writing 0 back after a trial digit in an empty cell gives back the board as it was before the trial |
| Board.BoxHasMeaning | Solver.py:38-51 | the box scan at anchor `(r - r % 3, c - c % 3)` finds num exactly when num sits in some cell of the 3x3 box containing (r, c); only indices 0..8 are read |
| Board.SafeIffNoConflict | Solver.py:47-51 | check_if_safe holds exactly when no cell sharing the row, the column or the box of (r, c) holds num |
| Board.FirstEmpty | Solver.py:11-19 | a found cell is on the board and holds 0 |
| Board.FirstEmptyFromIsFirst | Solver.py:13-19 | the scan from (i, j) finds a cell at or after (i, j) with no empty cell between, and finds nothing only when every cell from (i, j) on is nonzero |
| Board.FirstEmptyIsFirst | Solver.py:11-19 | find_empty finds nothing exactly on a full board; otherwise every cell before the one it finds, in row-major order, is nonzero |
| Board.PlaceKeepsConsistent | Solver.py:70-72 | writing a safe digit into an empty cell of a board with no duplicate among peers keeps it so |
| Board.SafeNecessary | Solver.py:67-72 | the digit a valid completion puts into an empty cell passes check_if_safe there, so the search skips no digit a solution could use |
| Board.PlaceShrinksZeros | Solver.py:60-75 | filling an empty cell with a nonzero digit removes exactly that cell from the set of empty cells |
| Board.PlaceDecrementsZeroCount | Solver.py:60-75 | the number of empty cells drops by exactly one at each recursive call, so the recursion terminates |
| Board.ValidHoldsAllDigits | Solver.py:54-76 | on a full board with every cell in 1..9 and no duplicate among peers, every row, column and box holds exactly {1..9} |
| Backtracking.SolveFullBoard | Solver.py:58-61 | a board without an empty cell is reported solved and returned unchanged, whatever it holds |
| Backtracking.TryDigitsSound | Solver.py:67-82 | a success of the digit loop at an empty cell yields a completion of the board; a consistent board stays consistent |
| Backtracking.SolveSound | Solver.py:54-82 | on success the board has no empty cell, every given is kept, every empty cell holds a digit 1..9, and a consistent input stays consistent |
| Backtracking.TryDigitsComplete | Solver.py:67-82 | when the digit loop fails from digit d on, every valid board keeping the givens has a digit below d at the cell |
| Backtracking.SolveComplete | Solver.py:54-82 | on failure no valid board keeps the givens of the input, for any input |
| Backtracking.SolveDecides | Solver.py:54-82 | for a consistent input in the range 0..9, the search succeeds exactly when a valid completion keeping the givens exists |
| Backtracking.SolvedHoldsAllDigits | Solver.py:54-82 | for a consistent input in the range 0..9, a successful search leaves every row, column and box holding exactly {1..9} |
| Solver.SetCell | Solver.py:72 | the in-place write changes the board value exactly as Place does |
| Solver.FindEmpty | Solver.py:11-19 | returns True exactly when the board has an empty cell, then having written the first one in row-major order into the out-list; on False the out-list is untouched |
| Solver.InRow | Solver.py:22-27 | returns True exactly when num occurs in the row; the grid is not modified |
| Solver.InCol | Solver.py:30-35 | returns True exactly when num occurs in the column; the grid is not modified |
| Solver.InBox | Solver.py:38-44 | returns True exactly when num occurs in the 3x3 block with top-left cell (row, col); every index read lies in 0..8 |
| Solver.CheckIfSafe | Solver.py:47-51 | returns True exactly when num is in neither the row, the column nor the anchored box of (row, col); the grid is not modified |
| Solver.SolveSudoku | Solver.py:54-82 | the outcome is that of Solve on the input; on True the grid holds Solve's board; on False the grid is restored exactly |
| Solver.GetBoard | Solver.py:85-89 | Success returns the same grid, holding exactly the board the search finds (Solve of the input): a completion of the input, and with all digits in every row, column and box for a consistent input in 0..9. Failure is ValueError with the grid restored, and no valid completion exists |

## Left out

- `print_grid` (Solver.py:3-8), the `__main__` blocks and SudokuImage.py: console output and image handling, outside the solver's logic.
- Boards that are not 9x9 lists of integers. Examples are ragged rows, rows shared between positions, and non-integer cells. The model takes a 9x9 `array2<int>`, so Python's negative indices and row aliasing do not arise.
- Values outside 0..9 are accepted as the code accepts them. The guarantees about valid boards hold for inputs in 0..9 without duplicates among peers. For other inputs only the completion and failure properties hold. A full board is reported solved whatever it holds (Backtracking.SolveFullBoard).
- Solver.SolveSudoku: its contract ties the result to Backtracking.Solve. It does not restate the completion and validity properties. Those are the Backtracking lemmas, and Solver.GetBoard states them directly.
- Recursion depth, running time and the interpreter's stack limit are not modelled.

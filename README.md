# Backtracking Sudoku solver, modelled and verified in Dafny

This project models the `SudokuSolver` class of `sudoku_solver.py`: the
depth-first search `solve`, the row-major scan `find_empty` and the digit
check `is_valid`, on a 9x9 board where 0 marks an empty cell
(`GRID_SIZE = 9`, `SUBGRID_SIZE = 3`, `EMPTY_CELL = 0`).

- `board.dfy` (module `Board`): the constants, positions, the board as a
  value (`seq<seq<int>>`), writing one cell (`Place`), the units (row,
  column, 3x3 box), and the predicates the solver is specified by. These
  are `Allowed`, `IsComplete`, `Consistent`, `Completes` and `IsSolutionOf`.
- `sudoku_solver.dfy` (module `SudokuSolver`):
  - `FindEmpty` and `IsValid` are the two read-only helpers, written as
    functions. Lemmas tie them to declarative definitions (`FirstEmpty`,
    `Allowed`).
  - `Search`/`TryDigits` is the search written as a function of the board:
    first empty cell, digits 1..9 in ascending order, first digit whose
    sub-search succeeds.
  - `Solve` is the imperative solver on a `Puzzle` object. It stands for
    the caller's list of lists, which `solve` changes in place. `Solve`
    writes the digit, recurses, and resets the cell to 0 when the branch
    fails, and is proved to return exactly what `Search` returns. On
    failure it leaves the board exactly as it found it.
- `solver_properties.dfy` (module `SolverProperties`): what the search
  guarantees.
  - Soundness: every digit placed differs from every cell of its row,
    column and box. A puzzle whose givens are consistent comes back as a
    consistent completion. When the givens are also digits 1..9, that
    completion is a solved Sudoku.
  - Completeness: failure means that no clash-free (admissible) completion
    exists. A clash-free completion writes digits 1..9 into the empty cells,
    and each digit it writes differs from every other cell of its row,
    column and box.
  - The result is the least clash-free completion in row-major order.
- `sample_boards.dfy` (module `SampleBoards`): concrete boards.
  - The empty board is solved with 1..9 in its first row.
  - A full board of clashing 1s is accepted unchanged, because the solver
    never checks the given cells against each other.
  - A board with one forced cell gets that digit.
  - A board with two 7s in one row has no solution.

Termination of `solve` is proved by the number of empty cells, which every
nested call lowers by one.

## Model

| member | source | states |
|---|---|---|
| Board.Place | sudoku_solver.py:20 | the written cell holds the new value; every other cell is unchanged |
| Board.PlaceUndo | sudoku_solver.py:25 | writing `EMPTY_CELL` back into a cell that was empty restores the board exactly |
| Board.PlaceDecreasesEmptyCount | sudoku_solver.py:20-22 | filling an empty cell with a digit leaves exactly one empty cell fewer, so each nested call of `solve` works on a board with fewer empty cells |
| Board.BoxCorner | sudoku_solver.py:42-44 | the scanned box starts at a cell of the grid, lies inside the grid and contains `pos` |
| Board.BoxIsSquare | sudoku_solver.py:42-44 | the 3x3 square scanned from the corner holds exactly the cells whose box index `(row // 3, col // 3)` is that of `pos` |
| SudokuSolver.ScanFrom | sudoku_solver.py:31 | a cell the scan returns is in the grid, is empty, and comes at or after the start of the scan |
| SudokuSolver.ScanFromFirst | sudoku_solver.py:31 | every cell scanned before the returned one is filled; the scan returns None exactly when every cell from the start on is filled |
| SudokuSolver.FindEmpty | sudoku_solver.py:30-31 | a returned position is in the grid and empty |
| SudokuSolver.FindEmptyFirst | sudoku_solver.py:30-31 | `find_empty` returns the first empty cell in row-major order, and None exactly when the board has no empty cell |
| SudokuSolver.FindEmptyIsFirstEmpty | sudoku_solver.py:30-31 | the scan equals the declarative first empty cell `FirstEmpty` on every board |
| SudokuSolver.Column | sudoku_solver.py:38 | the column generator yields the nine cells of column `col`, top to bottom |
| SudokuSolver.BoxScan | sudoku_solver.py:42-46 | the nested box loops as a row-major scan of the 3x3 square from its corner, with the early return when a cell other than `pos` holds `num`; its contract is stated by `BoxScanNoOther` |
| SudokuSolver.BoxScanNoOther | sudoku_solver.py:43-46 | the nested box loops return True exactly when no cell of the square from the current cell on, other than `pos`, holds `num` |
| SudokuSolver.IsValid | sudoku_solver.py:34-48 | the row and column membership test followed by the box scan; a digit it accepts is not already at `pos`, and its full contract is stated by `IsValidIff` and `IsValidAllowed` |
| SudokuSolver.IsValidIff | sudoku_solver.py:34-48 | `is_valid` holds exactly when `num` is in no cell of the row, in no cell of the column, and in no cell of the box other than `pos` (both directions) |
| SudokuSolver.IsValidAllowed | sudoku_solver.py:34-48 | `is_valid` equals "no cell sharing a unit with `pos` holds `num`": skipping `pos` in the box scan never changes the answer, because the row check already covers `pos` |
| SudokuSolver.Search | sudoku_solver.py:13-27 | the search as a function of the board: the board itself when it has no empty cell, otherwise the digit loop at the first empty cell; the functional model `Solve` is proved against, whose properties are the lemmas below |
| SudokuSolver.TryDigits | sudoku_solver.py:18-27 | the digit loop from digit `num` on: the first digit allowed at the cell whose sub-search succeeds gives the result, None after digit 9 |
| SudokuSolver.TryDigitsStep | sudoku_solver.py:18-25 | one-step unfolding of `TryDigits`, one turn of the digit loop: the first allowed digit whose sub-search succeeds decides the result, otherwise the loop moves on to the next digit; the board written has fewer empty cells |
| SudokuSolver.SolveStep | sudoku_solver.py:18-25 | the same turn as `Solve` performs it, with `IsValid` as the test, and the reset after a failed branch restores the board |
| SudokuSolver.SearchFirstEmpty | sudoku_solver.py:13-16 | one-step unfolding of `Search`: a board with no empty cell is its own result; otherwise the search is the digit loop at the first empty cell |
| SudokuSolver.SolveStart | sudoku_solver.py:13-16 | the same, at the cell `find_empty` returns |
| SudokuSolver.TryDigitsExhausted | sudoku_solver.py:27 | unfolding of `TryDigits` past the last digit: after digit 9 the loop fails |
| SudokuSolver.SearchCompletes | sudoku_solver.py:12-27 | a returned board keeps every filled cell of the input and holds a digit 1..9 in every cell the input left empty |
| SudokuSolver.TryDigitsCompletes | sudoku_solver.py:18-27 | the same for the digit loop from any digit on |
| SudokuSolver.SearchCompleteBoard | sudoku_solver.py:13-15 | a board with no empty cell makes the solver succeed and is left unchanged |
| SudokuSolver.Puzzle.constructor | sudoku_solver.py:100-101 | the board handed to the solver holds the caller's grid |
| SudokuSolver.Puzzle.Set | sudoku_solver.py:20 | writing a cell (also the reset at line 25) changes that one cell of the board in place and nothing else |
| SudokuSolver.Solve | sudoku_solver.py:12-27 | returns True exactly when the search succeeds; on True the board in place is the board the search returns, on False it equals the board at entry |
| SolverProperties.AdmissibleAfterPlace | sudoku_solver.py:19-22 | a completion that keeps clear of clashes after a valid digit is written also keeps clear of them on the board before the write |
| SolverProperties.AdmissibleDigit | sudoku_solver.py:18-22 | every clash-free completion puts at an empty cell a digit 1..9 that passes the validity check there, and stays clash-free once that digit is written |
| SolverProperties.SearchAdmissible | sudoku_solver.py:12-27 | a returned board completes the input, and every digit the solver placed differs from every other cell of its row, column and box |
| SolverProperties.TryDigitsAdmissible | sudoku_solver.py:18-27 | the same for the digit loop from any digit on |
| SolverProperties.SearchLeast | sudoku_solver.py:18-27 | whenever a clash-free completion exists the search succeeds, and its result comes no later than that completion in row-major order with digits compared as numbers |
| SolverProperties.SmallerDigitFirst | sudoku_solver.py:16-20 | a completion with a smaller digit at the first empty cell comes first, because every earlier cell is given |
| SolverProperties.TryDigitsLeast | sudoku_solver.py:18-27 | trying the digits in ascending order reaches a result no later than any clash-free completion whose digit at the cell is not below the current one |
| SolverProperties.SearchFindsAdmissible | sudoku_solver.py:18-27 | the search never fails when a clash-free completion exists |
| SolverProperties.SearchSucceedsIff | sudoku_solver.py:12-27 | on every board, consistent givens or not, the solver succeeds exactly when a clash-free completion exists |
| SolverProperties.SearchSound | sudoku_solver.py:12-27 | when the given cells are consistent, a returned board is a consistent completion of the input: it keeps the givens, writes digits 1..9 into the empty cells, and no filled cell shares a unit with an equal one |
| SolverProperties.SearchSolvesSudoku | sudoku_solver.py:12-27 | when the given cells are consistent and hold only digits 1..9 or 0, a returned board is a solved Sudoku: a consistent completion with a digit 1..9 in every cell |
| SolverProperties.SearchComplete | sudoku_solver.py:18-27 | if the input has a solution, the solver does not fail |
| SolverProperties.ConsistentSearchSucceedsIff | sudoku_solver.py:99-104 | for consistent givens the caller's "No solution exists" is reported exactly when no solution exists |
| SampleBoards.LeastFirstRow | sudoku_solver.py:18-27 | trying digits in ascending order fills an empty first row with 1..9 whenever some clash-free completion does |
| SampleBoards.EmptyBoardFirstRow | sudoku_solver.py:12-27 | on the empty board the solver succeeds with a solved Sudoku whose first row is 1, 2, ..., 9 |
| SampleBoards.FullClashingBoardAccepted | sudoku_solver.py:13-15 | a full board of 1s is not consistent, yet the solver accepts it unchanged |
| SampleBoards.ForcedLastCell | sudoku_solver.py:12-27 | a board whose only empty cell admits one digit comes back with exactly that digit written there |
| SampleBoards.TwoSevensUnsolvable | sudoku_solver.py:18-27 | a board with two 7s in its first row makes the solver fail, although the clash between the two givens is never checked directly |

## Left out

- The `SudokuGUI` class (sudoku_solver.py:50-117) and the `__main__` block (sudoku_solver.py:119-123): tkinter widgets, dialogs and the event loop are I/O. The model does not include them.
- `get_board` (sudoku_solver.py:110-112) turns widget text into integers. The model starts from the grid it produces and requires only the 9x9 shape. Cell values are unconstrained integers, since `solve` does not check them either.
- The board is a list of row lists in the source. Here `Puzzle` holds it as one value, so two rows cannot be the same list object. Aliasing between rows is not modelled.
- `find_empty` uses a generator and `next`, and the box check of `is_valid` uses two nested loops with early returns. Neither keeps state, so both are modelled as recursive scans (`ScanFrom`, `BoxScan`) in the same order.
- Recursion depth and running time are not modelled. Python's recursion limit is far above the 81 levels the search can reach.
- `Search` is ghost. It is the specification `Solve` is proved against, not code of the source.

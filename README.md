# Sudoku backtracking solver, modelled in Dafny

`sudoku_solver.py` solves a 9×9 Sudoku in place. The grid is a list of
nine rows of nine integers, and 0 marks an empty cell. Three functions
make up the solver:

- `find_empty_location` scans the grid row by row, left to right, and
  returns the first cell holding 0, or `None`.
- `is_valid(grid, num, pos)` says whether `num` may go at `pos`: no other
  cell of the same row, column or 3×3 box may hold it. The box is found
  by floor-dividing the coordinates by 3.
- `solve_sudoku` takes the first empty cell and tries the digits 1 to 9 in
  ascending order. For each digit that `is_valid` accepts, it writes the
  digit and recurses. When the recursion fails, it resets the cell to 0.
  It returns `True` at the first success, and `False` once every digit
  has failed.

The model has four modules:

- `Board` (board.dfy) has cell positions, the grid as a value
  (`seq<seq<int>>`), the empty cells, and `Snapshot`, which reads a
  mutable `array2<int>` as a grid value.
- `Rules` (rules.dfy) has the placement rule that `is_valid` checks
  (`Placeable`), an independent reading of it ("no peer holds the
  digit"), and what a solved Sudoku is.
- `Search` (search.dfy) is the backtracking search as pure functions
  (`FirstEmpty`, `Solve`, `TryDigits`). Its lemmas prove:
  - soundness, completeness and the ascending order of the digits;
  - the behaviour on full grids.
- `Solver` (solver.dfy) has the three Python functions as methods over a
  9×9 `array2<int>`.
  - `FindEmptyLocation` and `IsValid` keep the source's nested loops and
    early returns. Each is proved to compute `FirstEmpty` and `Placeable`
    on the array's snapshot.
  - `SolveSudoku` mutates the array in place, as the source does. It is
    proved to return `Solve`'s verdict, to leave `Solve`'s grid in the
    array on success, and to leave the array exactly as it found it on
    failure.

`SolveSudoku` terminates because each recursive call sees one empty cell
fewer: its `decreases` is the number of empty cells.

The code decides every behaviour. Its comment at line 51 calls any grid
without an empty cell "solved", and a grid whose digits clash is such a
grid. The search never compares the givens with each other: it checks a
new digit only against the digits already in the grid. So a full grid
with clashing digits is reported solved and left as it is (`Search.SolveFull`).
A success is a real Sudoku solution only when the givens agree
(`Search.SolveYieldsSolution`).

`if not find` at line 50 is true only for `None`. A found cell, even
`(0, 0)`, is a non-empty tuple and so counts as true. The model's
`Option` keeps that distinction.

## Model

| member | source | states |
|---|---|---|
| Board.Set | sudoku_solver.py:57-62 | writing `v` at `p` changes that cell to `v` and leaves every other cell as it was |
| Board.FillShrinksEmptyCells | sudoku_solver.py:57-59 | filling the chosen empty cell with a digit removes exactly that cell from the empty cells, so the recursive call sees one empty cell fewer |
| Board.SetBackRestores | sudoku_solver.py:62 | resetting the trial cell to 0 gives back exactly the grid before the trial write |
| Board.SetKeepsWellFormed | sudoku_solver.py:57-62 | writing 0 or a digit keeps every cell in 0..9 |
| Rules.Placeable | sudoku_solver.py:21-40 | `is_valid` as a predicate: no other cell of `pos`'s row, column or 3×3 box (found by `// 3`) holds `num`; its meaning is carried by `Rules.PlaceableIffNoPeer` and `Rules.PlaceableIgnoresOwnCell`, and `Solver.IsValid` is proved to compute it |
| Rules.BoxStart | sudoku_solver.py:32-35 | the box scan of row (column) `x` starts at a multiple of 3 no later than `x` and covers `x` within its three rows (columns) |
| Rules.PlaceableIffNoPeer | sudoku_solver.py:21-40 | the three scans of `is_valid` accept `num` exactly when no other cell sharing a row, column or 3×3 box with `pos` holds it (both directions) |
| Rules.PlaceableIgnoresOwnCell | sudoku_solver.py:23-37 | the value currently at `pos` never changes the verdict of `is_valid` |
| Search.FirstEmptyFrom | sudoku_solver.py:6-10 | the row-major scan from `(row, col)`: a cell it returns is in the grid and holds 0; that it is the first such cell is `Search.FirstEmptyFromScans` |
| Search.FirstEmpty | sudoku_solver.py:1-10 | `find_empty_location`: a cell it returns is in the grid and holds 0; that it is the first one, and that `None` means a full grid, are `Search.FirstEmptyIsFirst` and `Search.FirstEmptyUnique` |
| Search.FirstEmptyFromScans | sudoku_solver.py:6-10 | the row-major scan from a cell skips only filled cells, up to the empty cell it returns or to the end of the grid |
| Search.FirstEmptyIsFirst | sudoku_solver.py:1-10 | `find_empty_location` returns an empty cell before which every cell is filled, and returns `None` exactly when no cell is empty |
| Search.FirstEmptyUnique | sudoku_solver.py:1-10 | conversely, an empty cell with only filled cells before it is the cell returned |
| Search.Solve | sudoku_solver.py:42-64 | `solve_sudoku` as a function: a success is a 9×9 grid; its meaning is carried by `Search.SolveSound`, `Search.SolveComplete`, `Search.SolveFull` and `Search.SolveTriesAscending`, and `Solver.SolveSudoku` is proved to compute it |
| Search.TryDigits | sudoku_solver.py:55-64 | the `for num in range(1, 10)` loop from digit `num` on: a success is a 9×9 grid; its meaning is carried by `Search.TryDigitsSound`, `Search.TryDigitsComplete` and `Search.FirstSucceedingDigit` |
| Search.SolveFull | sudoku_solver.py:49-51 | a grid without an empty cell is reported solved and left as it is, even when its digits clash |
| Search.SolveSound | sudoku_solver.py:42-64 | on success the grid is full of digits 1..9, every original non-zero cell keeps its value, and every filled cell clashes with no peer |
| Search.TryDigitsSound | sudoku_solver.py:55-64 | the same soundness for the digit loop started at any digit |
| Search.PlacementKeepsFill | sudoku_solver.py:55-60 | a digit that `is_valid` accepted still clashes with no peer once the recursion has filled the rest of the grid |
| Search.SolveComplete | sudoku_solver.py:42-64 | when some solved Sudoku keeps the givens, the search succeeds |
| Search.TryDigitsComplete | sudoku_solver.py:55-62 | the digit loop succeeds no later than the solution's own digit at the cell |
| Search.SolveFailsOnlyWithoutSolution | sudoku_solver.py:64 | a returned `False` means that no solved Sudoku keeps the givens |
| Search.SolveYieldsSolution | sudoku_solver.py:42-64 | when the givens clash with nothing, a success is a solved Sudoku in every cell, givens included |
| Search.SolveTriesAscending | sudoku_solver.py:55-60 | the digit a success leaves at the first empty cell is accepted by `is_valid`, and its branch gives the overall result; every smaller digit was rejected or led to a failed search |
| Search.FirstSucceedingDigit | sudoku_solver.py:55-60 | the digit loop stops at the first digit that neither `is_valid` rejects nor leads to a failed search |
| Solver.FindEmptyLocation | sudoku_solver.py:1-10 | returns the first empty cell of the array in row-major order: an empty cell with only filled cells before it, or `None` exactly when no cell is 0 |
| Solver.IsValid | sudoku_solver.py:12-40 | returns true exactly when `Placeable` holds of the array's contents; it changes nothing |
| Solver.Assign | sudoku_solver.py:57-62 | the assignment `grid[row][col] = v` changes that one cell |
| Solver.SolveSudoku | sudoku_solver.py:42-64 | the result is `Solve`'s verdict on the input. On success the array holds `Solve`'s grid: full, givens kept, and no filled cell clashes. On failure the array is exactly the input, and no solved Sudoku keeps its givens. A full input is reported solved and left unchanged |

## Left out

- `print_grid` (sudoku_solver.py:66-81) is console output only.
- The example grid and the driver prints (sudoku_solver.py:83-103) are a
  script run with console output. The model does not compute the
  solution of that grid.
- Malformed input is excluded by the types and preconditions:
  - a grid that is not 9×9 or has ragged rows cannot be an `array2<int>`
    of 9 by 9;
  - values outside 0..9 are excluded by the `WellFormed` precondition of
    `SolveSudoku`.
  `FindEmptyLocation` and `IsValid` accept any integers, as the source
  does.
- Running time and the size of the search tree are not modelled.
- Python lists of rows can share a row object; an `array2<int>` cannot,
  so aliasing between rows is not modelled.

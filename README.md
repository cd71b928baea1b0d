# Sudoku puzzle engine, modelled in Dafny

This project models the puzzle engine of a small C++ Sudoku solver: the
`Sudoku` class. The class holds a 9x9 grid of `int`s in which `NO_VALUE` (0)
marks an empty cell. Its operations are:

- a constructor that blanks the grid;
- the three constraint checks (row, column, 3x3 box), combined by
  `isValidElement`;
- the recursive backtracking solver `solvePuzzle` and its entry point
  `solve`;
- the cell-by-cell comparison `equals`;
- the fixed-format text printer `operator<<`.

The model has four modules:

- `SudokuRules` (`Rules.dfy`): the constants, the value `Board` of a grid and
  the checks as predicates, written the way the source scans. It also gives
  an independent reading of the rules: the peers of a cell, meaning the other
  cells that share its row, its column or its box. Finally it defines the
  grid properties the solver is judged by: consistent, complete, extends,
  solution, and row-major lexicographic order.
- `Backtracking` (`Backtracking.dfy`): the search as a pure function.
  - `Search` is the recursion over positions and `TryDigits` is the loop over
    candidate digits.
  - The lemmas prove what the search may change, that it is sound and
    complete, and that it finds the first completion in the search order.
  - They also prove that givens are never checked, and that the empty puzzle
    is solved with a first row reading 1, 2, ..., 9. The steps of that last
    result are `Pattern` (one explicit solved grid), `PatternNoClash`,
    `PatternSolvesEmpty` and `LeastFirstRow`.
- `Rendering` (`Rendering.dfy`): the text printed for a grid.
  - It is defined the way the printer builds it, one cell and one row at a
    time.
  - Lemmas give its layout: fixed length, the offsets of cells, separators
    and rule lines.
  - A reader reads a grid back from that text, which proves the layout loses
    nothing.
- `SudokuEngine` (`Sudoku.dfy`): the class `Sudoku`.
  - Its grid is an `array2<int>`, updated in place.
  - A ghost field `cells` holds the grid's value, and `Valid()` ties the two
    together.
  - Every method is proved against the functions above. `SolvePuzzle` writes
    and clears cells in place and is shown to compute exactly `Search`: on
    success it leaves the grid `Search` returns, and on failure it restores
    the grid exactly.

The checks compare a candidate with every other cell of its row, column and
box, empty cells included. An empty cell never matches, because candidates are
1..9. The source never checks the givens themselves, so the model does not
either. As a result, a full grid
whose givens break the rules is reported solved (`ConflictingGivensAccepted`).
The soundness results therefore require givens that are digits and consistent.
This follows the code. The header's comment promises that `solve` reports
whether the puzzle is solvable. For such an input the code returns true,
although no valid completion exists.

## Model

| member | source | states |
|---|---|---|
| SudokuEngine.Sudoku.constructor | src/Sudoku.cpp:12-19 | a new puzzle has all 81 cells equal to NO_VALUE, in a fresh 9x9 array |
| SudokuEngine.Sudoku.Solve | src/Sudoku.cpp:47-50 | reports whether the search from (0, 0) succeeds and leaves its grid; on success the grid is complete and keeps every given; with consistent givens it is consistent; it succeeds whenever a valid completion exists and then leaves a valid completion, and its result comes no later in row-major, ascending-digit order than any valid completion |
| SudokuEngine.Sudoku.SolvePuzzle | src/Sudoku.cpp:194-222 | the recursive solver from (row, col) returns exactly whether `Search` succeeds, leaves the grid `Search` computes on success and restores the grid exactly on failure |
| SudokuEngine.Sudoku.TryCandidates | src/Sudoku.cpp:212-221 | the loop over digits 1..9 at an empty cell computes `TryDigits` from digit 1 and restores the grid on failure |
| SudokuEngine.Sudoku.SetCell | src/Sudoku.cpp:214 | writing one cell changes that cell of the grid's value and nothing else |
| SudokuEngine.Sudoku.IsValidElement | src/Sudoku.cpp:112-116 | true exactly when the row, column and box checks all accept `num`, the box taken from corner (row - row % 3, col - col % 3) |
| SudokuEngine.Sudoku.IsValidBox | src/Sudoku.cpp:128-149 | true exactly when no cell of the 3x3 box at (sRow, sCol), other than (row, col), holds `num`; reads only |
| SudokuEngine.Sudoku.IsValidRow | src/Sudoku.cpp:159-167 | true exactly when no cell of row `row` other than column `col` holds `num`; reads only |
| SudokuEngine.Sudoku.IsValidCol | src/Sudoku.cpp:177-185 | true exactly when no cell of column `col` other than row `row` holds `num`; reads only |
| SudokuEngine.Sudoku.Equals | src/Sudoku.cpp:58-69 | true exactly when all 81 corresponding cells are equal, so exactly when the two grids' values are equal (hence reflexive and symmetric); changes nothing |
| SudokuEngine.Sudoku.Write | src/Sudoku.cpp:78-102 | appends exactly `Render` of the grid to the text written so far |
| SudokuEngine.Sudoku.WriteRow | src/Sudoku.cpp:83-95 | the cell loop of one row appends exactly `RowText` of that row |
| SudokuRules.RowAllows | src/Sudoku.cpp:159-167 | the row check as a predicate: no cell of the row other than column `col` holds `num`; `IsValidRow` is proved equal to it |
| SudokuRules.ColAllows | src/Sudoku.cpp:177-185 | the column check as a predicate: no cell of the column other than row `row` holds `num`; `IsValidCol` is proved equal to it |
| SudokuRules.BoxAllows | src/Sudoku.cpp:128-149 | the box check as a predicate over the 3x3 box at (sRow, sCol), skipping (row, col); `IsValidBox` is proved equal to it |
| SudokuRules.Legal | src/Sudoku.cpp:112-116 | the conjunction of the three checks with the box corner `BoxStart`; `IsValidElement` is proved equal to it, and `LegalIffNoPeer` gives its meaning |
| SudokuRules.Uniform | include/Sudoku.h:17 | the grid with every cell holding one value; with NO_VALUE it is the empty puzzle |
| SudokuRules.Set | src/Sudoku.cpp:214 | overwriting a cell changes that cell and no other |
| SudokuRules.SetThenRestore | src/Sudoku.cpp:214-218 | writing a digit and then writing the old value back gives the grid back unchanged |
| SudokuRules.BoxStart | src/Sudoku.cpp:115 | the corner `i - i % 3` is the start of a 3-wide band inside the grid that contains `i` |
| SudokuRules.BoxBand | src/Sudoku.cpp:138-147 | the band scanned from `BoxStart(i)` is exactly the indices 0..8 with the same `/ 3` as `i` |
| SudokuRules.LegalIffNoPeer | include/Sudoku.h:19-27 | the three checks accept `num` at a cell exactly when no peer of the cell (same row, column or box) holds `num` |
| SudokuRules.ConsistentHasNoRepeats | src/Sudoku.cpp:112-116 | in a consistent grid no filled digit repeats among peers |
| SudokuRules.PlaceKeepsConsistent | src/Sudoku.cpp:213-214 | writing a digit the checks accept into an empty cell of a consistent grid keeps it consistent |
| Backtracking.Search | src/Sudoku.cpp:194-222 | the solver from (row, col) as a value: `Some` of the grid it leaves on success, `None` on failure; `SolvePuzzle` is proved to compute it, and `SearchShape`, `SearchSound`, `SearchComplete` and `SearchFirst` state its properties |
| Backtracking.TryDigits | src/Sudoku.cpp:212-221 | the digit loop at an empty cell as a value; `TryCandidates` is proved to compute it from digit 1, and `TryShape`, `TrySound`, `TryReaches` and `TryFirst` state its properties |
| Backtracking.SearchShape | src/Sudoku.cpp:194-222 | a successful search keeps every given and every cell before its start, writes only digits 1..9 into empty cells, and fills every cell from its start on |
| Backtracking.TryShape | src/Sudoku.cpp:212-220 | a successful digit loop also leaves in its cell a digit at least the one it started from, which passed the checks against the grid when it was written |
| Backtracking.SearchSound | src/Sudoku.cpp:194-222 | from consistent givens, a successful search returns a consistent grid |
| Backtracking.TrySound | src/Sudoku.cpp:212-220 | from a consistent grid, a successful digit loop returns a consistent grid |
| Backtracking.SolutionDigitIsLegal | src/Sudoku.cpp:212-213 | the digit a valid completion puts into an empty cell passes the checks there |
| Backtracking.TryReaches | src/Sudoku.cpp:212-216 | if digit d0 is legal and the search after it succeeds, the digit loop started at or below d0 succeeds |
| Backtracking.SearchComplete | src/Sudoku.cpp:194-222 | if the puzzle has a valid completion, the search from every position succeeds |
| Backtracking.TryFirst | src/Sudoku.cpp:212-216 | the digit loop returns the grid of digit d0's branch unless it found a success with a smaller digit |
| Backtracking.SearchFirst | src/Sudoku.cpp:198-215 | a success comes no later in row-major, ascending-digit order than any valid completion that agrees before the start |
| Backtracking.SolvableIff | include/Sudoku.h:83-88 | with givens that are digits and consistent, the search succeeds exactly when a valid completion exists, and what it returns is one |
| Backtracking.SolutionGivens | include/Sudoku.h:83-88 | givens that some valid completion keeps are digits and break no rule |
| Backtracking.SearchIsFirst | src/Sudoku.cpp:198-215 | when a valid completion exists, the search succeeds, what it returns is a valid completion, and it comes no later in row-major, ascending-digit order than that completion |
| Backtracking.CompleteIsAccepted | src/Sudoku.cpp:198-209 | a grid with no empty cell is returned unchanged, whether or not it breaks the rules |
| Backtracking.ConflictingGivensAccepted | src/Sudoku.cpp:208-209 | a full grid of ones breaks the rules and is still reported solved |
| Backtracking.PatternNoClash | src/Sudoku.cpp:112-116 | two different cells of the explicit solved grid `Pattern` that share a row, a column or a box hold different digits |
| Backtracking.PatternSolvesEmpty | src/Sudoku.cpp:198-215 | the explicit grid `Pattern` is a valid completion of the empty puzzle |
| Backtracking.LeastFirstRow | src/Sudoku.cpp:212-216 | a solved grid that comes no later than one whose first row is 1..9 has that first row |
| Backtracking.EmptyFirstRow | src/Sudoku.cpp:198-215 | the empty puzzle is solved, and its first row reads 1, 2, ..., 9 |
| Rendering.CellText | src/Sudoku.cpp:84-89 | the text of one cell: its number and a blank, or two blanks when empty; `WriteRow` is proved to append it |
| Rendering.Separator | src/Sudoku.cpp:90-94 | what follows cell `col`: a bar and a blank after the third and sixth cells, a newline after the ninth; `WriteRow` is proved to append it |
| Rendering.RowText | src/Sudoku.cpp:83-95 | the text of the first n cells of a row; `WriteRow` is proved to append it for the whole row |
| Rendering.RowsText | src/Sudoku.cpp:82-99 | the text of the first n rows, each followed by the rule line where one belongs; `Write` keeps it as its loop invariant |
| Rendering.Render | src/Sudoku.cpp:78-102 | the text of the whole grid; `Write` is proved to append it, and `RenderLayout`, `RenderSeparators`, `RenderRules` and `ParseRender` state its layout |
| Rendering.IntText | src/Sudoku.cpp:86 | the decimal text of a number; a digit 0..9 is one character |
| Rendering.RowTextLength | src/Sudoku.cpp:83-95 | the first n cells of a row of digits take a fixed number of characters (23 for a whole row) |
| Rendering.RowsTextLength | src/Sudoku.cpp:82-99 | the first n rows of a grid of digits take a fixed number of characters (251 for the whole grid) |
| Rendering.RenderLayout | src/Sudoku.cpp:84-89 | in the text of a grid of digits, each cell shows its digit, or a blank when empty, at a fixed offset, followed by a blank |
| Rendering.RenderSeparators | src/Sudoku.cpp:90-94 | a bar and a blank follow the third and sixth cells of every row, and a newline the ninth |
| Rendering.RenderRules | src/Sudoku.cpp:80-98 | the line "------+-------+------" and a newline follow the third and the sixth rows |
| Rendering.ParseRender | src/Sudoku.cpp:78-102 | reading a grid of digits back from its text gives the grid: the printed layout loses nothing |

## Left out

- `loadFromFile` (src/Sudoku.cpp:26-40) is not modelled. It is file input through a stream and does no checking of what it reads. The model starts from any grid value instead.
- main.cpp is not part of this model. It holds the console prompt, the fixed file paths, the floating-point timing and the result messages.
- `operator<<` writes to an output stream. `Write` models only the text: it takes the text written so far and returns it extended, and stream state and errors are not modelled.
- `std::to_string` is modelled for every `int` (`IntText`). The layout lemmas hold only for grids of digits 0..9, because those print as one character.
- 32-bit `int` is modelled as unbounded `int`. Position arguments stay within 0..9, the array is indexed only at 0..8, and the solver writes only 0..9, so no overflow is reachable in the modelled code.
- `SetCell`, `TryCandidates` and `WriteRow` are factorings of the source. `SetCell` is the assignment `grid[row][col] = ...`, `TryCandidates` is the `for` loop inside `solvePuzzle`, and `WriteRow` is the inner cell loop of `operator<<`. They add no behaviour.
- Solve: it does not state how the grid looks while the search is running. What it promises about writes is stated for the final grid: only empty cells change, and only to digits 1..9. The tried digit passing the checks when written is stated in `TryShape`.

/**
 * The puzzle engine: a 9x9 grid of ints updated in place. The checks and the
 * equality test only read the grid; the solver writes digits into empty cells
 * and clears them again when a branch fails. `cells` is the value of the
 * grid, kept by every method, through which every method is specified.
 */
module SudokuEngine {
  import opened SudokuRules
  import opened Backtracking
  import opened Rendering

  class Sudoku {
    /** The puzzle; NO_VALUE marks an empty cell. */
    const grid: array2<int>
    /** The contents of `grid` as a value. */
    ghost var cells: Board

    ghost predicate Valid()
      reads this, grid
    {
      grid.Length0 == SIZE && grid.Length1 == SIZE
      && forall r, c :: InGrid(r, c) ==> grid[r, c] == cells[r][c]
    }

    /** Creates an empty puzzle: all 81 cells hold NO_VALUE. */
    constructor ()
      ensures Valid() && fresh(grid)
      ensures cells == Uniform(NO_VALUE)
    {
      var g := new int[SIZE, SIZE];
      var row := 0;
      while row < SIZE
        invariant 0 <= row <= SIZE
        invariant forall r, c :: 0 <= r < row && 0 <= c < SIZE ==> g[r, c] == NO_VALUE
      {
        var col := 0;
        while col < SIZE
          invariant 0 <= col <= SIZE
          invariant forall r, c :: 0 <= r < row && 0 <= c < SIZE ==> g[r, c] == NO_VALUE
          invariant forall c :: 0 <= c < col ==> g[row, c] == NO_VALUE
        {
          g[row, col] := NO_VALUE;
          col := col + 1;
        }
        row := row + 1;
      }
      grid := g;
      cells := Uniform(NO_VALUE);
    }

    /** Runs the search from the first cell. */
    method Solve() returns (solved: bool)
      requires Valid()
      modifies this, grid
      ensures Valid()
      ensures solved == Search(old(cells), 0, 0).Some?
      ensures cells == if solved then Search(old(cells), 0, 0).value else old(cells)
      ensures solved ==> Complete(cells) && Extends(old(cells), cells)
      ensures solved && Consistent(old(cells)) ==> Consistent(cells)
      ensures (exists t :: IsSolution(old(cells), t)) ==> solved && IsSolution(old(cells), cells)
      ensures solved ==> forall t :: IsSolution(old(cells), t) ==> LexLeq(cells, t)
    {
      ghost var b := cells;
      solved := SolvePuzzle(0, 0);
      if solved {
        SearchShape(b, 0, 0);
      }
      if solved && Consistent(b) {
        SearchSound(b, 0, 0);
      }
      if exists t :: IsSolution(b, t) {
        var t :| IsSolution(b, t);
        SearchIsFirst(b, t);
      }
      if solved {
        forall t | IsSolution(b, t)
          ensures LexLeq(cells, t)
        {
          SearchIsFirst(b, t);
        }
      }
    }

    /**
     * The recursive search from position (row, col): it reports what `Search`
     * computes, leaves the grid it found on success and restores the grid
     * exactly on failure.
     */
    method SolvePuzzle(row: int, col: int) returns (solved: bool)
      requires Valid() && 0 <= row <= SIZE && 0 <= col <= SIZE
      modifies this, grid
      ensures Valid()
      ensures solved == Search(old(cells), row, col).Some?
      ensures cells == if solved then Search(old(cells), row, col).value else old(cells)
      decreases SIZE - row, SIZE + 1 - col, 1
    {
      if row >= SIZE {
        return true;
      }
      if col >= SIZE {
        solved := SolvePuzzle(row + 1, 0);
        return;
      }
      if grid[row, col] != NO_VALUE {
        solved := SolvePuzzle(row, col + 1);
        return;
      }
      solved := TryCandidates(row, col);
    }

    /**
     * The candidate loop of the search at the empty cell (row, col): each
     * digit 1..9 that passes the checks is written and the search goes on at
     * the next cell; a failure clears the cell again and moves to the next
     * digit. It computes `TryDigits` from digit 1.
     */
    method TryCandidates(row: int, col: int) returns (solved: bool)
      requires Valid() && InGrid(row, col) && cells[row][col] == NO_VALUE
      modifies this, grid
      ensures Valid()
      ensures solved == TryDigits(old(cells), row, col, 1).Some?
      ensures cells == if solved then TryDigits(old(cells), row, col, 1).value else old(cells)
      decreases SIZE - row, SIZE + 1 - col, 0
    {
      ghost var b := cells;
      for i := 1 to SIZE + 1
        invariant Valid() && cells == b
        invariant TryDigits(b, row, col, i) == TryDigits(b, row, col, 1)
      {
        var legal := IsValidElement(row, col, i);
        TryDigitsStep(b, row, col, i);
        if legal {
          SetCell(row, col, i);
          solved := SolvePuzzle(row, col + 1);
          if solved {
            return;
          }
          SetCell(row, col, NO_VALUE);
          SetThenRestore(b, row, col, i);
        }
      }
      return false;
    }

    /** Writes `v` into cell (row, col). */
    method SetCell(row: int, col: int, v: int)
      requires Valid() && InGrid(row, col)
      modifies this, grid
      ensures Valid() && cells == Set(old(cells), row, col, v)
    {
      grid[row, col] := v;
      cells := Set(cells, row, col, v);
    }

    /** Tests `num` at (row, col) against its row, its column and its box. */
    method IsValidElement(row: int, col: int, num: int) returns (valid: bool)
      requires Valid() && InGrid(row, col)
      ensures valid == Legal(cells, row, col, num)
    {
      valid := IsValidRow(row, col, num);
      if valid {
        valid := IsValidCol(row, col, num);
      }
      if valid {
        valid := IsValidBox(row - row % 3, col - col % 3, row, col, num);
      }
    }

    /** Tests `num` against the 3x3 box whose first row is sRow and first column sCol, skipping (row, col). */
    method IsValidBox(sRow: int, sCol: int, row: int, col: int, num: int) returns (valid: bool)
      requires Valid() && 0 <= sRow <= SIZE - 3 && 0 <= sCol <= SIZE - 3
      ensures valid == BoxAllows(cells, sRow, sCol, row, col, num)
    {
      var r, c := sRow, sCol;
      var eRow, eCol, orgCol := sRow + 3, sCol + 3, sCol;
      while r < eRow
        invariant sRow <= r <= eRow && c == sCol
        invariant forall r', c' :: sRow <= r' < r && sCol <= c' < eCol && !(r' == row && c' == col)
                    ==> grid[r', c'] != num
      {
        while c < eCol
          invariant sCol <= c <= eCol
          invariant forall c' :: sCol <= c' < c && !(r == row && c' == col) ==> grid[r, c'] != num
        {
          if grid[r, c] == num && !(r == row && c == col) {
            return false;
          }
          c := c + 1;
        }
        c := orgCol;
        r := r + 1;
      }
      return true;
    }

    /** Tests `num` against the other cells of row `row`. */
    method IsValidRow(row: int, col: int, num: int) returns (valid: bool)
      requires Valid() && 0 <= row < SIZE
      ensures valid == RowAllows(cells, row, col, num)
    {
      for i := 0 to SIZE
        invariant forall j :: 0 <= j < i && j != col ==> grid[row, j] != num
      {
        if num == grid[row, i] && col != i {
          return false;
        }
      }
      return true;
    }

    /** Tests `num` against the other cells of column `col`. */
    method IsValidCol(row: int, col: int, num: int) returns (valid: bool)
      requires Valid() && 0 <= col < SIZE
      ensures valid == ColAllows(cells, row, col, num)
    {
      for i := 0 to SIZE
        invariant forall j :: 0 <= j < i && j != row ==> grid[j, col] != num
      {
        if num == grid[i, col] && row != i {
          return false;
        }
      }
      return true;
    }

    /** Compares the two puzzles cell by cell, stopping at the first difference. */
    method Equals(other: Sudoku) returns (equal: bool)
      requires Valid() && other.Valid()
      ensures equal <==> forall r, c :: InGrid(r, c) ==> grid[r, c] == other.grid[r, c]
      ensures equal <==> cells == other.cells
    {
      equal := true;
      var row := 0;
      while row < SIZE && equal
        invariant 0 <= row <= SIZE
        invariant equal <==> forall r, c :: 0 <= r < row && 0 <= c < SIZE ==> grid[r, c] == other.grid[r, c]
      {
        var col := 0;
        while col < SIZE && equal
          invariant 0 <= col <= SIZE
          invariant equal <==> forall r, c :: InGrid(r, c) && Before(r, c, row, col) ==> grid[r, c] == other.grid[r, c]
        {
          if grid[row, col] != other.grid[row, col] {
            equal := false;
          }
          col := col + 1;
        }
        row := row + 1;
      }
      if equal {
        SameCells(cells, other.cells);
      }
    }

    /** Appends the text of the puzzle to `out`, row by row, each followed by the rule line where one belongs. */
    method Write(out: string) returns (result: string)
      requires Valid()
      ensures result == out + Render(cells)
    {
      var line := RULE;
      result := out;
      for row := 0 to SIZE
        invariant result == out + RowsText(cells, row)
      {
        result := WriteRow(row, result);
        var rule := "";
        if row == 2 || row == 5 {
          rule := line;
        }
        result := result + rule;
        RowsTextAppend(out, cells, row);
      }
    }

    /** Appends the text of row `row` to `out`, cell by cell, each followed by its separator. */
    method WriteRow(row: int, out: string) returns (result: string)
      requires Valid() && 0 <= row < SIZE
      ensures result == out + RowText(cells[row], SIZE)
    {
      result := out;
      for col := 0 to SIZE
        invariant result == out + RowText(cells[row], col)
      {
        var num := grid[row, col];
        var cell, sep;
        if num != NO_VALUE {
          cell := IntText(num) + " ";
        } else {
          cell := "  ";
        }
        if col == 2 || col == 5 {
          sep := "| ";
        } else if col == 8 {
          sep := "\n";
        } else {
          sep := "";
        }
        assert cell == CellText(cells[row][col]) && sep == Separator(col);
        result := result + cell + sep;
        RowTextAppend(out, cells[row], col);
      }
    }
  }
}

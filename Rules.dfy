/**
 * The rules of a 9x9 Sudoku as the solver states them: the grid constants,
 * the value model of a grid, the three constraint checks the search consults
 * (row, column and 3x3 box, each skipping the cell under test) and the
 * properties of whole grids (consistent, complete, extends) that the search
 * is judged by.
 */
module SudokuRules {

  /** Number of rows and columns of the puzzle. */
  const SIZE: int := 9
  /** The value of an empty cell. */
  const NO_VALUE: int := 0

  /** A snapshot of the 9x9 grid: rows of cells, row-major. */
  type Board = b: seq<seq<int>> | |b| == SIZE && forall r :: 0 <= r < SIZE ==> |b[r]| == SIZE
    witness seq(SIZE, r => seq(SIZE, c => NO_VALUE))

  predicate InGrid(r: int, c: int) {
    0 <= r < SIZE && 0 <= c < SIZE
  }

  /** The grid with every cell holding `v`; `Uniform(NO_VALUE)` is the empty puzzle. */
  function Uniform(v: int): (b: Board)
    ensures forall r, c :: InGrid(r, c) ==> b[r][c] == v
  {
    seq(SIZE, r => seq(SIZE, c => v))
  }

  /** The grid `b` with cell (row, col) overwritten by `v`. */
  function Set(b: Board, row: int, col: int, v: int): (b': Board)
    requires InGrid(row, col)
    ensures b'[row][col] == v
    ensures forall r, c :: InGrid(r, c) && !(r == row && c == col) ==> b'[r][c] == b[r][c]
  {
    b[row := b[row][col := v]]
  }

  /** Overwriting a cell and then writing its old value back gives the board back. */
  lemma SetThenRestore(b: Board, row: int, col: int, v: int)
    requires InGrid(row, col)
    ensures Set(Set(b, row, col, v), row, col, b[row][col]) == b
  {
    SameCells(Set(Set(b, row, col, v), row, col, b[row][col]), b);
  }

  /** Two boards that agree on all 81 cells are the same board. */
  lemma SameCells(s: Board, t: Board)
    requires forall r, c :: InGrid(r, c) ==> s[r][c] == t[r][c]
    ensures s == t
  {
    forall r | 0 <= r < SIZE
      ensures s[r] == t[r]
    {
      assert forall c :: 0 <= c < SIZE ==> s[r][c] == t[r][c];
    }
  }

  // ---------------------------------------------------------------------
  // The constraint checks, in the shape the source scans them
  // ---------------------------------------------------------------------

  /** No cell of row `row` other than column `col` holds `num`. */
  predicate RowAllows(b: Board, row: int, col: int, num: int)
    requires 0 <= row < SIZE
  {
    forall i :: 0 <= i < SIZE && i != col ==> b[row][i] != num
  }

  /** No cell of column `col` other than row `row` holds `num`. */
  predicate ColAllows(b: Board, row: int, col: int, num: int)
    requires 0 <= col < SIZE
  {
    forall i :: 0 <= i < SIZE && i != row ==> b[i][col] != num
  }

  /** No cell of the 3x3 box whose top-left corner is (sRow, sCol), other than (row, col), holds `num`. */
  predicate BoxAllows(b: Board, sRow: int, sCol: int, row: int, col: int, num: int)
    requires 0 <= sRow <= SIZE - 3 && 0 <= sCol <= SIZE - 3
  {
    forall r, c :: sRow <= r < sRow + 3 && sCol <= c < sCol + 3 && !(r == row && c == col) ==> b[r][c] != num
  }

  /** First row (or column) of the box holding row (or column) `i`. */
  function BoxStart(i: int): (s: int)
    requires 0 <= i < SIZE
    ensures 0 <= s <= SIZE - 3 && s <= i < s + 3
  {
    i - i % 3
  }

  /** `num` may be placed at (row, col): the conjunction of the three checks. */
  predicate Legal(b: Board, row: int, col: int, num: int)
    requires InGrid(row, col)
  {
    RowAllows(b, row, col, num) && ColAllows(b, row, col, num)
    && BoxAllows(b, BoxStart(row), BoxStart(col), row, col, num)
  }

  // ---------------------------------------------------------------------
  // An independent reading of the rules: the peers of a cell
  // ---------------------------------------------------------------------

  predicate SameBox(r1: int, c1: int, r2: int, c2: int) {
    r1 / 3 == r2 / 3 && c1 / 3 == c2 / 3
  }

  /** Two different cells that share a row, a column or a 3x3 box. */
  predicate Peers(r1: int, c1: int, r2: int, c2: int) {
    !(r1 == r2 && c1 == c2) && (r1 == r2 || c1 == c2 || SameBox(r1, c1, r2, c2))
  }

  /** The box scanned from the corner `BoxStart(i)` is exactly the band of indices sharing `i / 3`. */
  lemma BoxBand(i: int, j: int)
    requires 0 <= i < SIZE
    ensures (BoxStart(i) <= j < BoxStart(i) + 3) <==> (0 <= j < SIZE && j / 3 == i / 3)
  {
    var q := i / 3;
    assert BoxStart(i) == 3 * q;
    if 0 <= j < SIZE && j / 3 == q {
      assert j == 3 * (j / 3) + j % 3;
    }
    if BoxStart(i) <= j < BoxStart(i) + 3 {
      assert 3 * q <= j < 3 * q + 3;
      assert j / 3 == q;
    }
  }

  /**
   * The checks accept `num` at (row, col) exactly when no peer of the cell
   * holds `num`: "num can be inserted onto the grid".
   */
  lemma LegalIffNoPeer(b: Board, row: int, col: int, num: int)
    requires InGrid(row, col)
    ensures Legal(b, row, col, num) <==>
            forall r, c :: InGrid(r, c) && Peers(row, col, r, c) ==> b[r][c] != num
  {
    if Legal(b, row, col, num) {
      forall r, c | InGrid(r, c) && Peers(row, col, r, c)
        ensures b[r][c] != num
      {
        if r != row && c != col {
          BoxBand(row, r);
          BoxBand(col, c);
        }
      }
    }
    if forall r, c :: InGrid(r, c) && Peers(row, col, r, c) ==> b[r][c] != num {
      forall r, c | BoxStart(row) <= r < BoxStart(row) + 3 && BoxStart(col) <= c < BoxStart(col) + 3
                    && !(r == row && c == col)
        ensures b[r][c] != num
      {
        BoxBand(row, r);
        BoxBand(col, c);
        assert Peers(row, col, r, c);
      }
    }
  }

  // ---------------------------------------------------------------------
  // Properties of whole grids
  // ---------------------------------------------------------------------

  /** Every filled cell passes the checks against the rest of the grid. */
  ghost predicate Consistent(b: Board) {
    forall r, c :: InGrid(r, c) && b[r][c] != NO_VALUE ==> Legal(b, r, c, b[r][c])
  }

  /** No cell is empty. */
  ghost predicate Complete(b: Board) {
    forall r, c :: InGrid(r, c) ==> b[r][c] != NO_VALUE
  }

  /** Every cell is empty or a digit 1..9. */
  ghost predicate InRange(b: Board) {
    forall r, c :: InGrid(r, c) ==> 0 <= b[r][c] <= SIZE
  }

  /** `t` keeps every filled cell of `b`. */
  ghost predicate Extends(b: Board, t: Board) {
    forall r, c :: InGrid(r, c) && b[r][c] != NO_VALUE ==> t[r][c] == b[r][c]
  }

  /** `t` differs from `b` only in cells that were empty in `b`, and holds a digit 1..9 there. */
  ghost predicate OnlyFillsEmpty(b: Board, t: Board) {
    forall r, c :: InGrid(r, c) ==> t[r][c] == b[r][c] || (b[r][c] == NO_VALUE && 1 <= t[r][c] <= SIZE)
  }

  /** A solved grid: complete, digits only, no rule broken. */
  ghost predicate Solved(t: Board) {
    Complete(t) && InRange(t) && Consistent(t)
  }

  /** `t` is a valid completion of the puzzle `b`. */
  ghost predicate IsSolution(b: Board, t: Board) {
    Extends(b, t) && Solved(t)
  }

  /** Cell (r, c) comes before position (row, col) in row-major order; (row, SIZE) is (row + 1, 0). */
  predicate Before(r: int, c: int, row: int, col: int) {
    r < row || (r == row && c < col)
  }

  /** `s` and `t` agree on every cell before position (row, col). */
  ghost predicate AgreeBefore(s: Board, t: Board, row: int, col: int) {
    forall r, c :: InGrid(r, c) && Before(r, c, row, col) ==> s[r][c] == t[r][c]
  }

  /** Every cell from position (row, col) on is filled. */
  ghost predicate FilledFrom(s: Board, row: int, col: int) {
    forall r, c :: InGrid(r, c) && !Before(r, c, row, col) ==> s[r][c] != NO_VALUE
  }

  /**
   * `s` comes no later than `t` when both are read cell by cell in row-major
   * order: equal, or smaller at the first cell where they differ.
   */
  ghost predicate LexLeq(s: Board, t: Board) {
    s == t || exists r, c :: InGrid(r, c) && AgreeBefore(s, t, r, c) && s[r][c] < t[r][c]
  }

  /**
   * In a consistent grid no filled digit repeats in a row, a column or a box.
   */
  lemma ConsistentHasNoRepeats(b: Board)
    requires Consistent(b)
    ensures forall r1, c1, r2, c2 ::
              InGrid(r1, c1) && InGrid(r2, c2) && Peers(r1, c1, r2, c2) && b[r1][c1] != NO_VALUE
              ==> b[r1][c1] != b[r2][c2]
  {
    forall r1, c1, r2, c2 | InGrid(r1, c1) && InGrid(r2, c2) && Peers(r1, c1, r2, c2) && b[r1][c1] != NO_VALUE
      ensures b[r1][c1] != b[r2][c2]
    {
      LegalIffNoPeer(b, r1, c1, b[r1][c1]);
    }
  }

  /**
   * Writing a digit that passes the checks into an empty cell of a consistent
   * grid keeps it consistent.
   */
  lemma PlaceKeepsConsistent(b: Board, row: int, col: int, d: int)
    requires InGrid(row, col) && b[row][col] == NO_VALUE && d != NO_VALUE
    requires Consistent(b) && Legal(b, row, col, d)
    ensures Consistent(Set(b, row, col, d))
  {
    var b' := Set(b, row, col, d);
    LegalIffNoPeer(b, row, col, d);
    forall r, c | InGrid(r, c) && b'[r][c] != NO_VALUE
      ensures Legal(b', r, c, b'[r][c])
    {
      LegalIffNoPeer(b', r, c, b'[r][c]);
      if !(r == row && c == col) {
        LegalIffNoPeer(b, r, c, b[r][c]);
        assert Peers(row, col, r, c) <==> Peers(r, c, row, col);
      }
    }
  }
}

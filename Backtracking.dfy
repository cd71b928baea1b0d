/**
 * The backtracking search of the solver, as a function of the grid it starts
 * from. `Search(b, row, col)` is what the recursive solver computes from
 * position (row, col) on: `Some` of the grid it leaves behind when it reports
 * success, `None` when it reports failure (it then leaves the grid as it found
 * it). `TryDigits` is the loop over candidate digits at one empty cell.
 */
module Backtracking {
  import opened SudokuRules

  datatype Option<T> = None | Some(value: T)

  /**
   * The search from position (row, col) in row-major order; column SIZE
   * stands for the start of the next row and row SIZE for the end of the grid.
   */
  function Search(b: Board, row: int, col: int): Option<Board>
    requires 0 <= row <= SIZE && 0 <= col <= SIZE
    decreases SIZE - row, SIZE + 1 - col, SIZE + 1
  {
    if row >= SIZE then Some(b)
    else if col >= SIZE then Search(b, row + 1, 0)
    else if b[row][col] != NO_VALUE then Search(b, row, col + 1)
    else TryDigits(b, row, col, 1)
  }

  /**
   * The candidate loop at the empty cell (row, col), from digit `d` up to
   * SIZE: the first digit that passes the checks and lets the rest of the
   * grid be completed wins.
   */
  function TryDigits(b: Board, row: int, col: int, d: int): Option<Board>
    requires InGrid(row, col) && b[row][col] == NO_VALUE && 1 <= d <= SIZE + 1
    decreases SIZE - row, SIZE + 1 - col, SIZE + 1 - d
  {
    if d > SIZE then None
    else if Legal(b, row, col, d) && Search(Set(b, row, col, d), row, col + 1).Some? then
      Search(Set(b, row, col, d), row, col + 1)
    else TryDigits(b, row, col, d + 1)
  }

  /** One round of the candidate loop: digit `d` either wins or hands over to `d + 1`. */
  lemma TryDigitsStep(b: Board, row: int, col: int, d: int)
    requires InGrid(row, col) && b[row][col] == NO_VALUE && 1 <= d <= SIZE
    ensures Legal(b, row, col, d) && Search(Set(b, row, col, d), row, col + 1).Some? ==>
              TryDigits(b, row, col, d) == Search(Set(b, row, col, d), row, col + 1)
    ensures !(Legal(b, row, col, d) && Search(Set(b, row, col, d), row, col + 1).Some?) ==>
              TryDigits(b, row, col, d) == TryDigits(b, row, col, d + 1)
  {
  }

  // ---------------------------------------------------------------------
  // Shape of a success: what the search may change
  // ---------------------------------------------------------------------

  /**
   * A success keeps every cell before the start and every filled cell, fills
   * every cell from the start on, and writes only digits 1..9.
   */
  lemma {:induction false} SearchShape(b: Board, row: int, col: int)
    requires 0 <= row <= SIZE && 0 <= col <= SIZE && Search(b, row, col).Some?
    ensures OnlyFillsEmpty(b, Search(b, row, col).value) && Extends(b, Search(b, row, col).value)
    ensures AgreeBefore(b, Search(b, row, col).value, row, col) && FilledFrom(Search(b, row, col).value, row, col)
    decreases SIZE - row, SIZE + 1 - col, SIZE + 1
  {
    if row >= SIZE {
    } else if col >= SIZE {
      SearchShape(b, row + 1, 0);
    } else if b[row][col] != NO_VALUE {
      SearchShape(b, row, col + 1);
    } else {
      TryShape(b, row, col, 1);
    }
  }

  /**
   * A success of the candidate loop from digit `d` also leaves in the cell it
   * tried a digit >= d that passed the checks when it was written.
   */
  lemma {:induction false} TryShape(b: Board, row: int, col: int, d: int)
    requires InGrid(row, col) && b[row][col] == NO_VALUE && 1 <= d <= SIZE + 1
    requires TryDigits(b, row, col, d).Some?
    ensures OnlyFillsEmpty(b, TryDigits(b, row, col, d).value) && Extends(b, TryDigits(b, row, col, d).value)
    ensures AgreeBefore(b, TryDigits(b, row, col, d).value, row, col)
    ensures FilledFrom(TryDigits(b, row, col, d).value, row, col)
    ensures d <= TryDigits(b, row, col, d).value[row][col] <= SIZE
    ensures Legal(b, row, col, TryDigits(b, row, col, d).value[row][col])
    decreases SIZE - row, SIZE + 1 - col, SIZE + 1 - d
  {
    if Legal(b, row, col, d) && Search(Set(b, row, col, d), row, col + 1).Some? {
      SearchShape(Set(b, row, col, d), row, col + 1);
    } else {
      TryShape(b, row, col, d + 1);
    }
  }

  // ---------------------------------------------------------------------
  // Soundness: consistent givens give a consistent result
  // ---------------------------------------------------------------------

  lemma {:induction false} SearchSound(b: Board, row: int, col: int)
    requires 0 <= row <= SIZE && 0 <= col <= SIZE
    requires Consistent(b) && Search(b, row, col).Some?
    ensures Consistent(Search(b, row, col).value)
    decreases SIZE - row, SIZE + 1 - col, SIZE + 1
  {
    if row >= SIZE {
    } else if col >= SIZE {
      SearchSound(b, row + 1, 0);
    } else if b[row][col] != NO_VALUE {
      SearchSound(b, row, col + 1);
    } else {
      TrySound(b, row, col, 1);
    }
  }

  lemma {:induction false} TrySound(b: Board, row: int, col: int, d: int)
    requires InGrid(row, col) && b[row][col] == NO_VALUE && 1 <= d <= SIZE + 1
    requires Consistent(b) && TryDigits(b, row, col, d).Some?
    ensures Consistent(TryDigits(b, row, col, d).value)
    decreases SIZE - row, SIZE + 1 - col, SIZE + 1 - d
  {
    if d <= SIZE {
      if Legal(b, row, col, d) && Search(Set(b, row, col, d), row, col + 1).Some? {
        PlaceKeepsConsistent(b, row, col, d);
        SearchSound(Set(b, row, col, d), row, col + 1);
      } else {
        TrySound(b, row, col, d + 1);
      }
    }
  }

  // ---------------------------------------------------------------------
  // Completeness: a puzzle with a valid completion is solved
  // ---------------------------------------------------------------------

  /** The digit a valid completion puts into an empty cell passes the checks there. */
  lemma SolutionDigitIsLegal(b: Board, t: Board, row: int, col: int)
    requires InGrid(row, col) && b[row][col] == NO_VALUE && IsSolution(b, t)
    ensures 1 <= t[row][col] <= SIZE && Legal(b, row, col, t[row][col])
  {
    var d := t[row][col];
    LegalIffNoPeer(t, row, col, d);
    LegalIffNoPeer(b, row, col, d);
  }

  lemma {:induction false} TryReaches(b: Board, row: int, col: int, d: int, d0: int)
    requires InGrid(row, col) && b[row][col] == NO_VALUE && 1 <= d <= d0 <= SIZE
    requires Legal(b, row, col, d0) && Search(Set(b, row, col, d0), row, col + 1).Some?
    ensures TryDigits(b, row, col, d).Some?
    decreases d0 - d
  {
    if d < d0 && !(Legal(b, row, col, d) && Search(Set(b, row, col, d), row, col + 1).Some?) {
      TryReaches(b, row, col, d + 1, d0);
    }
  }

  lemma {:induction false} SearchComplete(b: Board, row: int, col: int, t: Board)
    requires 0 <= row <= SIZE && 0 <= col <= SIZE
    requires IsSolution(b, t)
    ensures Search(b, row, col).Some?
    decreases SIZE - row, SIZE + 1 - col
  {
    if row >= SIZE {
    } else if col >= SIZE {
      SearchComplete(b, row + 1, 0, t);
    } else if b[row][col] != NO_VALUE {
      SearchComplete(b, row, col + 1, t);
    } else {
      var d := t[row][col];
      SolutionDigitIsLegal(b, t, row, col);
      SearchComplete(Set(b, row, col, d), row, col + 1, t);
      TryReaches(b, row, col, 1, d);
    }
  }

  // ---------------------------------------------------------------------
  // Order: the result is the first valid completion in row-major,
  // ascending-digit order
  // ---------------------------------------------------------------------

  lemma {:induction false} TryFirst(b: Board, row: int, col: int, d: int, d0: int)
    requires InGrid(row, col) && b[row][col] == NO_VALUE && 1 <= d <= d0 <= SIZE
    requires Legal(b, row, col, d0) && Search(Set(b, row, col, d0), row, col + 1).Some?
    requires TryDigits(b, row, col, d).Some?
    ensures TryDigits(b, row, col, d).value == Search(Set(b, row, col, d0), row, col + 1).value
            || TryDigits(b, row, col, d).value[row][col] < d0
    decreases d0 - d
  {
    if d < d0 {
      if Legal(b, row, col, d) && Search(Set(b, row, col, d), row, col + 1).Some? {
        SearchShape(Set(b, row, col, d), row, col + 1);
      } else {
        TryFirst(b, row, col, d + 1, d0);
      }
    }
  }

  lemma {:induction false} SearchFirst(b: Board, row: int, col: int, t: Board)
    requires 0 <= row <= SIZE && 0 <= col <= SIZE
    requires IsSolution(b, t) && AgreeBefore(b, t, row, col)
    requires Search(b, row, col).Some?
    ensures LexLeq(Search(b, row, col).value, t)
    decreases SIZE - row, SIZE + 1 - col
  {
    if row >= SIZE {
      SameCells(b, t);
    } else if col >= SIZE {
      SearchFirst(b, row + 1, 0, t);
    } else if b[row][col] != NO_VALUE {
      SearchFirst(b, row, col + 1, t);
    } else {
      var d := t[row][col];
      SolutionDigitIsLegal(b, t, row, col);
      var b' := Set(b, row, col, d);
      SearchComplete(b', row, col + 1, t);
      SearchFirst(b', row, col + 1, t);
      TryFirst(b, row, col, 1, d);
      TryShape(b, row, col, 1);
      var s := TryDigits(b, row, col, 1).value;
      if s != Search(b', row, col + 1).value {
        assert InGrid(row, col) && AgreeBefore(s, t, row, col) && s[row][col] < t[row][col];
      }
    }
  }

  // ---------------------------------------------------------------------
  // The solver's top-level promises
  // ---------------------------------------------------------------------

  /**
   * With givens that are digits and break no rule, the search from the first
   * cell succeeds exactly when the puzzle has a valid completion, and what it
   * returns is such a completion.
   */
  lemma SolvableIff(b: Board)
    requires InRange(b) && Consistent(b)
    ensures Search(b, 0, 0).Some? <==> exists t :: IsSolution(b, t)
    ensures Search(b, 0, 0).Some? ==> IsSolution(b, Search(b, 0, 0).value)
  {
    if Search(b, 0, 0).Some? {
      SearchShape(b, 0, 0);
      SearchSound(b, 0, 0);
      assert IsSolution(b, Search(b, 0, 0).value);
    }
    if exists t :: IsSolution(b, t) {
      var t :| IsSolution(b, t);
      SearchComplete(b, 0, 0, t);
    }
  }

  /** Givens that some valid completion keeps are digits and break no rule. */
  lemma SolutionGivens(b: Board, t: Board)
    requires IsSolution(b, t)
    ensures InRange(b) && Consistent(b)
  {
    forall r, c | InGrid(r, c) && b[r][c] != NO_VALUE
      ensures Legal(b, r, c, b[r][c])
    {
      LegalIffNoPeer(t, r, c, t[r][c]);
      LegalIffNoPeer(b, r, c, b[r][c]);
    }
  }

  /**
   * When the puzzle has a valid completion, the search returns the first
   * valid completion in row-major, ascending-digit order.
   */
  lemma SearchIsFirst(b: Board, t: Board)
    requires IsSolution(b, t)
    ensures Search(b, 0, 0).Some? && IsSolution(b, Search(b, 0, 0).value)
    ensures LexLeq(Search(b, 0, 0).value, t)
  {
    SearchComplete(b, 0, 0, t);
    SearchFirst(b, 0, 0, t);
    SolutionGivens(b, t);
    SolvableIff(b);
  }

  /** A grid with no empty cell is accepted as it is, whether or not it breaks the rules. */
  lemma {:induction false} CompleteIsAccepted(b: Board, row: int, col: int)
    requires 0 <= row <= SIZE && 0 <= col <= SIZE
    requires Complete(b)
    ensures Search(b, row, col) == Some(b)
    decreases SIZE - row, SIZE + 1 - col
  {
    if row >= SIZE {
    } else if col >= SIZE {
      CompleteIsAccepted(b, row + 1, 0);
    } else {
      CompleteIsAccepted(b, row, col + 1);
    }
  }

  /**
   * The givens are never checked: a full grid of ones, which breaks every
   * rule, is reported solved.
   */
  lemma ConflictingGivensAccepted()
    ensures !Consistent(Uniform(1)) && Search(Uniform(1), 0, 0) == Some(Uniform(1))
  {
    var b := Uniform(1);
    assert !RowAllows(b, 0, 0, 1) by {
      assert b[0][1] == 1;
    }
    CompleteIsAccepted(b, 0, 0);
  }

  // ---------------------------------------------------------------------
  // The empty puzzle
  // ---------------------------------------------------------------------

  /** The digit of cell (r, c) in a known solved grid: 1..9 shifted by 3 * (r % 3) + r / 3. */
  function PatternDigit(r: int, c: int): int {
    (3 * (r % 3) + r / 3 + c) % 9 + 1
  }

  /** The known solved grid, cell by cell. */
  function Pattern(): (t: Board)
    ensures forall r, c :: InGrid(r, c) ==> t[r][c] == PatternDigit(r, c)
  {
    seq(SIZE, r => seq(SIZE, c => PatternDigit(r, c)))
  }

  /** Adding the same offset to two numbers 0..8 keeps them apart modulo 9. */
  lemma ShiftApart(x: int, y: int, k: int)
    requires 0 <= x < 9 && 0 <= y < 9 && x != y && k >= 0
    ensures (x + k) % 9 != (y + k) % 9
  {
    var qx, qy := (x + k) / 9, (y + k) / 9;
    assert x + k == 9 * qx + (x + k) % 9;
    assert y + k == 9 * qy + (y + k) % 9;
    if (x + k) % 9 == (y + k) % 9 {
      assert false;
    }
  }

  /** Row or column `i` splits into its band `i / 3` and its place `i % 3` in the band. */
  lemma Split(i: int)
    requires 0 <= i < SIZE
    ensures i == 3 * (i / 3) + i % 3 && 0 <= i / 3 < 3 && 0 <= i % 3 < 3
  {
  }

  /** Two cells of a row of the pattern hold different digits. */
  lemma PatternRowApart(r: int, c1: int, c2: int)
    requires InGrid(r, c1) && InGrid(r, c2) && c1 != c2
    ensures PatternDigit(r, c1) != PatternDigit(r, c2)
  {
    Split(r);
    ShiftApart(c1, c2, 3 * (r % 3) + r / 3);
  }

  /** Two cells of a column of the pattern hold different digits. */
  lemma PatternColApart(r1: int, r2: int, c: int)
    requires InGrid(r1, c) && InGrid(r2, c) && r1 != r2
    ensures PatternDigit(r1, c) != PatternDigit(r2, c)
  {
    Split(r1); Split(r2);
    ShiftApart(3 * (r1 % 3) + r1 / 3, 3 * (r2 % 3) + r2 / 3, c);
  }

  /** Two different cells of a box of the pattern hold different digits. */
  lemma PatternBoxApart(r1: int, c1: int, r2: int, c2: int)
    requires InGrid(r1, c1) && InGrid(r2, c2) && !(r1 == r2 && c1 == c2)
    requires r1 / 3 == r2 / 3 && c1 / 3 == c2 / 3
    ensures PatternDigit(r1, c1) != PatternDigit(r2, c2)
  {
    Split(r1); Split(r2); Split(c1); Split(c2);
    var k1, k2 := 3 * (r1 % 3) + c1 % 3, 3 * (r2 % 3) + c2 % 3;
    var base := r1 / 3 + 3 * (c1 / 3);
    assert 3 * (r1 % 3) + r1 / 3 + c1 == k1 + base;
    assert 3 * (r2 % 3) + r2 / 3 + c2 == k2 + base;
    ShiftApart(k1, k2, base);
  }

  /** Two different cells of the pattern that share a row, a column or a box hold different digits. */
  lemma PatternNoClash(r1: int, c1: int, r2: int, c2: int)
    requires InGrid(r1, c1) && InGrid(r2, c2) && Peers(r1, c1, r2, c2)
    ensures PatternDigit(r1, c1) != PatternDigit(r2, c2)
  {
    if r1 == r2 {
      PatternRowApart(r1, c1, c2);
    } else if c1 == c2 {
      PatternColApart(r1, r2, c1);
    } else {
      PatternBoxApart(r1, c1, r2, c2);
    }
  }

  /** The pattern is a valid completion of the empty puzzle. */
  lemma PatternSolvesEmpty()
    ensures IsSolution(Uniform(NO_VALUE), Pattern())
  {
    var t := Pattern();
    forall r, c | InGrid(r, c)
      ensures Legal(t, r, c, t[r][c])
    {
      forall r2, c2 | InGrid(r2, c2) && Peers(r, c, r2, c2)
        ensures t[r2][c2] != t[r][c]
      {
        PatternNoClash(r, c, r2, c2);
      }
      LegalIffNoPeer(t, r, c, t[r][c]);
    }
  }

  /** The first row of the pattern is 1, 2, ..., 9. */
  lemma PatternFirstRow()
    ensures forall c :: 0 <= c < SIZE ==> Pattern()[0][c] == c + 1
  {
  }

  /** In a consistent grid a filled cell of the first row repeats in no other cell of that row. */
  lemma FirstRowDistinct(s: Board, c: int, k: int)
    requires Consistent(s) && 0 <= c < SIZE && 0 <= k < SIZE && k != c && s[0][c] != NO_VALUE
    ensures s[0][k] != s[0][c]
  {
    assert Legal(s, 0, c, s[0][c]);
  }

  /**
   * A solved grid that comes no later than a grid whose first row is
   * 1, 2, ..., 9 has that first row too.
   */
  lemma LeastFirstRow(s: Board, t: Board)
    requires Solved(s) && LexLeq(s, t)
    requires forall c :: 0 <= c < SIZE ==> t[0][c] == c + 1
    ensures forall c :: 0 <= c < SIZE ==> s[0][c] == c + 1
  {
    if s != t {
      var r, c :| InGrid(r, c) && AgreeBefore(s, t, r, c) && s[r][c] < t[r][c];
      if r == 0 {
        FirstRowDistinct(s, c, s[0][c] - 1);
        assert false;
      }
      forall c' | 0 <= c' < SIZE
        ensures s[0][c'] == c' + 1
      {
        assert Before(0, c', r, c);
      }
    }
  }

  /**
   * The empty puzzle is solved, and the first row of the grid left behind
   * reads 1, 2, ..., 9: the first completion in the search order.
   */
  lemma EmptyFirstRow()
    ensures Search(Uniform(NO_VALUE), 0, 0).Some?
    ensures forall c :: 0 <= c < SIZE ==> Search(Uniform(NO_VALUE), 0, 0).value[0][c] == c + 1
  {
    var b, t := Uniform(NO_VALUE), Pattern();
    PatternSolvesEmpty();
    PatternFirstRow();
    SearchIsFirst(b, t);
    SolvableIff(b);
    LeastFirstRow(Search(b, 0, 0).value, t);
  }
}

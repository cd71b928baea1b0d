/**
 * The text the solver prints for a grid. Each cell is its number followed by
 * a space, or two spaces when empty; "| " follows the third and sixth cells
 * of a row and a newline the ninth; the rule line follows the third and sixth
 * rows. The text is defined the way the printer builds it, one cell and one
 * row at a time, so that `RowText(row, n)` is what has been written after
 * the first `n` cells of a row and `RowsText(b, n)` after the first `n` rows.
 */
module Rendering {
  import opened SudokuRules

  /** The horizontal separator printed after the third and sixth rows. */
  const RULE: string := RuleLine()

  /** "------+-------+------" and a newline, written out character by character. */
  function RuleLine(): string {
    seq(22, i => if i == 6 || i == 14 then '+' else if i == 21 then '\n' else '-')
  }

  // ---------------------------------------------------------------------
  // Decimal text of an int, as the standard library writes it
  // ---------------------------------------------------------------------

  function DigitChar(d: int): (ch: char)
    requires 0 <= d <= 9
    ensures '0' <= ch <= '9' && ch as int - '0' as int == d
  {
    ('0' as int + d) as char
  }

  function NatText(n: nat): (s: string)
    ensures |s| >= 1
    decreases n
  {
    if n < 10 then [DigitChar(n)] else NatText(n / 10) + [DigitChar(n % 10)]
  }

  /** Decimal text of `n`: a minus sign for negatives, then the digits. */
  function IntText(n: int): (s: string)
    ensures 0 <= n <= 9 ==> s == [DigitChar(n)]
  {
    if n < 0 then "-" + NatText(-n) else NatText(n)
  }

  // ---------------------------------------------------------------------
  // The text of a grid
  // ---------------------------------------------------------------------

  /** One cell: its number and a space, or two spaces when it is empty. */
  function CellText(v: int): string {
    if v != NO_VALUE then IntText(v) + " " else "  "
  }

  /** What follows cell `col` of a row. */
  function Separator(col: int): string {
    if col == 2 || col == 5 then "| " else if col == 8 then "\n" else ""
  }

  /** The text of the first `n` cells of a row. */
  function RowText(row: seq<int>, n: int): string
    requires 0 <= n <= |row|
  {
    if n == 0 then "" else RowText(row, n - 1) + CellText(row[n - 1]) + Separator(n - 1)
  }

  /** The text of the first `n` rows of a grid. */
  function RowsText(b: Board, n: int): string
    requires 0 <= n <= SIZE
  {
    if n == 0 then ""
    else RowsText(b, n - 1) + RowText(b[n - 1], SIZE) + (if n - 1 == 2 || n - 1 == 5 then RULE else "")
  }

  /** The text printed for a whole grid. */
  function Render(b: Board): string {
    RowsText(b, SIZE)
  }

  /** Text appended piece by piece is the text of the pieces joined. */
  lemma AppendAssoc(a: string, b: string, c: string)
    ensures (a + b) + c == a + (b + c)
  {
  }

  /** Appending to a text keeps its characters. */
  lemma KeepsIndex(a: string, b: string, i: int)
    requires 0 <= i < |a|
    ensures i < |a + b| && (a + b)[i] == a[i]
  {
  }

  /** The text of the first `r + 1` rows: that of the first `r`, then row `r`, then the rule line if one follows it. */
  lemma RowsTextNext(b: Board, r: int)
    requires 0 <= r < SIZE
    ensures RowsText(b, r + 1) == RowsText(b, r) + RowText(b[r], SIZE) + (if r == 2 || r == 5 then RULE else "")
  {
  }

  /** Character `j` of an appended text is character `|a| + j` of the result. */
  lemma AppendAt(a: string, x: string, i: int, j: int)
    requires 0 <= j < |x| && i == |a| + j
    ensures i < |a + x| && (a + x)[i] == x[j]
  {
  }

  /** Writing cell `col` and what follows it extends the text of the first `col` cells of the row. */
  lemma RowTextAppend(prefix: string, row: seq<int>, col: int)
    requires |row| == SIZE && 0 <= col < SIZE
    ensures prefix + RowText(row, col) + CellText(row[col]) + Separator(col) == prefix + RowText(row, col + 1)
  {
    AppendAssoc(prefix, RowText(row, col), CellText(row[col]));
    AppendAssoc(prefix, RowText(row, col) + CellText(row[col]), Separator(col));
  }

  /** Writing row `row` and the rule line after it, if any, extends the text of the first `row` rows. */
  lemma RowsTextAppend(prefix: string, b: Board, row: int)
    requires 0 <= row < SIZE
    ensures prefix + RowsText(b, row) + RowText(b[row], SIZE) + (if row == 2 || row == 5 then RULE else "")
            == prefix + RowsText(b, row + 1)
  {
    AppendAssoc(prefix, RowsText(b, row), RowText(b[row], SIZE));
    AppendAssoc(prefix, RowsText(b, row) + RowText(b[row], SIZE), if row == 2 || row == 5 then RULE else "");
  }

  // ---------------------------------------------------------------------
  // Layout: where every cell lands
  // ---------------------------------------------------------------------

  /** Offset, within a row's line, of the text of cell `n` (for n = SIZE: the line's length). */
  function ColumnStart(n: int): int {
    2 * n + (if n >= 3 then 2 else 0) + (if n >= 6 then 2 else 0) + (if n >= 9 then 1 else 0)
  }

  /**
   * Offset, within the whole text, of the line of row `n` (for n = SIZE: the
   * text's length): each line takes ColumnStart(SIZE) = 23 characters and
   * each rule line |RULE| = 22.
   */
  function RowStart(n: int): int {
    23 * n + (if n >= 3 then 22 else 0) + (if n >= 6 then 22 else 0)
  }

  /** The length of the whole text for a grid of digits. */
  const TEXT_LENGTH: int := 251

  /** The character shown for a cell holding 0..9. */
  function CellChar(v: int): char
    requires 0 <= v <= 9
  {
    if v == NO_VALUE then ' ' else DigitChar(v)
  }

  /** The number a shown character stands for: a blank is the empty cell. */
  function CharValue(ch: char): int {
    if '0' <= ch <= '9' then ch as int - '0' as int else NO_VALUE
  }

  /** Reads a grid back from its text, cell by cell at the fixed offsets. */
  function Parse(text: string): (b: Board)
    requires |text| == TEXT_LENGTH
  {
    seq(SIZE, r requires 0 <= r < SIZE =>
      seq(SIZE, c requires 0 <= c < SIZE => CharValue(text[RowStart(r) + ColumnStart(c)])))
  }

  ghost predicate DigitRow(row: seq<int>) {
    forall c :: 0 <= c < |row| ==> 0 <= row[c] <= 9
  }

  /** The text of the first `n` cells of a row is a prefix of the text of the first `m`: character `i` is kept. */
  lemma {:induction false} RowTextPrefix(row: seq<int>, n: int, m: int, i: int)
    requires |row| == SIZE && 0 <= n <= m <= SIZE && 0 <= i < |RowText(row, n)|
    ensures i < |RowText(row, m)| && RowText(row, m)[i] == RowText(row, n)[i]
    decreases m - n
  {
    if n < m {
      RowTextPrefix(row, n, m - 1, i);
      KeepsIndex(RowText(row, m - 1), CellText(row[m - 1]), i);
      KeepsIndex(RowText(row, m - 1) + CellText(row[m - 1]), Separator(m - 1), i);
    }
  }

  /** The text of the first `n` rows is a prefix of the text of the first `m`: character `i` is kept. */
  lemma {:induction false} RowsTextPrefix(b: Board, n: int, m: int, i: int)
    requires 0 <= n <= m <= SIZE && 0 <= i < |RowsText(b, n)|
    ensures i < |RowsText(b, m)| && RowsText(b, m)[i] == RowsText(b, n)[i]
    decreases m - n
  {
    if n < m {
      RowsTextPrefix(b, n, m - 1, i);
      KeepsIndex(RowsText(b, m - 1), RowText(b[m - 1], SIZE), i);
      KeepsIndex(RowsText(b, m - 1) + RowText(b[m - 1], SIZE), if m - 1 == 2 || m - 1 == 5 then RULE else "", i);
    }
  }

  /** The first `n` cells of a row of digits take `ColumnStart(n)` characters. */
  lemma {:induction false} RowTextLength(row: seq<int>, n: int)
    requires |row| == SIZE && DigitRow(row) && 0 <= n <= SIZE
    ensures |RowText(row, n)| == ColumnStart(n)
  {
    if n > 0 {
      RowTextLength(row, n - 1);
      CellTextOfDigit(row[n - 1]);
      assert |Separator(n - 1)| == ColumnStart(n) - ColumnStart(n - 1) - 2;
    }
  }

  /** The first `n` rows of a grid of digits take `RowStart(n)` characters. */
  lemma {:induction false} RowsTextLength(b: Board, n: int)
    requires InRange(b) && 0 <= n <= SIZE
    ensures |RowsText(b, n)| == RowStart(n)
  {
    if n > 0 {
      RowsTextLength(b, n - 1);
      RowsTextStep(b, n);
    }
  }

  /** Row `n - 1` of a grid of digits and the rule line after it, if any, add `RowStart(n) - RowStart(n - 1)` characters. */
  lemma RowsTextStep(b: Board, n: int)
    requires InRange(b) && 0 < n <= SIZE
    ensures |RowsText(b, n)| == |RowsText(b, n - 1)| + RowStart(n) - RowStart(n - 1)
  {
    assert DigitRow(b[n - 1]);
    RowTextLength(b[n - 1], SIZE);
    assert |RULE| == 22;
  }

  /** A cell holding 0..9 takes two characters: its digit (or a blank) and a blank. */
  lemma CellTextOfDigit(v: int)
    requires 0 <= v <= 9
    ensures CellText(v) == [CellChar(v), ' ']
  {
  }

  /** The line of a row through cell `c`: the earlier cells, then cell `c` as two characters, then its separator. */
  lemma RowTextThrough(row: seq<int>, c: int)
    requires |row| == SIZE && DigitRow(row) && 0 <= c < SIZE
    ensures |RowText(row, c)| == ColumnStart(c) && |RowText(row, SIZE)| == ColumnStart(SIZE)
    ensures RowText(row, c + 1) == RowText(row, c) + ([CellChar(row[c]), ' '] + Separator(c))
  {
    RowTextLength(row, c);
    RowTextLength(row, SIZE);
    CellTextOfDigit(row[c]);
    AppendAssoc(RowText(row, c), CellText(row[c]), Separator(c));
  }

  /** In the line of a row of digits, cell `c` shows at `ColumnStart(c)`, followed by a blank. */
  lemma RowTextAt(row: seq<int>, c: int)
    requires |row| == SIZE && DigitRow(row) && 0 <= c < SIZE
    ensures |RowText(row, SIZE)| == ColumnStart(SIZE)
    ensures RowText(row, SIZE)[ColumnStart(c)] == CellChar(row[c])
    ensures RowText(row, SIZE)[ColumnStart(c) + 1] == ' '
  {
    RowTextThrough(row, c);
    var pre, tail := RowText(row, c), [CellChar(row[c]), ' '] + Separator(c);
    var i := ColumnStart(c);
    assert (pre + tail)[i] == tail[0];
    assert (pre + tail)[i + 1] == tail[1];
    RowTextPrefix(row, c + 1, SIZE, i);
    RowTextPrefix(row, c + 1, SIZE, i + 1);
  }

  /** In the text of the first `r + 1` rows of a grid of digits, line `r` starts at `RowStart(r)`. */
  lemma LastRowAt(b: Board, r: int, j: int)
    requires InRange(b) && 0 <= r < SIZE && 0 <= j < ColumnStart(SIZE)
    ensures |RowText(b[r], SIZE)| == ColumnStart(SIZE)
    ensures RowStart(r) + j < |RowsText(b, r + 1)|
    ensures RowsText(b, r + 1)[RowStart(r) + j] == RowText(b[r], SIZE)[j]
  {
    RowsTextLength(b, r);
    assert DigitRow(b[r]);
    RowTextLength(b[r], SIZE);
    var i := RowStart(r) + j;
    RowsTextNext(b, r);
    AppendAt(RowsText(b, r), RowText(b[r], SIZE), i, j);
    KeepsIndex(RowsText(b, r) + RowText(b[r], SIZE), if r == 2 || r == 5 then RULE else "", i);
  }

  /** In the text of a grid of digits, line `r` starts at `RowStart(r)`. */
  lemma RowsTextAt(b: Board, r: int, j: int)
    requires InRange(b) && 0 <= r < SIZE && 0 <= j < ColumnStart(SIZE)
    ensures |Render(b)| == TEXT_LENGTH && |RowText(b[r], SIZE)| == ColumnStart(SIZE)
    ensures Render(b)[RowStart(r) + j] == RowText(b[r], SIZE)[j]
  {
    RowsTextLength(b, SIZE);
    LastRowAt(b, r, j);
    var i := RowStart(r) + j;
    RowsTextPrefix(b, r + 1, SIZE, i);
    assert Render(b)[i] == RowsText(b, r + 1)[i];
  }

  /**
   * Layout of the text of a grid of digits: it has a fixed length, and cell
   * (r, c) shows its digit (a blank when empty) at a fixed offset, followed
   * by a blank.
   */
  lemma RenderLayout(b: Board, r: int, c: int)
    requires InRange(b) && InGrid(r, c)
    ensures |Render(b)| == TEXT_LENGTH
    ensures Render(b)[RowStart(r) + ColumnStart(c)] == CellChar(b[r][c])
    ensures Render(b)[RowStart(r) + ColumnStart(c) + 1] == ' '
  {
    assert DigitRow(b[r]);
    RowTextAt(b[r], c);
    RowsTextAt(b, r, ColumnStart(c));
    RowsTextAt(b, r, ColumnStart(c) + 1);
  }

  /** Within a line, what follows cell `c` comes right after the cell's two characters. */
  lemma RowTextSeparator(row: seq<int>, c: int, k: int)
    requires |row| == SIZE && DigitRow(row) && 0 <= c < SIZE && 0 <= k < |Separator(c)|
    ensures |RowText(row, SIZE)| == ColumnStart(SIZE)
    ensures RowText(row, SIZE)[ColumnStart(c) + 2 + k] == Separator(c)[k]
  {
    RowTextThrough(row, c);
    var pre, tail := RowText(row, c), [CellChar(row[c]), ' '] + Separator(c);
    var i := ColumnStart(c) + 2 + k;
    assert tail[2 + k] == Separator(c)[k];
    assert (pre + tail)[i] == tail[2 + k];
    RowTextPrefix(row, c + 1, SIZE, i);
  }

  /** In every line, "| " follows the third and sixth cells and a newline the ninth. */
  lemma RenderSeparators(b: Board, r: int, c: int)
    requires InRange(b) && 0 <= r < SIZE && (c == 2 || c == 5 || c == 8)
    ensures |Render(b)| == TEXT_LENGTH
    ensures c != 8 ==> Render(b)[RowStart(r) + ColumnStart(c) + 2] == '|'
                       && Render(b)[RowStart(r) + ColumnStart(c) + 3] == ' '
    ensures c == 8 ==> Render(b)[RowStart(r) + ColumnStart(c) + 2] == '\n'
  {
    assert DigitRow(b[r]);
    RowTextSeparator(b[r], c, 0);
    RowsTextAt(b, r, ColumnStart(c) + 2);
    if c != 8 {
      RowTextSeparator(b[r], c, 1);
      RowsTextAt(b, r, ColumnStart(c) + 3);
    }
  }

  /** The rule line follows the third and the sixth rows. */
  lemma RenderRules(b: Board, r: int)
    requires InRange(b) && (r == 3 || r == 6)
    ensures |Render(b)| == TEXT_LENGTH
    ensures Render(b)[RowStart(r) - |RULE| .. RowStart(r)] == RULE
  {
    RowsTextLength(b, r);
    RowsTextLength(b, SIZE);
    var pre := RowsText(b, r - 1) + RowText(b[r - 1], SIZE);
    assert RowsText(b, r) == pre + RULE;
    forall k | 0 <= k < |RULE|
      ensures Render(b)[RowStart(r) - |RULE| + k] == RULE[k]
    {
      assert (pre + RULE)[|pre| + k] == RULE[k];
      RowsTextPrefix(b, r, SIZE, |pre| + k);
    }
  }

  /** A grid of digits is read back unchanged from its text. */
  lemma ParseRender(b: Board)
    requires InRange(b)
    ensures |Render(b)| == TEXT_LENGTH && Parse(Render(b)) == b
  {
    RowsTextLength(b, SIZE);
    var p := Parse(Render(b));
    forall r, c | InGrid(r, c)
      ensures p[r][c] == b[r][c]
    {
      RenderLayout(b, r, c);
    }
    SameCells(p, b);
  }
}

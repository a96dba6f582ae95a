/**
 The layout shared by the image codecs: a grid of cells, each 4 pixels wide and 2 high and
 holding one character, with the 2 by 4 cells in the upper left corner kept for the header.
 The remaining cells are numbered row by row.
 */
module Grid {

  const HEADER_COLUMNS := 2
  const HEADER_ROWS := 4
  const HEADER_CELLS := 8

  datatype Cell = Cell(column: nat, row: nat)

  predicate InHeader(c: Cell) {
    c.row < HEADER_ROWS && c.column < HEADER_COLUMNS
  }

  // The cell in which an encoder puts character k, in a grid n columns wide: first the rows beside
  // the header, then the full rows below, counting the header's cells as used.
  function CellOf(n: nat, k: nat): Cell
    requires n >= HEADER_COLUMNS
  {
    var beside := n - HEADER_COLUMNS;
    if k < beside * HEADER_ROWS then
      Cell(k % beside + HEADER_COLUMNS, k / beside)
    else
      Cell((k + HEADER_CELLS) % n, (k + HEADER_CELLS) / n)
  }

  // The number of a cell outside the header, in the order in which a decoder meets it.
  function IndexOf(n: nat, c: Cell): (k: nat)
    requires n >= HEADER_COLUMNS && c.column < n && !InHeader(c)
  {
    if c.row < HEADER_ROWS then
      MulNonneg(c.row, n - HEADER_COLUMNS);
      c.row * (n - HEADER_COLUMNS) + (c.column - HEADER_COLUMNS)
    else
      RowMonotonic(HEADER_ROWS, c.row, n);
      c.row * n + c.column - HEADER_CELLS
  }

  lemma MulNonneg(a: nat, b: nat)
    ensures 0 <= a * b
  {}

  lemma RowMonotonic(a: int, b: int, n: nat)
    ensures a <= b ==> a * n <= b * n
  {}

  lemma DivModUnique(k: nat, n: nat, q: nat, r: nat)
    requires k == q * n + r && r < n
    ensures k / n == q && k % n == r
  {
    var d := k / n - q;
    assert k == n * (k / n) + k % n;
    assert d * n == r - k % n;
    RowMonotonic(1, d, n);
    RowMonotonic(d, -1, n);
  }

  // The two orders agree: character k is the k-th cell the decoder meets.
  lemma {:induction false} CellOfIndex(n: nat, c: Cell)
    requires n >= HEADER_COLUMNS && c.column < n && !InHeader(c)
    ensures CellOf(n, IndexOf(n, c)) == c
  {
    var beside, k := n - HEADER_COLUMNS, IndexOf(n, c);
    if c.row < HEADER_ROWS {
      DivModUnique(k, beside, c.row, c.column - HEADER_COLUMNS);
      RowMonotonic(c.row + 1, HEADER_ROWS, beside);
      assert (c.row + 1) * beside == c.row * beside + beside;
    } else {
      DivModUnique(k + HEADER_CELLS, n, c.row, c.column);
      RowMonotonic(HEADER_ROWS, c.row, n);
    }
  }

  lemma DivModIdentity(k: nat, n: nat)
    requires n > 0
    ensures (k / n) * n + k % n == k && 0 <= k % n < n
  {}

  lemma {:induction false} IndexOfCell(n: nat, k: nat)
    requires n >= HEADER_COLUMNS
    ensures CellOf(n, k).column < n && !InHeader(CellOf(n, k))
    ensures IndexOf(n, CellOf(n, k)) == k
  {
    var beside := n - HEADER_COLUMNS;
    if k < beside * HEADER_ROWS {
      RowBelow(k, beside, HEADER_ROWS);
      DivModIdentity(k, beside);
    } else {
      var j := k + HEADER_CELLS;
      RowAbove(j, n, HEADER_ROWS);
      DivModIdentity(j, n);
    }
  }

  lemma RowBelow(k: nat, n: nat, h: nat)
    requires n > 0 && k < n * h
    ensures k / n < h
  {
    assert k == n * (k / n) + k % n;
    RowMonotonic(h, k / n, n);
  }

  lemma RowAbove(k: nat, n: nat, h: nat)
    requires n > 0 && k >= h * n
    ensures k / n >= h
  {
    assert k == n * (k / n) + k % n;
    RowMonotonic(k / n + 1, h, n);
    assert (k / n + 1) * n == n * (k / n) + n;
  }

  // A grid of n by h cells, with at least the header's rows, has room for n * h - 8 characters.
  lemma {:induction false} CellInside(n: nat, h: nat, k: nat)
    requires n >= HEADER_COLUMNS && h >= HEADER_ROWS
    ensures CellOf(n, k).row < h <==> k + HEADER_CELLS < n * h
  {
    var beside := n - HEADER_COLUMNS;
    IndexOfCell(n, k);
    if k < beside * HEADER_ROWS {
      RowBelow(k, beside, HEADER_ROWS);
      RowMonotonic(HEADER_ROWS, h, n);
      assert k + HEADER_CELLS < n * HEADER_ROWS <= n * h;
    } else {
      var j := k + HEADER_CELLS;
      if j < n * h {
        RowBelow(j, n, h);
      } else {
        RowAbove(j, n, h);
      }
    }
  }

  // ----- the decoder's scan

  // How many cells outside the header come before a place in the scan
  function Before(n: nat, column: nat, row: nat): int
    requires n >= HEADER_COLUMNS
  {
    if row < HEADER_ROWS then
      row * (n - HEADER_COLUMNS) + (if column < HEADER_COLUMNS then 0 else column - HEADER_COLUMNS)
    else row * n + column - HEADER_CELLS
  }

  lemma BeforeSteps(n: nat, column: nat, row: nat)
    requires n >= HEADER_COLUMNS && column <= n
    ensures Before(n, column, row) >= 0
    ensures Before(n, n, row) == Before(n, 0, row + 1)
    ensures InHeader(Cell(column, row)) ==> Before(n, column + 1, row) == Before(n, column, row)
    ensures column < n && !InHeader(Cell(column, row)) ==>
              && Before(n, column, row) == IndexOf(n, Cell(column, row))
              && Before(n, column + 1, row) == Before(n, column, row) + 1
  {
    RowMonotonic(4, row, n);
    RowMonotonic(0, row, n - 2);
    assert (row + 1) * (n - 2) == row * (n - 2) + (n - 2);
    assert (row + 1) * n == row * n + n;
    if row == 3 {
      assert Before(n, n, 3) == 4 * (n - 2);
    }
  }

  // The scan of n by h cells meets n * h - 8 of them.
  lemma {:induction false} BeforeTheEnd(n: nat, h: nat, column: nat, row: nat)
    requires n >= HEADER_COLUMNS && h >= HEADER_ROWS
    requires column <= n && row <= h && (row == h ==> column == 0)
    ensures 0 <= Before(n, column, row) <= n * h - HEADER_CELLS
    ensures row == h ==> Before(n, column, row) == n * h - HEADER_CELLS
    ensures row == 0 && column == 0 ==> Before(n, column, row) == 0
  {
    BeforeSteps(n, column, row);
    if row < HEADER_ROWS {
      RowMonotonic(row, HEADER_ROWS - 1, n - 2);
      RowMonotonic(HEADER_ROWS, h, n);
    } else if row < h {
      RowMonotonic(row + 1, h, n);
      NextRow(row, n);
    }
  }

  lemma NextRow(row: nat, n: nat)
    ensures (row + 1) * n == row * n + n
  {}

  // The cells follow each other along the rows, and around the header.
  lemma {:induction false} CellOfNext(n: nat, k: nat)
    requires n > HEADER_COLUMNS
    ensures CellOf(n, 0) == Cell(2, 0)
    ensures var c := CellOf(n, k);
            CellOf(n, k + 1) ==
            if c.column + 1 < n then Cell(c.column + 1, c.row)
            else Cell(if c.row + 1 < 4 then 2 else 0, c.row + 1)
  {
    hide CellOf, IndexOf;
    StartOfScan(n);
    IndexOfCell(n, k);
    var c := CellOf(n, k);
    var next := if c.column + 1 < n then Cell(c.column + 1, c.row) else Cell(if c.row + 1 < 4 then 2 else 0, c.row + 1);
    NextIndex(n, c, next);
    CellOfIndex(n, next);
  }

  lemma StartOfScan(n: nat)
    requires n > HEADER_COLUMNS
    ensures CellOf(n, 0) == Cell(2, 0)
  {}

  lemma NextIndex(n: nat, c: Cell, next: Cell)
    requires n > HEADER_COLUMNS && c.column < n && !InHeader(c)
    requires next == if c.column + 1 < n then Cell(c.column + 1, c.row)
                     else Cell(if c.row + 1 < 4 then 2 else 0, c.row + 1)
    ensures next.column < n && !InHeader(next) && IndexOf(n, next) == IndexOf(n, c) + 1
  {
    NextRow(c.row, n);
    NextRow(c.row, n - 2);
  }
}

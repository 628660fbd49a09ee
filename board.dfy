/**
 * The board as values: a matrix of cell states (true = alive), the all-dead
 * board, the single-cell flip, and the mapping from a rendered cell's flat
 * index to its (row, column).
 */
module Board {

  /** A board as the program holds it: a list of rows, each a list of cells. */
  type Matrix = seq<seq<bool>>

  /** `m` has exactly `rows` rows of exactly `columns` cells each. */
  predicate IsGrid(m: Matrix, rows: nat, columns: nat)
  {
    |m| == rows && forall r :: 0 <= r < rows ==> |m[r]| == columns
  }

  /** The cells of a rectangular array, row by row. */
  ghost function Cells(a: array2<bool>): (m: Matrix)
    reads a
    ensures IsGrid(m, a.Length0, a.Length1)
    ensures forall r, c :: 0 <= r < a.Length0 && 0 <= c < a.Length1 ==> m[r][c] == a[r, c]
  {
    seq(a.Length0, r requires 0 <= r < a.Length0 reads a =>
      seq(a.Length1, c requires 0 <= c < a.Length1 reads a => a[r, c]))
  }

  /** Two boards of the same shape are equal as soon as they agree cell by cell. */
  lemma {:induction false} SameCells(m: Matrix, m': Matrix, rows: nat, columns: nat)
    requires IsGrid(m, rows, columns) && IsGrid(m', rows, columns)
    requires forall r, c :: 0 <= r < rows && 0 <= c < columns ==> m[r][c] == m'[r][c]
    ensures m == m'
  {
    forall r | 0 <= r < rows
      ensures m[r] == m'[r]
    {
      assert forall c :: 0 <= c < columns ==> m[r][c] == m'[r][c];
    }
  }

  /** The board a fresh grid and a cleared grid start from: every cell dead. */
  function Blank(rows: nat, columns: nat): (m: Matrix)
    ensures IsGrid(m, rows, columns)
    ensures forall r, c :: 0 <= r < rows && 0 <= c < columns ==> !m[r][c]
  {
    seq(rows, _ => seq(columns, _ => false))
  }

  /** The board with the one cell at (row, col) negated. */
  function Flip(m: Matrix, row: nat, col: nat): (m': Matrix)
    requires row < |m| && col < |m[row]|
    ensures |m'| == |m| && forall r :: 0 <= r < |m| ==> |m'[r]| == |m[r]|
    ensures forall r, c :: 0 <= r < |m| && 0 <= c < |m[r]| ==>
      m'[r][c] == if r == row && c == col then !m[r][c] else m[r][c]
  {
    m[row := m[row][col := !m[row][col]]]
  }

  /** Flipping the same cell twice gives back the board. */
  lemma FlipTwice(m: Matrix, row: nat, col: nat)
    requires row < |m| && col < |m[row]|
    ensures Flip(Flip(m, row, col), row, col) == m
  {
    var m' := Flip(Flip(m, row, col), row, col);
    assert m'[row] == m[row];
  }

  /**
   * The (row, column) of the cell rendered at flat position `index` of a
   * board `columns` wide: floor division and remainder of a non-negative
   * index, which Dafny's `/` and `%` agree with.
   */
  function CellOf(index: nat, columns: nat): (rc: (nat, nat))
    requires columns >= 1
    ensures rc.1 < columns
    ensures rc.0 * columns + rc.1 == index
  {
    (index / columns, index % columns)
  }

  /** The flat position at which the cell (row, col) is rendered. */
  function IndexOf(row: nat, col: nat, columns: nat): nat
  {
    row * columns + col
  }

  /** Every index of a rendered `rows` x `columns` board maps to a cell of that board. */
  lemma CellOfInRange(index: nat, rows: nat, columns: nat)
    requires columns >= 1 && index < rows * columns
    ensures CellOf(index, columns).0 < rows
  {
  }

  /** Every cell of a `rows` x `columns` board is rendered at an index below rows * columns. */
  lemma IndexOfBelow(row: nat, col: nat, rows: nat, columns: nat)
    requires row < rows && col < columns
    ensures IndexOf(row, col, columns) < rows * columns
  {
    MulMonotone(row + 1, rows, columns);
  }

  /** The index of a cell maps back to that cell. */
  lemma {:induction false} CellOfIndexOf(row: nat, col: nat, columns: nat)
    requires col < columns
    ensures CellOf(IndexOf(row, col, columns), columns) == (row, col)
  {
    var (q, r) := CellOf(IndexOf(row, col, columns), columns);
    assert q * columns + r == row * columns + col;
    if q < row {
      MulMonotone(q + 1, row, columns);
      assert false;
    } else if q > row {
      MulMonotone(row + 1, q, columns);
      assert false;
    }
  }

  /** The cell of an index maps back to that index. */
  lemma IndexOfCellOf(index: nat, columns: nat)
    requires columns >= 1
    ensures IndexOf(CellOf(index, columns).0, CellOf(index, columns).1, columns) == index
  {
  }

  lemma MulMonotone(a: nat, b: nat, k: nat)
    requires a <= b
    ensures a * k <= b * k
  {
  }
}

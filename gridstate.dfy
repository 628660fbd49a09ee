/**
 * The grid's state: the one board the program holds, replaced wholesale by
 * initialisation, by a new generation and by clearing, and read cell by cell
 * when the rendered cells are brought up to date.
 */
module GridState {
  import opened Board

  /** The grid module: it owns the current board, a rows x columns array of cells. */
  class Grid {
    var matrix: array2<bool>

    /** The grid before any board has been set up: an empty board. */
    constructor ()
      ensures fresh(matrix)
      ensures matrix.Length0 == 0 && matrix.Length1 == 0
    {
      matrix := new bool[0, 0];
    }

    /** A new `rows` x `columns` board with every cell dead. */
    static method NewBlank(rows: nat, columns: nat) returns (a: array2<bool>)
      ensures fresh(a)
      ensures a.Length0 == rows && a.Length1 == columns
      ensures Cells(a) == Blank(rows, columns)
    {
      a := new bool[rows, columns]((r, c) => false);
      SameCells(Cells(a), Blank(rows, columns), rows, columns);
    }

    /** Sets up a fresh all-dead board of the given size (drawing it is not modelled). */
    method Initialize(rows: nat, columns: nat)
      modifies this
      ensures fresh(matrix)
      ensures matrix.Length0 == rows && matrix.Length1 == columns
      ensures Cells(matrix) == Blank(rows, columns)
    {
      matrix := NewBlank(rows, columns);
    }

    /** Makes `newMatrix` the current board; the array itself is kept, not copied. */
    method SetMatrix(newMatrix: array2<bool>)
      modifies this
      ensures matrix == newMatrix
    {
      matrix := newMatrix;
    }

    /**
     * Replaces the board by an all-dead one of the configured size and
     * redraws it: every rendered cell then shows a dead cell.
     */
    method ResetMatrix(rows: nat, columns: nat) returns (shown: seq<bool>)
      modifies this
      ensures fresh(matrix)
      ensures matrix.Length0 == rows && matrix.Length1 == columns
      ensures Cells(matrix) == Blank(rows, columns)
      ensures |shown| == rows * columns && forall i :: 0 <= i < |shown| ==> !shown[i]
    {
      matrix := NewBlank(rows, columns);
      shown := UpdateGrid(rows, columns);
      forall i | 0 <= i < |shown|
        ensures !shown[i]
      {
        var (r, c) := CellOf(i, columns);
        CellOfInRange(i, rows, columns);
        IndexOfCellOf(i, columns);
      }
    }

    /**
     * The state shown by each rendered cell, in the order the cells were
     * rendered: the cell at flat position i shows the board cell
     * (i / columns, i % columns), so every board cell is shown, at its own
     * index.
     */
    method UpdateGrid(rows: nat, columns: nat) returns (shown: seq<bool>)
      requires matrix.Length0 == rows && matrix.Length1 == columns
      ensures |shown| == rows * columns
      ensures forall r, c :: 0 <= r < rows && 0 <= c < columns ==>
        IndexOf(r, c, columns) < |shown| && shown[IndexOf(r, c, columns)] == matrix[r, c]
    {
      shown := [];
      var index := 0;
      while index < rows * columns
        invariant index <= rows * columns
        invariant |shown| == index
        invariant forall i :: 0 <= i < index ==>
          columns >= 1 && CellOf(i, columns).0 < rows && shown[i] == matrix[CellOf(i, columns).0, CellOf(i, columns).1]
      {
        CellOfInRange(index, rows, columns);
        var (row, col) := CellOf(index, columns);
        shown := shown + [matrix[row, col]];
        index := index + 1;
      }
      forall r, c | 0 <= r < rows && 0 <= c < columns
        ensures IndexOf(r, c, columns) < |shown| && shown[IndexOf(r, c, columns)] == matrix[r, c]
      {
        IndexOfBelow(r, c, rows, columns);
        CellOfIndexOf(r, c, columns);
      }
    }
  }
}

/**
 * The game engine: counting a cell's live neighbours with two nested loops
 * over the offsets, and computing the next generation into a copy of the
 * board while reading only from the board it was given.
 */
module Engine {
  import opened Board
  import opened Rules

  /**
   * Counts the live cells among the eight wrapped offsets around (row, col).
   * `rows` and `columns` are the configured board size, which the board must
   * have.
   */
  method CountAliveNeighbors(matrix: array2<bool>, rows: nat, columns: nat, row: nat, col: nat)
    returns (count: nat)
    requires matrix.Length0 == rows && matrix.Length1 == columns
    requires row < rows && col < columns
    ensures count == AliveNeighbors(Cells(matrix), rows, columns, row, col)
  {
    ghost var m := Cells(matrix);
    count := 0;
    for i := -1 to 2
      invariant count == CountOver(m, rows, columns, row, col, Offsets[..3 * (i + 1)])
    {
      for j := -1 to 2
        invariant count == CountOver(m, rows, columns, row, col, Offsets[..3 * (i + 1) + (j + 1)])
      {
        CountOneMore(m, rows, columns, row, col, i, j);
        if i == 0 && j == 0 {
          continue;
        }
        var newRow := (row + i + rows) % rows;
        var newCol := (col + j + columns) % columns;
        if matrix[newRow, newCol] {
          count := count + 1;
        }
      }
    }
    assert Offsets[..9] == Offsets;
  }

  /**
   * Returns a new board holding the next generation of `matrix`; `matrix`
   * itself is left as it was. The copy is made first, then every cell of the
   * copy is overwritten from neighbours counted on `matrix`.
   */
  method NextGeneration(matrix: array2<bool>, rows: nat, columns: nat) returns (newMatrix: array2<bool>)
    requires matrix.Length0 == rows && matrix.Length1 == columns
    ensures fresh(newMatrix)
    ensures newMatrix.Length0 == rows && newMatrix.Length1 == columns
    ensures Cells(newMatrix) == Step(Cells(matrix), rows, columns)
    ensures Cells(matrix) == old(Cells(matrix))
  {
    ghost var m := Cells(matrix);
    ghost var next := Step(m, rows, columns);
    newMatrix := new bool[matrix.Length0, matrix.Length1]((r, c)
      requires 0 <= r < matrix.Length0 && 0 <= c < matrix.Length1 reads matrix => matrix[r, c]);
    for row := 0 to rows
      invariant forall r, c {:trigger newMatrix[r, c]} :: 0 <= r < rows && 0 <= c < columns ==>
        newMatrix[r, c] == if r < row then next[r][c] else m[r][c]
    {
      for col := 0 to columns
        invariant forall r, c {:trigger newMatrix[r, c]} :: 0 <= r < row && 0 <= c < columns ==> newMatrix[r, c] == next[r][c]
        invariant forall c {:trigger newMatrix[row, c]} :: 0 <= c < col ==> newMatrix[row, c] == next[row][c]
        invariant forall c {:trigger newMatrix[row, c]} :: col <= c < columns ==> newMatrix[row, c] == m[row][c]
        invariant forall r, c {:trigger newMatrix[r, c]} :: row < r < rows && 0 <= c < columns ==> newMatrix[r, c] == m[r][c]
      {
        var aliveNeighbors := CountAliveNeighbors(matrix, rows, columns, row, col);
        if matrix[row, col] {
          newMatrix[row, col] := aliveNeighbors == 2 || aliveNeighbors == 3;
        } else {
          newMatrix[row, col] := aliveNeighbors == 3;
        }
        assert newMatrix[row, col] == next[row][col];
      }
    }
    SameCells(Cells(newMatrix), next, rows, columns);
  }
}

/**
 * The game controller: the running flag with the repeating timer it guards,
 * one tick of that timer, clearing the board and toggling a clicked cell.
 */
module Controller {
  import opened Board
  import opened Rules
  import opened Engine
  import opened GridState

  class GameController {
    /** The grid whose board the controller advances, clears and edits. */
    const grid: Grid
    var isGameRunning: bool
    /**
     * The number of repeating timers currently scheduled. The timer itself
     * is not modelled: starting schedules one, stopping cancels it.
     */
    var activeIntervals: nat

    /** A timer is scheduled exactly while the game runs, and never more than one. */
    ghost predicate Valid()
      reads this
    {
      activeIntervals == if isGameRunning then 1 else 0
    }

    /** A controller over `grid`, stopped, with no timer. */
    constructor (grid: Grid)
      ensures this.grid == grid
      ensures !isGameRunning && activeIntervals == 0
      ensures Valid()
    {
      this.grid := grid;
      isGameRunning := false;
      activeIntervals := 0;
    }

    /** Starts the game: when it already runs nothing happens, so no second timer is scheduled. */
    method StartGame()
      requires Valid()
      modifies this
      ensures Valid()
      ensures isGameRunning && activeIntervals == 1
      ensures old(isGameRunning) ==> activeIntervals == old(activeIntervals)
    {
      if isGameRunning {
        return;
      }
      isGameRunning := true;
      activeIntervals := activeIntervals + 1;
    }

    /** Stops the game and cancels its timer: when it is already stopped nothing happens. */
    method StopGame()
      requires Valid()
      modifies this
      ensures Valid()
      ensures !isGameRunning && activeIntervals == 0
      ensures !old(isGameRunning) ==> activeIntervals == old(activeIntervals)
    {
      if !isGameRunning {
        return;
      }
      isGameRunning := false;
      activeIntervals := activeIntervals - 1;
    }

    /**
     * One firing of the timer: the next generation becomes the grid's board
     * and is redrawn. The board it replaces is left as it was.
     */
    method Tick(rows: nat, columns: nat) returns (shown: seq<bool>)
      requires grid.matrix.Length0 == rows && grid.matrix.Length1 == columns
      modifies grid
      ensures fresh(grid.matrix)
      ensures grid.matrix.Length0 == rows && grid.matrix.Length1 == columns
      ensures Cells(grid.matrix) == Step(old(Cells(grid.matrix)), rows, columns)
      ensures |shown| == rows * columns
      ensures forall r, c :: 0 <= r < rows && 0 <= c < columns ==>
        IndexOf(r, c, columns) < |shown| && shown[IndexOf(r, c, columns)] == grid.matrix[r, c]
    {
      var nextMatrix := NextGeneration(grid.matrix, rows, columns);
      grid.SetMatrix(nextMatrix);
      shown := grid.UpdateGrid(rows, columns);
    }

    /** Clears the board: an all-dead board of the configured size rows x columns replaces it. */
    method ClearGrid(rows: nat, columns: nat) returns (shown: seq<bool>)
      modifies grid
      ensures fresh(grid.matrix)
      ensures grid.matrix.Length0 == rows && grid.matrix.Length1 == columns
      ensures Cells(grid.matrix) == Blank(rows, columns)
      ensures |shown| == rows * columns && forall i :: 0 <= i < |shown| ==> !shown[i]
    {
      shown := grid.ResetMatrix(rows, columns);
    }

    /**
     * A click on the rendered cell at flat position `index`: the board cell
     * (index / columns, index % columns) is negated in place and no other
     * cell changes. Returns the cell's new state.
     */
    method ToggleCell(index: nat, columns: nat) returns (alive: bool)
      requires grid.matrix.Length1 == columns && index < grid.matrix.Length0 * columns
      modifies grid.matrix
      ensures columns >= 1
      ensures CellOf(index, columns).0 < grid.matrix.Length0
      ensures Cells(grid.matrix) == Flip(old(Cells(grid.matrix)), CellOf(index, columns).0, CellOf(index, columns).1)
      ensures alive == grid.matrix[CellOf(index, columns).0, CellOf(index, columns).1]
    {
      ghost var before := Cells(grid.matrix);
      var rows := grid.matrix.Length0;
      CellOfInRange(index, rows, columns);
      var (row, col) := CellOf(index, columns);
      var matrix := grid.matrix;
      matrix[row, col] := !matrix[row, col];
      alive := matrix[row, col];
      SameCells(Cells(matrix), Flip(before, row, col), rows, columns);
    }
  }
}

/**
 * Conway's rule on a toroidal board: the wrapped coordinate, the live
 * neighbour count as the engine's two nested loops accumulate it, the
 * survival/birth rule and one whole generation, with what holds of them.
 */
module Rules {
  import opened Board

  /**
   * The wrapped coordinate `(x + d + n) % n` of the offset `d` from `x` on an
   * axis of length `n`. The dividend is never negative, so JavaScript's
   * truncating `%` and Dafny's Euclidean `%` agree on it. The result is the
   * plain `x + d` inside the axis, and crosses to the other edge outside it.
   */
  function Wrap(x: nat, d: int, n: nat): (w: nat)
    requires x < n && -1 <= d <= 1
    ensures w < n
    ensures w == if x + d < 0 then x + d + n else if x + d >= n then x + d - n else x + d
  {
    (x + d + n) % n
  }

  /** A row and column offset of the neighbourhood, each in -1..1. */
  type Offset = o: (int, int) | -1 <= o.0 <= 1 && -1 <= o.1 <= 1 witness (0, 0)

  /** The nine offsets (row, column) in the order the engine's two loops visit them. */
  const Offsets: seq<Offset> := [(-1, -1), (-1, 0), (-1, 1), (0, -1), (0, 0), (0, 1), (1, -1), (1, 0), (1, 1)]

  /** 1 when the loop body for offset `o` increments the count, else 0; the centre (0, 0) is skipped. */
  function Seen(m: Matrix, rows: nat, columns: nat, row: nat, col: nat, o: Offset): nat
    requires IsGrid(m, rows, columns) && row < rows && col < columns
  {
    if o == (0, 0) then 0
    else if m[Wrap(row, o.0, rows)][Wrap(col, o.1, columns)] then 1 else 0
  }

  /**
   * What the loops have counted once they have visited `offsets`. The centre
   * never counts, so the count is at most the number of other offsets visited.
   */
  function CountOver(m: Matrix, rows: nat, columns: nat, row: nat, col: nat, offsets: seq<Offset>): (k: nat)
    requires IsGrid(m, rows, columns) && row < rows && col < columns
    ensures k + (if (0, 0) in offsets then 1 else 0) <= |offsets|
  {
    if offsets == [] then 0
    else
      var last := offsets[|offsets| - 1];
      assert offsets == offsets[..|offsets| - 1] + [last];
      CountOver(m, rows, columns, row, col, offsets[..|offsets| - 1]) + Seen(m, rows, columns, row, col, last)
  }

  /**
   * The number of the eight offsets around (row, col) whose wrapped cell is
   * alive. A cell reached by two offsets (an axis of length 1 or 2) is
   * counted once per offset.
   */
  function AliveNeighbors(m: Matrix, rows: nat, columns: nat, row: nat, col: nat): (k: nat)
    requires IsGrid(m, rows, columns) && row < rows && col < columns
    ensures k <= 8
  {
    assert Offsets[4] == (0, 0);
    CountOver(m, rows, columns, row, col, Offsets)
  }

  /** Every occurrence of the centre is skipped, so the count is at most the number of non-centre offsets visited. */
  lemma {:induction false} CountOverBound(m: Matrix, rows: nat, columns: nat, row: nat, col: nat, offsets: seq<Offset>)
    requires IsGrid(m, rows, columns) && row < rows && col < columns
    ensures CountOver(m, rows, columns, row, col, offsets) <= |offsets| - multiset(offsets)[(0, 0)]
  {
    if offsets != [] {
      var prefix, last := offsets[..|offsets| - 1], offsets[|offsets| - 1];
      assert offsets == prefix + [last];
      assert multiset(offsets) == multiset(prefix) + multiset{last};
      CountOverBound(m, rows, columns, row, col, prefix);
    }
  }

  /** Visiting one more offset of the loop order adds what that offset sees. */
  lemma CountOverNext(m: Matrix, rows: nat, columns: nat, row: nat, col: nat, k: nat)
    requires IsGrid(m, rows, columns) && row < rows && col < columns && k < |Offsets|
    ensures CountOver(m, rows, columns, row, col, Offsets[..k + 1])
         == CountOver(m, rows, columns, row, col, Offsets[..k]) + Seen(m, rows, columns, row, col, Offsets[k])
  {
    assert Offsets[..k + 1][..k] == Offsets[..k];
  }

  /** The offset the loops visit at position 3 * (i + 1) + (j + 1) is (i, j). */
  lemma OffsetAt(i: int, j: int)
    requires -1 <= i <= 1 && -1 <= j <= 1
    ensures 3 * (i + 1) + (j + 1) < |Offsets| && Offsets[3 * (i + 1) + (j + 1)] == (i, j)
  {
  }

  /** The neighbour count written out as the sum over the eight offsets other than the centre. */
  lemma {:induction false} AliveNeighborsEight(m: Matrix, rows: nat, columns: nat, row: nat, col: nat)
    requires IsGrid(m, rows, columns) && row < rows && col < columns
    ensures AliveNeighbors(m, rows, columns, row, col) ==
      Seen(m, rows, columns, row, col, (-1, -1)) + Seen(m, rows, columns, row, col, (-1, 0)) +
      Seen(m, rows, columns, row, col, (-1, 1)) + Seen(m, rows, columns, row, col, (0, -1)) +
      Seen(m, rows, columns, row, col, (0, 1)) + Seen(m, rows, columns, row, col, (1, -1)) +
      Seen(m, rows, columns, row, col, (1, 0)) + Seen(m, rows, columns, row, col, (1, 1))
  {
    assert Offsets[..0] == [];
    CountOverNext(m, rows, columns, row, col, 0);
    CountOverNext(m, rows, columns, row, col, 1);
    CountOverNext(m, rows, columns, row, col, 2);
    CountOverNext(m, rows, columns, row, col, 3);
    CountOverNext(m, rows, columns, row, col, 4);
    CountOverNext(m, rows, columns, row, col, 5);
    CountOverNext(m, rows, columns, row, col, 6);
    CountOverNext(m, rows, columns, row, col, 7);
    CountOverNext(m, rows, columns, row, col, 8);
    assert Offsets[..9] == Offsets;
  }

  /** Counting in loop order: offset (i, j) adds one exactly when it is not the centre and its wrapped cell is alive. */
  lemma CountOneMore(m: Matrix, rows: nat, columns: nat, row: nat, col: nat, i: int, j: int)
    requires IsGrid(m, rows, columns) && row < rows && col < columns
    requires -1 <= i <= 1 && -1 <= j <= 1
    ensures CountOver(m, rows, columns, row, col, Offsets[..3 * (i + 1) + (j + 1) + 1])
         == CountOver(m, rows, columns, row, col, Offsets[..3 * (i + 1) + (j + 1)])
          + if i == 0 && j == 0 then 0
            else if m[(row + i + rows) % rows][(col + j + columns) % columns] then 1 else 0
  {
    OffsetAt(i, j);
    CountOverNext(m, rows, columns, row, col, 3 * (i + 1) + (j + 1));
  }

  /** The next state of a cell: a live cell survives with 2 or 3 live neighbours, a dead one is born with 3. */
  predicate Rule(alive: bool, neighbors: nat)
  {
    if alive then neighbors == 2 || neighbors == 3 else neighbors == 3
  }

  /** The state of cell (r, c) in the generation after `m`. */
  predicate NextCell(m: Matrix, rows: nat, columns: nat, r: nat, c: nat)
    requires IsGrid(m, rows, columns) && r < rows && c < columns
  {
    Rule(m[r][c], AliveNeighbors(m, rows, columns, r, c))
  }

  /** One generation: every cell's rule applied to neighbours counted on the old board. */
  function Step(m: Matrix, rows: nat, columns: nat): (m': Matrix)
    requires IsGrid(m, rows, columns)
    ensures IsGrid(m', rows, columns)
  {
    seq(rows, r requires 0 <= r < rows =>
      seq(columns, c requires 0 <= c < columns => NextCell(m, rows, columns, r, c)))
  }

  /** Conway's B3/S23: a cell is alive in the next generation iff it has 3 live neighbours, or it is alive and has 2. */
  lemma StepRule(m: Matrix, rows: nat, columns: nat, r: nat, c: nat)
    requires IsGrid(m, rows, columns) && r < rows && c < columns
    ensures Step(m, rows, columns)[r][c] <==>
      AliveNeighbors(m, rows, columns, r, c) == 3 || (m[r][c] && AliveNeighbors(m, rows, columns, r, c) == 2)
  {
  }

  // ---------------------------------------------------------------------
  // The wrap on axes of various lengths

  /** On an axis of length 3 or more the three offsets reach three different cells, the centre only by offset 0. */
  lemma WrapDistinct(x: nat, d: int, d': int, n: nat)
    requires 3 <= n && x < n && -1 <= d <= 1 && -1 <= d' <= 1
    ensures Wrap(x, d, n) == Wrap(x, d', n) <==> d == d'
    ensures Wrap(x, d, n) == x <==> d == 0
  {
  }

  /** On an axis of length 2 the offsets -1 and +1 reach the same cell. */
  lemma WrapTwoWide(x: nat)
    requires x < 2
    ensures Wrap(x, -1, 2) == Wrap(x, 1, 2) != x
  {
  }

  /** On an axis of length 1 every offset wraps back onto the cell itself. */
  lemma WrapOneWide(d: int)
    requires -1 <= d <= 1
    ensures Wrap(0, d, 1) == 0
  {
  }

  /** On a 1 x 1 board the only cell is its own neighbour eight times. */
  lemma OneByOneCountsItself(m: Matrix)
    requires IsGrid(m, 1, 1)
    ensures AliveNeighbors(m, 1, 1, 0, 0) == if m[0][0] then 8 else 0
  {
    AliveNeighborsEight(m, 1, 1, 0, 0);
  }

  /** So on a 1 x 1 board the cell dies every generation: 8 is never 2 or 3. */
  lemma OneByOneDies(m: Matrix)
    requires IsGrid(m, 1, 1)
    ensures Step(m, 1, 1) == [[false]]
  {
    OneByOneCountsItself(m);
    SameCells(Step(m, 1, 1), [[false]], 1, 1);
  }

  // ---------------------------------------------------------------------
  // The all-dead board

  /** No cell of the all-dead board has a live neighbour. */
  lemma {:induction false} BlankHasNoNeighbors(rows: nat, columns: nat, row: nat, col: nat)
    requires row < rows && col < columns
    ensures AliveNeighbors(Blank(rows, columns), rows, columns, row, col) == 0
  {
    AliveNeighborsEight(Blank(rows, columns), rows, columns, row, col);
  }

  /** The all-dead board is a fixed point of a generation. */
  lemma BlankIsStable(rows: nat, columns: nat)
    ensures Step(Blank(rows, columns), rows, columns) == Blank(rows, columns)
  {
    var m := Blank(rows, columns);
    forall r, c | 0 <= r < rows && 0 <= c < columns
      ensures Step(m, rows, columns)[r][c] == m[r][c]
    {
      BlankHasNoNeighbors(rows, columns, r, c);
    }
    SameCells(Step(m, rows, columns), m, rows, columns);
  }

  // ---------------------------------------------------------------------
  // The torus has no edge: a generation commutes with moving the board
  // one row or one column around it.

  /** The board moved up one row: row r shows what row r + 1 (wrapping) held. */
  function ShiftRows(m: Matrix, rows: nat, columns: nat): (m': Matrix)
    requires IsGrid(m, rows, columns)
    ensures IsGrid(m', rows, columns)
  {
    seq(rows, r requires 0 <= r < rows => m[(r + 1) % rows])
  }

  /** The board moved left one column: column c shows what column c + 1 (wrapping) held. */
  function ShiftColumns(m: Matrix, rows: nat, columns: nat): (m': Matrix)
    requires IsGrid(m, rows, columns)
    ensures IsGrid(m', rows, columns)
    ensures forall r, c :: 0 <= r < rows && 0 <= c < columns ==> m'[r][c] == m[r][(c + 1) % columns]
  {
    seq(rows, r requires 0 <= r < rows =>
      seq(columns, c requires 0 <= c < columns => m[r][(c + 1) % columns]))
  }

  /** Moving one step along an axis and then by offset d is moving by d and then one step. */
  lemma WrapThenStep(x: nat, d: int, n: nat)
    requires x < n && -1 <= d <= 1
    ensures (Wrap(x, d, n) + 1) % n == Wrap((x + 1) % n, d, n)
  {
    ModBelowTwice(x + 1, n);
    ModBelowTwice(Wrap(x, d, n) + 1, n);
  }

  lemma ModBelowTwice(a: nat, n: nat)
    requires 1 <= n && a < 2 * n
    ensures a % n == if a >= n then a - n else a
  {
    if a >= n {
      assert a == 1 * n + (a - n);
    } else {
      assert a == 0 * n + a;
    }
  }

  /** Over any offsets, the cell (row, col) of the board moved up one row sees what cell (row + 1, col) of the board saw. */
  lemma {:induction false} ShiftRowsCount(m: Matrix, rows: nat, columns: nat, row: nat, col: nat, offsets: seq<Offset>)
    requires IsGrid(m, rows, columns) && row < rows && col < columns
    ensures CountOver(ShiftRows(m, rows, columns), rows, columns, row, col, offsets)
         == CountOver(m, rows, columns, (row + 1) % rows, col, offsets)
  {
    if offsets != [] {
      var last := offsets[|offsets| - 1];
      assert offsets == offsets[..|offsets| - 1] + [last];
      ShiftRowsCount(m, rows, columns, row, col, offsets[..|offsets| - 1]);
      WrapThenStep(row, last.0, rows);
    }
  }

  lemma ShiftRowsNeighbors(m: Matrix, rows: nat, columns: nat, row: nat, col: nat)
    requires IsGrid(m, rows, columns) && row < rows && col < columns
    ensures AliveNeighbors(ShiftRows(m, rows, columns), rows, columns, row, col)
         == AliveNeighbors(m, rows, columns, (row + 1) % rows, col)
  {
    ShiftRowsCount(m, rows, columns, row, col, Offsets);
  }

  /** Over any offsets, the cell (row, col) of the board moved left one column sees what cell (row, col + 1) of the board saw. */
  lemma {:induction false} ShiftColumnsCount(m: Matrix, rows: nat, columns: nat, row: nat, col: nat, offsets: seq<Offset>)
    requires IsGrid(m, rows, columns) && row < rows && col < columns
    ensures CountOver(ShiftColumns(m, rows, columns), rows, columns, row, col, offsets)
         == CountOver(m, rows, columns, row, (col + 1) % columns, offsets)
  {
    if offsets != [] {
      var last := offsets[|offsets| - 1];
      assert offsets == offsets[..|offsets| - 1] + [last];
      ShiftColumnsCount(m, rows, columns, row, col, offsets[..|offsets| - 1]);
      WrapThenStep(col, last.1, columns);
    }
  }

  lemma ShiftColumnsNeighbors(m: Matrix, rows: nat, columns: nat, row: nat, col: nat)
    requires IsGrid(m, rows, columns) && row < rows && col < columns
    ensures AliveNeighbors(ShiftColumns(m, rows, columns), rows, columns, row, col)
         == AliveNeighbors(m, rows, columns, row, (col + 1) % columns)
  {
    ShiftColumnsCount(m, rows, columns, row, col, Offsets);
  }

  /** A generation of the board moved up one row is the moved generation. */
  lemma StepCommutesWithShiftRows(m: Matrix, rows: nat, columns: nat)
    requires IsGrid(m, rows, columns)
    ensures Step(ShiftRows(m, rows, columns), rows, columns) == ShiftRows(Step(m, rows, columns), rows, columns)
  {
    var s := ShiftRows(m, rows, columns);
    var a := Step(s, rows, columns);
    var b := ShiftRows(Step(m, rows, columns), rows, columns);
    forall r, c | 0 <= r < rows && 0 <= c < columns
      ensures a[r][c] == b[r][c]
    {
      var r' := (r + 1) % rows;
      ShiftRowsNeighbors(m, rows, columns, r, c);
      assert s[r][c] == m[r'][c];
      assert b[r][c] == Step(m, rows, columns)[r'][c];
    }
    SameCells(a, b, rows, columns);
  }

  /** A generation of the board moved left one column is the moved generation. */
  lemma StepCommutesWithShiftColumns(m: Matrix, rows: nat, columns: nat)
    requires IsGrid(m, rows, columns)
    ensures Step(ShiftColumns(m, rows, columns), rows, columns) == ShiftColumns(Step(m, rows, columns), rows, columns)
  {
    var a := Step(ShiftColumns(m, rows, columns), rows, columns);
    var b := ShiftColumns(Step(m, rows, columns), rows, columns);
    forall r, c | 0 <= r < rows && 0 <= c < columns
      ensures a[r][c] == b[r][c]
    {
      StepShiftColumnsAt(m, rows, columns, r, c);
    }
    SameCells(a, b, rows, columns);
  }

  lemma StepShiftColumnsAt(m: Matrix, rows: nat, columns: nat, r: nat, c: nat)
    requires IsGrid(m, rows, columns) && r < rows && c < columns
    ensures Step(ShiftColumns(m, rows, columns), rows, columns)[r][c]
         == ShiftColumns(Step(m, rows, columns), rows, columns)[r][c]
  {
    var s := ShiftColumns(m, rows, columns);
    var next := Step(m, rows, columns);
    var c' := (c + 1) % columns;
    ShiftColumnsNeighbors(m, rows, columns, r, c);
    assert s[r][c] == m[r][c'];
    assert ShiftColumns(next, rows, columns)[r][c] == next[r][c'];
  }
}

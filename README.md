# Conway's Game of Life on a torus — a Dafny model

This project models the core of a browser Game of Life written in JavaScript
(`script.js`). The board is a rows × columns matrix of booleans (true =
alive). Its edges wrap around: the neighbour of a cell across an edge is the
cell on the opposite edge. The model covers four parts:

- The game engine. It counts a cell's live neighbours with two nested loops
  over the offsets -1..1, using the wrapped index `(x + d + n) % n`. It
  computes the next generation by copying the board and then overwriting
  every cell of the copy by Conway's rule (B3/S23). Counts are always read
  from the board it was given.
- The grid. It holds the current board. It can set up a new all-dead board,
  take over a board that is handed to it, clear itself, and redraw. A redraw
  maps each rendered cell's flat index to the board cell
  `(index / columns, index % columns)`.
- The game controller. It keeps the running flag. Start and stop are guarded,
  so neither ever schedules a second timer. It also holds the timer's tick
  (the next generation becomes the board, then the board is redrawn), the
  clear button, and the click on a cell that flips that one cell in place.
- The rule itself, as pure functions: `Wrap`, `AliveNeighbors`, `Rule`, `Step`.
  Lemmas about them cover the torus and small boards.

Modules:

- `Board` (board.dfy) holds boards as values: `Matrix = seq<seq<bool>>`, the
  all-dead board, a single-cell flip, and the index ↔ (row, column) mapping.
  It also holds `Cells`, which reads an `array2<bool>` as a `Matrix`.
- `Rules` (rules.dfy) holds the specification functions and their lemmas.
- `Engine` (engine.dfy) holds the two loops of the game engine as methods over
  `array2<bool>`. Each is proved equal to its specification function.
- `GridState` (gridstate.dfy) holds the grid as a class whose `matrix` field
  is replaced wholesale.
- `Controller` (controller.dfy) holds the game controller as a class with the
  running flag and the number of scheduled timers.
- `Patterns` (patterns.dfy) applies a generation to known boards: a lone
  cell, a block and a blinker.

The board size (`Config.getRows()`, `Config.getColumns()` in the source) is
passed as a parameter. Every operation that reads the board requires it to
have exactly that size, as the program guarantees by rebuilding the grid
whenever the size changes; the operations that build a new board build it at
that size.

Two points where the model follows the code:

- Zero dimensions. A grid of 0 rows or 0 columns is not rejected: building the
  board with a length of 0 gives an empty board. Every operation then does
  nothing, because no cells are rendered and the loops run zero times. So no
  "invalid dimension" error exists in the model, and `Blank`,
  `Grid.Initialize` and `NextGeneration` accept 0.
- Small boards. They are counted literally. On an axis of length 1 or 2,
  several offsets reach the same cell, and each offset counts it once. On a
  1 × 1 board the cell is its own neighbour eight times, so it always dies
  (`OneByOneCountsItself`, `OneByOneDies`).

## Model

| member | source | states |
|---|---|---|
| Rules.Wrap | script.js:127-128 | the wrapped index is inside the axis, and equals the plain `x + d` inside it and the index on the opposite edge when `x + d` falls off either end |
| Rules.WrapDistinct | script.js:127-128 | on an axis of length ≥ 3 the offsets -1, 0, 1 reach three different cells, and only offset 0 reaches the cell itself |
| Rules.WrapTwoWide | script.js:127-128 | on an axis of length 2, offsets -1 and +1 reach the same other cell |
| Rules.WrapOneWide | script.js:127-128 | on an axis of length 1 every offset wraps back to the cell itself |
| Rules.CountOver | script.js:122-131 | the count accumulated over a sequence of offsets is at most its length, and at most its length less one when the centre (0, 0) is among them |
| Rules.CountOverBound | script.js:122-131 | the count accumulated over a sequence of offsets never exceeds the number of non-centre offsets in it, however often the centre (0, 0) occurs |
| Rules.AliveNeighbors | script.js:117-135 | the live-neighbour count of a cell is between 0 and 8 |
| Rules.AliveNeighborsEight | script.js:122-131 | the count is the sum, over the eight offsets other than (0, 0), of 1 when the wrapped cell is alive |
| Rules.CountOverNext | script.js:122-131 | visiting one more offset in loop order adds exactly what that offset contributes |
| Rules.CountOneMore | script.js:124-130 | in loop order, offset (i, j) adds 1 exactly when it is not (0, 0) and the cell at `((row + i + rows) % rows, (col + j + columns) % columns)` is alive |
| Rules.Step | script.js:101-112 | the next generation has the same number of rows and columns |
| Rules.StepRule | script.js:106-110 | a cell is alive in the next generation iff it has 3 live neighbours, or it is alive and has 2 |
| Rules.OneByOneCountsItself | script.js:122-130 | on a 1 × 1 board the cell counts itself 8 times when alive, and 0 times otherwise |
| Rules.OneByOneDies | script.js:103-112 | on a 1 × 1 board the next generation is always the dead cell |
| Rules.BlankHasNoNeighbors | script.js:117-135 | no cell of the all-dead board has a live neighbour |
| Rules.BlankIsStable | script.js:98-115 | the all-dead board is a fixed point of a generation |
| Rules.WrapThenStep | script.js:127-128 | moving one step around an axis and then by an offset is the same as moving by the offset and then one step |
| Rules.ShiftRowsCount | script.js:122-131 | over any offsets, cell (row, col) of the board moved up one row sees what cell ((row + 1) % rows, col) saw |
| Rules.ShiftRowsNeighbors | script.js:117-135 | so its live-neighbour count is that cell's count |
| Rules.ShiftColumnsCount | script.js:122-131 | over any offsets, cell (row, col) of the board moved left one column sees what cell (row, (col + 1) % columns) saw |
| Rules.ShiftColumnsNeighbors | script.js:117-135 | so its live-neighbour count is that cell's count |
| Rules.StepCommutesWithShiftRows | script.js:98-135 | the torus has no edge: a generation of the board moved up one row is the moved generation |
| Rules.StepCommutesWithShiftColumns | script.js:98-135 | a generation of the board moved left one column is the moved generation |
| Patterns.LoneCellDies | script.js:98-115 | a 3 × 3 board whose only live cell is the centre becomes all dead in one generation |
| Patterns.BlockIsStill | script.js:98-115 | a 2 × 2 block on a 4 × 4 board is a still life |
| Patterns.BlinkerTurnsUp | script.js:98-115 | a horizontal bar of three cells on a 5 × 5 board becomes the upright bar |
| Patterns.BlinkerTurnsDown | script.js:98-115 | the upright bar becomes the horizontal bar again |
| Patterns.BlinkerPeriodTwo | script.js:98-115 | the blinker changes in one generation and is back after two |
| Engine.CountAliveNeighbors | script.js:117-135 | the two nested loops return exactly the live-neighbour count `AliveNeighbors` of the board at (row, col) |
| Engine.NextGeneration | script.js:98-115 | returns a new array with the board's dimensions holding `Step` of the board, and leaves the board it was given unchanged |
| Board.Blank | script.js:39 | the new board has `rows` rows of `columns` cells, all dead |
| Board.Flip | script.js:236 | the flipped board has the same shape, and only cell (row, col) differs, being negated |
| Board.FlipTwice | script.js:236 | flipping the same cell twice gives back the board |
| Board.CellOf | script.js:231-232 | the row and column of a flat index satisfy `row * columns + col == index` with `col < columns` |
| Board.CellOfInRange | script.js:58-61 | every index of a rendered rows × columns board maps to a row below `rows` |
| Board.IndexOfBelow | script.js:59 | every cell (row, col) is rendered at an index below rows * columns |
| Board.CellOfIndexOf | script.js:74-75 | the cell of a cell's index is that cell |
| Board.IndexOfCellOf | script.js:74-75 | the index of an index's cell is that index |
| GridState.Grid.constructor | script.js:35 | the grid starts with an empty board |
| GridState.Grid.NewBlank | script.js:39 | a fresh rows × columns array with every cell dead |
| GridState.Grid.Initialize | script.js:38-43 | the grid's board becomes a fresh all-dead board of the requested size |
| GridState.Grid.SetMatrix | script.js:84-86 | the given array itself becomes the board, without a copy |
| GridState.Grid.ResetMatrix | script.js:87-92 | the board becomes a fresh all-dead board of the configured size, and the redraw shows every cell dead |
| GridState.Grid.UpdateGrid | script.js:69-78 | the redraw gives rows * columns states, and the state at a cell's index is that cell's state |
| Controller.GameController.constructor | script.js:144-145 | the controller starts stopped, with no timer |
| Controller.GameController.StartGame | script.js:192-201 | afterwards the game runs with exactly one timer; starting a running game schedules no second one |
| Controller.GameController.StopGame | script.js:203-208 | afterwards the game is stopped with no timer; stopping a stopped game changes nothing |
| Controller.GameController.Tick | script.js:196-200 | the grid's board becomes `Step` of the previous board, and the redraw shows it |
| Controller.GameController.ClearGrid | script.js:210-212 | the board becomes an all-dead board of the configured size rows × columns, and the redraw shows every cell dead |
| Controller.GameController.ToggleCell | script.js:227-236 | the cell `(index / columns, index % columns)` is inside the board, and is negated in place; no other cell changes; the result is its new state |

## Left out

- Drawing: creating the cell elements, CSS variables, and the "alive" class
  toggles (script.js:45-67, 77, 235). `UpdateGrid` returns, in rendering
  order, the states the cells are given.
- `Config` (script.js:1-31): the board size is computed from the container's
  pixel size with floating-point division, and the cell size and game speed
  are parsed from text. The model takes the board size as parameters.
- Timers: `setInterval` and `clearInterval` are modelled only by the number
  of scheduled timers. A firing is the method `Tick`, which may be called any
  number of times. The tick's period is not modelled.
- The speed change (script.js:214-225) is not modelled: it replaces a running
  game's timer by another one with the new period, so the number of timers
  does not change.
- Event wiring, form handling and validation, and the resize listener
  (script.js:147-190) are not modelled. Their effect on the game is a call to
  `Grid.Initialize` with the size `Config` computes.
- The log line of a click (script.js:238-240) is not modelled. `ToggleCell`
  returns the cell's new state instead.
- `getMatrix` is not a separate operation: it is the read of the field
  `Grid.matrix`.
- Aliasing of rows: the source's board is an array of row arrays, while the
  model uses one two-dimensional array. The source never shares a row
  between two boards (the copy in `nextGeneration` slices each row), so no
  behaviour depends on this.
- Rules.Step: its own contract states only the shape. What each cell holds is
  stated by `StepRule`, and `Engine.NextGeneration` is proved equal to it.

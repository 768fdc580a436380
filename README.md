# Game of Life grid, modelled in Dafny

This project models the simulation core of a browser Game of Life (`js/init.js`).
A `Grid` holds a `height` x `width` matrix of cells. Each `Cell` knows its
coordinates, whether it is alive, and the neighbour count cached for the current
generation. `Grid.step` computes one generation in two passes:

1. `countLivingNeighbours` on every cell;
2. `update` on every cell, with the B3/S23 rule as callback.

A run is started with a number of steps. The interval timer then calls `step`
until `current_step` reaches `nsteps`, at which point `step` cancels the timer.

The project has three modules:

- `Life` (`life.dfy`) is the specification, written on values. A generation is a
  `seq<seq<bool>>`. It defines the neighbour set of a cell (the live cells of the
  clamped 3x3 window), its count, the rule, `NextGen` and `Generations`. The count
  is tied to an independent eight-offset count. It also proves the blinker and
  lone-cell scenarios on a 3x3 grid.
- `Cells` (`cells.dfy`) holds the cell record and the rule callback. The callback
  keeps JavaScript's three outcomes: `true`, `false` and the `undefined`
  fall-through. `Cell.update` is also here.
- `Grids` (`grid.dfy`) holds the `Grid` class over an `array2<Cell>`:
  - construction, `init`, `resize` and `traverse`;
  - the neighbour scan, the two passes and `step`, proved equal to `NextGen` of
    the previous generation;
  - the start action and the timer loop.

The cell's back-reference to its grid becomes the grid method
`CountLivingNeighbours(y, x)`. The cell's `alive` is a `bool`: every reader of
`alive` tests `=== true` or truthiness, so the `undefined` that the callback
returns for a dead cell is stored as `false`.

## Model

| member | source | states |
|---|---|---|
| Life.Rule | js/init.js:135-141 | A live cell survives iff its count is 2 or 3. A dead cell is born iff its count is exactly 3. A cell that ends up alive had 2 or 3 neighbours. |
| Life.NextGen | js/init.js:128-144 | The next generation has the same shape as the previous one. |
| Life.Generations | js/init.js:198-200 | k generations keep the board's shape. |
| Life.NeighbourCountIsOffsetCount | js/init.js:20-32 | The count over the clamped window, without the cell itself, equals the sum of the eight neighbour offsets, where off-grid positions count as dead. |
| Life.NeighbourCountAtMostEight | js/init.js:20-32 | A count never exceeds 8. |
| Life.CornerCount | js/init.js:20-32 | The count of corner (0, 0) is exactly the live cells among (0, 1), (1, 0) and (1, 1). |
| Life.CornerAtMostThree | js/init.js:22-25 | At any corner of an h x w grid the count is at most 3. |
| Life.NextGenAt | js/init.js:128-144 | Each cell of the next generation is the rule applied to its old state and its eight-offset count. |
| Life.HorizontalBecomesVertical | js/init.js:128-144 | On a 3x3 grid, the horizontal line at y = 1 becomes the vertical line at x = 1 after one generation. |
| Life.VerticalBecomesHorizontal | js/init.js:128-144 | On a 3x3 grid, the vertical line becomes the horizontal line after one generation. |
| Life.BlinkerOscillates | js/init.js:128-144 | The horizontal line is vertical after one generation and equal to itself again after two. |
| Life.LoneCellDies | js/init.js:135-141 | On a 3x3 grid, a lone live centre dies and no cell is born. |
| Cells.TransitionCallback | js/init.js:135-141 | A live cell gets true or false, never undefined. The result is undefined iff the cell is dead and its count is not 3. With a stored count, the result is truthy iff the rule holds. With no count (null), it is never truthy. |
| Cells.Update | js/init.js:16-18 | The cell becomes alive iff the callback returns true. Its coordinates and stored count are unchanged. |
| Grids.RowMajor | js/init.js:120-126 | The visit order has exactly h * w positions, all inside the grid. |
| Grids.RowMajorAt | js/init.js:120-126 | Position (x, y) is visited, at index y * w + x. |
| Grids.RowMajorIndex | js/init.js:120-126 | Index k of the order holds (k % w, k / w). |
| Grids.RowMajorDistinct | js/init.js:120-126 | No position is visited twice. |
| Grids.ScanStart | js/init.js:21-26 | The scan starts at the clamped top-left corner with nothing counted, and no neighbour lies before that corner. |
| Grids.ScanCell | js/init.js:27-28 | Looking at one window cell adds it iff it is alive and not the cell itself. A cell is never counted twice. |
| Grids.ScanRowEnd | js/init.js:25-27 | After the clamped last column, all neighbours of that row have been counted. |
| Grids.ScanEnd | js/init.js:23-26 | After the clamped last row, exactly the neighbour set has been counted. |
| Grids.Grid.constructor | js/init.js:91-99 | A falsy dimension becomes 50, so both dimensions are positive. There are no cells yet, the counters start at 0 and no timer runs. |
| Grids.Grid.Init | js/init.js:101-112 | Builds a fresh height x width matrix. The cell at row y, column x is Cell(x, y), dead, with no count. Dimensions, counters and timer are unchanged. |
| Grids.Grid.Resize | js/init.js:114-118 | Sets each dimension, falling back to 50 when falsy. Then every cell is rebuilt dead in a fresh matrix, so no earlier state survives. |
| Grids.Grid.Traverse | js/init.js:120-126 | The callbacks, as (cell, x, y) triples: exactly height * width of them, in row-major order, each with the cell stored at (x, y). |
| Grids.Grid.LivingNeighbours | js/init.js:20-30 | The scan returns the number of live cells in the clamped 3x3 window, without the cell itself. |
| Grids.Grid.CountLivingNeighbours | js/init.js:20-32 | Stores that count in the cell's liveNeighbours. No alive flag changes and no other cell changes. |
| Grids.Grid.CountPass | js/init.js:131-133 | Every cell holds its count, all taken on the unchanged generation. The alive flags are unchanged. |
| Grids.Grid.UpdatePass | js/init.js:134-142 | Every cell is replaced by Cell.update of its old value with the rule callback. |
| Grids.Grid.Step | js/init.js:128-148 | If current_step < nsteps: the board becomes NextGen of the old board (a synchronous update), current_step grows by 1, every cell holds its old-generation count, and width, height, nsteps and the timer are unchanged. Otherwise no cell and no counter changes, and the timer is cancelled. |
| Grids.Grid.Start | js/init.js:196-201 | nsteps is the given count, or 10 when that is falsy. current_step is 0 and the timer runs. The cells and dimensions are unchanged. |
| Grids.Grid.Run | js/init.js:200 | Repeated timer ticks end with the timer cancelled. An active run computes exactly the generations it had left: the board becomes Generations(old board, k) and current_step grows by k. With no active run, nothing changes. |

## Left out

- The `View` class (js/init.js:37-80) is left out: DOM table construction and CSS classes. It also holds the cell click handler (js/init.js:74-78). That handler writes core state: it toggles a cell's `alive` at any time, even during a run.
- The `$(document).ready` wiring (js/init.js:155-203) is left out, except the start action. This covers:
  - reading `<input>` values;
  - the create-grid button;
  - the initial `new Grid(25, 25)`.
- File import (js/init.js:164-192) is left out. It is asynchronous browser I/O, and its parsing relies on loose equality and on a trailing newline.
- The interval timer's period (`speed`, js/init.js:197) is left out, and so is time itself. The timer is a boolean `timerActive`. `Run` models its ticks as a loop.
- Grids.Grid.Run: assumes that nothing else runs between two timer ticks. In the program, two handlers can interleave with a run:
  - the cell click handler (js/init.js:74-78), which toggles a cell's `alive`;
  - the create-grid handler (js/init.js:162-172), which calls `resize`, rebuilding every cell dead while `current_step`, `nsteps` and the interval are kept.

  The next `step` then works on the edited board, so the program's result differs from `Generations` of the board at the start of the run.
- Grids.Grid.Start: does not model a second start while a run is active. In JavaScript that leaves an earlier interval that is never cleared; the model has a single timer flag.
- Grids.Grid.Step: does not model `console.log` (js/init.js:130) or `self.view.update()` (js/init.js:143). Both are notifications with no effect on the grid.
- Grids.Grid.constructor: does not model the `view` and `timer` handles. It models the null `current_step` and `nsteps` as 0. `null < null` is false, just as `0 < 0` is, so `step` behaves the same.
- Grids.OrElse: JavaScript's `value || 50` is modelled on natural numbers with 0 standing for every falsy value. As a result:
  - dimensions and step counts are naturals, not the strings that input fields deliver;
  - the string `"0"` (truthy in JavaScript) is not modelled;
  - negative or non-numeric input is not modelled.
- Cells.Update: `alive` is stored as the callback's truthiness. JavaScript would store the `undefined` itself. Every reader compares with `=== true` or tests truthiness, so both read as dead.
- Cells are values in the matrix, not shared objects. This leaves out:
  - aliasing through the view's `cell.element`;
  - the cell's `grid` back-reference, whose only use (the neighbour scan) is a grid method here.
- Grids.Grid.Traverse: the callback is not modelled as a parameter. The method returns the sequence of calls it would make, and `step`'s two passes are written as their own loops.

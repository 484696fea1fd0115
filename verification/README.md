# Conway's Game of Life on a torus — a Dafny model of conway.c

This project models the simulation core of `conway.c`, a small SDL program.
The program keeps an 80 x 80 Game of Life board that wraps at the edges,
and lets the user paint cells with the mouse, pause, single-step, clear and
change the tick interval from the keyboard. The SDL rendering and set-up are
not modelled. The model covers:

- **Board** (`board.dfy`): the flat board and `getArrValue`'s wrap-around
  addressing, modelled exactly as written. It also gives the toroidal index
  the formula is meant to compute, proves the two agree on a square grid,
  and proves the program's store address `x + y * ROWS` hits the same cell.
- **Rules** (`rules.dfy`): `countNeighbors` as the nested loop it is, proved
  equal to the Moore-neighbourhood count. Also the B3/S23 rule from the
  header comment, the branches `tick` uses for one cell, and the pure next
  generation `NextGen`.
- **Engine** (`engine.dfy`): `tick` on the two boards. It copies the board
  into the scratch board, then rewrites the board column by column, reading
  only the scratch board. It is proved equal to `NextGen` on any board of 0s
  and 1s. Also the clear loop of `processInputs`.
- **Input** (`input.dfy`): the current and previous input arrays,
  `getInput`, `getFirstInput` and `getLastInput`, and the end-of-frame
  snapshot (`memcpy`). Over several frames, holding a key gives exactly one
  rising edge.
- **Controller** (`controller.dfy`): `updateMouseRect` and `processInputs`,
  in the program's fixed order: paint, pause, speed, clear, step.
- **Clock** (`clock.dfy`): the lag-drain loop of `main`. For a
  non-negative lag it runs exactly floor(lag / speed) times. It leaves the
  remainder and advances the board that many generations unless paused.
- **MainLoop** (`frame.dfy`): one pass of `main`'s loop. Add the elapsed
  time, apply the events up to a quit, run `processInputs`, take the
  snapshot, drain the lag.
- **Patterns** (`patterns.dfy`): consequences of the rule on the torus.
  A tick commutes with moving the board round the torus, so a 2 x 2 block
  is a still life and a blinker has period 2 at every position, including
  positions that wrap across the edges.

Cells are `int`, as in the program, which stores them in `int` arrays and
tests them with `== 1`. The predicate `Board.Binary` ("every cell is 0 or
1") is the invariant under which `tick` is the textbook rule. The program
only ever stores 0 or 1: `calloc`, the paint write `getInput(L_CLICK)`, and
the constants of `tick` and the clear.

The board size is fixed at `ROWS = COLS = 80`. The program relies on the
board being square: `getArrValue` wraps y with the width and uses the height
as the row stride, and every store uses `ROWS` as the stride.
`Board.GetArrValue` keeps the formula as written and requires `w == h`. The
general toroidal index is `Board.ArrIndex`; see Findings.

## Model

| member | source | states |
|---|---|---|
| Board.Dead | conway.c:174-177 | A freshly allocated board has every one of its ROWS*COLS cells 0 |
| Board.ArrIndexAsWritten | conway.c:233-235 | getArrValue's index formula as written is non-negative for coordinates no further than one width below zero |
| Board.ArrIndex | conway.c:230-235 | The intended toroidal index lies in [0, w*h); its column (k mod w) is x mod w and its row (k div w) is y mod h |
| Board.ArrIndexPeriodic | conway.c:230 | Shifting by whole widths and heights, in either direction, reaches the same index: the board "loops around" |
| Board.ArrIndexSquare | conway.c:233-235 | On a square grid (w == h) the formula as written equals the toroidal index |
| Board.ArrIndexNonSquareOverrun | conway.c:234-235 | On a 2-wide, 3-high grid the formula as written sends (1, 0) to index 7, past a 6-cell array, where the toroidal index is 1 |
| Board.GetArrValue | conway.c:231-236 | With w == h, getArrValue returns the value of the toroidal cell (x mod w, y mod h) |
| Board.Idx | conway.c:251 | The store address x + y*ROWS of an in-board cell lies in [0, ROWS*COLS) |
| Board.IdxIsArrIndex | conway.c:397-407 | The address tick writes (i + j*ROWS) is the address getArrValue reads for the same in-board cell |
| Board.IdxRoundTrip | conway.c:36-37 | Flat indices and in-board (column, row) pairs correspond one to one, in both directions |
| Board.IdxInjective | conway.c:36-37 | Two in-board cells have the same flat index exactly when they are the same cell |
| Board.CellWraps | conway.c:230-235 | Column -1 reads column COLS-1, column COLS reads column 0, and the same for rows; in-board cells read where they are stored |
| Board.CellPeriodic | conway.c:230 | Reading the torus is periodic with period COLS in x and ROWS in y |
| Board.GetArrValueIsCell | conway.c:231-236 | For every x >= -COLS and y >= -ROWS, getArrValue reads inside the board, at the toroidal cell |
| Rules.Neighbours | conway.c:360-381 | The Moore-neighbourhood count is between 0 and 8 |
| Rules.TermIsLive | conway.c:371-377 | One inner-loop step adds 0 at the centre and otherwise 1 exactly when the wrapped cell holds 1 |
| Rules.ColumnSumUnrolled | conway.c:368-378 | One pass of the inner loop counts the live cells of its column's three rows, skipping the centre |
| Rules.BlockSumIsNeighbours | conway.c:366-379 | The nested loops of countNeighbors count exactly the eight wrapped neighbours |
| Rules.CountNeighbors | conway.c:360-381 | countNeighbors returns the Moore-neighbourhood count, a value in [0, 8] |
| Rules.NeighboursAllDead | conway.c:360-381 | On a board with no live cell every count is 0 |
| Rules.NeighboursAllAlive | conway.c:360-381 | On a board whose every cell is live every count is 8 |
| Rules.NeighboursExcludeCentre | conway.c:371-372 | The centre is never counted: changing it leaves its own count unchanged |
| Rules.TickCellIsRule | conway.c:396-408 | On a 0/1 cell, tick's branches (the function Rules.TickCell, which keeps the cell's value when no branch fires) give 1 exactly when B3/S23 says the cell lives (2 or 3 neighbours if live, exactly 3 if dead), and 0 otherwise |
| Rules.NextGen | conway.c:3-6 | The next generation is a board of 0s and 1s of the same size |
| Rules.NextGenAt | conway.c:3-6 | A cell of the next generation is live exactly when rules 1-4 say so for its pre-tick state and count |
| Rules.NextGenDead | conway.c:273-289 | An empty board stays empty, so ENTER and S in one frame leave the board cleared |
| Engine.Tick | conway.c:382-411 | tick leaves the scratch board equal to the old board and writes each cell from the rule applied to the old board's value and count |
| Engine.TickIsNextGen | conway.c:387-407 | Because every count reads the unchanging snapshot, on a 0/1 board tick's result is exactly NextGen of the old board |
| Engine.Step | conway.c:382-411 | On a 0/1 board one tick yields NextGen of the board and leaves the old board in the scratch board |
| Engine.Clear | conway.c:276-280 | The clear loop zeroes every cell of both boards |
| Input.Initial | conway.c:148-152 | At start-up no input is held, now or in the previous frame |
| Input.SetInput | conway.c:294-333 | An input event sets the current state of exactly one input and leaves the previous state alone |
| Input.EndFrame | conway.c:109 | The snapshot copies every current state into the previous state |
| Input.GuardAdmitsAsWritten | conway.c:343-344 | The guard as written admits a key outside [0, NUM_INPUTS) exactly when the key is NUM_INPUTS |
| Input.GuardOffByOne | conway.c:343-345 | The guard lets NUM_INPUTS through to a read at index NUM_INPUTS of a NUM_INPUTS-entry array |
| Input.KeyInRange | conway.c:343-355 | The corrected guard admits a key exactly when the guard as written does and the key is not NUM_INPUTS |
| Input.GuardsAgree | conway.c:343-344 | The guard as written and the in-range guard agree on every key except NUM_INPUTS |
| Input.GetInput | conway.c:341-346 | A key outside the inputs (including a negative one) reads as not held |
| Input.GetFirstInput | conway.c:347-352 | A rising edge implies the key is held; a key outside the inputs never rises |
| Input.GetLastInput | conway.c:353-358 | A falling edge implies the key is not held; a key outside the inputs never falls |
| Input.EdgesExclusive | conway.c:347-358 | No input rises and falls in the same frame |
| Input.EdgeIsChange | conway.c:347-358 | An in-range input shows an edge exactly when its current and previous states differ |
| Input.NoEdgeAfterSnapshot | conway.c:107-109 | Right after the snapshot no input shows an edge and every level is unchanged |
| Input.RisingEdgesExact | conway.c:107-109 | Across frames with one snapshot each, the rising edge in frame f is "held in f and not held in f-1" |
| Input.HoldRisesOnce | conway.c:107-109 | Holding a released key for n >= 1 frames gives exactly one rising edge, in the first frame |
| Controller.Init | conway.c:59-76 | The start-up state is consistent: both boards empty, nothing held now or before, a 500 ms delay, the cursor at (0, 0), paused |
| Controller.CDiv | conway.c:226-227 | C's division by a positive divisor truncates toward zero: floor for non-negative dividends, ceiling for negative ones |
| Controller.UpdateMouseRect | conway.c:221-227 | With a zero cell dimension the cursor is unchanged; otherwise a non-negative pixel lies inside the cell it selects, and a pixel less than one cell left of (or above) zero truncates to cell 0 |
| Controller.CursorInBoard | conway.c:131-132 | Every pixel of the 800 x 800 window selects a cell of the 80 x 80 board |
| Controller.Paint | conway.c:249-252 | While a button is held the cursor cell becomes 1 if the left button is held and 0 otherwise (left wins); no other cell changes; 0/1 boards stay 0/1 |
| Controller.AdjustSpeed | conway.c:259-272 | The delay stays in [10, 1000]; UP subtracts 10 and DOWN adds 10, each clamped, and both apply when both are held |
| Controller.HoldUpReachesMin | conway.c:259-265 | Holding UP for (speed - 10)/10 frames reaches the 10 ms minimum and stays there |
| Controller.ClearThenStep | conway.c:273-289 | A rising ENTER clears both boards and pauses; then a rising S ticks once, and only while paused |
| Controller.ProcessInputs | conway.c:245-292 | In order (the predicate Processed): paint; pause flips exactly on a rising SPACE; the delay is adjusted; a rising ENTER clears both boards and pauses; a rising S while paused ticks the painted board to its NextGen; consistency is kept |
| Clock.GenerationsStep | conway.c:112-117 | n + 1 generations are one generation after n generations |
| Clock.DrainLag | conway.c:112-117 | For lag >= 0 the drain runs floor(lag/speed) times and leaves lag in [0, speed); paused it leaves the boards alone; unpaused it advances a 0/1 board that many generations |
| MainLoop.UpdateInputs | conway.c:294-339 | A key event sets one current input; a motion event sets the cursor to updateMouseRect of its pixel, an in-board cell; nothing else changes |
| MainLoop.BeforeQuit | conway.c:95-101 | The events the poll applies are the longest quit-free prefix of the batch: the next event, if any, is the quit |
| MainLoop.LastPressCons | conway.c:95-105 | The "last key event decides" reading of a batch agrees with applying its first event and reading the rest |
| MainLoop.LastCursorCons | conway.c:95-105 | The "last pointer position decides" reading of a batch agrees with applying its first event and reading the rest |
| MainLoop.PollEvents | conway.c:95-105 | Each input ends as the last key event before the first quit set it (unchanged when there is none), the cursor on the cell of the last pointer position before the quit; boards, delay and pause are untouched; the loop goes on exactly when no quit arrives |
| MainLoop.Frame | conway.c:89-121 | The state after processInputs (ghost mid) is what processInputs makes of the polled state; the frame keeps its delay, pause flag and cursor, leaves its boards alone when paused and advances its board by exactly the steps taken otherwise; the lag carried into the next frame is lag + elapsed - steps*speed, in [0, speed), after floor((lag + elapsed)/speed) steps; the previous inputs equal the current ones |
| Patterns.RectNeighbours | conway.c:360-381 | On a rectangle board the count is the column span times the row span, less the centre if live |
| Patterns.NextRectAt | conway.c:3-6 | For a rectangle one cell clear of every edge, a cell of the next generation follows the rule applied to the overlap counts |
| Patterns.InnerBlockIsStill | conway.c:3-6 | A 2 x 2 block clear of the array edges is a still life |
| Patterns.InnerBlinkerTurns | conway.c:3-6 | A horizontal blinker clear of the edges becomes the vertical blinker through its middle cell |
| Patterns.InnerBlinkerTurnsBack | conway.c:3-6 | A vertical blinker clear of the edges becomes the horizontal blinker through its middle cell |
| Patterns.CellShift | conway.c:230-235 | Every torus cell of a board moved by (dx, dy) is the cell (x - dx, y - dy) of the original |
| Patterns.NeighboursShift | conway.c:360-381 | Moving a board moves its neighbour counts with it |
| Patterns.NeighboursPeriodic | conway.c:360-381 | Neighbour counts repeat with period COLS in x and ROWS in y |
| Patterns.NextCellPeriodic | conway.c:3-6 | The rule's verdict for a torus cell is that of its in-board representative |
| Patterns.NextCellShift | conway.c:3-6 | The rule's verdict for a cell of a moved board is that of the cell it came from |
| Patterns.CellNextGen | conway.c:3-6 | Every torus cell of the next generation holds the rule's verdict for that cell |
| Patterns.NextGenShift | conway.c:3-6 | A tick commutes with moving the board round the torus |
| Patterns.WindowShift | conway.c:233-234 | Offsetting a wrapped position by a keeps it in [a, a + w - 1] exactly when it was in [0, w - 1] |
| Patterns.BoxIsShiftedRect | conway.c:230-235 | A rectangle anywhere on the torus, wrapping across edges, is a centred rectangle moved into place |
| Patterns.BlockIsStill | conway.c:3-6 | A 2 x 2 block is a still life at every position of the torus, also across the edges |
| Patterns.BlinkerTurns | conway.c:3-6 | A horizontal blinker anywhere on the torus becomes the vertical blinker through its middle cell |
| Patterns.BlinkerTurnsBack | conway.c:3-6 | A vertical blinker anywhere on the torus becomes the horizontal blinker through its middle cell |
| Patterns.BoxCorner | conway.c:3-6 | The horizontal and vertical blinkers through a cell are different boards |
| Patterns.BlinkerPeriodTwo | conway.c:3-6 | A blinker anywhere on the torus returns after two generations and not after one |

## Left out

- SDL set-up and teardown (`init`, `deinit`, window and surface creation, colour fills), `draw` and `initRects`: foreign library calls and rendering only.
- `setArr`: it is never called.
- The SDL event-type dispatch of `updateInputs` is abstracted as `MainLoop.Event`. An event either sets one logical input, moves the pointer, requests quit, or is ignored. SDL key and button codes are not modelled.
- `speed` is a `float` in the program. It only ever holds whole milliseconds (500 changed by steps of 10, clamped), so it is an `int` here.
- `printf` diagnostics, `calloc`/`free`, and the `SDL_GetTicks` clock: the elapsed time is a parameter of `MainLoop.Frame`.
- The outer `while (going)` loop: `MainLoop.Frame` models one pass and returns `going`.
- `CELL_W`/`CELL_H` are computed once at start-up and are constants (10 pixels) here. `Controller.UpdateMouseRect` takes the cell size as a parameter to keep the zero guard.
- MainLoop.UpdateInputs: motion events are assumed to stay inside the window. The program does not check this. A pixel less than one cell left of or above the window still truncates to cell 0, but a pointer further left or above, or at or beyond the right or bottom edge, gives a cursor off the board.
- Controller.ProcessInputs: requires the cursor to be on the board when painting. The program writes index x + y*ROWS without a check. An off-board cursor mostly writes a different cell: (80, 0) writes index 80, cell (0, 1), and (-1, 3) writes index 239, cell (79, 2). Only an index below 0 or at least ROWS*COLS falls outside the array. The model does not cover either case.
- Patterns.NextRectAt: stated only for rectangles one cell clear of every edge, where no neighbourhood wraps. Rectangles that wrap are covered instead by Patterns.BoxIsShiftedRect and Patterns.NextGenShift, which move them to a centred position.
- Board.GetArrValue: requires w == h, the only case the program uses. The non-square behaviour is recorded under Findings.
- Clock.DrainLag: lag, elapsed time and the tick count are unbounded integers. In the program `lag` and `passTime` are 32-bit `int`s, and the drain loop converts `lag` to `float` to compare and subtract. That conversion is exact only while the lag stays below 2^24 ms (about 4.6 hours of accumulated lag). The model does not cover wrap-around or rounding beyond that range.
- MainLoop.Frame: like Clock.DrainLag, it takes any non-negative lag and elapsed time; the program agrees with it only while lag + elapsed stays below 2^24 ms and inside 32-bit range.
- Engine.Tick, Clock.DrainLag: the link to `NextGen` is stated for boards of 0s and 1s. Other cell values are unreachable; on them tick keeps the value unless the count is 3.

## Findings

| source | as written | input that shows it | evidently intended | confidence | as-written member | corrected member |
|---|---|---|---|---|---|---|
| conway.c:234-235 | y wraps as `(y + w) % h` and the row stride is `h` | w = 2, h = 3, (x, y) = (1, 0) reads index 7 of a 6-cell array | wrap y by h and use the width as the stride: `x mod w + w * (y mod h)`; latent because the board is 80 x 80 | not executed | Board.ArrIndexNonSquareOverrun | Board.ArrIndex |
| conway.c:343-355 | the guard `key < 0 \|\| key > NUM_INPUTS`, repeated in getInput, getFirstInput and getLastInput, rejects keys above NUM_INPUTS only | key = NUM_INPUTS (7) passes and reads `currInputs[7]` (and `prevInputs[7]`) of 7-entry arrays | reject `key >= NUM_INPUTS`; latent because every call passes a constant below 7 | not executed | Input.GuardOffByOne | Input.KeyInRange |

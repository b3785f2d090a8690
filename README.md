# Game of Life on a fixed grid, in Dafny

This project models the core of a small Rust program. The program runs
Conway's Game of Life on a fixed 100 x 100 grid of booleans and draws each
generation into a pixel buffer at five times scale. The model covers its
three parts, and proves how two small patterns behave under the rule:

- **Simulator** (`simulator.dfy`). `CountNeighbors` counts the live cells
  among the up-to-8 Moore neighbours of a cell. The grid does not wrap: cells
  off the edge count as dead. `StepGrid` builds the next generation into a
  fresh grid using the birth/survival rule.
- **Rasterizer** (`rasterizer.dfy`). `Point` fills the 5 x 5 pixel block of
  one cell in a flat, row-major `u32` buffer, and skips pixels outside the
  image. `Draw` paints every cell this way. A dead cell gets the background
  colour `0x1B1036`. A live cell gets palette entry `(x + y) % 8`.
- **Pattern library** (`placement.dfy`). Every `add_*` function runs the same
  loop over its own table of offsets. For each offset that lands inside the
  grid, the loop sets that cell alive. Offsets that land outside are skipped
  without an error. `Place` is that loop, and each `Add*` method calls it with
  its pattern's table.
- **Small patterns under the rule** (`oscillators.dfy`). A block placed
  alone on a dead grid is a still life. A blinker placed alone there has
  period 2: it turns from a row into a column and back.

`grid.dfy` holds the shared pieces: the dimensions, `Board` (the value of a
grid, indexed `b[y][x]`), and `Cells`, which reads a grid (an
`array2<bool>` indexed `[y, x]`) as a `Board`.

The methods follow the program's loops. Each one is proved against a
specification function:

- `NeighborCount` is the size of the set of live in-bounds neighbours.
  `NeighborCountIsSum` shows that it is the sum of eight 0-or-1 terms, one per
  surrounding position. `ScanSoFar` is the count the counter has reached at
  each point of its scan.
- `Step` applies the rule to every cell of a board.
- `Placed` is the board after a placement.
- `Frame` is the image of a board.

The lemmas state properties of those functions.

## Model

| member | source | states |
|---|---|---|
| `Simulator.CountNeighbors` | src/main.rs:36-55 | The returned count equals the number of live in-bounds Moore neighbours of (x, y), with the cell itself excluded and no wrap-around. The count is at most 8, and the `u8` counter never overflows while it is incremented. |
| `Simulator.NeighborCountIsSum` | src/main.rs:38-53 | The neighbour count is the sum over the eight positions around (x, y) of 1 for each live cell. A position off the grid adds nothing. |
| `Simulator.ScanSoFar` | src/main.rs:37-53 | The count the counter holds at any point of its scan is at most 8, so the `u8` counter never overflows. |
| `Simulator.ScanVisit` | src/main.rs:40-51 | Visiting offset (dx, dy) adds one exactly when the offset is not the centre, lands inside the grid, and the cell there is live. |
| `Simulator.ScanComplete` | src/main.rs:38-54 | Once all nine offsets are visited, the count equals the number of live neighbours and is at most 8. |
| `Simulator.CornerNeighbours` | src/main.rs:47 | Because the bounds check discards off-grid positions, a corner cell has at most 3 live neighbours. |
| `Simulator.NeighborCountBounds` | src/main.rs:36-55 | Every neighbour count is at most 8, and at most 3 at any of the four corners. |
| `Simulator.NeighborCountIgnoresSelf` | src/main.rs:40-42 | Changing the cell (x, y) itself never changes its own neighbour count. |
| `Simulator.Step` | src/main.rs:61-67 | A cell of the next generation is alive exactly when it has 3 live neighbours, or is alive now and has 2. |
| `Simulator.StepGrid` | src/main.rs:57-71 | Returns a freshly allocated grid of the same dimensions that holds the next generation of the input grid. The input grid is not modified, and every cell is computed from the input alone. |
| `Simulator.Underpopulation` | src/main.rs:63-66 | A cell with 0 or 1 live neighbours is dead in the next generation, whatever its current state. |
| `Simulator.Overpopulation` | src/main.rs:63-66 | A cell with 4 or more live neighbours is dead in the next generation, whatever its current state. |
| `Placement.Raise` | src/main.rs:93-95 | One step of the placement loop sets the target cell alive when it is inside the grid. Every other cell keeps its value, and an off-grid target changes nothing. |
| `Placement.Placed` | src/main.rs:92-96 | After a placement, a cell is alive exactly when it was alive before or some offset lands on it. So placement never clears a cell, and offsets that land outside the grid are dropped. |
| `Placement.Place` | src/main.rs:92-96 | The in-place loop leaves the grid holding `Placed` of its previous contents. |
| `Placement.AddGlider` | src/main.rs:86-97 | Places the glider's 5 offsets at (x, y) as `Placed` describes. |
| `Placement.AddBlinker` | src/main.rs:99-106 | Places the blinker's 3 offsets at (x, y) as `Placed` describes. |
| `Placement.AddBlock` | src/main.rs:108-115 | Places the block's 4 offsets at (x, y) as `Placed` describes. |
| `Placement.AddBeehive` | src/main.rs:117-128 | Places the beehive's 6 offsets at (x, y) as `Placed` describes. |
| `Placement.AddLoaf` | src/main.rs:130-142 | Places the loaf's 7 offsets at (x, y) as `Placed` describes. |
| `Placement.AddBoat` | src/main.rs:144-155 | Places the boat's 5 offsets at (x, y) as `Placed` describes. |
| `Placement.AddToad` | src/main.rs:157-167 | Places the toad's 6 offsets at (x, y) as `Placed` describes. |
| `Placement.AddBeacon` | src/main.rs:169-181 | Places the beacon's 6 offsets at (x, y) as `Placed` describes. |
| `Placement.AddLwss` | src/main.rs:183-195 | Places the lightweight spaceship's 9 offsets at (x, y) as `Placed` describes. |
| `Placement.AddGliderGun` | src/main.rs:232-259 | Places the glider gun's 36 offsets at (x, y) as `Placed` describes. |
| `Placement.PlacedIdempotent` | src/main.rs:92-96 | Placing the same pattern at the same anchor twice gives the same board as placing it once. |
| `Placement.PlacedCommute` | src/main.rs:92-96 | Two placements give the same board in either order. |
| `Placement.PlacedOffGrid` | src/main.rs:93 | A placement anchored outside the grid leaves the board unchanged, with no error. |
| `Placement.PlaceAll` | src/main.rs:198-218 | After a list of placements, a cell is alive exactly when it was alive before or one of the placements covers it. The result is the union of their in-bounds cells. |
| `Placement.PlaceAllOrderIrrelevant` | src/main.rs:335-338 | Two lists of placements that hold the same requests give the same board, whatever their order or repetitions. |
| `Rasterizer.PixelIndexInverse` | src/main.rs:74-79 | For a cell in the grid and offsets dx, dy in [0, 5), the index (y·5+dy)·500 + (x·5+dx) is below the buffer length and leads back to that cell and those offsets. |
| `Rasterizer.PixelIndexCovers` | src/main.rs:74-79 | Every buffer index is the pixel of one cell's block at one offset, so the blocks cover the whole buffer. |
| `Rasterizer.Point` | src/main.rs:73-83 | Afterwards, the pixels of the block of cell (x, y) hold the colour and every other entry is unchanged. A cell outside the grid writes nothing, because the `px`/`py` check keeps every write index below the buffer length. |
| `Rasterizer.Draw` | src/main.rs:10-34 | Afterwards, the first WIDTH·HEIGHT·SCALE·SCALE entries of the buffer are the image of the grid, and any entries past them are unchanged. |
| `Rasterizer.FrameAtBlock` | src/main.rs:23-33 | In the image, every pixel (y·5+dy)·500 + (x·5+dx) of the block of cell (x, y) is `live_colors[(x + y) % 8]` if the cell is alive and `0x1B1036` if it is dead. |
| `Rasterizer.FrameOfBlank` | src/main.rs:25-30 | An all-dead grid is drawn entirely in the background colour. |
| `Rasterizer.FrameOfCorner` | src/main.rs:25-27 | A grid whose only live cell is (0, 0) is drawn as the 5 x 5 block at pixel rows 0-4 and columns 0-4 in the first palette colour, with every other pixel in the background colour. |
| `Oscillators.BlockCells` | src/main.rs:108-115 | A block placed on an all-dead grid, clear of the edges, is alive exactly on its 2 x 2 square. |
| `Oscillators.BlockIsStill` | src/main.rs:57-71 | A block alone on the grid, clear of the edges, is unchanged by a generation: it is a still life. |
| `Oscillators.BlinkerRowCells` | src/main.rs:99-106 | A blinker placed on an all-dead grid, clear of the edges, is alive exactly on its row of three cells. |
| `Oscillators.RowTurnsAt` | src/main.rs:61-67 | On a board holding just a row of three, each cell of the next generation is alive exactly when it lies on the column of three through the row's middle cell. |
| `Oscillators.ColumnTurnsAt` | src/main.rs:61-67 | On a board holding just a column of three, each cell of the next generation is alive exactly when it lies on the row of three through the column's middle cell. |
| `Oscillators.BlinkerRowTurns` | src/main.rs:57-71 | One generation turns a blinker alone on the grid into the vertical column of three through its middle cell. |
| `Oscillators.BlinkerColumnTurns` | src/main.rs:57-71 | One generation turns that column back into the original row. |
| `Oscillators.BlinkerOscillates` | src/main.rs:99-106 | A blinker alone on the grid has period 2. Two generations give back the same board, and one generation gives a different board. |

## Left out

- `main` (src/main.rs:324-347) is not modelled. It creates the window, polls `is_open` and the Escape key, presents the buffer, replaces the grid with `step`'s result and sleeps 100 ms. All of that is windowing, input and timing done through foreign calls.
- `setup_initial_pattern`, `add_to_random_positions` and `fill_more_patterns` (src/main.rs:198-322) are not modelled one by one. They are fixed lists of `add_*` calls with no logic of their own. `PlaceAll` and `PlaceAllOrderIrrelevant` cover any such list. For example, calling `add_to_random_positions` a second time in `main` changes nothing.
- Whole-grid dynamics are proved only for a block or a blinker alone on an otherwise dead grid and clear of its edges. That a glider moves by (1, 1) every 4 generations, the glider gun's period, and how patterns placed near each other interact are not proved. The program does not check these either.
- Anchors and pixel coordinates are unbounded `nat`s. The program's `usize` sums `x + dx` and `x * SCALE` could overflow only for anchors near 2^64, and no caller passes such values.
- Point, Draw: both require a buffer of at least WIDTH·HEIGHT·SCALE·SCALE entries. With a shorter `Vec` the program would panic on an out-of-range index, and that panic is not modelled.
- The program's grid is a Rust array value. Here it is an `array2<bool>`, and `StepGrid` allocates a fresh one. Replacing the old grid in `main` is not modelled.

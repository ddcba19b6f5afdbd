# Game of Life engines, modelled in Dafny

The repository draws Conway's Game of Life into a pixel window. It holds two
versions of the engine. Both keep the board as a flat, row-major vector of
booleans: cell (x, y) lives at offset `y * width + x`. Both step the board with
the B3/S23 rule: a live cell with 2 or 3 live neighbors survives, and a dead
cell with exactly 3 is born.

- `src/game_of_life.rs` counts neighbors on a **bounded** board: a neighbor
  position that falls off the grid is skipped. It has an optional
  **sub-pixel** mode. In that mode the stored width is three times the displayed
  width, and the three stored cells of a displayed pixel are shown as its red,
  green and blue channels.
- `src/main.rs` counts neighbors on a **torus**: every neighbor coordinate
  is wrapped with `(c + d + size) % size`. Its redraw advances the game one
  generation and paints each cell into a 4-byte RGBA pixel of the frame buffer.

The model keeps the two engines apart, one module each:

- `life_grid.dfy` (`LifeGrid`) holds what the engines share: the row-major
  index, its inverse (`Column`, `Row`), the next-state rule and the plain
  colours.
- `bounded_life.dfy` (`BoundedLife`) models `src/game_of_life.rs`.
- `toroidal_life.dfy` (`ToroidalLife`) models `src/main.rs`: the engine, its
  frame fill and the redraw.
- `boundary_policies.dfy` (`BoundaryPolicies`) relates the two neighbor
  counts.

In each engine:

- The game is a `class` whose `grid: seq<bool>` field is replaced by `Update`
  and `Randomize`. The dimensions and the sub-pixel flag are `const`, because
  the source never changes them after construction.
- The neighbor count and the next generation are each specified by a function
  (`BoundedCount`/`ToroidalCount`, `Step`). The methods that loop the way the
  source does are proved equal to those functions.
- The cloned `next` vector is a local array. Each cell of the array is written
  from the old grid, and the array becomes the new grid once, at the end.
- Each nested loop of the source is a method for the outer loop that calls a
  method for the inner loop:
  - `Next`/`Update` calls `NextRow`/`UpdateRow`.
  - `LiveNeighborCount` calls `RowNeighborCount`.

Where the code and its own comments disagree, the model follows the code:

- `src/game_of_life.rs:11` says `new` creates a board with all cells dead, but
  it fills the board randomly.
- `src/game_of_life.rs:71` says the count wraps around (toroidal), but the code
  skips off-grid neighbors (bounded).

In sub-pixel mode the stored row is one lattice, three sub-cells per pixel, and
the rule runs on that lattice. The red, green and blue sub-cells of one pixel,
and the blue sub-cell of a pixel and the red sub-cell of the next, are
neighbors of each other (`BoundedLife.SubpixelSubcellsAreNeighbors`). The
three channels therefore do not evolve as independent boards;
`BoundedLife.SubpixelChannelsInteract` shows a white pixel turning green.

## Model

| member | source | states |
|---|---|---|
| LifeGrid.Index | src/game_of_life.rs:67-69 | `index(x, y)` is the row-major offset `y * width + x`: it lies in row y's block of `width` offsets starting at `y * width`, inside that block when x < width |
| LifeGrid.IndexInBounds | src/game_of_life.rs:67-69 | for x < width and y < height, `index(x, y)` is below `width * height`, so every read through it is in bounds |
| LifeGrid.IndexInjective | src/main.rs:53-55 | two in-range coordinates have the same index exactly when they are the same cell |
| LifeGrid.CellOfIndex | src/main.rs:53-55 | Column and Row recover x and y from `index(x, y)` (the index is invertible) |
| LifeGrid.CellOfOffset | src/game_of_life.rs:52-54 | every offset below `width * height` is the index of the in-range cell (Column, Row), so the row/column loops reach every cell |
| LifeGrid.NextCell | src/game_of_life.rs:56-60 | the next state is alive iff the neighbor count is 3, or the cell is alive and the count is 2 |
| LifeGrid.Channel | src/game_of_life.rs:34-36 | a colour channel is 255 exactly when the cell is alive and 0 exactly when it is dead |
| LifeGrid.PlainColor | src/game_of_life.rs:39-46 | plain-mode colour: four channels, alpha 255, red/green/blue all 255 for a live cell and all 0 for a dead one |
| BoundedLife.LiveAt | src/game_of_life.rs:82-96 | one neighbor position contributes 0 or 1: 1 exactly when it lies on the grid (both coordinates in range) and the cell at its index is alive; off-grid positions are skipped |
| BoundedLife.BoundedCount | src/game_of_life.rs:72-100 | the bounded neighbor count of a cell is at most 8 |
| BoundedLife.RowCount | src/game_of_life.rs:76-97 | the count of one row of the 3x3 block, up to a given dx, is bounded by the number of offsets visited, with the centre skipped |
| BoundedLife.BlockCount | src/game_of_life.rs:75-98 | the count over the first rows of the 3x3 block is bounded by the number of offsets visited, with the centre skipped |
| BoundedLife.BlockCountComplete | src/game_of_life.rs:75-98 | visiting dy = -1, 0, 1 and, in each, dx = -1, 0, 1 except (0, 0) counts exactly the eight neighbors |
| BoundedLife.Step | src/game_of_life.rs:50-64 | the next generation has as many cells as the current one |
| BoundedLife.StepAt | src/game_of_life.rs:56-60 | cell (x, y) of the next generation is alive iff it is alive now with 2 or 3 live bounded neighbors, or dead now with exactly 3 |
| BoundedLife.StepFromCells | src/game_of_life.rs:50-64 | a sequence holding the rule's value, computed from the old grid, at every in-range (x, y) is the next generation |
| BoundedLife.CornerCountAtMostThree | src/game_of_life.rs:82-91 | off-grid neighbors are skipped, so a corner cell counts at most 3 |
| BoundedLife.EdgeCountAtMostFive | src/game_of_life.rs:82-91 | a cell on the border counts at most 5 |
| BoundedLife.FullCornerCountsThree | src/game_of_life.rs:82-91 | on a full board of at least 2x2 cells the corner count is exactly 3, so the bound is reached |
| BoundedLife.DeadCount | src/game_of_life.rs:72-100 | on a board with no live cell every count is 0 |
| BoundedLife.DeadBoardStaysDead | src/game_of_life.rs:56-60 | a board with no live cell has no live cell in the next generation |
| BoundedLife.SubpixelSubcellsAreNeighbors | src/game_of_life.rs:13-16 | with the stored width tripled, the green sub-cell's count includes the pixel's red and blue sub-cells, and the blue sub-cell's count includes the next pixel's red sub-cell |
| BoundedLife.SubpixelChannelsInteract | src/game_of_life.rs:12-17 | on the 3-sub-cell-wide lattice of one white pixel, the outer sub-cells die and the middle one survives: the pixel turns green |
| BoundedLife.SubpixelReadsInBounds | src/game_of_life.rs:33-36 | for an in-range displayed pixel of a sub-pixel game, all three sub-cells `index(3x, y) + k` are inside the grid |
| BoundedLife.NewGrid | src/game_of_life.rs:102-109 | the fresh grid has exactly `width * height` cells, cell i holding the i-th random draw |
| BoundedLife.GameOfLife.constructor | src/game_of_life.rs:12-18 | in sub-pixel mode the stored width is three times the given width; the grid has stored width × height cells, drawn from the random source |
| BoundedLife.GameOfLife.Randomize | src/game_of_life.rs:21-23 | the grid is replaced by fresh draws and keeps its size |
| BoundedLife.GameOfLife.Update | src/game_of_life.rs:26-28 | the grid becomes the next generation of the old grid (same length, rule applied to every cell) |
| BoundedLife.GameOfLife.PixelColor | src/game_of_life.rs:30-48 | alpha is 255. In sub-pixel mode channel k is 255 iff cell `index(3x, y) + k` is alive. In plain mode the colour is white for a live cell and black for a dead one |
| BoundedLife.GameOfLife.Next | src/game_of_life.rs:50-64 | the loops over rows and columns produce exactly the next generation, every count and cell value read from the grid and never from the clone being built |
| BoundedLife.GameOfLife.NextRow | src/game_of_life.rs:53-61 | one pass of the inner loop writes the rule's value into every cell of row y and leaves every cell before and after row y unchanged |
| BoundedLife.GameOfLife.LiveNeighborCount | src/game_of_life.rs:72-100 | the nested offset loops return the bounded neighbor count |
| BoundedLife.GameOfLife.RowNeighborCount | src/game_of_life.rs:76-97 | the inner dx loop counts the live on-grid neighbors of one row of the block, skipping the centre and the off-grid positions |
| BoundedLife.SubpixelMagenta | src/game_of_life.rs:33-37 | sub-cells alive, dead, alive are shown as [255, 0, 255, 255] |
| ToroidalLife.Wrap | src/main.rs:66-67 | a wrapped neighbor coordinate is always below the axis size |
| ToroidalLife.WrapToOppositeEdge | src/main.rs:66-67 | for an on-grid coordinate, wrapping gives the plain neighbor, except that stepping off one edge lands on the opposite edge |
| ToroidalLife.WrapInjective | src/main.rs:66-67 | on an axis of at least three cells, different offsets reach different coordinates |
| ToroidalLife.LiveAt | src/main.rs:66-71 | one neighbor offset contributes 0 or 1: 1 exactly when the cell at the wrapped coordinates `((x + dx + width) % width, (y + dy + height) % height)` is alive |
| ToroidalLife.ToroidalCount | src/main.rs:58-75 | the toroidal neighbor count of a cell is at most 8 |
| ToroidalLife.RowCount | src/main.rs:62-72 | the count of one row of the 3x3 block, up to a given dx, is bounded by the number of offsets visited, with the centre skipped |
| ToroidalLife.BlockCount | src/main.rs:61-73 | the count over the first rows of the 3x3 block is bounded by the number of offsets visited, with the centre skipped |
| ToroidalLife.BlockCountComplete | src/main.rs:61-73 | the nested offset loops visit exactly the eight offsets other than (0, 0) |
| ToroidalLife.NeighborsDistinct | src/main.rs:61-68 | on a board of at least 3x3 cells the eight wrapped neighbors are eight different cells |
| ToroidalLife.FullBoardCountsEight | src/main.rs:61-73 | on a full board every cell counts exactly 8, even where offsets wrap onto the same cell |
| ToroidalLife.Step | src/main.rs:36-50 | the next generation has as many cells as the current one |
| ToroidalLife.StepAt | src/main.rs:42-46 | cell (x, y) of the next generation is alive iff it is alive now with 2 or 3 live wrapped neighbors, or dead now with exactly 3 |
| ToroidalLife.StepFromCells | src/main.rs:36-50 | a sequence holding the rule's value, computed from the old grid, at every in-range (x, y) is the next generation |
| ToroidalLife.DeadCount | src/main.rs:58-75 | on a board with no live cell every count is 0 |
| ToroidalLife.DeadBoardStaysDead | src/main.rs:42-46 | an all-dead board stays all-dead after an update |
| ToroidalLife.FillFrame | src/main.rs:144-152 | bytes 4i to 4i+3 of the frame are [0xFF, 0xFF, 0xFF, 0xFF] when cell i is alive and [0x00, 0x00, 0x00, 0xFF] when dead; a tail shorter than 4 bytes is untouched |
| ToroidalLife.GameOfLife.constructor | src/main.rs:22-25 | the grid has `width * height` cells, all dead |
| ToroidalLife.GameOfLife.Randomize | src/main.rs:28-33 | every cell is overwritten in place by the next draw; the size is unchanged |
| ToroidalLife.GameOfLife.Update | src/main.rs:36-50 | the grid becomes the next generation of the old grid, computed into a clone and swapped in once; the length is preserved |
| ToroidalLife.GameOfLife.UpdateRow | src/main.rs:39-47 | one pass of the inner loop writes the rule's value into every cell of row y and leaves every cell before and after row y unchanged |
| ToroidalLife.GameOfLife.LiveNeighborCount | src/main.rs:58-75 | the nested offset loops with wrapped coordinates return the toroidal neighbor count |
| ToroidalLife.GameOfLife.RowNeighborCount | src/main.rs:62-72 | the inner dx loop counts the live wrapped neighbors of one row of the block, skipping the centre |
| ToroidalLife.Redraw | src/main.rs:141-152 | a redraw advances the game one generation and then paints every whole pixel from the new grid; the bytes past the last whole pixel are untouched |
| BoundaryPolicies.InteriorLiveAtAgree | src/main.rs:66-67 | for a cell away from the border, the wrapped neighbor at each offset is the plain neighbor the bounded engine reads |
| BoundaryPolicies.InteriorCountsAgree | src/game_of_life.rs:72-100 | away from the border, the bounded count equals the toroidal count |
| BoundaryPolicies.InteriorStepsAgree | src/game_of_life.rs:56-60 | away from the border, both engines give a cell the same next state |
| BoundaryPolicies.CornerCountsDiffer | src/game_of_life.rs:82-91 | on the border the policies differ: on every board of at least 3x3 whose only live cell is the bottom-right corner, the top-left corner counts 0 on the bounded board and 1 on the torus |

## Left out

- Randomness: `rand::rng()` and `random_bool(p)` become a parameter `coin: nat -> bool` whose i-th value is the i-th draw. The density `life_density` (an `f64`) and the distribution of the draws are not modelled.
- Window, `pixels` surface, `render`, `request_redraw`, the event loop and the `Application` lifecycle (`src/main.rs:79-172`) are not modelled; they are user-interface plumbing over external crates. Of the redraw only the update and the frame fill are modelled (`ToroidalLife.Redraw`).
- Machine-width arithmetic: `usize` overflow in `width * 3`, `width * height` and `y * width + x`, and the `isize` casts, are not modelled; integers are unbounded. The `u8` neighbor counter cannot overflow, since the count is at most 8.
- BoundedLife.GameOfLife.PixelColor: requires the pixel's cells to be inside the grid; `pixel_color` panics on an out-of-range index instead.
- ToroidalLife.FillFrame: requires the frame to have no more whole pixels than the grid has cells; the redraw panics on `grid[i]` otherwise.
- ToroidalLife.GameOfLife.LiveNeighborCount: requires a non-empty board; on a zero width or height `live_neighbor_count`'s `%` panics.
- The `for dy in [-1, 0, 1]` and `for dx in [-1, 0, 1]` iterations are modelled as integer `for` loops over the same three values in the same order.
- The concrete oscillators and still lifes (blinker, block) are not proved as examples; the per-cell rule `StepAt` covers them.

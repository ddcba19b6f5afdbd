/** The engine of src/game_of_life.rs: a flat row-major grid, optionally three
    sub-cells wide per displayed pixel, stepped with the B3/S23 rule where
    neighbors that fall off the grid are skipped (a bounded board). */
module BoundedLife {
  import opened LifeGrid

  /** 1 when (nx, ny) lies on the grid and that cell is alive; an off-grid
      position contributes nothing. */
  function LiveAt(grid: seq<bool>, width: nat, height: nat, nx: int, ny: int): (live: nat)
    requires |grid| == width * height
    ensures live <= 1
    ensures live == 1 <==> 0 <= nx < width && 0 <= ny < height && Index(nx, ny, width) < |grid| && grid[Index(nx, ny, width)]
  {
    if 0 <= nx < width && 0 <= ny < height then
      IndexInBounds(nx, ny, width, height);
      if grid[Index(nx, ny, width)] then 1 else 0
    else
      0
  }

  /** Live neighbors of (x, y) on the bounded board: the eight cells around
      it, each counted only when it lies on the grid. */
  function BoundedCount(grid: seq<bool>, width: nat, height: nat, x: nat, y: nat): (count: nat)
    requires |grid| == width * height
    ensures count <= 8
  {
    LiveAt(grid, width, height, x - 1, y - 1) + LiveAt(grid, width, height, x, y - 1) +
    LiveAt(grid, width, height, x + 1, y - 1) + LiveAt(grid, width, height, x - 1, y) +
    LiveAt(grid, width, height, x + 1, y) + LiveAt(grid, width, height, x - 1, y + 1) +
    LiveAt(grid, width, height, x, y + 1) + LiveAt(grid, width, height, x + 1, y + 1)
  }

  /** Live neighbors at offsets (-1, dy) up to (dxEnd - 1, dy), one row of the
      3x3 block around (x, y), visited left to right as the inner `dx` loop of
      `live_neighbor_count` does; the centre (0, 0) is skipped. */
  function RowCount(grid: seq<bool>, width: nat, height: nat, x: nat, y: nat, dy: int, dxEnd: int): (count: nat)
    requires |grid| == width * height
    requires -1 <= dy <= 1 && -1 <= dxEnd <= 2
    ensures count <= dxEnd + 1 - (if dy == 0 && dxEnd >= 1 then 1 else 0)
    decreases dxEnd + 1
  {
    if dxEnd == -1 then 0
    else
      RowCount(grid, width, height, x, y, dy, dxEnd - 1) +
      (if dxEnd - 1 == 0 && dy == 0 then 0 else LiveAt(grid, width, height, x + dxEnd - 1, y + dy))
  }

  /** Live neighbors in rows -1 up to dyEnd - 1 of the 3x3 block around (x, y),
      visited top to bottom as the outer `dy` loop of
      `live_neighbor_count` does. */
  function BlockCount(grid: seq<bool>, width: nat, height: nat, x: nat, y: nat, dyEnd: int): (count: nat)
    requires |grid| == width * height
    requires -1 <= dyEnd <= 2
    ensures count <= 3 * (dyEnd + 1) - (if dyEnd >= 1 then 1 else 0)
    decreases dyEnd + 1
  {
    if dyEnd == -1 then 0
    else BlockCount(grid, width, height, x, y, dyEnd - 1) + RowCount(grid, width, height, x, y, dyEnd - 1, 2)
  }

  /** Visiting the 3x3 block row by row and skipping its centre counts exactly
      the eight neighbors. */
  lemma BlockCountComplete(grid: seq<bool>, width: nat, height: nat, x: nat, y: nat)
    requires |grid| == width * height
    ensures BlockCount(grid, width, height, x, y, 2) == BoundedCount(grid, width, height, x, y)
  {
  }

  /** The next generation: every cell (x, y) gets the rule applied to its own
      state and its bounded neighbor count, all taken from `grid`. */
  function Step(grid: seq<bool>, width: nat, height: nat): (next: seq<bool>)
    requires |grid| == width * height
    ensures |next| == |grid|
  {
    seq(|grid|, k requires 0 <= k < |grid| =>
      NextCell(grid[k], BoundedCount(grid, width, height, Column(k, width), Row(k, width))))
  }

  /** The rule cell by cell: cell (x, y) of the next generation is alive iff it
      is alive now with 2 or 3 live on-grid neighbors, or dead now with exactly 3. */
  lemma StepAt(grid: seq<bool>, width: nat, height: nat, x: nat, y: nat)
    requires |grid| == width * height && x < width && y < height
    ensures Index(x, y, width) < |grid|
    ensures var n := BoundedCount(grid, width, height, x, y);
      Step(grid, width, height)[Index(x, y, width)] <==> n == 3 || (grid[Index(x, y, width)] && n == 2)
  {
    IndexInBounds(x, y, width, height);
    CellOfIndex(x, y, width);
  }

  /** A sequence whose every cell (x, y) holds the rule's value for that cell
      is the next generation. */
  lemma StepFromCells(grid: seq<bool>, width: nat, height: nat, next: seq<bool>)
    requires |grid| == width * height && |next| == |grid|
    requires forall x: nat, y: nat :: x < width && y < height && Index(x, y, width) < |next| ==>
      next[Index(x, y, width)] == NextCell(grid[Index(x, y, width)], BoundedCount(grid, width, height, x, y))
    ensures next == Step(grid, width, height)
  {
    forall k | 0 <= k < |next|
      ensures next[k] == Step(grid, width, height)[k]
    {
      CellOfOffset(k, width, height);
      var x, y := Column(k, width), Row(k, width);
      assert next[Index(x, y, width)] == NextCell(grid[k], BoundedCount(grid, width, height, x, y));
      assert Step(grid, width, height)[k] == NextCell(grid[k], BoundedCount(grid, width, height, x, y)) by {
        StepAt(grid, width, height, x, y);
      }
    }
  }

  /** A corner cell has at most three on-grid neighbors. */
  lemma CornerCountAtMostThree(grid: seq<bool>, width: nat, height: nat, x: nat, y: nat)
    requires |grid| == width * height && x < width && y < height
    requires (x == 0 || x == width - 1) && (y == 0 || y == height - 1)
    ensures BoundedCount(grid, width, height, x, y) <= 3
  {
  }

  /** A cell on an edge has at most five on-grid neighbors. */
  lemma EdgeCountAtMostFive(grid: seq<bool>, width: nat, height: nat, x: nat, y: nat)
    requires |grid| == width * height && x < width && y < height
    requires x == 0 || x == width - 1 || y == 0 || y == height - 1
    ensures BoundedCount(grid, width, height, x, y) <= 5
  {
  }

  /** On a fully alive board of at least 2x2 cells a corner counts exactly three
      neighbors, so the bound above is reached: nothing wraps around. */
  lemma FullCornerCountsThree(grid: seq<bool>, width: nat, height: nat)
    requires |grid| == width * height && width >= 2 && height >= 2
    requires forall k :: 0 <= k < |grid| ==> grid[k]
    ensures BoundedCount(grid, width, height, 0, 0) == 3
  {
  }

  /** On a board with no live cell every cell has zero live neighbors. */
  lemma DeadCount(grid: seq<bool>, width: nat, height: nat, x: nat, y: nat)
    requires |grid| == width * height
    requires forall k :: 0 <= k < |grid| ==> !grid[k]
    ensures BoundedCount(grid, width, height, x, y) == 0
  {
  }

  /** A board with no live cell stays without live cells: no cell ever sees
      the three live neighbors a birth needs. */
  lemma DeadBoardStaysDead(grid: seq<bool>, width: nat, height: nat)
    requires |grid| == width * height
    requires forall k :: 0 <= k < |grid| ==> !grid[k]
    ensures forall k :: 0 <= k < |grid| ==> !Step(grid, width, height)[k]
  {
  }

  /** In sub-pixel mode the stored row is one lattice: the green sub-cell of a
      pixel has its red and blue sub-cells among its neighbors, and the blue
      sub-cell of a pixel has the red sub-cell of the next pixel among its
      neighbors. */
  lemma SubpixelSubcellsAreNeighbors(grid: seq<bool>, displayWidth: nat, height: nat, x: nat, y: nat)
    requires |grid| == 3 * displayWidth * height && x < displayWidth && y < height
    ensures BoundedCount(grid, 3 * displayWidth, height, 3 * x + 1, y)
         >= LiveAt(grid, 3 * displayWidth, height, 3 * x, y) + LiveAt(grid, 3 * displayWidth, height, 3 * x + 2, y)
    ensures x + 1 < displayWidth ==>
      BoundedCount(grid, 3 * displayWidth, height, 3 * x + 2, y) >= LiveAt(grid, 3 * displayWidth, height, 3 * x + 3, y)
  {
  }

  /** In sub-pixel mode the stored row is one lattice three times wider than the
      display, so the red, green and blue sub-cells of a pixel are neighbors of
      each other: a lone white pixel (all three channels alive) turns green,
      because only its middle sub-cell has two live neighbors. */
  lemma SubpixelChannelsInteract(grid: seq<bool>)
    requires grid == [true, true, true]
    ensures var next := Step(grid, 3, 1); |next| == 3 && !next[0] && next[1] && !next[2]
  {
  }

  /** Every displayed pixel of a sub-pixel game reads its three sub-cells
      inside the grid. */
  lemma SubpixelReadsInBounds(x: nat, y: nat, displayWidth: nat, height: nat)
    requires x < displayWidth && y < height
    ensures Index(3 * x, y, 3 * displayWidth) + 2 < 3 * displayWidth * height
  {
    IndexInBounds(3 * x + 2, y, 3 * displayWidth, height);
  }

  /** Fills a fresh grid of `width * height` cells, cell i taking the i-th
      draw of the random source. */
  method NewGrid(width: nat, height: nat, coin: nat -> bool) returns (grid: seq<bool>)
    ensures |grid| == width * height
    ensures forall i :: 0 <= i < |grid| ==> grid[i] == coin(i)
  {
    var cells := new bool[width * height](_ => false);
    for i := 0 to cells.Length
      invariant forall k :: 0 <= k < i ==> cells[k] == coin(k)
    {
      cells[i] := coin(i);
    }
    grid := cells[..];
  }

  class GameOfLife {
    var grid: seq<bool>
    /** Stored width: three sub-cells per displayed pixel in sub-pixel mode. */
    const width: nat
    const height: nat
    const subpixels: bool

    ghost predicate Valid()
      reads this
    {
      |grid| == width * height && (subpixels ==> width % 3 == 0)
    }

    /** A game whose stored width is three times `displayWidth` in sub-pixel
        mode, with every cell drawn from the random source. */
    constructor (subpixels: bool, displayWidth: nat, height: nat, coin: nat -> bool)
      ensures Valid()
      ensures this.subpixels == subpixels && this.height == height
      ensures width == if subpixels then 3 * displayWidth else displayWidth
      ensures |grid| == width * height
      ensures forall i :: 0 <= i < |grid| ==> grid[i] == coin(i)
    {
      var w := if subpixels then 3 * displayWidth else displayWidth;
      var cells := NewGrid(w, height, coin);
      this.subpixels := subpixels;
      this.width := w;
      this.height := height;
      this.grid := cells;
    }

    /** Replaces every cell by a fresh draw; the grid keeps its size. */
    method Randomize(coin: nat -> bool)
      requires Valid()
      modifies this
      ensures Valid()
      ensures |grid| == |old(grid)|
      ensures forall i :: 0 <= i < |grid| ==> grid[i] == coin(i)
    {
      grid := NewGrid(width, height, coin);
    }

    /** Installs the next generation, computed from the current one. */
    method Update()
      requires Valid()
      modifies this
      ensures Valid()
      ensures grid == Step(old(grid), width, height)
    {
      grid := Next();
    }

    /** Colour of displayed pixel (x, y). In sub-pixel mode channel k (red,
        green, blue) shows stored column 3x + k of row y; in plain mode the
        pixel is white for a live cell and black for a dead one. Alpha is 255. */
    function PixelColor(x: nat, y: nat): (rgba: seq<byte>)
      reads this
      requires if subpixels then Index(3 * x, y, width) + 2 < |grid| else Index(x, y, width) < |grid|
      ensures |rgba| == 4 && rgba[3] == 255
      ensures subpixels ==> forall k :: 0 <= k < 3 ==> rgba[k] == Channel(grid[Index(3 * x + k, y, width)])
      ensures !subpixels ==> rgba == PlainColor(grid[Index(x, y, width)])
    {
      if subpixels then
        var i := Index(3 * x, y, width);
        [Channel(grid[i]), Channel(grid[i + 1]), Channel(grid[i + 2]), 255]
      else
        var i := Index(x, y, width);
        if grid[i] then [255, 255, 255, 255] else [0, 0, 0, 255]
    }

    /** The next generation, built in a clone of the grid; every count and every
        old cell value is read from `grid`, never from the clone being written.
        The outer `y` loop of `next`; the loop over the cells of one row is
        NextRow. */
    method Next() returns (next: seq<bool>)
      requires Valid()
      ensures next == Step(grid, width, height)
    {
      var cur := grid;
      var buf := new bool[|cur|](k requires 0 <= k < |cur| => cur[k]);
      for y := 0 to height
        invariant forall xx: nat, yy: nat {:trigger buf[Index(xx, yy, width)]} ::
          xx < width && yy < y && Index(xx, yy, width) < buf.Length ==>
          buf[Index(xx, yy, width)] == NextCell(grid[Index(xx, yy, width)], BoundedCount(grid, width, height, xx, yy))
      {
        NextRow(y, buf);
        forall xx: nat, yy: nat | xx < width && yy < y
          ensures Index(xx, yy, width) < Index(0, y, width)
        {
          MulMonotone(yy + 1, y, width);
        }
      }
      next := buf[..];
      StepFromCells(grid, width, height, next);
    }

    /** Writes the next state of every cell of row y into `buf`, leaving the
        rows above and below it as they were. */
    method NextRow(y: nat, buf: array<bool>)
      requires Valid() && y < height && buf.Length == |grid|
      modifies buf
      ensures forall xx: nat {:trigger buf[Index(xx, y, width)]} :: xx < width && Index(xx, y, width) < buf.Length ==>
        buf[Index(xx, y, width)] == NextCell(grid[Index(xx, y, width)], BoundedCount(grid, width, height, xx, y))
      ensures forall k :: 0 <= k < Index(0, y, width) ==> buf[k] == old(buf[k])
      ensures forall k :: Index(0, y + 1, width) <= k < buf.Length ==> buf[k] == old(buf[k])
    {
      var cur := grid;
      ghost var start, end := Index(0, y, width), Index(0, y + 1, width);
      for x := 0 to width
        invariant forall xx: nat {:trigger buf[Index(xx, y, width)]} :: xx < x && Index(xx, y, width) < buf.Length ==>
          buf[Index(xx, y, width)] == NextCell(cur[Index(xx, y, width)], BoundedCount(cur, width, height, xx, y))
        invariant forall k {:trigger buf[k]} :: 0 <= k < start ==> buf[k] == old(buf[k])
        invariant forall k {:trigger buf[k]} :: end <= k < buf.Length ==> buf[k] == old(buf[k])
      {
        var idx := Index(x, y, width);
        assert idx < end;
        IndexInBounds(x, y, width, height);
        var liveNeighbors := LiveNeighborCount(x, y);
        buf[idx] := NextCell(cur[idx], liveNeighbors);
      }
    }

    /** Live neighbors of (x, y), skipping positions off the grid. The
        outer `dy` loop of `live_neighbor_count`; the loop along one row
        is RowNeighborCount. */
    method LiveNeighborCount(x: nat, y: nat) returns (count: nat)
      requires Valid()
      ensures count == BoundedCount(grid, width, height, x, y)
    {
      count := 0;
      for dy := -1 to 2
        invariant count == BlockCount(grid, width, height, x, y, dy)
      {
        var row := RowNeighborCount(x, y, dy);
        count := count + row;
      }
      BlockCountComplete(grid, width, height, x, y);
    }

    /** Live neighbors of (x, y) in row dy of its 3x3 block, skipping the
        centre and positions off the grid. */
    method RowNeighborCount(x: nat, y: nat, dy: int) returns (count: nat)
      requires Valid() && -1 <= dy <= 1
      ensures count == RowCount(grid, width, height, x, y, dy, 2)
    {
      count := 0;
      for dx := -1 to 2
        invariant count == RowCount(grid, width, height, x, y, dy, dx)
      {
        if dx == 0 && dy == 0 {
          continue;
        }
        var nx := x + dx;
        var ny := y + dy;
        if nx < 0 || nx >= width {
          continue;
        }
        if ny < 0 || ny >= height {
          continue;
        }
        var idx := Index(nx, ny, width);
        IndexInBounds(nx, ny, width, height);
        if grid[idx] {
          count := count + 1;
        }
      }
    }
  }

  /** The worked case of sub-pixel decoding: sub-cells alive, dead, alive give magenta. */
  lemma SubpixelMagenta(game: GameOfLife)
    requires game.subpixels && game.width == 3 && game.grid == [true, false, true]
    ensures game.PixelColor(0, 0) == [255, 0, 255, 255]
  {
  }
}

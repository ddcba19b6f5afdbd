/** The engine of src/main.rs: a flat row-major grid whose neighbor lookup
    wraps around both edges (a torus), stepped with the B3/S23 rule, and the
    redraw that paints one RGBA pixel per cell into the frame buffer. */
module ToroidalLife {
  import opened LifeGrid

  /** Coordinate of the neighbor at offset `d` of coordinate `c` along an axis
      of `size` cells: `(c + d + size) % size`. The dividend is never negative
      (c >= 0, d >= -1, size >= 1), so Rust's truncating `%` on `isize`
      and Dafny's Euclidean one agree. */
  function Wrap(c: nat, d: int, size: nat): (w: nat)
    requires size > 0 && -1 <= d <= 1
    ensures w < size
  {
    (c + d + size) % size
  }

  /** For an on-grid coordinate the wrapped neighbor is the plain neighbor,
      except that stepping off one edge lands on the opposite edge. */
  lemma WrapToOppositeEdge(c: nat, d: int, size: nat)
    requires c < size && -1 <= d <= 1
    ensures Wrap(c, d, size) == if c + d < 0 then size - 1 else if c + d >= size then 0 else c + d
  {
  }

  /** On an axis of at least three cells, different offsets reach different cells. */
  lemma WrapInjective(c: nat, d1: int, d2: int, size: nat)
    requires c < size && size >= 3 && -1 <= d1 <= 1 && -1 <= d2 <= 1 && d1 != d2
    ensures Wrap(c, d1, size) != Wrap(c, d2, size)
  {
    WrapToOppositeEdge(c, d1, size);
    WrapToOppositeEdge(c, d2, size);
  }

  /** 1 when the wrapped neighbor of (x, y) at offset (dx, dy) is alive. */
  function LiveAt(grid: seq<bool>, width: nat, height: nat, x: nat, y: nat, dx: int, dy: int): (live: nat)
    requires |grid| == width * height && width > 0 && height > 0
    requires -1 <= dx <= 1 && -1 <= dy <= 1
    ensures live <= 1
    ensures var i := Index(Wrap(x, dx, width), Wrap(y, dy, height), width);
      live == 1 <==> i < |grid| && grid[i]
  {
    var nx, ny := Wrap(x, dx, width), Wrap(y, dy, height);
    IndexInBounds(nx, ny, width, height);
    if grid[Index(nx, ny, width)] then 1 else 0
  }

  /** Live neighbors of (x, y) on the torus: the eight cells around it, each
      position wrapped onto the grid. */
  function ToroidalCount(grid: seq<bool>, width: nat, height: nat, x: nat, y: nat): (count: nat)
    requires |grid| == width * height && width > 0 && height > 0
    ensures count <= 8
  {
    LiveAt(grid, width, height, x, y, -1, -1) + LiveAt(grid, width, height, x, y, 0, -1) +
    LiveAt(grid, width, height, x, y, 1, -1) + LiveAt(grid, width, height, x, y, -1, 0) +
    LiveAt(grid, width, height, x, y, 1, 0) + LiveAt(grid, width, height, x, y, -1, 1) +
    LiveAt(grid, width, height, x, y, 0, 1) + LiveAt(grid, width, height, x, y, 1, 1)
  }

  /** Live neighbors at offsets (-1, dy) up to (dxEnd - 1, dy), one row of the
      3x3 block around (x, y), visited left to right as the inner `dx` loop of
      `live_neighbor_count` does; the centre (0, 0) is skipped. */
  function RowCount(grid: seq<bool>, width: nat, height: nat, x: nat, y: nat, dy: int, dxEnd: int): (count: nat)
    requires |grid| == width * height && width > 0 && height > 0
    requires -1 <= dy <= 1 && -1 <= dxEnd <= 2
    ensures count <= dxEnd + 1 - (if dy == 0 && dxEnd >= 1 then 1 else 0)
    decreases dxEnd + 1
  {
    if dxEnd == -1 then 0
    else
      RowCount(grid, width, height, x, y, dy, dxEnd - 1) +
      (if dxEnd - 1 == 0 && dy == 0 then 0 else LiveAt(grid, width, height, x, y, dxEnd - 1, dy))
  }

  /** Live neighbors in rows -1 up to dyEnd - 1 of the 3x3 block around (x, y),
      visited top to bottom as the outer `dy` loop of
      `live_neighbor_count` does. */
  function BlockCount(grid: seq<bool>, width: nat, height: nat, x: nat, y: nat, dyEnd: int): (count: nat)
    requires |grid| == width * height && width > 0 && height > 0
    requires -1 <= dyEnd <= 2
    ensures count <= 3 * (dyEnd + 1) - (if dyEnd >= 1 then 1 else 0)
    decreases dyEnd + 1
  {
    if dyEnd == -1 then 0
    else BlockCount(grid, width, height, x, y, dyEnd - 1) + RowCount(grid, width, height, x, y, dyEnd - 1, 2)
  }

  /** Visiting the 3x3 block row by row and skipping its centre counts exactly
      the eight neighbors. */
  lemma BlockCountComplete(grid: seq<bool>, width: nat, height: nat, x: nat, y: nat)
    requires |grid| == width * height && width > 0 && height > 0
    ensures BlockCount(grid, width, height, x, y, 2) == ToroidalCount(grid, width, height, x, y)
  {
  }

  /** On a board of at least 3x3 cells the eight wrapped neighbors of a cell
      are eight different cells, none of them the cell itself. */
  lemma NeighborsDistinct(width: nat, height: nat, x: nat, y: nat, dx1: int, dy1: int, dx2: int, dy2: int)
    requires width >= 3 && height >= 3 && x < width && y < height
    requires -1 <= dx1 <= 1 && -1 <= dy1 <= 1 && -1 <= dx2 <= 1 && -1 <= dy2 <= 1
    requires dx1 != dx2 || dy1 != dy2
    ensures Index(Wrap(x, dx1, width), Wrap(y, dy1, height), width)
         != Index(Wrap(x, dx2, width), Wrap(y, dy2, height), width)
  {
    if dx1 != dx2 {
      WrapInjective(x, dx1, dx2, width);
    } else {
      WrapInjective(y, dy1, dy2, height);
    }
    IndexInjective(Wrap(x, dx1, width), Wrap(y, dy1, height), Wrap(x, dx2, width), Wrap(y, dy2, height), width);
  }

  /** Every cell always has eight neighbor positions, however small the
      board: with every cell alive the count is 8, even where several offsets
      wrap onto the same cell (on a 1x1 board the cell is its own neighbor
      eight times). */
  lemma FullBoardCountsEight(grid: seq<bool>, width: nat, height: nat, x: nat, y: nat)
    requires |grid| == width * height && width > 0 && height > 0
    requires forall k :: 0 <= k < |grid| ==> grid[k]
    ensures ToroidalCount(grid, width, height, x, y) == 8
  {
    forall dx: int, dy: int | -1 <= dx <= 1 && -1 <= dy <= 1
      ensures LiveAt(grid, width, height, x, y, dx, dy) == 1
    {
      IndexInBounds(Wrap(x, dx, width), Wrap(y, dy, height), width, height);
    }
  }

  /** The next generation on the torus: every cell gets the rule applied to
      its own state and its wrapped neighbor count, all taken from `grid`. */
  function Step(grid: seq<bool>, width: nat, height: nat): (next: seq<bool>)
    requires |grid| == width * height
    ensures |next| == |grid|
  {
    seq(|grid|, k requires 0 <= k < |grid| =>
      CellOfOffset(k, width, height);
      NextCell(grid[k], ToroidalCount(grid, width, height, Column(k, width), Row(k, width))))
  }

  /** The rule cell by cell: cell (x, y) of the next generation is alive iff it
      is alive now with 2 or 3 live wrapped neighbors, or dead now with exactly 3. */
  lemma StepAt(grid: seq<bool>, width: nat, height: nat, x: nat, y: nat)
    requires |grid| == width * height && x < width && y < height
    ensures Index(x, y, width) < |grid|
    ensures var n := ToroidalCount(grid, width, height, x, y);
      Step(grid, width, height)[Index(x, y, width)] <==> n == 3 || (grid[Index(x, y, width)] && n == 2)
  {
    IndexInBounds(x, y, width, height);
    CellOfIndex(x, y, width);
  }

  /** A sequence whose every cell (x, y) holds the rule's value for that cell
      is the next generation. */
  lemma StepFromCells(grid: seq<bool>, width: nat, height: nat, next: seq<bool>)
    requires |grid| == width * height && |next| == |grid|
    requires forall x: nat, y: nat :: x < width && y < height && Index(x, y, width) < |next| ==>
      next[Index(x, y, width)] == NextCell(grid[Index(x, y, width)], ToroidalCount(grid, width, height, x, y))
    ensures next == Step(grid, width, height)
  {
    forall k | 0 <= k < |next|
      ensures next[k] == Step(grid, width, height)[k]
    {
      CellOfOffset(k, width, height);
      var x, y := Column(k, width), Row(k, width);
      StepAt(grid, width, height, x, y);
    }
  }

  /** On a board with no live cell every cell has zero live neighbors. */
  lemma DeadCount(grid: seq<bool>, width: nat, height: nat, x: nat, y: nat)
    requires |grid| == width * height && width > 0 && height > 0
    requires forall k :: 0 <= k < |grid| ==> !grid[k]
    ensures ToroidalCount(grid, width, height, x, y) == 0
  {
  }

  /** A board with no live cell stays without live cells: no cell ever sees
      the three live neighbors a birth needs. */
  lemma DeadBoardStaysDead(grid: seq<bool>, width: nat, height: nat)
    requires |grid| == width * height
    requires forall k :: 0 <= k < |grid| ==> !grid[k]
    ensures forall k :: 0 <= k < |grid| ==> !Step(grid, width, height)[k]
  {
  }

  /** Paints the frame: the bytes of pixel i, 4i to 4i+3, are opaque white when
      cell i is alive and opaque black when it is dead. Only whole 4-byte
      pixels are written; a shorter tail is left as it was. */
  method FillFrame(grid: seq<bool>, frame: array<byte>)
    requires frame.Length / 4 <= |grid|
    modifies frame
    ensures forall b :: 0 <= b < frame.Length / 4 * 4 ==> frame[b] == PlainColor(grid[b / 4])[b % 4]
    ensures forall b :: frame.Length / 4 * 4 <= b < frame.Length ==> frame[b] == old(frame[b])
  {
    var pixels := frame.Length / 4;
    for i := 0 to pixels
      invariant forall b :: 0 <= b < 4 * i ==> frame[b] == PlainColor(grid[b / 4])[b % 4]
      invariant forall b :: 4 * i <= b < frame.Length ==> frame[b] == old(frame[b])
    {
      var cell := grid[i];
      var rgba: seq<byte> := if cell then [0xFF, 0xFF, 0xFF, 0xFF] else [0x00, 0x00, 0x00, 0xFF];
      frame[4 * i] := rgba[0];
      frame[4 * i + 1] := rgba[1];
      frame[4 * i + 2] := rgba[2];
      frame[4 * i + 3] := rgba[3];
    }
  }

  class GameOfLife {
    var grid: seq<bool>
    const width: nat
    const height: nat

    ghost predicate Valid()
      reads this
    {
      |grid| == width * height
    }

    /** A game of `width * height` cells, every cell dead. */
    constructor (width: nat, height: nat)
      ensures Valid() && this.width == width && this.height == height
      ensures forall k :: 0 <= k < |grid| ==> !grid[k]
    {
      this.width := width;
      this.height := height;
      this.grid := seq(width * height, _ => false);
    }

    /** Overwrites every cell in place with the next draw of the random
        source; the grid keeps its size. */
    method Randomize(coin: nat -> bool)
      requires Valid()
      modifies this
      ensures Valid()
      ensures |grid| == |old(grid)|
      ensures forall k :: 0 <= k < |grid| ==> grid[k] == coin(k)
    {
      for i := 0 to |grid|
        invariant Valid()
        invariant forall k :: 0 <= k < i ==> grid[k] == coin(k)
      {
        grid := grid[i := coin(i)];
      }
    }

    /** Computes every cell of the next generation from the current grid into
        a clone and installs the clone once, after the last cell. The outer `y`
        loop of `update`; the loop over the cells of one row is UpdateRow. */
    method Update()
      requires Valid()
      modifies this
      ensures Valid()
      ensures grid == Step(old(grid), width, height)
    {
      var cur := grid;
      var buf := new bool[|cur|](k requires 0 <= k < |cur| => cur[k]);
      for y := 0 to height
        invariant grid == cur
        invariant forall xx: nat, yy: nat {:trigger buf[Index(xx, yy, width)]} ::
          xx < width && yy < y && Index(xx, yy, width) < buf.Length ==>
          buf[Index(xx, yy, width)] == NextCell(cur[Index(xx, yy, width)], ToroidalCount(cur, width, height, xx, yy))
      {
        UpdateRow(y, buf);
        forall xx: nat, yy: nat | xx < width && yy < y
          ensures Index(xx, yy, width) < Index(0, y, width)
        {
          MulMonotone(yy + 1, y, width);
        }
      }
      StepFromCells(cur, width, height, buf[..]);
      grid := buf[..];
    }

    /** Writes the next state of every cell of row y into `buf`, leaving the
        rows above and below it as they were. */
    method UpdateRow(y: nat, buf: array<bool>)
      requires Valid() && y < height && buf.Length == |grid|
      modifies buf
      ensures forall xx: nat {:trigger buf[Index(xx, y, width)]} :: xx < width && Index(xx, y, width) < buf.Length ==>
        buf[Index(xx, y, width)] == NextCell(grid[Index(xx, y, width)], ToroidalCount(grid, width, height, xx, y))
      ensures forall k :: 0 <= k < Index(0, y, width) ==> buf[k] == old(buf[k])
      ensures forall k :: Index(0, y + 1, width) <= k < buf.Length ==> buf[k] == old(buf[k])
    {
      var cur := grid;
      ghost var start, end := Index(0, y, width), Index(0, y + 1, width);
      for x := 0 to width
        invariant forall xx: nat {:trigger buf[Index(xx, y, width)]} :: xx < x && Index(xx, y, width) < buf.Length ==>
          buf[Index(xx, y, width)] == NextCell(cur[Index(xx, y, width)], ToroidalCount(cur, width, height, xx, y))
        invariant forall k {:trigger buf[k]} :: 0 <= k < start ==> buf[k] == old(buf[k])
        invariant forall k {:trigger buf[k]} :: end <= k < buf.Length ==> buf[k] == old(buf[k])
      {
        var idx := Index(x, y, width);
        assert idx < end;
        IndexInBounds(x, y, width, height);
        var liveNeighbors := LiveNeighborCount(x, y);
        buf[idx] := NextCell(cur[idx], liveNeighbors);
      }
    }

    /** Live neighbors of (x, y), each neighbor coordinate wrapped onto the
        grid. The outer `dy` loop of `live_neighbor_count`; the loop along
        one row is RowNeighborCount. */
    method LiveNeighborCount(x: nat, y: nat) returns (count: nat)
      requires Valid() && width > 0 && height > 0
      ensures count == ToroidalCount(grid, width, height, x, y)
    {
      count := 0;
      for dy := -1 to 2
        invariant count == BlockCount(grid, width, height, x, y, dy)
      {
        var row := RowNeighborCount(x, y, dy);
        count := count + row;
      }
      BlockCountComplete(grid, width, height, x, y);
    }

    /** Live wrapped neighbors of (x, y) in row dy of its 3x3 block, skipping
        the centre. */
    method RowNeighborCount(x: nat, y: nat, dy: int) returns (count: nat)
      requires Valid() && width > 0 && height > 0 && -1 <= dy <= 1
      ensures count == RowCount(grid, width, height, x, y, dy, 2)
    {
      count := 0;
      for dx := -1 to 2
        invariant count == RowCount(grid, width, height, x, y, dy, dx)
      {
        if dx == 0 && dy == 0 {
          continue;
        }
        var nx := (x + dx + width) % width;
        var ny := (y + dy + height) % height;
        var idx := Index(nx, ny, width);
        IndexInBounds(nx, ny, width, height);
        if grid[idx] {
          count := count + 1;
        }
      }
    }
  }

  /** One redraw: the game advances one generation, then every whole pixel of
      the frame shows the cell with the same index in the new generation. */
  method Redraw(game: GameOfLife, frame: array<byte>)
    requires game.Valid() && frame.Length / 4 <= |game.grid|
    modifies game, frame
    ensures game.Valid() && game.grid == Step(old(game.grid), game.width, game.height)
    ensures forall b :: 0 <= b < frame.Length / 4 * 4 ==> frame[b] == PlainColor(game.grid[b / 4])[b % 4]
    ensures forall b :: frame.Length / 4 * 4 <= b < frame.Length ==> frame[b] == old(frame[b])
  {
    game.Update();
    FillFrame(game.grid, frame);
  }
}

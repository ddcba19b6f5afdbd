/** Definitions shared by both Game of Life engines: the row-major index of a
    cell, the B3/S23 next-state rule and the RGBA colours a cell is drawn with. */
module LifeGrid {

  /** An 8-bit colour channel (Rust's `u8`). */
  newtype byte = x: int | 0 <= x < 256

  /** Row-major offset of cell (x, y) in a grid `width` cells wide: row y
      occupies the `width` offsets from `y * width` on, and an in-range x
      picks one of them. */
  function Index(x: nat, y: nat, width: nat): (i: nat)
    ensures y * width <= i
    ensures x < width ==> i < y * width + width
  {
    y * width + x
  }

  /** Every in-range coordinate addresses a cell of the grid. */
  lemma IndexInBounds(x: nat, y: nat, width: nat, height: nat)
    requires x < width && y < height
    ensures Index(x, y, width) < width * height
  {
    calc {
      Index(x, y, width);
    <  y * width + width;
    == (y + 1) * width;
    <= { MulMonotone(y + 1, height, width); }
      height * width;
    }
  }

  /** Two in-range coordinates share an index exactly when they are the same cell. */
  lemma IndexInjective(x1: nat, y1: nat, x2: nat, y2: nat, width: nat)
    requires x1 < width && x2 < width
    ensures Index(x1, y1, width) == Index(x2, y2, width) <==> x1 == x2 && y1 == y2
  {
    if y1 < y2 {
      MulMonotone(y1 + 1, y2, width);
    } else if y2 < y1 {
      MulMonotone(y2 + 1, y1, width);
    }
  }

  /** Column of offset k: the inverse of Index in its first coordinate. */
  function Column(k: nat, width: nat): (x: nat)
    requires width > 0
    ensures x < width
    decreases k
  {
    if k < width then k else Column(k - width, width)
  }

  /** Row of offset k: the inverse of Index in its second coordinate. */
  function Row(k: nat, width: nat): nat
    requires width > 0
    decreases k
  {
    if k < width then 0 else 1 + Row(k - width, width)
  }

  /** Column and Row recover the coordinates an index was built from. */
  lemma {:induction false} CellOfIndex(x: nat, y: nat, width: nat)
    requires x < width
    ensures Column(Index(x, y, width), width) == x && Row(Index(x, y, width), width) == y
  {
    if y > 0 {
      assert Index(x, y, width) - width == Index(x, y - 1, width);
      CellOfIndex(x, y - 1, width);
    }
  }

  /** Every offset below `width * height` is the index of the in-range cell
      named by its Column and Row. */
  lemma {:induction false} CellOfOffset(k: nat, width: nat, height: nat)
    requires k < width * height
    ensures width > 0 && Row(k, width) < height
    ensures Index(Column(k, width), Row(k, width), width) == k
  {
    assert width != 0;
    if k >= width {
      assert height > 1 && k - width < width * (height - 1);
      CellOfOffset(k - width, width, height - 1);
    }
  }

  lemma MulMonotone(a: nat, b: nat, c: nat)
    requires a <= b
    ensures a * c <= b * c
  {
  }

  /** The B3/S23 rule as written in the `match` of `next` and `update`: an alive cell with 2 or 3
      live neighbors stays alive, a dead cell with exactly 3 becomes alive,
      every other combination is dead. */
  function NextCell(alive: bool, liveNeighbors: nat): (next: bool)
    ensures next <==> liveNeighbors == 3 || (alive && liveNeighbors == 2)
  {
    match (alive, liveNeighbors)
    case (true, 2) | (true, 3) => true
    case (false, 3) => true
    case _ => false
  }

  /** A colour channel is fully on for a live cell and off for a dead one. */
  function Channel(alive: bool): (c: byte)
    ensures c == 255 <==> alive
    ensures c == 0 <==> !alive
  {
    if alive then 255 else 0
  }

  /** Plain-mode colour of a cell: opaque white when alive, opaque black when dead. */
  function PlainColor(alive: bool): (rgba: seq<byte>)
    ensures |rgba| == 4 && rgba[3] == 255
    ensures forall k :: 0 <= k < 3 ==> rgba[k] == Channel(alive)
  {
    if alive then [255, 255, 255, 255] else [0, 0, 0, 255]
  }
}

/** How the two engines' neighbor counts relate: they agree on every cell
    away from the border and can disagree on the border, where the bounded
    engine skips positions that the toroidal engine wraps onto the opposite
    edge. */
module BoundaryPolicies {
  import opened LifeGrid
  import BoundedLife
  import ToroidalLife

  /** A wrapped neighbor of an interior cell is the plain neighbor, so both
      engines count the same cell for that offset. */
  lemma InteriorLiveAtAgree(grid: seq<bool>, width: nat, height: nat, x: nat, y: nat, dx: int, dy: int)
    requires |grid| == width * height
    requires 0 < x && x + 1 < width && 0 < y && y + 1 < height
    requires -1 <= dx <= 1 && -1 <= dy <= 1
    ensures ToroidalLife.LiveAt(grid, width, height, x, y, dx, dy) == BoundedLife.LiveAt(grid, width, height, x + dx, y + dy)
  {
    ToroidalLife.WrapToOppositeEdge(x, dx, width);
    ToroidalLife.WrapToOppositeEdge(y, dy, height);
  }

  /** Away from the border the bounded and the toroidal counts are equal. */
  lemma InteriorCountsAgree(grid: seq<bool>, width: nat, height: nat, x: nat, y: nat)
    requires |grid| == width * height
    requires 0 < x && x + 1 < width && 0 < y && y + 1 < height
    ensures BoundedLife.BoundedCount(grid, width, height, x, y) == ToroidalLife.ToroidalCount(grid, width, height, x, y)
  {
    forall dx: int, dy: int | -1 <= dx <= 1 && -1 <= dy <= 1
      ensures ToroidalLife.LiveAt(grid, width, height, x, y, dx, dy) == BoundedLife.LiveAt(grid, width, height, x + dx, y + dy)
    {
      InteriorLiveAtAgree(grid, width, height, x, y, dx, dy);
    }
  }

  /** Away from the border both engines give a cell the same next state. */
  lemma InteriorStepsAgree(grid: seq<bool>, width: nat, height: nat, x: nat, y: nat)
    requires |grid| == width * height
    requires 0 < x && x + 1 < width && 0 < y && y + 1 < height
    ensures Index(x, y, width) < |grid|
    ensures BoundedLife.Step(grid, width, height)[Index(x, y, width)] == ToroidalLife.Step(grid, width, height)[Index(x, y, width)]
  {
    InteriorCountsAgree(grid, width, height, x, y);
    BoundedLife.StepAt(grid, width, height, x, y);
    ToroidalLife.StepAt(grid, width, height, x, y);
  }

  /** On the border the two engines differ: on any board of at least 3x3
      cells whose only live cell is the bottom-right corner, the top-left
      corner has no live neighbor on the bounded board but one on the torus,
      where its up-left neighbor wraps onto that corner. */
  lemma CornerCountsDiffer(grid: seq<bool>, width: nat, height: nat)
    requires |grid| == width * height && width >= 3 && height >= 3
    requires forall k :: 0 <= k < |grid| ==> (grid[k] <==> k == Index(width - 1, height - 1, width))
    ensures BoundedLife.BoundedCount(grid, width, height, 0, 0) == 0
    ensures ToroidalLife.ToroidalCount(grid, width, height, 0, 0) == 1
  {
    forall nx: nat, ny: nat | nx <= 1 && ny <= 1
      ensures BoundedLife.LiveAt(grid, width, height, nx, ny) == 0
    {
      IndexInBounds(nx, ny, width, height);
      IndexInjective(nx, ny, width - 1, height - 1, width);
    }
    forall dx: int, dy: int | -1 <= dx <= 1 && -1 <= dy <= 1
      ensures ToroidalLife.LiveAt(grid, width, height, 0, 0, dx, dy) == if dx == -1 && dy == -1 then 1 else 0
    {
      ToroidalLife.WrapToOppositeEdge(0, dx, width);
      ToroidalLife.WrapToOppositeEdge(0, dy, height);
      var nx, ny := ToroidalLife.Wrap(0, dx, width), ToroidalLife.Wrap(0, dy, height);
      IndexInBounds(nx, ny, width, height);
      IndexInjective(nx, ny, width - 1, height - 1, width);
    }
  }
}

/** Positions on the grid, the eight neighbour offsets and the row-major index. */
module Geometry {

  /** A grid position: row `r` (the y coordinate) and column `c` (the x coordinate). */
  datatype Pos = Pos(r: int, c: int)

  /** The eight neighbour offsets (adjVec), each as (dx, dy): column offset, then row offset. */
  const AdjVec: seq<(int, int)> :=
    [(-1, -1), (0, -1), (1, -1),
     (-1,  0),          (1,  0),
     (-1,  1), (0,  1), (1,  1)]

  /** The k-th neighbour of `p`: `Point{c, r} + adjVec[k]`. */
  function Step(p: Pos, k: int): (q: Pos)
    requires 0 <= k < 8
    ensures q != p
    ensures -1 <= q.r - p.r <= 1 && -1 <= q.c - p.c <= 1
  {
    Pos(p.r + AdjVec[k].1, p.c + AdjVec[k].0)
  }

  /** `p` lies on a grid of `width` columns and `height` rows (Grid::inBounds). */
  predicate InBounds(width: int, height: int, p: Pos) {
    0 <= p.r < height && 0 <= p.c < width
  }

  /** The row-major index of an in-bounds position, `width * r + c`. */
  function Idx(width: int, height: int, p: Pos): (i: int)
    requires InBounds(width, height, p)
    ensures 0 <= i < width * height
    ensures i == width * p.r + p.c
  {
    MulMonotone(width, p.r, height - 1);
    width * p.r + p.c
  }

  lemma MulMonotone(width: int, a: int, b: int)
    requires 0 <= width && 0 <= a <= b
    ensures width * a <= width * b
  {
    assert width * b == width * a + width * (b - a);
  }

  /** Row `r` ends inside the grid, where row `r + 1` starts. */
  lemma RowEnd(width: int, height: int, r: int)
    requires 0 <= width && 0 <= r < height
    ensures width * r + width <= width * height
    ensures width * r + width == width * (r + 1)
  {
    assert width * height == width * (height - 1 - r) + width * (r + 1);
  }

  /** Distinct in-bounds positions have distinct indices. */
  lemma IdxInjective(width: int, height: int, p: Pos, q: Pos)
    requires InBounds(width, height, p) && InBounds(width, height, q)
    requires Idx(width, height, p) == Idx(width, height, q)
    ensures p == q
  {
    if p.r < q.r {
      MulMonotone(width, p.r + 1, q.r);
      assert false;
    } else if q.r < p.r {
      MulMonotone(width, q.r + 1, p.r);
      assert false;
    }
  }
}

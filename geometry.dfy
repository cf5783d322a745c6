/**
 * Geometry of the occupancy grid: its fixed dimensions, the in-bounds box that
 * walks and queries use, row-major cell indexing, and the table of
 * Moore-neighbourhood offsets a walking particle draws its steps from.
 */
module Geometry {
  /** Window size in pixels, and the side of the square block one cell covers. */
  const WindowWidth: int := 1280
  const WindowHeight: int := 960
  const BlockSize: int := 2

  /** Grid size in cells. */
  const GridWidth: int := 640
  const GridHeight: int := 480

  /** Length of the row-major cell vector. */
  const CellCount: int := 307200

  /** The grid dimensions are the window's divided by the block size, and the
      divisions are exact (the program refuses to start otherwise). */
  lemma DimensionsFromWindow()
    ensures WindowWidth % BlockSize == 0 && WindowHeight % BlockSize == 0
    ensures GridWidth == WindowWidth / BlockSize
    ensures GridHeight == WindowHeight / BlockSize
    ensures CellCount == GridWidth * GridHeight
  {
  }

  /** The in-bounds test of the engine. It is strict on all four sides, so
      column 0 and row 0 are out of bounds while column GridWidth - 1 and row
      GridHeight - 1 are in bounds. */
  predicate InBounds(x: int, y: int) {
    0 < x && x < GridWidth && 0 < y && y < GridHeight
  }

  /** The rectangle start points are drawn from: all of
      [0, GridWidth) × [0, GridHeight), column 0 and row 0 included. */
  predicate OnGrid(x: int, y: int) {
    0 <= x < GridWidth && 0 <= y < GridHeight
  }

  /** Row-major position of cell (x, y) in the cell vector. */
  function Index(x: int, y: int): (i: int)
    ensures OnGrid(x, y) ==> 0 <= i < CellCount
  {
    y * GridWidth + x
  }

  /** What writing cell (x, y) needs: non-negative coordinates (they are cast
      to unsigned) whose row-major index lies inside the vector. */
  predicate Addressable(x: int, y: int) {
    0 <= x && 0 <= y && Index(x, y) < CellCount
  }

  /** Distinct cells of the grid have distinct indices. */
  lemma IndexInjective(x1: int, y1: int, x2: int, y2: int)
    requires OnGrid(x1, y1) && OnGrid(x2, y2)
    requires Index(x1, y1) == Index(x2, y2)
    ensures x1 == x2 && y1 == y2
  {
  }

  /** A non-zero offset with both components in {-1, 0, 1}. */
  predicate IsMooreOffset(dx: int, dy: int) {
    -1 <= dx <= 1 && -1 <= dy <= 1 && !(dx == 0 && dy == 0)
  }

  /** The eight step directions, in the engine's order. */
  const Dirs: seq<(int, int)> := [
    (-1, -1), ( 0, -1), ( 1, -1),
    (-1,  0),           ( 1,  0),
    (-1,  1), ( 0,  1), ( 1,  1)]

  /** The direction table holds each Moore offset exactly once, and nothing else. */
  lemma DirsAreMooreOffsets()
    ensures |Dirs| == 8
    ensures forall d :: 0 <= d < |Dirs| ==> IsMooreOffset(Dirs[d].0, Dirs[d].1)
    ensures forall dx, dy :: IsMooreOffset(dx, dy) ==> (dx, dy) in Dirs
    ensures forall i, j :: 0 <= i < j < |Dirs| ==> Dirs[i] != Dirs[j]
  {
    forall dx, dy | IsMooreOffset(dx, dy) ensures (dx, dy) in Dirs {
      if dy == -1 {
        assert Dirs[dx + 1] == (dx, dy);
      } else if dy == 0 {
        assert Dirs[if dx < 0 then 3 else 4] == (dx, dy);
      } else {
        assert Dirs[dx + 6] == (dx, dy);
      }
    }
  }
}

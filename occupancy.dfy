/**
 * Occupancy queries and updates of the grid, stated over the contents of the
 * row-major cell vector (`cells`, a sequence of CellCount booleans).
 */
module Occupancy {
  import opened Geometry

  /** Whether (x, y) is an occupied cell. Out-of-bounds coordinates read as
      unoccupied whatever the vector holds at their index. */
  function Test(cells: seq<bool>, x: int, y: int): (r: bool)
    requires |cells| == CellCount
    ensures r ==> InBounds(x, y)
  {
    InBounds(x, y) && cells[Index(x, y)]
  }

  /** Whether some cell of the 8-cell Moore neighbourhood of (x, y) is occupied.
      The cell itself is not consulted. */
  function IsAdjacent(cells: seq<bool>, x: int, y: int): bool
    requires |cells| == CellCount
  {
       Test(cells, x - 1, y - 1)
    || Test(cells, x    , y - 1)
    || Test(cells, x + 1, y - 1)
    || Test(cells, x - 1, y    )
    || Test(cells, x + 1, y    )
    || Test(cells, x - 1, y + 1)
    || Test(cells, x    , y + 1)
    || Test(cells, x + 1, y + 1)
  }

  /** The neighbour of (x, y) at offset (dx, dy) is occupied. */
  predicate OccupiedAt(cells: seq<bool>, x: int, y: int, dx: int, dy: int)
    requires |cells| == CellCount
  {
    Test(cells, x + dx, y + dy)
  }

  /** Marks cell (x, y) occupied: its index becomes true and no other index changes. */
  function Set(cells: seq<bool>, x: int, y: int): (r: seq<bool>)
    requires |cells| == CellCount && Addressable(x, y)
    ensures |r| == CellCount && r[Index(x, y)]
    ensures forall i :: 0 <= i < CellCount && i != Index(x, y) ==> r[i] == cells[i]
  {
    cells[Index(x, y) := true]
  }

  /** `after` is as long as `before`, and every cell occupied in `before` is
      occupied in `after`. */
  predicate Covers(before: seq<bool>, after: seq<bool>) {
    |before| == |after| && forall i :: 0 <= i < |before| && before[i] ==> after[i]
  }

  /** The vector of a freshly created grid: every cell unoccupied. */
  function Empty(): (r: seq<bool>)
    ensures |r| == CellCount
    ensures forall i :: 0 <= i < |r| ==> !r[i]
  {
    seq(CellCount, _ => false)
  }

  /** The vector of a point-seeded grid: the empty vector with the centre set. */
  function Seeded(): (r: seq<bool>)
    ensures |r| == CellCount
  {
    Set(Empty(), GridWidth / 2, GridHeight / 2)
  }

  /** Adjacency holds exactly when some entry of the direction table leads to
      an occupied cell. */
  lemma IsAdjacentIffSomeDir(cells: seq<bool>, x: int, y: int)
    requires |cells| == CellCount
    ensures IsAdjacent(cells, x, y) <==>
      exists d :: 0 <= d < |Dirs| && OccupiedAt(cells, x, y, Dirs[d].0, Dirs[d].1)
  {
    if IsAdjacent(cells, x, y) {
      var d :|
        d in {0, 1, 2, 3, 4, 5, 6, 7} && Test(cells, x + Dirs[d].0, y + Dirs[d].1);
      assert OccupiedAt(cells, x, y, Dirs[d].0, Dirs[d].1);
    }
  }

  /** Adjacency holds exactly when some non-zero offset in {-1, 0, 1}² leads to
      an occupied cell. */
  lemma IsAdjacentIffMoore(cells: seq<bool>, x: int, y: int)
    requires |cells| == CellCount
    ensures IsAdjacent(cells, x, y) <==>
      exists dx, dy :: IsMooreOffset(dx, dy) && OccupiedAt(cells, x, y, dx, dy)
  {
    IsAdjacentIffSomeDir(cells, x, y);
    DirsAreMooreOffsets();
    if IsAdjacent(cells, x, y) {
      var d :| 0 <= d < |Dirs| && OccupiedAt(cells, x, y, Dirs[d].0, Dirs[d].1);
      assert IsMooreOffset(Dirs[d].0, Dirs[d].1);
    }
    if exists dx, dy :: IsMooreOffset(dx, dy) && OccupiedAt(cells, x, y, dx, dy) {
      var dx, dy :| IsMooreOffset(dx, dy) && OccupiedAt(cells, x, y, dx, dy);
      var d :| 0 <= d < |Dirs| && Dirs[d] == (dx, dy);
      assert OccupiedAt(cells, x, y, Dirs[d].0, Dirs[d].1);
    }
  }

  /** What the vector holds at the index of (x, y) itself never affects
      whether (x, y) is adjacent. */
  lemma IsAdjacentIgnoresOwnCell(cells: seq<bool>, x: int, y: int, v: bool)
    requires |cells| == CellCount && OnGrid(x, y)
    ensures IsAdjacent(cells[Index(x, y) := v], x, y) == IsAdjacent(cells, x, y)
  {
    var other := cells[Index(x, y) := v];
    forall dx, dy | IsMooreOffset(dx, dy)
      ensures OccupiedAt(other, x, y, dx, dy) == OccupiedAt(cells, x, y, dx, dy)
    {
      if InBounds(x + dx, y + dy) {
        assert Index(x + dx, y + dy) != Index(x, y) by {
          if Index(x + dx, y + dy) == Index(x, y) {
            IndexInjective(x + dx, y + dy, x, y);
          }
        }
      }
    }
    IsAdjacentIffMoore(other, x, y);
    IsAdjacentIffMoore(cells, x, y);
  }

  /** Setting a cell twice is the same as setting it once. */
  lemma SetIdempotent(cells: seq<bool>, x: int, y: int)
    requires |cells| == CellCount && Addressable(x, y)
    ensures Set(Set(cells, x, y), x, y) == Set(cells, x, y)
  {
  }

  /** Setting a cell never clears one. */
  lemma SetCovers(cells: seq<bool>, x: int, y: int)
    requires |cells| == CellCount && Addressable(x, y)
    ensures Covers(cells, Set(cells, x, y))
  {
  }

  /** After Set, Test reports (x, y) occupied exactly when (x, y) is in bounds,
      and every other coordinate reads as before. */
  lemma TestAfterSet(cells: seq<bool>, x: int, y: int, qx: int, qy: int)
    requires |cells| == CellCount && OnGrid(x, y)
    ensures Test(Set(cells, x, y), qx, qy) ==
      if qx == x && qy == y then InBounds(x, y) else Test(cells, qx, qy)
  {
    if InBounds(qx, qy) && Index(qx, qy) == Index(x, y) {
      IndexInjective(qx, qy, x, y);
    }
  }

  /** Column 0 and row 0 are never reported occupied, whatever the vector holds. */
  lemma NearBorderNeverOccupied(cells: seq<bool>, x: int, y: int)
    requires |cells| == CellCount
    ensures !Test(cells, 0, y) && !Test(cells, x, 0)
  {
  }

  /** A cell of column 0 or row 0 that is written changes nothing visible:
      no Test and no adjacency answer differs afterwards. */
  lemma NearBorderWriteInvisible(cells: seq<bool>, x: int, y: int, qx: int, qy: int)
    requires |cells| == CellCount && OnGrid(x, y) && (x == 0 || y == 0)
    ensures Test(Set(cells, x, y), qx, qy) == Test(cells, qx, qy)
    ensures IsAdjacent(Set(cells, x, y), qx, qy) == IsAdjacent(cells, qx, qy)
  {
    var after := Set(cells, x, y);
    forall px, py ensures Test(after, px, py) == Test(cells, px, py) {
      TestAfterSet(cells, x, y, px, py);
    }
  }

  /** Unlike column 0 and row 0, the last column and the last row are in
      bounds, and a cell there is reported once it is set. */
  lemma FarBorderCanBeOccupied(cells: seq<bool>)
    requires |cells| == CellCount
    ensures Test(Set(cells, GridWidth - 1, GridHeight - 1), GridWidth - 1, GridHeight - 1)
    ensures Test(Set(cells, GridWidth - 1, 1), GridWidth - 1, 1)
    ensures Test(Set(cells, 1, GridHeight - 1), 1, GridHeight - 1)
  {
  }

  /** No coordinate is occupied in the empty vector. */
  lemma EmptyHasNoOccupied(x: int, y: int)
    ensures !Test(Empty(), x, y)
  {
  }

  /** In the point-seeded vector, exactly the centre cell is occupied. */
  lemma SeededOnlyCentre(x: int, y: int)
    ensures Test(Seeded(), x, y) <==> x == GridWidth / 2 && y == GridHeight / 2
  {
    TestAfterSet(Empty(), GridWidth / 2, GridHeight / 2, x, y);
  }
}

/**
 * World and grid coordinates of the maze.
 *
 * World positions are continuous (the game keeps them as floats; they are
 * reals here).  A grid position is a (column, row) pair.  The tile size is
 * fixed at 50 world units.
 */
module Geometry {

  /** A world-space point (sf::Vector2f). */
  datatype Point = Point(x: real, y: real)

  /** A grid cell: x is the column, y is the row (GridPos). */
  datatype GridPos = GridPos(x: int, y: int)

  /** m_tileSize */
  const TileSize: real := 50.0

  /** The world origin, which several callers use as "no position". */
  const Origin: Point := Point(0.0, 0.0)

  /** static_cast<int> on a real: truncation toward zero, not floor. */
  function Trunc(v: real): (t: int)
    ensures v >= 0.0 ==> t as real <= v < t as real + 1.0
    ensures v < 0.0 ==> t as real - 1.0 < v <= t as real
    ensures t == 0 <==> -1.0 < v < 1.0
  {
    if v >= 0.0 then v.Floor else -((-v).Floor)
  }

  /**
   * Maze::worldToGrid: divide by the tile size and truncate toward zero.  A
   * point of non-negative coordinates lands in the tile that contains it;
   * a point less than one tile left of (or above) the origin lands in
   * column (row) 0 as well, not in -1.
   */
  function WorldToGrid(p: Point): (g: GridPos)
    ensures p.x >= 0.0 ==> g.x as real * TileSize <= p.x < (g.x + 1) as real * TileSize
    ensures p.y >= 0.0 ==> g.y as real * TileSize <= p.y < (g.y + 1) as real * TileSize
    ensures p.x < 0.0 ==> (g.x - 1) as real * TileSize < p.x <= g.x as real * TileSize
    ensures p.y < 0.0 ==> (g.y - 1) as real * TileSize < p.y <= g.y as real * TileSize
    ensures g.x == 0 <==> -TileSize < p.x < TileSize
    ensures g.y == 0 <==> -TileSize < p.y < TileSize
  {
    GridPos(Trunc(p.x / TileSize), Trunc(p.y / TileSize))
  }

  /** Maze::gridToWorld: the point halfway between the tile's two edges, in each direction. */
  function GridToWorld(g: GridPos): (p: Point)
    ensures g.x as real * TileSize < p.x < (g.x + 1) as real * TileSize
    ensures g.y as real * TileSize < p.y < (g.y + 1) as real * TileSize
    ensures p.x - g.x as real * TileSize == (g.x + 1) as real * TileSize - p.x
    ensures p.y - g.y as real * TileSize == (g.y + 1) as real * TileSize - p.y
  {
    Point(g.x as real * TileSize + TileSize / 2.0, g.y as real * TileSize + TileSize / 2.0)
  }

  /** The centre of the tile in row r and column c. */
  function CellCentre(r: int, c: int): Point {
    GridToWorld(GridPos(c, r))
  }

  lemma {:induction false} TruncOfHalf(n: int)
    ensures n >= 0 ==> Trunc(n as real + 0.5) == n
    ensures n < 0 ==> Trunc(n as real + 0.5) == n + 1
  {
    if n >= 0 {
      assert n as real <= n as real + 0.5 < n as real + 1.0;
    } else {
      assert (n + 1) as real - 1.0 < n as real + 0.5 <= (n + 1) as real;
    }
  }

  /**
   * The centre of a cell with non-negative coordinates maps back to that
   * cell; for a negative coordinate the truncation lands one cell closer
   * to zero.
   */
  lemma {:induction false} GridRoundTrip(g: GridPos)
    ensures g.x >= 0 && g.y >= 0 ==> WorldToGrid(GridToWorld(g)) == g
    ensures g.x < 0 ==> WorldToGrid(GridToWorld(g)).x == g.x + 1
    ensures g.y < 0 ==> WorldToGrid(GridToWorld(g)).y == g.y + 1
  {
    var p := GridToWorld(g);
    assert p.x / TileSize == g.x as real + 0.5;
    assert p.y / TileSize == g.y as real + 0.5;
    TruncOfHalf(g.x);
    TruncOfHalf(g.y);
  }

  /** Manhattan distance between two grid cells. */
  function Manhattan(a: GridPos, b: GridPos): (d: nat)
    ensures d == 0 <==> a == b
  {
    (if a.x >= b.x then a.x - b.x else b.x - a.x) + (if a.y >= b.y then a.y - b.y else b.y - a.y)
  }

  /** The two cells share an edge. */
  predicate Adjacent4(a: GridPos, b: GridPos) {
    Manhattan(a, b) == 1
  }

  /** Squared Euclidean distance between two world points. */
  function DistSq(a: Point, b: Point): (d: real)
    ensures d >= 0.0
  {
    (a.x - b.x) * (a.x - b.x) + (a.y - b.y) * (a.y - b.y)
  }
}

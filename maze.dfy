/**
 * The maze world (class Maze): a grid of tiles loaded from text, mutated
 * by bullet hits and explosions, and queried for walls and walkable cells.
 */
module MazeWorld {
  import opened Geometry
  import opened Cells
  import opened Wrappers

  // ---------------------------------------------------------------------
  // The text grid and what loading it produces, as functions of the text.
  // ---------------------------------------------------------------------

  /** The widest of the first k rows (the column count loadFromString computes). */
  function WidthUpTo(grid: seq<string>, k: nat): (w: nat)
    requires k <= |grid|
    ensures forall i :: 0 <= i < k ==> |grid[i]| <= w
    ensures k > 0 ==> exists i :: 0 <= i < k && |grid[i]| == w
    ensures k == 0 ==> w == 0
  {
    if k == 0 then 0
    else
      var w := WidthUpTo(grid, k - 1);
      if |grid[k - 1]| > w then |grid[k - 1]| else w
  }

  function MaxWidth(grid: seq<string>): nat {
    WidthUpTo(grid, |grid|)
  }

  /** The tile a text position loads as, before corner rounding; past a short row it stays default. */
  function BaseAt(grid: seq<string>, r: int, c: int): Cell
    requires 0 <= r < |grid|
  {
    if 0 <= c < |grid[r]| then CellOf(grid[r][c]) else DefaultCell
  }

  /** isWall on the loaded grid: out of bounds counts as a wall. */
  predicate WallIn(grid: seq<string>, r: int, c: int) {
    !(0 <= r < |grid| && 0 <= c < MaxWidth(grid)) || IsWallKind(BaseAt(grid, r, c).kind)
  }

  /**
   * The rounding rule of calculateRoundedCorners: a corner is rounded iff
   * neither of the two orthogonal neighbours that share it is a wall.
   */
  function CornerRule(top: bool, right: bool, bottom: bool, left: bool): (k: Corners)
    ensures k.topLeft <==> !top && !left
    ensures k.topRight <==> !top && !right
    ensures k.bottomRight <==> !bottom && !right
    ensures k.bottomLeft <==> !bottom && !left
  {
    Corners(!top && !left, !top && !right, !bottom && !right, !bottom && !left)
  }

  /** The tile at (r, c) once loadFromString has finished, corner flags included. */
  function LoadedCell(grid: seq<string>, r: int, c: int): Cell
    requires 0 <= r < |grid|
  {
    var b := BaseAt(grid, r, c);
    if HasCornerFlags(b.kind) then
      b.(corners := CornerRule(WallIn(grid, r - 1, c), WallIn(grid, r, c + 1), WallIn(grid, r + 1, c), WallIn(grid, r, c - 1)))
    else b
  }

  /**
   * Centres of the tiles holding ch, in row-major order, over rows before r
   * and the first c characters of row r.
   */
  function ScanMarkers(grid: seq<string>, ch: char, r: nat, c: nat): seq<Point>
    requires r < |grid| ==> c <= |grid[r]|
    requires r <= |grid| && (r == |grid| ==> c == 0)
    decreases r, c
  {
    if c > 0 then
      ScanMarkers(grid, ch, r, c - 1) + (if grid[r][c - 1] == ch then [CellCentre(r, c - 1)] else [])
    else if r == 0 then []
    else ScanMarkers(grid, ch, r - 1, |grid[r - 1]|)
  }

  /** The centre of the last tile holding ch in the same scan, or dflt if there is none. */
  function ScanLast(grid: seq<string>, ch: char, r: nat, c: nat, dflt: Point): Point
    requires r < |grid| ==> c <= |grid[r]|
    requires r <= |grid| && (r == |grid| ==> c == 0)
    decreases r, c
  {
    if c > 0 then
      (if grid[r][c - 1] == ch then CellCentre(r, c - 1) else ScanLast(grid, ch, r, c - 1, dflt))
    else if r == 0 then dflt
    else ScanLast(grid, ch, r - 1, |grid[r - 1]|, dflt)
  }

  /** The spawn points of loadFromString are exactly the centres of the X tiles. */
  lemma {:induction false} ScanMarkersExact(grid: seq<string>, ch: char, r: nat, c: nat, p: Point)
    requires r < |grid| ==> c <= |grid[r]|
    requires r <= |grid| && (r == |grid| ==> c == 0)
    ensures p in ScanMarkers(grid, ch, r, c) <==>
      exists i, j :: 0 <= i < |grid| && 0 <= j < |grid[i]| && (i < r || (i == r && j < c)) &&
        grid[i][j] == ch && p == CellCentre(i, j)
    decreases r, c
  {
    if c > 0 {
      ScanMarkersExact(grid, ch, r, c - 1, p);
      if p == CellCentre(r, c - 1) && grid[r][c - 1] == ch {
        assert 0 <= r < |grid| && 0 <= c - 1 < |grid[r]|;
      }
    } else if r > 0 {
      ScanMarkersExact(grid, ch, r - 1, |grid[r - 1]|, p);
    }
  }

  /** A tile centre is never the world origin, so an origin default is never confused with a marker. */
  lemma CentreNotOrigin(r: nat, c: nat)
    ensures CellCentre(r, c) != Origin
  {
  }

  /** The column count loadFromString computes: the length of the longest row. */
  method GridWidth(grid: seq<string>) returns (w: nat)
    ensures w == MaxWidth(grid)
  {
    w := 0;
    for i := 0 to |grid|
      invariant w == WidthUpTo(grid, i)
    {
      if |grid[i]| > w {
        w := |grid[i]|;
      }
    }
  }

  /**
   * The scan loop of loadFromString: the tiles of each text position and
   * the marker positions, in one row-major pass.
   */
  method ParseTiles(grid: seq<string>, w: nat, start: Point, exit: Point)
    returns (a: array2<Cell>, spawns: seq<Point>, s: Point, e: Point, p1: Point, p2: Point)
    requires w == MaxWidth(grid)
    ensures fresh(a) && a.Length0 == |grid| && a.Length1 == w
    ensures forall i, j :: 0 <= i < |grid| && 0 <= j < w ==> a[i, j] == BaseAt(grid, i, j)
    ensures spawns == ScanMarkers(grid, 'X', |grid|, 0)
    ensures s == ScanLast(grid, 'S', |grid|, 0, start)
    ensures e == ScanLast(grid, 'E', |grid|, 0, exit)
    ensures p1 == ScanLast(grid, '1', |grid|, 0, Origin)
    ensures p2 == ScanLast(grid, '2', |grid|, 0, Origin)
  {
      a := new Cell[|grid|, w]((i, j) => DefaultCell);
      spawns := [];
      s, e, p1, p2 := start, exit, Origin, Origin;
      for r := 0 to |grid|
        invariant forall i, j :: 0 <= i < |grid| && 0 <= j < w ==>
          a[i, j] == (if i < r then BaseAt(grid, i, j) else DefaultCell)
        invariant spawns == ScanMarkers(grid, 'X', r, 0)
        invariant s == ScanLast(grid, 'S', r, 0, start)
        invariant e == ScanLast(grid, 'E', r, 0, exit)
        invariant p1 == ScanLast(grid, '1', r, 0, Origin)
        invariant p2 == ScanLast(grid, '2', r, 0, Origin)
      {
        for c := 0 to |grid[r]|
          invariant forall i, j :: 0 <= i < |grid| && 0 <= j < w ==>
            a[i, j] == (if i < r || (i == r && j < c) then BaseAt(grid, i, j) else DefaultCell)
          invariant spawns == ScanMarkers(grid, 'X', r, c)
          invariant s == ScanLast(grid, 'S', r, c, start)
          invariant e == ScanLast(grid, 'E', r, c, exit)
          invariant p1 == ScanLast(grid, '1', r, c, Origin)
          invariant p2 == ScanLast(grid, '2', r, c, Origin)
        {
          var ch := grid[r][c];
          a[r, c] := CellOf(ch);
          var centre := CellCentre(r, c);
          if ch == 'S' {
            s := centre;
          } else if ch == 'E' {
            e := centre;
          } else if ch == 'X' {
            spawns := spawns + [centre];
          } else if ch == '1' {
            p1 := centre;
          } else if ch == '2' {
            p2 := centre;
          }
        }
      }
  }

  // ---------------------------------------------------------------------
  // Bullet hits as a function of the grid before the hit.
  // ---------------------------------------------------------------------

  /** Two distinct tiles that touch by an edge or a corner (the explosion's 8-neighbourhood). */
  predicate InBlast(i: int, j: int, r: int, c: int) {
    (i != r || j != c) && -1 <= i - r <= 1 && -1 <= j - c <= 1
  }

  /** struct WallDestroyResult; `grid` holds gridX/gridY when the hit sets them. */
  datatype WallDestroyResult = WallDestroyResult(destroyed: bool, attribute: WallAttribute, position: Point, grid: Option<GridPos>)

  const NoResult: WallDestroyResult := WallDestroyResult(false, Plain, Origin, None)

  /** The offsets of the explosion loops in order: column offset outermost, then row offset. */
  const BlastX: seq<int> := [-1, -1, -1, 0, 0, 0, 1, 1, 1]
  const BlastY: seq<int> := [-1, 0, 1, -1, 0, 1, -1, 0, 1]

  /** The tiles of a grid as a value, row by row (m_walls). */
  type Board = seq<seq<Cell>>

  predicate OnBoard(b: Board, r: int, c: int) {
    0 <= r < |b| && 0 <= c < |b[r]|
  }

  /** A hit of `damage` on (r, c) destroys a destructible tile: health falls to 0 or below. */
  predicate Destroys(b: Board, r: int, c: int, damage: real) {
    OnBoard(b, r, c) && b[r][c].kind == Destructible && b[r][c].health - damage <= 0.0
  }

  /** The hit tile after the hit: health reduced, emptied when it drops to 0 or below. */
  function Damaged(w: Cell, damage: real): Cell {
    if w.health - damage <= 0.0 then w.(kind := Empty, health := w.health - damage)
    else w.(health := w.health - damage)
  }

  /**
   * The tile (i, j) after a bullet hit of `damage` on (r, c), read in the
   * grid before the hit: the hit tile is damaged if destructible; if that
   * destroys an explosive tile, its in-bounds destructible 8-neighbours
   * become empty (their health untouched, nothing recurses); every other
   * tile is as it was.
   */
  function CellAfterHit(b: Board, i: int, j: int, r: int, c: int, damage: real): Cell
    requires OnBoard(b, i, j)
  {
    if i == r && j == c && b[r][c].kind == Destructible then Damaged(b[r][c], damage)
    else if Destroys(b, r, c, damage) && b[r][c].attribute == Explosive && InBlast(i, j, r, c) && b[i][j].kind == Destructible then
      b[i][j].(kind := Empty)
    else b[i][j]
  }

  /** The whole grid after a bullet hit of `damage` on tile g: same shape, every tile as CellAfterHit says. */
  function AfterHit(b: Board, g: GridPos, damage: real): (b': Board)
    ensures |b'| == |b| && forall r :: 0 <= r < |b| ==> |b'[r]| == |b[r]|
    ensures forall r, c :: OnBoard(b, r, c) ==> b'[r][c] == CellAfterHit(b, r, c, g.y, g.x, damage)
  {
    seq(|b|, r requires 0 <= r < |b| => seq(|b[r]|, c requires 0 <= c < |b[r]| => CellAfterHit(b, r, c, g.y, g.x, damage)))
  }

  /** The bullet's tile is on the grid and solid or destructible. */
  predicate IsWallAt(b: Board, g: GridPos) {
    OnBoard(b, g.y, g.x) && IsWallKind(b[g.y][g.x].kind)
  }

  /** What bulletHitWithResult reports for a hit on tile g, read in the grid before the hit. */
  function HitResult(b: Board, g: GridPos, damage: real): WallDestroyResult {
    if !IsWallAt(b, g) then NoResult
    else if Destroys(b, g.y, g.x, damage) then WallDestroyResult(true, b[g.y][g.x].attribute, GridToWorld(g), Some(g))
    else WallDestroyResult(false, Plain, GridToWorld(g), Some(g))
  }

  /**
   * The bullet-hit rules, read off the grid before the hit: a miss (off
   * the grid, empty or exit) changes nothing and reports the default
   * result; a solid tile is hit but unchanged; a destructible tile loses
   * `damage` health, keeps its attribute and becomes empty exactly when
   * its health drops to 0 or below; the result reports destruction exactly
   * on that hit, with the tile's real attribute; and the only other tiles
   * that change are destructible 8-neighbours of an explosive tile so
   * destroyed, which become empty.
   */
  lemma HitRules(b: Board, g: GridPos, damage: real)
    ensures !IsWallAt(b, g) ==> HitResult(b, g, damage) == NoResult && AfterHit(b, g, damage) == b
    ensures IsWallAt(b, g) ==> HitResult(b, g, damage).grid == Some(g) && HitResult(b, g, damage).position == GridToWorld(g)
    ensures IsWallAt(b, g) && b[g.y][g.x].kind == Solid ==>
      !HitResult(b, g, damage).destroyed && HitResult(b, g, damage).attribute == Plain && AfterHit(b, g, damage) == b
    ensures IsWallAt(b, g) && b[g.y][g.x].kind == Destructible ==>
      var w, w' := b[g.y][g.x], AfterHit(b, g, damage)[g.y][g.x];
      w'.health == w.health - damage && w'.attribute == w.attribute &&
      (w'.kind == Empty <==> w.health - damage <= 0.0) &&
      (w'.kind != Empty ==> w'.kind == Destructible)
    ensures HitResult(b, g, damage).destroyed <==> Destroys(b, g.y, g.x, damage)
    ensures HitResult(b, g, damage).destroyed ==> HitResult(b, g, damage).attribute == b[g.y][g.x].attribute
    ensures !HitResult(b, g, damage).destroyed ==> HitResult(b, g, damage).attribute == Plain
    ensures forall i, j :: OnBoard(b, i, j) && AfterHit(b, g, damage)[i][j] != b[i][j] ==>
      (i == g.y && j == g.x) ||
      (HitResult(b, g, damage).destroyed && HitResult(b, g, damage).attribute == Explosive && InBlast(i, j, g.y, g.x) &&
       b[i][j].kind == Destructible && AfterHit(b, g, damage)[i][j] == b[i][j].(kind := Empty))
  {
    if !IsWallAt(b, g) || b[g.y][g.x].kind == Solid {
      Unhit(b, g, damage);
    }
  }

  /** A hit that damages nothing leaves the board as it was. */
  lemma Unhit(b: Board, g: GridPos, damage: real)
    requires !OnBoard(b, g.y, g.x) || b[g.y][g.x].kind != Destructible
    ensures AfterHit(b, g, damage) == b
  {
    var b' := AfterHit(b, g, damage);
    forall r | 0 <= r < |b|
      ensures b'[r] == b[r]
    {
    }
  }

  // ---------------------------------------------------------------------
  // Circle against tile collision (the body of checkCollision's loop).
  // ---------------------------------------------------------------------

  /** std::max(lo, std::min(v, hi)) */
  function Clamp(v: real, lo: real, hi: real): real {
    var m := if hi < v then hi else v;
    if lo < m then m else lo
  }

  /** Which rounded corner's zone a point is in: 0 top-left, 1 top-right, 2 bottom-right, 3 bottom-left, -1 none. */
  function CornerIndex(inLeft: bool, inRight: bool, inTop: bool, inBottom: bool): (k: int)
    ensures -1 <= k <= 3
  {
    if inLeft && inTop then 0
    else if inRight && inTop then 1
    else if inRight && inBottom then 2
    else if inLeft && inBottom then 3
    else -1
  }

  /** roundedCorners[k] */
  function CornerFlag(k: Corners, i: int): bool {
    if i == 0 then k.topLeft
    else if i == 1 then k.topRight
    else if i == 2 then k.bottomRight
    else if i == 3 then k.bottomLeft
    else false
  }

  /**
   * Does a circle at p of the given radius touch wall tile (r, c)?  The wall
   * is the tile inset by one unit on every side.  In a corner zone whose
   * corner is rounded (cornerRadius is the rounding radius) the test is
   * against the quarter circle; otherwise against the nearest point of the
   * rectangle.  Both comparisons are strict.
   */
  predicate TileHit(w: Cell, r: int, c: int, p: Point, radius: real, cornerRadius: real) {
    var left := c as real * TileSize + 1.0;
    var right := left + TileSize - 2.0;
    var top := r as real * TileSize + 1.0;
    var bottom := top + TileSize - 2.0;
    var innerLeft, innerRight := left + cornerRadius, right - cornerRadius;
    var innerTop, innerBottom := top + cornerRadius, bottom - cornerRadius;
    var inLeft, inRight := p.x < innerLeft, p.x > innerRight;
    var inTop, inBottom := p.y < innerTop, p.y > innerBottom;
    var k := CornerIndex(inLeft, inRight, inTop, inBottom);
    if k >= 0 && CornerFlag(w.corners, k) then
      var centre := Point(if inLeft then innerLeft else innerRight, if inTop then innerTop else innerBottom);
      DistSq(p, centre) < (radius + cornerRadius) * (radius + cornerRadius)
    else
      DistSq(p, Point(Clamp(p.x, left, right), Clamp(p.y, top, bottom))) < radius * radius
  }

  /**
   * Once the tiles of grid are in place, the tile loadFromString finishes
   * with is what calculateRoundedCorners makes of the tile in place.
   */
  lemma LoadedBeforeRounding(m: Maze, grid: seq<string>)
    requires m.Valid() && m.rows == |grid| && m.cols == MaxWidth(grid)
    requires forall i, j :: 0 <= i < m.rows && 0 <= j < m.cols ==> m.walls[i, j] == BaseAt(grid, i, j)
    ensures forall r, c :: 0 <= r < m.rows && 0 <= c < m.cols ==>
      LoadedCell(grid, r, c) ==
      (if HasCornerFlags(m.walls[r, c].kind) then m.walls[r, c].(corners := m.RoundedAt(r, c)) else m.walls[r, c])
  {
    forall r, c
      ensures m.IsWall(r, c) == WallIn(grid, r, c)
    {
      if m.InBounds(r, c) {
        assert m.walls[r, c].kind == BaseAt(grid, r, c).kind;
      }
    }
  }

  /** The lowest and highest tile index a span [v - radius, v + radius] can reach, clipped to the grid. */
  function LowIndex(v: real): int {
    var t := Trunc(v / TileSize);
    if t > 0 then t else 0
  }

  function HighIndex(v: real, n: int): int {
    var t := Trunc(v / TileSize);
    if n - 1 < t then n - 1 else t
  }

  class Maze {
    var walls: array2<Cell>
    var rows: int
    var cols: int
    var mazeData: seq<string>
    var startPos: Point
    var exitPos: Point
    var spawn1: Point
    var spawn2: Point
    var enemySpawns: seq<Point>

    predicate Valid()
      reads this
    {
      walls.Length0 == rows && walls.Length1 == cols
    }

    /** Maze::Maze: an empty maze (m_rows = m_cols = 0). */
    constructor ()
      ensures Valid() && fresh(walls)
      ensures rows == 0 && cols == 0 && mazeData == [] && enemySpawns == []
      ensures startPos == Origin && exitPos == Origin && spawn1 == Origin && spawn2 == Origin
    {
      walls := new Cell[0, 0];
      rows, cols := 0, 0;
      mazeData := [];
      startPos, exitPos, spawn1, spawn2 := Origin, Origin, Origin, Origin;
      enemySpawns := [];
    }

    predicate InBounds(r: int, c: int)
      reads this
    {
      0 <= r < rows && 0 <= c < cols
    }

    /**
     * Maze::isWalkable: false out of bounds; on the grid, walkable exactly
     * where isWall says there is no wall.
     */
    predicate IsWalkable(r: int, c: int): (b: bool)
      requires Valid()
      reads this, walls
      ensures b ==> InBounds(r, c)
      ensures InBounds(r, c) ==> (b <==> !IsWall(r, c))
    {
      InBounds(r, c) && IsWalkableKind(walls[r, c].kind)
    }

    /** Maze::isWall: true out of bounds; on the grid, true on every tile but the empty and exit ones. */
    predicate IsWall(r: int, c: int): (b: bool)
      requires Valid()
      reads this, walls
      ensures !InBounds(r, c) ==> b
      ensures InBounds(r, c) ==> (b <==> walls[r, c].kind != Empty && walls[r, c].kind != Exit)
    {
      !InBounds(r, c) || IsWallKind(walls[r, c].kind)
    }

    /** The kind of an in-bounds tile. */
    function KindAt(r: int, c: int): WallType
      requires Valid() && InBounds(r, c)
      reads this, walls
    {
      walls[r, c].kind
    }

    /** The tile kinds, row by row: a value snapshot of the grid. */
    function Kinds(): (k: Tiles)
      requires Valid()
      reads this, walls
      ensures |k| == rows
      ensures forall r :: 0 <= r < rows ==> |k[r]| == cols
      ensures forall r, c :: 0 <= r < rows && 0 <= c < cols ==> k[r][c] == walls[r, c].kind
    {
      seq(rows, r requires 0 <= r < rows && Valid() reads this, walls => RowKinds(r))
    }

    /** The tile kinds of row r. */
    function RowKinds(r: int): (k: seq<WallType>)
      requires Valid() && 0 <= r < rows
      reads this, walls
      ensures |k| == cols && forall c :: 0 <= c < cols ==> k[c] == walls[r, c].kind
    {
      seq(cols, c requires 0 <= c < cols && Valid() && 0 <= r < rows reads this, walls => walls[r, c].kind)
    }

    /** The corner flags calculateRoundedCorners gives the tile at (r, c). */
    function RoundedAt(r: int, c: int): Corners
      requires Valid()
      reads this, walls
    {
      CornerRule(IsWall(r - 1, c), IsWall(r, c + 1), IsWall(r + 1, c), IsWall(r, c - 1))
    }

    /**
     * Maze::loadFromString.  An empty grid changes nothing.  Otherwise the grid
     * is rebuilt: |grid| rows, as many columns as the longest row, every tile
     * as its symbol says (default past a short row), corner flags from the
     * four orthogonal neighbours, spawn points from the X tiles in row-major
     * order, the start and exit from the last S and E (kept from before if
     * there is none), and the multiplayer spawns from the last 1 and 2 (the
     * origin if there is none).
     */
    method LoadFromString(grid: seq<string>)
      requires Valid()
      modifies this
      ensures Valid()
      ensures grid == [] ==> unchanged(this)
      ensures grid != [] ==>
        && fresh(walls) && rows == |grid| && cols == MaxWidth(grid) && mazeData == grid
        && (forall r, c :: 0 <= r < rows && 0 <= c < cols ==> walls[r, c] == LoadedCell(grid, r, c))
        && enemySpawns == ScanMarkers(grid, 'X', |grid|, 0)
        && startPos == ScanLast(grid, 'S', |grid|, 0, old(startPos))
        && exitPos == ScanLast(grid, 'E', |grid|, 0, old(exitPos))
        && spawn1 == ScanLast(grid, '1', |grid|, 0, Origin)
        && spawn2 == ScanLast(grid, '2', |grid|, 0, Origin)
    {
      if grid == [] {
        return;
      }
      Rebuild(grid);
    }

    /** The work of loadFromString on a grid with at least one row: parse the tiles, then round the corners. */
    method Rebuild(grid: seq<string>)
      requires grid != []
      modifies this
      ensures Valid() && fresh(walls) && rows == |grid| && cols == MaxWidth(grid) && mazeData == grid
      ensures forall r, c :: 0 <= r < rows && 0 <= c < cols ==> walls[r, c] == LoadedCell(grid, r, c)
      ensures enemySpawns == ScanMarkers(grid, 'X', |grid|, 0)
      ensures startPos == ScanLast(grid, 'S', |grid|, 0, old(startPos))
      ensures exitPos == ScanLast(grid, 'E', |grid|, 0, old(exitPos))
      ensures spawn1 == ScanLast(grid, '1', |grid|, 0, Origin)
      ensures spawn2 == ScanLast(grid, '2', |grid|, 0, Origin)
    {
      var w := GridWidth(grid);
      var a, spawns, st, ex, p1, p2 := ParseTiles(grid, w, startPos, exitPos);
      mazeData, rows, cols, walls := grid, |grid|, w, a;
      enemySpawns, startPos, exitPos, spawn1, spawn2 := spawns, st, ex, p1, p2;
      LoadedBeforeRounding(this, grid);
      CalculateRoundedCorners();
    }

    /**
     * Maze::calculateRoundedCorners: every solid, destructible or exit tile
     * gets its corner flags from its four orthogonal neighbours; no other
     * field and no other tile changes.  The diagonal neighbours are read by
     * the source but never used, and are not read here.
     */
    method CalculateRoundedCorners()
      requires Valid()
      modifies walls
      ensures Valid()
      ensures forall r, c :: 0 <= r < rows && 0 <= c < cols ==> walls[r, c].kind == old(walls[r, c].kind)
      ensures forall r, c :: 0 <= r < rows && 0 <= c < cols ==>
        walls[r, c] == (if HasCornerFlags(old(walls[r, c]).kind) then old(walls[r, c]).(corners := old(RoundedAt(r, c))) else old(walls[r, c]))
    {
      for r := 0 to rows
        invariant forall i, j :: 0 <= i < rows && 0 <= j < cols ==>
          walls[i, j] == (if i < r && HasCornerFlags(old(walls[i, j]).kind) then old(walls[i, j]).(corners := old(RoundedAt(i, j))) else old(walls[i, j]))
      {
        for c := 0 to cols
          invariant forall i, j :: 0 <= i < rows && 0 <= j < cols ==>
            walls[i, j] == (if (i < r || (i == r && j < c)) && HasCornerFlags(old(walls[i, j]).kind) then old(walls[i, j]).(corners := old(RoundedAt(i, j))) else old(walls[i, j]))
        {
          var wall := walls[r, c];
          if !HasCornerFlags(wall.kind) {
            continue;
          }
          var hasTop := IsWall(r - 1, c);
          var hasBottom := IsWall(r + 1, c);
          var hasLeft := IsWall(r, c - 1);
          var hasRight := IsWall(r, c + 1);
          assert hasTop == old(IsWall(r - 1, c)) && hasBottom == old(IsWall(r + 1, c));
          assert hasLeft == old(IsWall(r, c - 1)) && hasRight == old(IsWall(r, c + 1));
          walls[r, c] := wall.(corners := CornerRule(hasTop, hasRight, hasBottom, hasLeft));
        }
      }
      forall r, c | 0 <= r < rows && 0 <= c < cols
        ensures RoundedAt(r, c) == old(RoundedAt(r, c))
      {
        assert IsWall(r - 1, c) == old(IsWall(r - 1, c));
        assert IsWall(r + 1, c) == old(IsWall(r + 1, c));
        assert IsWall(r, c - 1) == old(IsWall(r, c - 1));
        assert IsWall(r, c + 1) == old(IsWall(r, c + 1));
      }
    }

    /**
     * Maze::checkCollision: true iff some solid or destructible tile in the
     * circle's bounding window touches the circle.
     */
    method CheckCollision(position: Point, radius: real, cornerRadius: real) returns (hit: bool)
      requires Valid()
      ensures hit <==> exists r, c ::
        LowIndex(position.y - radius) <= r <= HighIndex(position.y + radius, rows) &&
        LowIndex(position.x - radius) <= c <= HighIndex(position.x + radius, cols) &&
        IsWallKind(walls[r, c].kind) && TileHit(walls[r, c], r, c, position, radius, cornerRadius)
    {
      var minC := LowIndex(position.x - radius);
      var maxC := HighIndex(position.x + radius, cols);
      var minR := LowIndex(position.y - radius);
      var maxR := HighIndex(position.y + radius, rows);
      var r := minR;
      while r <= maxR
        invariant minR <= r || maxR < minR
        invariant forall i, j :: minR <= i < r && i <= maxR && minC <= j <= maxC ==>
          !(IsWallKind(walls[i, j].kind) && TileHit(walls[i, j], i, j, position, radius, cornerRadius))
      {
        var c := minC;
        while c <= maxC
          invariant minC <= c || maxC < minC
          invariant forall j :: minC <= j < c && j <= maxC ==>
            !(IsWallKind(walls[r, j].kind) && TileHit(walls[r, j], r, j, position, radius, cornerRadius))
        {
          var wall := walls[r, c];
          if IsWallKind(wall.kind) && TileHit(wall, r, c, position, radius, cornerRadius) {
            return true;
          }
          c := c + 1;
        }
        r := r + 1;
      }
      return false;
    }

    // -------------------------------------------------------------------
    // Bullet hits and explosions
    // -------------------------------------------------------------------

    /** The tiles, row by row: a value snapshot of the whole grid. */
    function Cells(): (b: Board)
      requires Valid()
      reads this, walls
      ensures |b| == rows
      ensures forall r :: 0 <= r < rows ==> |b[r]| == cols
      ensures forall r, c :: 0 <= r < rows && 0 <= c < cols ==> b[r][c] == walls[r, c]
    {
      seq(rows, r requires 0 <= r < rows && Valid() reads this, walls => RowCells(r))
    }

    /** The tiles of row r. */
    function RowCells(r: int): (k: seq<Cell>)
      requires Valid() && 0 <= r < rows
      reads this, walls
      ensures |k| == cols && forall c :: 0 <= c < cols ==> k[c] == walls[r, c]
    {
      seq(cols, c requires 0 <= c < cols && Valid() && 0 <= r < rows reads this, walls => walls[r, c])
    }

    /** A board of the grid's shape that agrees with it tile by tile is its snapshot. */
    lemma CellsAre(b: Board)
      requires Valid() && |b| == rows && (forall r :: 0 <= r < rows ==> |b[r]| == cols)
      requires forall r, c :: 0 <= r < rows && 0 <= c < cols ==> b[r][c] == walls[r, c]
      ensures Cells() == b
    {
      var k := Cells();
      forall r | 0 <= r < rows
        ensures k[r] == b[r]
      {
      }
    }

    /** Maze::bulletHit: true iff the bullet's tile is in bounds and solid or destructible. */
    method BulletHit(bulletPos: Point, damage: real) returns (hit: bool)
      requires Valid()
      modifies walls
      ensures Valid()
      ensures hit == IsWallAt(old(Cells()), WorldToGrid(bulletPos))
      ensures Cells() == AfterHit(old(Cells()), WorldToGrid(bulletPos), damage)
    {
      ghost var b := Cells();
      hit := Hit(bulletPos, damage);
      CellsAre(AfterHit(b, WorldToGrid(bulletPos), damage));
    }

    /** The body of bulletHit, tile by tile. */
    method Hit(bulletPos: Point, damage: real) returns (hit: bool)
      requires Valid()
      modifies walls
      ensures Valid()
      ensures hit == IsWallAt(old(Cells()), WorldToGrid(bulletPos))
      ensures forall i, j :: 0 <= i < rows && 0 <= j < cols ==>
        walls[i, j] == CellAfterHit(old(Cells()), i, j, WorldToGrid(bulletPos).y, WorldToGrid(bulletPos).x, damage)
    {
      var c := Trunc(bulletPos.x / TileSize);
      var r := Trunc(bulletPos.y / TileSize);
      if r < 0 || r >= rows || c < 0 || c >= cols {
        return false;
      }
      var wall := walls[r, c];
      if wall.kind == Solid {
        return true;
      } else if wall.kind == Destructible {
        var health := wall.health - damage;
        if health <= 0.0 {
          var attr := wall.attribute;
          walls[r, c] := wall.(kind := Empty, health := health);
          if attr == Explosive {
            HandleExplosion(c, r);
          }
        } else {
          walls[r, c] := wall.(health := health);
        }
        return true;
      }
      return false;
    }

    /**
     * Maze::bulletHitWithResult: the same change of the grid as bulletHit.
     * The result is the default one (not destroyed, no attribute, origin)
     * off the grid and on empty or exit tiles; on a solid or damaged tile it
     * reports the tile centre, not destroyed, no attribute; on the
     * destroying hit it reports the centre, destroyed, and the tile's real
     * attribute.
     */
    method BulletHitWithResult(bulletPos: Point, damage: real) returns (res: WallDestroyResult)
      requires Valid()
      modifies walls
      ensures Valid()
      ensures Cells() == AfterHit(old(Cells()), WorldToGrid(bulletPos), damage)
      ensures res == HitResult(old(Cells()), WorldToGrid(bulletPos), damage)
    {
      ghost var b := Cells();
      res := HitWithResult(bulletPos, damage);
      CellsAre(AfterHit(b, WorldToGrid(bulletPos), damage));
    }

    /** The body of bulletHitWithResult, tile by tile. */
    method HitWithResult(bulletPos: Point, damage: real) returns (res: WallDestroyResult)
      requires Valid()
      modifies walls
      ensures Valid()
      ensures forall i, j :: 0 <= i < rows && 0 <= j < cols ==>
        walls[i, j] == CellAfterHit(old(Cells()), i, j, WorldToGrid(bulletPos).y, WorldToGrid(bulletPos).x, damage)
      ensures res == HitResult(old(Cells()), WorldToGrid(bulletPos), damage)
    {
      res := NoResult;
      var c := Trunc(bulletPos.x / TileSize);
      var r := Trunc(bulletPos.y / TileSize);
      if r < 0 || r >= rows || c < 0 || c >= cols {
        return;
      }
      var wall := walls[r, c];
      var centre := Point(c as real * TileSize + TileSize / 2.0, r as real * TileSize + TileSize / 2.0);
      if wall.kind == Solid {
        res := WallDestroyResult(false, Plain, centre, Some(GridPos(c, r)));
        return;
      }
      if wall.kind == Destructible {
        var health := wall.health - damage;
        if health <= 0.0 {
          res := WallDestroyResult(true, wall.attribute, centre, Some(GridPos(c, r)));
          walls[r, c] := wall.(kind := Empty, health := health);
          if res.attribute == Explosive {
            HandleExplosion(c, r);
          }
        } else {
          walls[r, c] := wall.(health := health);
          res := WallDestroyResult(false, Plain, centre, Some(GridPos(c, r)));
        }
      }
    }

    /**
     * Maze::handleExplosion: every in-bounds 8-neighbour of (gridX, gridY)
     * that is destructible becomes empty; nothing else changes.
     */
    method HandleExplosion(gridX: int, gridY: int)
      requires Valid()
      modifies walls
      ensures Valid()
      ensures forall i, j :: 0 <= i < rows && 0 <= j < cols ==>
        walls[i, j] == (if InBlast(i, j, gridY, gridX) && old(walls[i, j]).kind == Destructible then old(walls[i, j]).(kind := Empty) else old(walls[i, j]))
    {
      for dr := -1 to 2
        invariant forall i, j :: 0 <= i < rows && 0 <= j < cols ==>
          walls[i, j] == (if InBlast(i, j, gridY, gridX) && i - gridY < dr && old(walls[i, j]).kind == Destructible then old(walls[i, j]).(kind := Empty) else old(walls[i, j]))
      {
        for dc := -1 to 2
          invariant forall i, j :: 0 <= i < rows && 0 <= j < cols ==>
            walls[i, j] == (if InBlast(i, j, gridY, gridX) && (i - gridY < dr || (i - gridY == dr && j - gridX < dc)) && old(walls[i, j]).kind == Destructible
                            then old(walls[i, j]).(kind := Empty) else old(walls[i, j]))
        {
          if dr == 0 && dc == 0 {
            continue;
          }
          var nr := gridY + dr;
          var nc := gridX + dc;
          if nr < 0 || nr >= rows || nc < 0 || nc >= cols {
            continue;
          }
          var neighbour := walls[nr, nc];
          if neighbour.kind == Destructible {
            walls[nr, nc] := neighbour.(kind := Empty);
          }
        }
      }
    }

    /** The centres of the in-bounds 8-neighbours of (gridX, gridY) among the first k of the nine offsets. */
    function AreaUpTo(gridX: int, gridY: int, k: nat): seq<Point>
      requires k <= 9
      reads this
    {
      if k == 0 then []
      else
        var dx, dy := BlastX[k - 1], BlastY[k - 1];
        var gx, gy := gridX + dx, gridY + dy;
        AreaUpTo(gridX, gridY, k - 1) +
          (if (dx == 0 && dy == 0) || !InBounds(gy, gx) then [] else [GridToWorld(GridPos(gx, gy))])
    }

    /** Step 3 * (dx + 1) + (dy + 1) of AreaUpTo looks at offset (dx, dy). */
    lemma AreaStep(gridX: int, gridY: int, dx: int, dy: int)
      requires -1 <= dx <= 1 && -1 <= dy <= 1
      ensures var k := 3 * (dx + 1) + (dy + 1);
        if (dx == 0 && dy == 0) || !InBounds(gridY + dy, gridX + dx) then AreaUpTo(gridX, gridY, k + 1) == AreaUpTo(gridX, gridY, k)
        else AreaUpTo(gridX, gridY, k + 1) == AreaUpTo(gridX, gridY, k) + [GridToWorld(GridPos(gridX + dx, gridY + dy))]
    {
      var k := 3 * (dx + 1) + (dy + 1);
      assert AreaUpTo(gridX, gridY, k) + [] == AreaUpTo(gridX, gridY, k);
      assert BlastX[3 * (dx + 1) + (dy + 1)] == dx && BlastY[3 * (dx + 1) + (dy + 1)] == dy;
    }

    /**
     * Maze::getExplosionArea: the centres of the in-bounds 8-neighbours,
     * column offset outermost, then row offset.
     */
    method GetExplosionArea(gridX: int, gridY: int) returns (area: seq<Point>)
      ensures area == AreaUpTo(gridX, gridY, 9)
      ensures |area| <= 8
      ensures forall p :: p in area <==>
        exists i, j :: InBounds(i, j) && InBlast(i, j, gridY, gridX) && p == GridToWorld(GridPos(j, i))
    {
      area := [];
      for dx := -1 to 2
        invariant area == AreaUpTo(gridX, gridY, 3 * (dx + 1))
      {
        area := ExplosionColumn(gridX, gridY, dx, area);
      }
      AreaLength(gridX, gridY, 9);
      AreaMembers(gridX, gridY, 9);
      forall p | p in area
        ensures exists i, j :: InBounds(i, j) && InBlast(i, j, gridY, gridX) && p == GridToWorld(GridPos(j, i))
      {
        var i, j :| AreaTile(gridX, gridY, 9, i, j) && p == GridToWorld(GridPos(j, i));
      }
      forall p, i, j | InBounds(i, j) && InBlast(i, j, gridY, gridX) && p == GridToWorld(GridPos(j, i))
        ensures p in area
      {
        assert AreaTile(gridX, gridY, 9, i, j);
      }
    }

    /** The inner loop of getExplosionArea: the cells of column offset dx appended to area0. */
    method ExplosionColumn(gridX: int, gridY: int, dx: int, area0: seq<Point>) returns (area: seq<Point>)
      requires -1 <= dx <= 1 && area0 == AreaUpTo(gridX, gridY, 3 * (dx + 1))
      ensures area == AreaUpTo(gridX, gridY, 3 * (dx + 1) + 3)
    {
      area := area0;
      for dy := -1 to 2
        invariant area == AreaUpTo(gridX, gridY, 3 * (dx + 1) + (dy + 1))
      {
        area := ExplosionCell(gridX, gridY, dx, dy, area);
      }
    }

    /** The body of the inner loop: the centre of the neighbour at offset (dx, dy), if it is one and in bounds. */
    method ExplosionCell(gridX: int, gridY: int, dx: int, dy: int, area0: seq<Point>) returns (area: seq<Point>)
      requires -1 <= dx <= 1 && -1 <= dy <= 1 && area0 == AreaUpTo(gridX, gridY, 3 * (dx + 1) + (dy + 1))
      ensures area == AreaUpTo(gridX, gridY, 3 * (dx + 1) + (dy + 1) + 1)
    {
      AreaStep(gridX, gridY, dx, dy);
      area := area0;
      if dx == 0 && dy == 0 {
        return;
      }
      var gx := gridX + dx;
      var gy := gridY + dy;
      if gy < 0 || gy >= rows || gx < 0 || gx >= cols {
        return;
      }
      area := area + [GridToWorld(GridPos(gx, gy))];
    }

    /** Offset number n of the table is 3 * (dx + 1) + (dy + 1). */
    lemma OffsetNumber(n: nat)
      requires n < 9
      ensures -1 <= BlastX[n] <= 1 && -1 <= BlastY[n] <= 1
      ensures 3 * (BlastX[n] + 1) + (BlastY[n] + 1) == n
    {
    }

    /** Tile (i, j) is an in-bounds 8-neighbour of (gridX, gridY) whose offset number is below k. */
    predicate AreaTile(gridX: int, gridY: int, k: nat, i: int, j: int)
      reads this
    {
      InBounds(i, j) && InBlast(i, j, gridY, gridX) && 3 * (j - gridX + 1) + (i - gridY + 1) < k
    }

    /** The first k offsets of getExplosionArea give at most one point each, none for the centre offset. */
    lemma {:induction false} AreaLength(gridX: int, gridY: int, k: nat)
      requires k <= 9
      ensures |AreaUpTo(gridX, gridY, k)| <= (if k > 4 then k - 1 else k)
    {
      if k > 0 {
        AreaLength(gridX, gridY, k - 1);
      }
    }

    /** Offset number k - 1 adds its tile to the area of the first k - 1 offsets when it is one. */
    lemma AreaExtends(gridX: int, gridY: int, k: nat)
      requires 0 < k <= 9
      ensures var dx, dy := BlastX[k - 1], BlastY[k - 1];
        AreaUpTo(gridX, gridY, k) == AreaUpTo(gridX, gridY, k - 1) +
          (if AreaTile(gridX, gridY, k, gridY + dy, gridX + dx) then [GridToWorld(GridPos(gridX + dx, gridY + dy))] else [])
    {
      OffsetNumber(k - 1);
    }

    /**
     * The first k offsets of getExplosionArea give exactly the centres of the
     * in-bounds 8-neighbours whose offset number 3 * (dx + 1) + (dy + 1) is
     * below k.
     */
    lemma {:induction false} AreaMembers(gridX: int, gridY: int, k: nat)
      requires k <= 9
      ensures forall p :: p in AreaUpTo(gridX, gridY, k) <==>
        exists i, j :: AreaTile(gridX, gridY, k, i, j) && p == GridToWorld(GridPos(j, i))
    {
      if k > 0 {
        AreaMembers(gridX, gridY, k - 1);
        AreaExtends(gridX, gridY, k);
        OffsetNumber(k - 1);
        var dx, dy := BlastX[k - 1], BlastY[k - 1];
        var prev := AreaUpTo(gridX, gridY, k - 1);
        forall p | p in AreaUpTo(gridX, gridY, k)
          ensures exists i, j :: AreaTile(gridX, gridY, k, i, j) && p == GridToWorld(GridPos(j, i))
        {
          if p in prev {
            var i, j :| AreaTile(gridX, gridY, k - 1, i, j) && p == GridToWorld(GridPos(j, i));
            assert AreaTile(gridX, gridY, k, i, j);
          } else {
            assert AreaTile(gridX, gridY, k, gridY + dy, gridX + dx);
          }
        }
        forall p, i, j | AreaTile(gridX, gridY, k, i, j) && p == GridToWorld(GridPos(j, i))
          ensures p in AreaUpTo(gridX, gridY, k)
        {
          if 3 * (j - gridX + 1) + (i - gridY + 1) == k - 1 {
            assert j - gridX == dx && i - gridY == dy;
          } else {
            assert AreaTile(gridX, gridY, k - 1, i, j);
          }
        }
      }
    }
  }
}

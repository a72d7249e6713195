/**
 * The MazeGenerator object: its settings, its random engine and the grid
 * that generate rebuilds, phase by phase, on every call.
 */
module Generator {
  import opened Geometry
  import opened MazeGeneration
  import opened MazePlacement

  /** The symbols of a finished maze. */
  const OutputGlyphs: set<char> := {'#', '.', 'S', 'E', 'X', '*'}

  /** The symbols a finished walk from the start to the exit may cross. */
  const WalkGlyphs: set<char> := {'.', 'S', 'E', 'X'}

  /** The exit is the only 'E'; the start is the only 'S', and there is none when the exit overwrote it. */
  ghost predicate Marked(g: Grid, start: GridPos, exit: GridPos) {
    forall q :: InGrid(g, q) ==>
      (At(g, q) == 'E' <==> q == exit) && (At(g, q) == 'S' <==> q == start && start != exit)
  }

  /**
   * g' is a later phase's rewrite of g: same shape, and every changed cell
   * is an interior wall or passage that became a passage, an enemy or a
   * destructible wall.
   */
  ghost predicate Rewrites(g: Grid, g': Grid, w: int, h: int) {
    Shaped(g, w, h) && Shaped(g', w, h) &&
    forall q :: InGrid(g, q) ==>
      At(g', q) == At(g, q) || (At(g, q) in {'#', '.'} && At(g', q) in {'.', 'X', '*'} && Interior(w, h, q))
  }

  /** A rewrite keeps the ring of walls and the start and exit marks, and adds only '.', 'X' and '*'. */
  lemma RewriteKeeps(g: Grid, g': Grid, w: int, h: int, start: GridPos, exit: GridPos, allowed: set<char>)
    requires Rewrites(g, g', w, h) && Bordered(g, w, h) && Marked(g, start, exit) && Glyphs(g, allowed)
    ensures Bordered(g', w, h) && Marked(g', start, exit) && Glyphs(g', allowed + {'.', 'X', '*'})
  {
  }

  /** A walk survives a rewrite that keeps each of its cells within the wider set. */
  lemma JoinedKept(g: Grid, g': Grid, a: GridPos, b: GridPos, allowed: set<char>, allowed': set<char>)
    requires Joined(g, a, b, allowed)
    requires forall q :: InGrid(g, q) && At(g, q) in allowed ==> InGrid(g', q) && At(g', q) in allowed'
    ensures Joined(g', a, b, allowed')
  {
    var p :| Walk(g, p, allowed) && |p| > 0 && p[0] == a && p[|p| - 1] == b;
    WalkSurvives(g, g', p, allowed, allowed');
    assert Walk(g', p, allowed');
  }

  /** The box of two interior cells is interior. */
  lemma BoxInterior(w: int, h: int, a: GridPos, b: GridPos)
    requires Interior(w, h, a) && Interior(w, h, b)
    ensures forall q :: InBox(a, b, q) ==> Interior(w, h, q)
  {
  }

  class MazeGenerator {
    var width: int
    var height: int
    var grid: Grid
    /** m_rng: the engine's outputs and the number already taken. */
    var rng: Stream
    var drawn: nat
    var enemyCount: int
    var destructibleRatio: real
    var startPos: GridPos
    var exitPos: GridPos

    /**
     * An even width or height grows by one, so that the rooms at odd
     * coordinates reach the last interior column and row.  The engine is
     * seeded from the clock: clock is the stream of that seed.
     */
    constructor (width0: int, height0: int, clock: Stream)
      ensures width == (if width0 % 2 == 0 then width0 + 1 else width0) && width % 2 != 0
      ensures height == (if height0 % 2 == 0 then height0 + 1 else height0) && height % 2 != 0
      ensures rng == clock && drawn == 0 && grid == []
      ensures enemyCount == 5 && destructibleRatio == 0.15
      ensures startPos == GridPos(1, 1) && exitPos == GridPos(1, 1)
    {
      width := if width0 % 2 == 0 then width0 + 1 else width0;
      height := if height0 % 2 == 0 then height0 + 1 else height0;
      grid := [];
      rng, drawn := clock, 0;
      enemyCount, destructibleRatio := 5, 0.15;
      startPos, exitPos := GridPos(1, 1), GridPos(1, 1);
    }

    /** setSeed: the engine restarts on the stream of the new seed. */
    method SetSeed(stream: Stream)
      modifies this
      ensures rng == stream && drawn == 0
      ensures width == old(width) && height == old(height) && grid == old(grid)
      ensures enemyCount == old(enemyCount) && destructibleRatio == old(destructibleRatio)
      ensures startPos == old(startPos) && exitPos == old(exitPos)
    {
      rng, drawn := stream, 0;
    }

    method SetEnemyCount(count: int)
      modifies this
      ensures enemyCount == count
      ensures width == old(width) && height == old(height) && grid == old(grid)
      ensures rng == old(rng) && drawn == old(drawn) && destructibleRatio == old(destructibleRatio)
      ensures startPos == old(startPos) && exitPos == old(exitPos)
    {
      enemyCount := count;
    }

    method SetDestructibleRatio(ratio: real)
      modifies this
      ensures destructibleRatio == ratio
      ensures width == old(width) && height == old(height) && grid == old(grid)
      ensures rng == old(rng) && drawn == old(drawn) && enemyCount == old(enemyCount)
      ensures startPos == old(startPos) && exitPos == old(exitPos)
    {
      destructibleRatio := ratio;
    }

    /**
     * generate: height rows of width symbols, walls all round the edge, the
     * exit marked once, the start marked once unless the exit overwrote it,
     * and a walk from the start to the exit through passages, enemies and
     * the two marks.
     */
    method Generate() returns (rows: seq<string>)
      requires width >= 3 && height >= 3
      modifies this
      ensures rows == grid && Laid(rows, width, height, startPos, exitPos, OutputGlyphs)
      ensures Joined(rows, startPos, exitPos, WalkGlyphs)
      ensures width == old(width) && height == old(height) && rng == old(rng)
      ensures enemyCount == old(enemyCount) && destructibleRatio == old(destructibleRatio)
    {
      var g, s, e, pos := Build(width, height, enemyCount, destructibleRatio, rng, drawn);
      grid, startPos, exitPos, drawn := g, s, e, pos;
      rows := grid;
    }
  }

  /** The grid is w by h with a ring of walls, only the allowed symbols and the start and exit marked. */
  ghost predicate Laid(g: Grid, w: int, h: int, start: GridPos, exit: GridPos, allowed: set<char>) {
    Shaped(g, w, h) && Bordered(g, w, h) && Glyphs(g, allowed) && Marked(g, start, exit) &&
    Interior(w, h, start) && Interior(w, h, exit)
  }

  /** The phases of generate, in order, on the grid as a value. */
  method Build(w: int, h: int, enemyCount: int, ratio: real, rng: Stream, pos0: nat)
    returns (g: Grid, start: GridPos, exit: GridPos, pos: nat)
    requires w >= 3 && h >= 3
    ensures Laid(g, w, h, start, exit, OutputGlyphs) && Joined(g, start, exit, WalkGlyphs)
  {
    var g0, pos1 := Carve(w, h, rng, pos0);
    var g1, s, e, pos2 := StartAndEnd(g0, w, h, rng, pos1);
    Marks(g0, g1, w, h, s, e);
    var g2, pos3 := EnsurePath(g1, w, h, s, e, rng, pos2);
    AfterPath(g1, g2, w, h, s, e);
    var g3, pos4 := PlaceEnemies(g2, w, h, s, e, enemyCount, rng, pos3);
    AfterEnemies(g2, g3, w, h, s, e, enemyCount, rng, pos3);
    var g4, pos5 := PlaceDestructibleWalls(g3, w, h, ratio, rng, pos4);
    AfterWalls(g3, g4, w, h, s, e, ratio, rng, pos4);
    g, start, exit, pos := g4, s, e, pos5;
  }

  lemma AfterPath(g1: Grid, g2: Grid, w: int, h: int, s: GridPos, e: GridPos)
    requires Laid(g1, w, h, s, e, {'#', '.', 'S', 'E'}) && Shaped(g2, w, h) && OnlyCarvedIn(g1, g2, s, e)
    ensures Laid(g2, w, h, s, e, {'#', '.', 'S', 'E'})
  {
    BoxInterior(w, h, s, e);
    assert Rewrites(g1, g2, w, h);
    RewriteKeeps(g1, g2, w, h, s, e, {'#', '.', 'S', 'E'});
  }

  lemma AfterEnemies(g2: Grid, g3: Grid, w: int, h: int, s: GridPos, e: GridPos, count: int, rng: Stream, pos: nat)
    requires Laid(g2, w, h, s, e, {'#', '.', 'S', 'E'}) && Joined(g2, s, e, Passable) && Shaped(g3, w, h)
    requires forall q :: InGrid(g2, q) ==>
      At(g3, q) == if q in EnemyCells(g2, w, h, s, e, count, rng, pos) then 'X' else At(g2, q)
    ensures Laid(g3, w, h, s, e, {'#', '.', 'S', 'E', 'X', '*'}) && Joined(g3, s, e, WalkGlyphs)
  {
    assert Rewrites(g2, g3, w, h);
    RewriteKeeps(g2, g3, w, h, s, e, {'#', '.', 'S', 'E', 'X', '*'});
    JoinedKept(g2, g3, s, e, Passable, WalkGlyphs);
  }

  lemma AfterWalls(g3: Grid, g4: Grid, w: int, h: int, s: GridPos, e: GridPos, ratio: real, rng: Stream, pos: nat)
    requires Laid(g3, w, h, s, e, OutputGlyphs) && Joined(g3, s, e, WalkGlyphs)
    requires WallsSoFar(g3, g4, w, h, ratio, rng, pos, Scan(g3, w, h, WallBesidePath, h - 1))
    ensures Laid(g4, w, h, s, e, OutputGlyphs) && Joined(g4, s, e, WalkGlyphs)
  {
    WallsOnlyNearPath(g3, g4, w, h, ratio, rng, pos);
    assert Rewrites(g3, g4, w, h);
    RewriteKeeps(g3, g4, w, h, s, e, OutputGlyphs);
    JoinedKept(g3, g4, s, e, WalkGlyphs, WalkGlyphs);
  }

  /** After start and exit placement: the marks are in, and nothing else changed from the carve. */
  lemma Marks(g: Grid, g1: Grid, w: int, h: int, s: GridPos, e: GridPos)
    requires Shaped(g, w, h) && Bordered(g, w, h) && Glyphs(g, {'#', '.'}) && Interior(w, h, s) && Interior(w, h, e)
    requires Shaped(g1, w, h)
    requires forall q :: InGrid(g, q) ==> At(g1, q) == if q == e then 'E' else if q == s then 'S' else At(g, q)
    ensures Laid(g1, w, h, s, e, {'#', '.', 'S', 'E'}) && At(g1, s) != '#'
  {
  }
}

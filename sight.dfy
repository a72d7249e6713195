/**
 * Line of sight across the maze grid: the Bresenham walk shared by
 * Maze::checkLineOfSight and Maze::getFirstBlockedPosition, the two walks
 * as methods, and what they compute as functions of the cells walked.
 */
module LineOfSight {
  import opened Geometry
  import opened Cells
  import opened MazeWorld

  /** s * i for a step direction s that is 1 or -1. */
  function Toward(s: int, i: int): int {
    if s == 1 then i else -i
  }

  /**
   * a * b by repeated addition.  The walk's error term is a difference of
   * two such products; keeping them behind a recursive definition keeps the
   * proofs about the walk linear.
   */
  function Mul(a: int, b: nat): int {
    if b == 0 then 0 else Mul(a, b - 1) + a
  }

  lemma {:induction false} MulIsProduct(a: int, b: nat)
    ensures Mul(a, b) == a * b
  {
    if b > 0 {
      MulIsProduct(a, b - 1);
    }
  }

  lemma {:induction false} MulLeq(a: nat, b: nat, c: nat)
    requires b <= c
    ensures Mul(a, b) <= Mul(a, c)
    decreases c - b
  {
    if b < c {
      MulLeq(a, b, c - 1);
    }
  }

  lemma {:induction false} MulComm(a: nat, b: nat)
    ensures Mul(a, b) == Mul(b, a)
  {
    MulIsProduct(a, b);
    MulIsProduct(b, a);
  }

  /** The error term after i steps along x and j along y, as the walk keeps it. */
  predicate WalkInv(dx: int, dy: int, i: int, j: int, err: int) {
    0 <= i <= dx && 0 <= j <= dy && err == Mul(dx, 1 + j) - Mul(dy, 1 + i)
  }

  /** Once the x steps are used up, the walk takes no further x step. */
  lemma {:induction false} NoXPastEnd(dx: int, dy: int, j: int, err: int)
    requires 0 <= dx && 0 <= j < dy
    requires err == Mul(dx, 1 + j) - Mul(dy, 1 + dx)
    ensures 2 * err <= -dy
  {
    MulLeq(dx, 1 + j, dy);
    MulComm(dx, dy);
  }

  /** Once the y steps are used up, the walk takes no further y step. */
  lemma {:induction false} NoYPastEnd(dx: int, dy: int, i: int, err: int)
    requires 0 <= dy && 0 <= i < dx
    requires err == Mul(dx, 1 + dy) - Mul(dy, 1 + i)
    ensures 2 * err >= dx
  {
    MulLeq(dy, 1 + i, dx);
    MulComm(dx, dy);
  }

  /**
   * One step of the walk, away from the end cell: at least one axis moves,
   * neither axis moves past the end, and the error term stays in step.
   */
  lemma {:induction false} WalkStep(dx: int, dy: int, i: int, j: int, err: int)
    requires WalkInv(dx, dy, i, j, err) && !(i == dx && j == dy)
    ensures var xs, ys := 2 * err > -dy, 2 * err < dx;
      (xs || ys) && (xs ==> i < dx) && (ys ==> j < dy) &&
      WalkInv(dx, dy, if xs then i + 1 else i, if ys then j + 1 else j,
        err - (if xs then dy else 0) + (if ys then dx else 0))
  {
    if i == dx {
      NoXPastEnd(dx, dy, j, err);
    }
    if j == dy {
      NoYPastEnd(dx, dy, i, err);
    }
  }

  function Abs(v: int): nat {
    if v < 0 then -v else v
  }

  /** Direction of travel from v0 towards v1, as the walk chooses it (-1 when they are equal). */
  function Dir(v0: int, v1: int): int {
    if v0 < v1 then 1 else -1
  }

  /** The fixed quantities of one walk: the end cell, the distances and the step directions. */
  datatype Segment = Segment(x1: int, y1: int, dx: int, dy: int, sx: int, sy: int)

  function SegmentOf(a: GridPos, b: GridPos): Segment {
    Segment(b.x, b.y, Abs(b.x - a.x), Abs(b.y - a.y), Dir(a.x, b.x), Dir(a.y, b.y))
  }

  /** The variables the walk updates: the current cell and the error term. */
  datatype Cursor = Cursor(x: int, y: int, err: int)

  function CursorCell(c: Cursor): GridPos {
    GridPos(c.x, c.y)
  }

  predicate AtEnd(s: Segment, c: Cursor) {
    c.x == s.x1 && c.y == s.y1
  }

  /** One turn of the walk: e2 = 2 * err; a step along x if e2 > -dy, then along y if e2 < dx. */
  function Advance(s: Segment, c: Cursor): Cursor {
    var e2 := 2 * c.err;
    var afterX := if e2 > -s.dy then Cursor(c.x + s.sx, c.y, c.err - s.dy) else c;
    if e2 < s.dx then Cursor(afterX.x, afterX.y + s.sy, afterX.err + s.dx) else afterX
  }

  /**
   * The cells visited from cursor c until the end cell, both included,
   * taking at most `fuel` steps.  From the start of a walk, dx + dy steps
   * always suffice (TraceEnds), so the bound never cuts a walk short.
   */
  function Trace(s: Segment, c: Cursor, fuel: nat): (path: seq<GridPos>)
    ensures |path| >= 1 && path[0] == CursorCell(c)
    decreases fuel
  {
    if AtEnd(s, c) || fuel == 0 then [CursorCell(c)]
    else [CursorCell(c)] + Trace(s, Advance(s, c), fuel - 1)
  }

  /** The whole walk from cell a to cell b. */
  function Line(a: GridPos, b: GridPos): seq<GridPos> {
    Trace(SegmentOf(a, b), StartCursor(a, b), Abs(b.x - a.x) + Abs(b.y - a.y))
  }

  /** Cursor c is the walk from a after i steps along x and j along y. */
  predicate OnWalk(a: GridPos, s: Segment, c: Cursor, i: int, j: int) {
    WalkInv(s.dx, s.dy, i, j, c.err) && c.x == a.x + Toward(s.sx, i) && c.y == a.y + Toward(s.sy, j)
  }

  /** u steps from v0 towards v1, with u at most the distance, stay between them and land on v1 at the end. */
  lemma TowardBetween(v0: int, v1: int, u: int)
    requires 0 <= u <= Abs(v1 - v0)
    ensures Between(v0, v0 + Toward(Dir(v0, v1), u), v1)
    ensures v0 + Toward(Dir(v0, v1), u) == v1 <==> u == Abs(v1 - v0)
  {
  }

  /** v lies between lo and hi, in either order. */
  predicate Between(lo: int, v: int, hi: int) {
    (lo <= v <= hi) || (hi <= v <= lo)
  }

  /** The walk begins on the walk. */
  lemma StartOnWalk(a: GridPos, b: GridPos)
    ensures OnWalk(a, SegmentOf(a, b), Cursor(a.x, a.y, Abs(b.x - a.x) as int - Abs(b.y - a.y)), 0, 0)
  {
    assert Mul(Abs(b.x - a.x), 1) == Abs(b.x - a.x);
    assert Mul(Abs(b.y - a.y), 1) == Abs(b.y - a.y);
  }

  /**
   * On the walk, the cursor is at the end exactly when both step counts are
   * used up; otherwise one turn takes it to the next position on the walk,
   * one king step away, with fewer steps left.
   */
  lemma AdvanceOnWalk(a: GridPos, b: GridPos, c: Cursor, i: int, j: int) returns (i': int, j': int)
    requires OnWalk(a, SegmentOf(a, b), c, i, j)
    ensures AtEnd(SegmentOf(a, b), c) <==> (i == Abs(b.x - a.x) && j == Abs(b.y - a.y))
    ensures !AtEnd(SegmentOf(a, b), c) ==>
      OnWalk(a, SegmentOf(a, b), Advance(SegmentOf(a, b), c), i', j') && i + j < i' + j' &&
      KingStep(CursorCell(Advance(SegmentOf(a, b), c)), CursorCell(c))
  {
    var s := SegmentOf(a, b);
    EndOnWalk(a, b, c, i, j);
    i', j' := i, j;
    if !AtEnd(s, c) {
      WalkStep(s.dx, s.dy, i, j, c.err);
      var xs, ys := 2 * c.err > -s.dy, 2 * c.err < s.dx;
      i' := if xs then i + 1 else i;
      j' := if ys then j + 1 else j;
    }
  }

  /** On the walk, the cursor is at the end exactly when both step counts are used up. */
  lemma EndOnWalk(a: GridPos, b: GridPos, c: Cursor, i: int, j: int)
    requires OnWalk(a, SegmentOf(a, b), c, i, j)
    ensures AtEnd(SegmentOf(a, b), c) <==> (i == Abs(b.x - a.x) && j == Abs(b.y - a.y))
  {
    TowardBetween(a.x, b.x, i);
    TowardBetween(a.y, b.y, j);
  }

  /** Two cells that touch by an edge or a corner. */
  predicate KingStep(p: GridPos, q: GridPos) {
    -1 <= p.x - q.x <= 1 && -1 <= p.y - q.y <= 1 && p != q
  }

  /** With enough fuel the trace ends at b, after at most one cell per step left. */
  lemma {:induction false} TraceEnds(a: GridPos, b: GridPos, c: Cursor, i: int, j: int, fuel: nat)
    requires OnWalk(a, SegmentOf(a, b), c, i, j)
    requires fuel >= (Abs(b.x - a.x) - i) + (Abs(b.y - a.y) - j)
    ensures Trace(SegmentOf(a, b), c, fuel)[|Trace(SegmentOf(a, b), c, fuel)| - 1] == b
    ensures |Trace(SegmentOf(a, b), c, fuel)| <= (Abs(b.x - a.x) - i) + (Abs(b.y - a.y) - j) + 1
    decreases fuel
  {
    var s := SegmentOf(a, b);
    var i', j' := AdvanceOnWalk(a, b, c, i, j);
    if !AtEnd(s, c) {
      TraceEnds(a, b, Advance(s, c), i', j', fuel - 1);
    }
  }

  /** Every step of the trace moves to one of the 8 surrounding cells. */
  lemma {:induction false} TraceSteps(a: GridPos, b: GridPos, c: Cursor, i: int, j: int, fuel: nat)
    requires OnWalk(a, SegmentOf(a, b), c, i, j)
    ensures forall k :: 0 <= k < |Trace(SegmentOf(a, b), c, fuel)| - 1 ==>
      KingStep(Trace(SegmentOf(a, b), c, fuel)[k + 1], Trace(SegmentOf(a, b), c, fuel)[k])
    decreases fuel
  {
    var s := SegmentOf(a, b);
    var i', j' := AdvanceOnWalk(a, b, c, i, j);
    if !AtEnd(s, c) && fuel > 0 {
      TraceSteps(a, b, Advance(s, c), i', j', fuel - 1);
      var path, rest := Trace(s, c, fuel), Trace(s, Advance(s, c), fuel - 1);
      forall k | 0 <= k < |path| - 1
        ensures KingStep(path[k + 1], path[k])
      {
        if k > 0 {
          assert path[k + 1] == rest[k] && path[k] == rest[k - 1];
          assert KingStep(rest[(k - 1) + 1], rest[k - 1]);
        } else {
          assert path[1] == rest[0];
        }
      }
    }
  }

  /** Every cell of the trace lies in the box of a and b. */
  lemma {:induction false} TraceBox(a: GridPos, b: GridPos, c: Cursor, i: int, j: int, fuel: nat)
    requires OnWalk(a, SegmentOf(a, b), c, i, j)
    ensures forall k :: 0 <= k < |Trace(SegmentOf(a, b), c, fuel)| ==>
      Between(a.x, Trace(SegmentOf(a, b), c, fuel)[k].x, b.x) && Between(a.y, Trace(SegmentOf(a, b), c, fuel)[k].y, b.y)
    decreases fuel
  {
    var s := SegmentOf(a, b);
    TowardBetween(a.x, b.x, i);
    TowardBetween(a.y, b.y, j);
    var i', j' := AdvanceOnWalk(a, b, c, i, j);
    if !AtEnd(s, c) && fuel > 0 {
      TraceBox(a, b, Advance(s, c), i', j', fuel - 1);
      var path, rest := Trace(s, c, fuel), Trace(s, Advance(s, c), fuel - 1);
      forall k | 1 <= k < |path|
        ensures Between(a.x, path[k].x, b.x) && Between(a.y, path[k].y, b.y)
      {
        assert path[k] == rest[k - 1];
      }
    }
  }

  /**
   * The walk starts at a, ends at b after at most |dx| + |dy| steps, moves
   * one king step at a time and stays in the box of a and b.
   */
  lemma LineShape(a: GridPos, b: GridPos)
    ensures Line(a, b)[0] == a && Line(a, b)[|Line(a, b)| - 1] == b
    ensures |Line(a, b)| <= Abs(b.x - a.x) + Abs(b.y - a.y) + 1
    ensures forall k :: 0 <= k < |Line(a, b)| - 1 ==> KingStep(Line(a, b)[k + 1], Line(a, b)[k])
    ensures forall k :: 0 <= k < |Line(a, b)| ==> Between(a.x, Line(a, b)[k].x, b.x) && Between(a.y, Line(a, b)[k].y, b.y)
  {
    var c, n := StartCursor(a, b), Abs(b.x - a.x) + Abs(b.y - a.y);
    StartOnWalk(a, b);
    assert Line(a, b) == Trace(SegmentOf(a, b), c, n);
    TraceEnds(a, b, c, 0, 0, n);
    TraceSteps(a, b, c, 0, 0, n);
    TraceBox(a, b, c, 0, 0, n);
  }

  // ---------------------------------------------------------------------
  // What the walk sees.
  // ---------------------------------------------------------------------

  /** How much one cell blocks sight: 2 solid, 1 destructible, 0 otherwise; off the grid counts as 0. */
  function BlockLevel(m: Tiles, g: GridPos): (level: int)
    ensures 0 <= level <= 2
  {
    if !(0 <= g.y < |m| && 0 <= g.x < |m[g.y]|) then 0
    else if m[g.y][g.x] == Solid then 2
    else if m[g.y][g.x] == Destructible then 1
    else 0
  }

  function Max(p: int, q: int): int {
    if p > q then p else q
  }

  /** The strongest blocking along a walk. */
  function Sight(m: Tiles, path: seq<GridPos>): (level: int)
    ensures 0 <= level <= 2
  {
    if path == [] then 0
    else
      Max(BlockLevel(m, path[0]), Sight(m, path[1..]))
  }

  /**
   * Sight is 2 exactly when a solid in-bounds cell is on the walk, and 1
   * exactly when there is no such cell but there is a destructible one.
   */
  lemma {:induction false} SightMeaning(m: Tiles, path: seq<GridPos>)
    ensures Sight(m, path) == 2 <==> exists k :: 0 <= k < |path| && BlockLevel(m, path[k]) == 2
    ensures Sight(m, path) >= 1 <==> exists k :: 0 <= k < |path| && BlockLevel(m, path[k]) >= 1
  {
    if path != [] {
      SightMeaning(m, path[1..]);
      if exists k :: 0 <= k < |path| && BlockLevel(m, path[k]) == 2 {
        var k :| 0 <= k < |path| && BlockLevel(m, path[k]) == 2;
        if k > 0 {
          assert path[1..][k - 1] == path[k];
        }
      }
      if exists k :: 0 <= k < |path| && BlockLevel(m, path[k]) >= 1 {
        var k :| 0 <= k < |path| && BlockLevel(m, path[k]) >= 1;
        if k > 0 {
          assert path[1..][k - 1] == path[k];
        }
      }
      if exists k :: 0 <= k < |path[1..]| && BlockLevel(m, path[1..][k]) >= 1 {
        var k :| 0 <= k < |path[1..]| && BlockLevel(m, path[1..][k]) >= 1;
        assert path[k + 1] == path[1..][k];
      }
      if exists k :: 0 <= k < |path[1..]| && BlockLevel(m, path[1..][k]) == 2 {
        var k :| 0 <= k < |path[1..]| && BlockLevel(m, path[1..][k]) == 2;
        assert path[k + 1] == path[1..][k];
      }
    }
  }

  /** The centre of the first wall cell of the walk, or dflt when the walk meets none. */
  function FirstBlocked(m: Tiles, path: seq<GridPos>, dflt: Point): Point
  {
    if path == [] then dflt
    else if BlockLevel(m, path[0]) >= 1 then GridToWorld(path[0])
    else FirstBlocked(m, path[1..], dflt)
  }

  /** path[k] is a wall cell and no cell before it is. */
  predicate FirstWallAt(m: Tiles, path: seq<GridPos>, k: int)
    requires 0 <= k < |path|
  {
    BlockLevel(m, path[k]) >= 1 && forall q :: 0 <= q < k ==> BlockLevel(m, path[q]) == 0
  }

  /**
   * The two walks agree: with a clear line the first blocked position is
   * the default; otherwise it is the centre of a wall cell on the walk,
   * with no wall cell before it.
   */
  lemma {:induction false} FirstBlockedAgreesWithSight(m: Tiles, path: seq<GridPos>, dflt: Point)
    ensures Sight(m, path) == 0 ==> FirstBlocked(m, path, dflt) == dflt
    ensures Sight(m, path) >= 1 ==>
      exists k :: 0 <= k < |path| && FirstWallAt(m, path, k) && FirstBlocked(m, path, dflt) == GridToWorld(path[k])
  {
    if path != [] {
      FirstBlockedAgreesWithSight(m, path[1..], dflt);
      if BlockLevel(m, path[0]) == 0 && Sight(m, path) >= 1 {
        var k :| 0 <= k < |path[1..]| && FirstWallAt(m, path[1..], k) &&
          FirstBlocked(m, path[1..], dflt) == GridToWorld(path[1..][k]);
        assert path[k + 1] == path[1..][k];
        forall q | 0 <= q < k + 1
          ensures BlockLevel(m, path[q]) == 0
        {
          if q > 0 {
            assert path[q] == path[1..][q - 1];
          }
        }
        assert FirstWallAt(m, path, k + 1);
      }
    }
  }

  /** The walk sees no more than the cells it visits: the current cell's level, then the rest. */
  lemma SightCons(m: Tiles, g: GridPos, rest: seq<GridPos>)
    ensures Sight(m, [g] + rest) == Max(BlockLevel(m, g), Sight(m, rest))
  {
    assert ([g] + rest)[1..] == rest;
  }

  lemma FirstBlockedCons(m: Tiles, g: GridPos, rest: seq<GridPos>, dflt: Point)
    ensures FirstBlocked(m, [g] + rest, dflt) == (if BlockLevel(m, g) >= 1 then GridToWorld(g) else FirstBlocked(m, rest, dflt))
  {
    assert ([g] + rest)[1..] == rest;
  }

  // ---------------------------------------------------------------------
  // The cursors of a walk, which the loops step through one by one.
  // ---------------------------------------------------------------------

  /** The cursors the walk passes through; Trace lists their cells. */
  function Cursors(s: Segment, c: Cursor, fuel: nat): (cs: seq<Cursor>)
    ensures |cs| >= 1 && cs[0] == c
    decreases fuel
  {
    if AtEnd(s, c) || fuel == 0 then [c]
    else [c] + Cursors(s, Advance(s, c), fuel - 1)
  }

  /** Each cursor but the last is away from the end and is followed by its Advance; Trace lists their cells. */
  lemma {:induction false} CursorsChain(s: Segment, c: Cursor, fuel: nat)
    ensures |Cursors(s, c, fuel)| == |Trace(s, c, fuel)|
    ensures forall q :: 0 <= q < |Trace(s, c, fuel)| ==> Trace(s, c, fuel)[q] == CursorCell(Cursors(s, c, fuel)[q])
    ensures forall q :: 0 <= q < |Cursors(s, c, fuel)| - 1 ==>
      !AtEnd(s, Cursors(s, c, fuel)[q]) && Cursors(s, c, fuel)[q + 1] == Advance(s, Cursors(s, c, fuel)[q])
    decreases fuel
  {
    if !(AtEnd(s, c) || fuel == 0) {
      CursorsChain(s, Advance(s, c), fuel - 1);
      var cs, rest := Cursors(s, c, fuel), Cursors(s, Advance(s, c), fuel - 1);
      var path, cells := Trace(s, c, fuel), Trace(s, Advance(s, c), fuel - 1);
      assert cs == [c] + rest && path == [CursorCell(c)] + cells;
      forall q | 0 <= q < |path|
        ensures path[q] == CursorCell(cs[q])
      {
        if q > 0 {
          assert path[q] == cells[q - 1] && cs[q] == rest[q - 1];
        }
      }
      forall q | 0 <= q < |cs| - 1
        ensures !AtEnd(s, cs[q]) && cs[q + 1] == Advance(s, cs[q])
      {
        if q > 0 {
          assert cs[q] == rest[q - 1] && cs[q + 1] == rest[q];
        }
      }
    }
  }

  /** The first cursor of the walk from a to b. */
  function StartCursor(a: GridPos, b: GridPos): Cursor {
    Cursor(a.x, a.y, Abs(b.x - a.x) as int - Abs(b.y - a.y))
  }

  /** The cursors of the whole walk from a to b. */
  function LineCursors(a: GridPos, b: GridPos): seq<Cursor> {
    Cursors(SegmentOf(a, b), StartCursor(a, b), Abs(b.x - a.x) + Abs(b.y - a.y))
  }

  /** The walk from a to b has one cursor per cell of Line(a, b), and its last cursor is at the end. */
  lemma LineCursorsEnds(a: GridPos, b: GridPos)
    ensures |LineCursors(a, b)| == |Line(a, b)|
    ensures LineCursors(a, b)[0] == StartCursor(a, b)
    ensures AtEnd(SegmentOf(a, b), LineCursors(a, b)[|LineCursors(a, b)| - 1])
  {
    CursorsChain(SegmentOf(a, b), StartCursor(a, b), Abs(b.x - a.x) + Abs(b.y - a.y));
    LineShape(a, b);
  }

  /**
   * What one turn of either walk loop relies on: cursor n lies on cell n of
   * Line(a, b), and unless it is the last it is away from the end and is
   * followed by its Advance.
   */
  lemma LineCursorAt(a: GridPos, b: GridPos, n: int)
    requires 0 <= n < |LineCursors(a, b)|
    ensures n < |Line(a, b)| && Line(a, b)[n] == CursorCell(LineCursors(a, b)[n])
    ensures n < |LineCursors(a, b)| - 1 ==>
      !AtEnd(SegmentOf(a, b), LineCursors(a, b)[n]) &&
      LineCursors(a, b)[n + 1] == Advance(SegmentOf(a, b), LineCursors(a, b)[n])
  {
    CursorsChain(SegmentOf(a, b), StartCursor(a, b), Abs(b.x - a.x) + Abs(b.y - a.y));
  }

  /** Sight of a prefix grows by one cell at a time. */
  lemma {:induction false} SightSnoc(m: Tiles, p: seq<GridPos>, g: GridPos)
    ensures Sight(m, p + [g]) == Max(Sight(m, p), BlockLevel(m, g))
    decreases |p|
  {
    if p == [] {
      assert [] + [g] == [g];
      SightCons(m, g, []);
    } else {
      SightSnoc(m, p[1..], g);
      assert (p + [g])[1..] == p[1..] + [g];
    }
  }

  lemma SightPrefix(m: Tiles, path: seq<GridPos>, n: int)
    requires 0 <= n < |path|
    ensures Sight(m, path[..n + 1]) == Max(Sight(m, path[..n]), BlockLevel(m, path[n]))
  {
    assert path[..n + 1] == path[..n] + [path[n]];
    SightSnoc(m, path[..n], path[n]);
  }

  /** After a clear prefix, FirstBlocked is decided by what follows it. */
  lemma {:induction false} FirstBlockedAfterClear(m: Tiles, path: seq<GridPos>, n: int, dflt: Point)
    requires 0 <= n <= |path| && Sight(m, path[..n]) == 0
    ensures FirstBlocked(m, path, dflt) == FirstBlocked(m, path[n..], dflt)
    decreases n
  {
    if n > 0 {
      assert path[..n] == [path[0]] + path[1..][..n - 1];
      SightCons(m, path[0], path[1..][..n - 1]);
      FirstBlockedAfterClear(m, path[1..], n - 1, dflt);
      assert path[1..][n - 1..] == path[n..];
    }
  }

  /** Maze::checkLineOfSight: the strongest blocking along the walk between the two cells. */
  method CheckLineOfSight(m: Maze, start: Point, end: Point) returns (result: int)
    requires m.Valid()
    ensures result == Sight(m.Kinds(), Line(WorldToGrid(start), WorldToGrid(end)))
  {
    result := SightWalk(m, WorldToGrid(start), WorldToGrid(end));
  }

  /** The loop of checkLineOfSight, from grid cell a to grid cell b. */
  method SightWalk(m: Maze, a: GridPos, b: GridPos) returns (result: int)
    requires m.Valid()
    ensures result == Sight(m.Kinds(), Line(a, b))
  {
    var x0, y0 := a.x, a.y;
    var x1, y1 := b.x, b.y;
    var dx: int := Abs(x1 - x0);
    var dy: int := Abs(y1 - y0);
    var sx := if x0 < x1 then 1 else -1;
    var sy := if y0 < y1 then 1 else -1;
    var err := dx - dy;
    result := 0;
    ghost var s, tiles := SegmentOf(a, b), m.Kinds();
    ghost var path, cs := Line(a, b), LineCursors(a, b);
    LineCursorsEnds(a, b);
    ghost var n := 0;
    while true
      invariant 0 <= n < |cs| && cs[n] == Cursor(x0, y0, err)
      invariant s == Segment(x1, y1, dx, dy, sx, sy)
      invariant result == Sight(tiles, path[..n]) && result <= 1
      decreases |cs| - n
    {
      LineCursorAt(a, b, n);
      SightPrefix(tiles, path, n);
      if 0 <= y0 < m.rows && 0 <= x0 < m.cols {
        var kind := m.walls[y0, x0].kind;
        if kind == Solid {
          SightMeaning(tiles, path);
          return 2;
        } else if kind == Destructible {
          result := 1;
        }
      }
      if x0 == x1 && y0 == y1 {
        assert path[..n + 1] == path;
        break;
      }
      var e2 := 2 * err;
      if e2 > -dy {
        err := err - dy;
        x0 := x0 + sx;
      }
      if e2 < dx {
        err := err + dx;
        y0 := y0 + sy;
      }
      assert Cursor(x0, y0, err) == Advance(s, cs[n]);
      n := n + 1;
    }
  }

  /** Maze::getFirstBlockedPosition: the centre of the first wall cell on the walk, or end itself. */
  method GetFirstBlockedPosition(m: Maze, start: Point, end: Point) returns (p: Point)
    requires m.Valid()
    ensures p == FirstBlocked(m.Kinds(), Line(WorldToGrid(start), WorldToGrid(end)), end)
  {
    p := FirstBlockedWalk(m, WorldToGrid(start), WorldToGrid(end), end);
  }

  /** The loop of getFirstBlockedPosition, from grid cell a to grid cell b. */
  method FirstBlockedWalk(m: Maze, a: GridPos, b: GridPos, end: Point) returns (p: Point)
    requires m.Valid()
    ensures p == FirstBlocked(m.Kinds(), Line(a, b), end)
  {
    var x0, y0 := a.x, a.y;
    var x1, y1 := b.x, b.y;
    var dx: int := Abs(x1 - x0);
    var dy: int := Abs(y1 - y0);
    var sx := if x0 < x1 then 1 else -1;
    var sy := if y0 < y1 then 1 else -1;
    var err := dx - dy;
    ghost var s, tiles := SegmentOf(a, b), m.Kinds();
    ghost var path, cs := Line(a, b), LineCursors(a, b);
    LineCursorsEnds(a, b);
    ghost var n := 0;
    while true
      invariant 0 <= n < |cs| && cs[n] == Cursor(x0, y0, err)
      invariant s == Segment(x1, y1, dx, dy, sx, sy)
      invariant Sight(tiles, path[..n]) == 0
      decreases |cs| - n
    {
      LineCursorAt(a, b, n);
      SightPrefix(tiles, path, n);
      FirstBlockedAfterClear(tiles, path, n, end);
      FirstBlockedCons(tiles, path[n], path[n + 1..], end);
      assert path[n..] == [path[n]] + path[n + 1..];
      if 0 <= y0 < m.rows && 0 <= x0 < m.cols {
        var kind := m.walls[y0, x0].kind;
        if kind == Solid || kind == Destructible {
          return GridToWorld(GridPos(x0, y0));
        }
      }
      if x0 == x1 && y0 == y1 {
        assert path[n + 1..] == [];
        return end;
      }
      var e2 := 2 * err;
      if e2 > -dy {
        err := err - dy;
        x0 := x0 + sx;
      }
      if e2 < dx {
        err := err + dx;
        y0 := y0 + sy;
      }
      assert Cursor(x0, y0, err) == Advance(s, cs[n]);
      n := n + 1;
    }
  }
}

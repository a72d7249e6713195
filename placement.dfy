/**
 * The phases of MazeGenerator::generate after the carve: the scans over the
 * interior, start and exit placement, the repair corridor, enemy markers
 * and destructible walls.  Each phase is a method over the grid as a value;
 * the generator object in mazegen.dfy runs them on its fields.
 */
module MazePlacement {
  import opened Wrappers
  import opened Geometry
  import opened MazeGeneration

  // ---------------------------------------------------------------------
  // Row-major scans of the interior.
  // ---------------------------------------------------------------------

  /** placeEnemies keeps a cell only farther than this from the start... */
  const MinDistFromStart := 5
  /** ...and farther than this from the exit. */
  const MinDistFromExit := 3

  /** The four neighbours placeDestructibleWalls and ensurePath look at: up, right, down, left. */
  function Neighbour(q: GridPos, i: int): GridPos
    requires 0 <= i < 4
  {
    GridPos(q.x + [0, 1, 0, -1][i], q.y + [-1, 0, 1, 0][i])
  }

  /** The cell is inside the w by h grid and holds a passage, the start or the exit. */
  predicate PathCell(g: Grid, w: int, h: int, c: GridPos) {
    0 <= c.x < w && 0 <= c.y < h && InGrid(g, c) && At(g, c) in {'.', 'S', 'E'}
  }

  /** hasAdjacentPath: some 4-neighbour is a path cell. */
  predicate NearPath(g: Grid, w: int, h: int, q: GridPos) {
    PathCell(g, w, h, Neighbour(q, 0)) || PathCell(g, w, h, Neighbour(q, 1)) ||
    PathCell(g, w, h, Neighbour(q, 2)) || PathCell(g, w, h, Neighbour(q, 3))
  }

  /** What a scan keeps: empty cells (getEmptySpaces), enemy spots (placeEnemies), walls beside a path. */
  datatype Pick = EmptyCell | EnemySpot(start: GridPos, exit: GridPos) | WallBesidePath

  predicate Picks(g: Grid, w: int, h: int, pick: Pick, q: GridPos) {
    InGrid(g, q) &&
    match pick
    case EmptyCell => At(g, q) == '.'
    case EnemySpot(s, e) => At(g, q) == '.' && Manhattan(q, s) > MinDistFromStart && Manhattan(q, e) > MinDistFromExit
    case WallBesidePath => At(g, q) == '#' && NearPath(g, w, h, q)
  }

  /** The kept cells of row y with 1 <= x' < x, left to right. */
  function RowScan(g: Grid, w: int, h: int, pick: Pick, y: int, x: int): seq<GridPos>
    decreases x
  {
    if x <= 1 then []
    else RowScan(g, w, h, pick, y, x - 1) + (if Picks(g, w, h, pick, GridPos(x - 1, y)) then [GridPos(x - 1, y)] else [])
  }

  /** The kept interior cells of rows 1 <= y' < y, in row-major order. */
  function Scan(g: Grid, w: int, h: int, pick: Pick, y: int): seq<GridPos>
    decreases y
  {
    if y <= 1 then [] else Scan(g, w, h, pick, y - 1) + RowScan(g, w, h, pick, y - 1, w - 1)
  }

  lemma DistinctConcat<T>(a: seq<T>, b: seq<T>)
    requires Distinct(a) && Distinct(b) && forall x :: x in a ==> x !in b
    ensures Distinct(a + b)
  {
    forall i, j | 0 <= i < j < |a + b| ensures (a + b)[i] != (a + b)[j] {
      if j >= |a| && i < |a| {
        assert (a + b)[i] in a && (a + b)[j] in b;
      }
    }
  }

  lemma {:induction false} RowScanMembers(g: Grid, w: int, h: int, pick: Pick, y: int, x: int)
    ensures forall q :: q in RowScan(g, w, h, pick, y, x) <==> q.y == y && 1 <= q.x < x && Picks(g, w, h, pick, q)
    ensures Distinct(RowScan(g, w, h, pick, y, x))
    decreases x
  {
    if x > 1 {
      RowScanMembers(g, w, h, pick, y, x - 1);
      var tail := if Picks(g, w, h, pick, GridPos(x - 1, y)) then [GridPos(x - 1, y)] else [];
      DistinctConcat(RowScan(g, w, h, pick, y, x - 1), tail);
    }
  }

  /** A scan keeps exactly the interior cells of its rows that the pick accepts, each once. */
  lemma {:induction false} ScanMembers(g: Grid, w: int, h: int, pick: Pick, y: int)
    ensures forall q :: q in Scan(g, w, h, pick, y) <==> 1 <= q.y < y && 1 <= q.x < w - 1 && Picks(g, w, h, pick, q)
    ensures Distinct(Scan(g, w, h, pick, y))
    decreases y
  {
    if y > 1 {
      ScanMembers(g, w, h, pick, y - 1);
      RowScanMembers(g, w, h, pick, y - 1, w - 1);
      DistinctConcat(Scan(g, w, h, pick, y - 1), RowScan(g, w, h, pick, y - 1, w - 1));
    }
  }

  /**
   * The scan loops of getEmptySpaces and placeEnemies: every interior cell
   * row by row, keeping the empty ones (and, for enemies, those far enough
   * from the start and the exit).
   */
  method Collect(g: Grid, w: int, h: int, pick: Pick) returns (cells: seq<GridPos>)
    requires Shaped(g, w, h) && !pick.WallBesidePath?
    ensures cells == Scan(g, w, h, pick, h - 1)
  {
    cells := [];
    var y := 1;
    while y < h - 1
      invariant 1 <= y && (y == 1 || y <= h - 1)
      invariant cells == Scan(g, w, h, pick, y)
    {
      cells := CollectRow(g, w, h, pick, y, cells);
      y := y + 1;
    }
  }

  /** The inner loop of the scan: the kept cells of row y appended to cells0. */
  method CollectRow(g: Grid, w: int, h: int, pick: Pick, y: int, cells0: seq<GridPos>) returns (cells: seq<GridPos>)
    requires Shaped(g, w, h) && !pick.WallBesidePath? && 0 < y < h - 1
    ensures cells == cells0 + RowScan(g, w, h, pick, y, w - 1)
  {
    cells := cells0;
    var x := 1;
    while x < w - 1
      invariant 1 <= x && (x == 1 || x <= w - 1)
      invariant cells == cells0 + RowScan(g, w, h, pick, y, x)
    {
      var c := GridPos(x, y);
      RowStep(cells0, g, w, h, pick, y, x);
      if g[y][x] == '.' && (pick.EmptyCell? || (Manhattan(c, pick.start) > MinDistFromStart && Manhattan(c, pick.exit) > MinDistFromExit)) {
        cells := cells + [c];
      }
      x := x + 1;
    }
  }

  /** getEmptySpaces. */
  method EmptySpaces(g: Grid, w: int, h: int) returns (spaces: seq<GridPos>)
    requires Shaped(g, w, h)
    ensures spaces == Scan(g, w, h, EmptyCell, h - 1) && Distinct(spaces)
    ensures forall q :: q in spaces <==> Interior(w, h, q) && At(g, q) == '.'
  {
    spaces := Collect(g, w, h, EmptyCell);
    ScanMembers(g, w, h, EmptyCell, h - 1);
  }

  // ---------------------------------------------------------------------
  // Counting, for the choice of the exit.
  // ---------------------------------------------------------------------

  function Count<T>(s: seq<T>, f: T -> bool): (n: nat)
    ensures n <= |s|
  {
    if s == [] then 0 else (if f(s[0]) then 1 else 0) + Count(s[1..], f)
  }

  lemma {:induction false} CountConcat<T>(a: seq<T>, b: seq<T>, f: T -> bool)
    ensures Count(a + b, f) == Count(a, f) + Count(b, f)
  {
    if a != [] {
      assert (a + b)[1..] == a[1..] + b;
      CountConcat(a[1..], b, f);
    } else {
      assert a + b == b;
    }
  }

  /** A count depends only on the multiset of entries. */
  lemma {:induction false} CountPerm<T>(s: seq<T>, t: seq<T>, f: T -> bool)
    requires multiset(s) == multiset(t)
    ensures Count(s, f) == Count(t, f)
    decreases |s|
  {
    if s != [] {
      assert s[0] in multiset(t);
      var i :| 0 <= i < |t| && t[i] == s[0];
      var t' := Without(s, t, i);
      CountPerm(s[1..], t', f);
      CountWithout(t, i, f);
    }
  }

  /** t with entry i dropped; when t[i] = s[0] it has the entries of s[1..]. */
  ghost function Without<T>(s: seq<T>, t: seq<T>, i: int): (t': seq<T>)
    requires s != [] && 0 <= i < |t| && t[i] == s[0] && multiset(s) == multiset(t)
    ensures multiset(t') == multiset(s[1..]) && |t'| < |t|
  {
    var a, b, x := multiset(t[..i] + t[i + 1..]), multiset(s[1..]), multiset([s[0]]);
    assert t == t[..i] + [t[i]] + t[i + 1..];
    assert multiset(t) == multiset(t[..i]) + multiset([t[i]]) + multiset(t[i + 1..]);
    assert a == multiset(t[..i]) + multiset(t[i + 1..]);
    assert [t[i]] == [s[0]];
    assert a + x == multiset(t);
    assert s == [s[0]] + s[1..];
    assert b + x == multiset(s);
    assert a == a + x - x;
    t[..i] + t[i + 1..]
  }

  lemma {:induction false} CountWithout<T>(t: seq<T>, i: int, f: T -> bool)
    requires 0 <= i < |t|
    ensures Count(t, f) == (if f(t[i]) then 1 else 0) + Count(t[..i] + t[i + 1..], f)
    decreases i
  {
    if i == 0 {
      assert t[..i] + t[i + 1..] == t[1..];
    } else {
      var u := t[1..];
      CountWithout(u, i - 1, f);
      assert u[i - 1] == t[i];
      assert t[..i] + t[i + 1..] == [t[0]] + (u[..i - 1] + u[i..]);
      CountCons(t[0], u[..i - 1] + u[i..], f);
    }
  }

  lemma CountCons<T>(x: T, b: seq<T>, f: T -> bool)
    ensures Count([x] + b, f) == (if f(x) then 1 else 0) + Count(b, f)
  {
    assert ([x] + b)[1..] == b;
  }

  lemma {:induction false} CountNone<T>(s: seq<T>, f: T -> bool)
    requires forall k :: 0 <= k < |s| ==> !f(s[k])
    ensures Count(s, f) == 0
  {
    if s != [] {
      CountNone(s[1..], f);
    }
  }

  /** The cells farther than d from s. */
  function FarFrom(s: GridPos, d: int): GridPos -> bool {
    (q: GridPos) => Manhattan(q, s) > d
  }

  /** The ranked cells farther than d. */
  function RankedBeyond(d: int): Ranked -> bool {
    (r: Ranked) => r.dist > d
  }

  /** The (distance, cell) pairs placeStartAndEnd builds for the cells after the start. */
  function Ranks(cells: seq<GridPos>, s: GridPos): (r: seq<Ranked>)
    ensures |r| == |cells| && forall k :: 0 <= k < |r| ==> r[k] == Ranked(Manhattan(cells[k], s), cells[k])
  {
    seq(|cells|, k requires 0 <= k < |cells| => Ranked(Manhattan(cells[k], s), cells[k]))
  }

  lemma {:induction false} RanksCount(cells: seq<GridPos>, s: GridPos, d: int)
    ensures Count(Ranks(cells, s), RankedBeyond(d)) == Count(cells, FarFrom(s, d))
    decreases |cells|
  {
    if cells != [] {
      assert Ranks(cells, s)[1..] == Ranks(cells[1..], s);
      RanksCount(cells[1..], s, d);
    }
  }

  /** In a list sorted farthest first, fewer entries than i's index are strictly farther than entry i. */
  lemma SortedCount(s: seq<Ranked>, i: int)
    requires SortedDesc(s) && 0 <= i < |s|
    ensures Count(s, RankedBeyond(s[i].dist)) <= i
  {
    assert s == s[..i] + s[i..];
    CountConcat(s[..i], s[i..], RankedBeyond(s[i].dist));
    CountNone(s[i..], RankedBeyond(s[i].dist));
  }

  /** topCount: the farthest 30% of the m candidates, and at least one (m * 0.3, truncated). */
  function TopCount(m: nat): (t: nat)
    ensures 1 <= t && (m >= 1 ==> t <= m)
  {
    if 3 * m / 10 > 1 then 3 * m / 10 else 1
  }

  /** The loop of placeStartAndEnd that pairs every cell after the first with its distance from s. */
  method RankOthers(cells: seq<GridPos>, s: GridPos) returns (ranked: seq<Ranked>)
    requires |cells| >= 1
    ensures ranked == Ranks(cells[1..], s)
  {
    ranked := [];
    var i := 1;
    while i < |cells|
      invariant 1 <= i <= |cells|
      invariant ranked == Ranks(cells[1..i], s)
    {
      var e := cells[i];
      ranked := ranked + [Ranked(Manhattan(e, s), e)];
      i := i + 1;
    }
    assert cells[1..i] == cells[1..];
  }

  /**
   * placeStartAndEnd.  With fewer than two empty cells the start goes to
   * (1, 1) and the exit to (w - 2, h - 2).  Otherwise the start is a random
   * empty cell and the exit another one, drawn from the topCount farthest:
   * fewer than topCount empty cells lie strictly farther from the start.
   * The exit is written last, so it wins when the two coincide.
   */
  method StartAndEnd(g0: Grid, w: int, h: int, rng: Stream, pos0: nat)
    returns (g: Grid, start: GridPos, exit: GridPos, pos: nat)
    requires Shaped(g0, w, h) && w >= 3 && h >= 3
    ensures Shaped(g, w, h) && Interior(w, h, start) && Interior(w, h, exit)
    ensures forall q :: InGrid(g0, q) ==> At(g, q) == if q == exit then 'E' else if q == start then 'S' else At(g0, q)
    ensures |Scan(g0, w, h, EmptyCell, h - 1)| < 2 ==> start == GridPos(1, 1) && exit == GridPos(w - 2, h - 2)
    ensures |Scan(g0, w, h, EmptyCell, h - 1)| >= 2 ==>
      start != exit && At(g0, start) == '.' && At(g0, exit) == '.' &&
      Count(Scan(g0, w, h, EmptyCell, h - 1), FarFrom(start, Manhattan(exit, start))) <
        TopCount(|Scan(g0, w, h, EmptyCell, h - 1)| - 1)
  {
    var spaces := EmptySpaces(g0, w, h);
    ghost var empties := Scan(g0, w, h, EmptyCell, h - 1);
    assert spaces == empties;
    g := g0;
    if |spaces| < 2 {
      start, exit, pos := GridPos(1, 1), GridPos(w - 2, h - 2), pos0;
      g := SetAt(g, start, 'S');
      g := SetAt(g, exit, 'E');
      return;
    }
    start, exit, pos := PickStartAndEnd(spaces, rng, pos0);
    g := SetAt(g, start, 'S');
    g := SetAt(g, exit, 'E');
  }

  /**
   * The random part of placeStartAndEnd: shuffle the empty cells, take the
   * first as the start, sort the rest farthest first and draw the exit
   * from the first topCount of them.
   */
  method PickStartAndEnd(spaces: seq<GridPos>, rng: Stream, pos0: nat) returns (start: GridPos, exit: GridPos, pos: nat)
    requires |spaces| >= 2 && Distinct(spaces)
    ensures start in spaces && exit in spaces && start != exit
    ensures Count(spaces, FarFrom(start, Manhattan(exit, start))) < TopCount(|spaces| - 1)
  {
    var shuffled := Shuffle(spaces, rng, pos0);
    pos := pos0 + ShuffleDraws(|spaces|);
    start := shuffled[0];
    var ranked := RankOthers(shuffled, start);
    var sorted := SortDesc(ranked);
    var topCount := 3 * |ranked| / 10;
    if topCount < 1 {
      topCount := 1;
    }
    assert topCount == TopCount(|ranked|);
    var selectedIdx := rng(pos) % topCount;
    pos := pos + 1;
    exit := sorted[selectedIdx].pos;
    assert shuffled[0] in multiset(spaces);
    ExitFacts(spaces, shuffled, ranked, sorted, start, selectedIdx);
  }

  /** The exit placeStartAndEnd picks is an empty cell other than the start, and few cells lie beyond it. */
  lemma ExitFacts(spaces: seq<GridPos>, shuffled: seq<GridPos>, ranked: seq<Ranked>, sorted: seq<Ranked>,
                  start: GridPos, i: int)
    requires Distinct(spaces) && |spaces| >= 2 && multiset(shuffled) == multiset(spaces) && Distinct(shuffled)
    requires start == shuffled[0] && ranked == Ranks(shuffled[1..], start)
    requires SortedDesc(sorted) && multiset(sorted) == multiset(ranked) && 0 <= i < |sorted|
    ensures sorted[i].pos in spaces && sorted[i].pos != start
    ensures Count(spaces, FarFrom(start, Manhattan(sorted[i].pos, start))) <= i
  {
    assert sorted[i] in multiset(ranked);
    var k :| 0 <= k < |ranked| && ranked[k] == sorted[i];
    ExitMember(spaces, shuffled, ranked, start, k);
    ExitCount(spaces, shuffled, ranked, sorted, start, i);
  }

  /** Entry k of the ranking is an empty cell other than the start, at its distance from the start. */
  lemma ExitMember(spaces: seq<GridPos>, shuffled: seq<GridPos>, ranked: seq<Ranked>, start: GridPos, k: int)
    requires multiset(shuffled) == multiset(spaces) && Distinct(shuffled) && |shuffled| >= 1
    requires start == shuffled[0] && ranked == Ranks(shuffled[1..], start) && 0 <= k < |ranked|
    ensures ranked[k].pos in spaces && ranked[k].pos != start && ranked[k].dist == Manhattan(ranked[k].pos, start)
  {
    assert ranked[k].pos == shuffled[k + 1];
    assert shuffled[k + 1] in multiset(spaces);
  }

  /** Fewer than i empty cells lie farther from the start than entry i of the sorted ranking. */
  lemma ExitCount(spaces: seq<GridPos>, shuffled: seq<GridPos>, ranked: seq<Ranked>, sorted: seq<Ranked>,
                  start: GridPos, i: int)
    requires multiset(shuffled) == multiset(spaces) && |shuffled| >= 1
    requires start == shuffled[0] && ranked == Ranks(shuffled[1..], start)
    requires SortedDesc(sorted) && multiset(sorted) == multiset(ranked) && 0 <= i < |sorted| && sorted[i].dist >= 0
    ensures Count(spaces, FarFrom(start, sorted[i].dist)) <= i
  {
    var d := sorted[i].dist;
    CountPerm(spaces, shuffled, FarFrom(start, d));
    assert shuffled == [start] + shuffled[1..];
    assert !FarFrom(start, d)(start);
    RanksCount(shuffled[1..], start, d);
    CountPerm(ranked, sorted, RankedBeyond(d));
    SortedCount(sorted, i);
  }

  // ---------------------------------------------------------------------
  // ensurePath: a breadth-first search from the start, and a corridor
  // towards the exit when the search does not reach it.
  // ---------------------------------------------------------------------

  /** The cells ensurePath treats as open (anything but '#', once the grid holds only these). */
  const Passable: set<char> := {'.', 'S', 'E'}

  /** p leads from a to b through passable cells. */
  ghost predicate PassRoute(g: Grid, a: GridPos, b: GridPos, p: seq<GridPos>) {
    Walk(g, p, Passable) && |p| > 0 && p[0] == a && p[|p| - 1] == b
  }

  /** p leads from a to b through passable cells and never leaves the interior. */
  ghost predicate InnerRoute(g: Grid, w: int, h: int, a: GridPos, b: GridPos, p: seq<GridPos>) {
    PassRoute(g, a, b, p) && forall i :: 0 <= i < |p| ==> Interior(w, h, p[i])
  }

  /** The search can reach b from a: some passable walk through the interior joins them. */
  ghost predicate InnerJoined(g: Grid, w: int, h: int, a: GridPos, b: GridPos) {
    exists p :: InnerRoute(g, w, h, a, b, p)
  }

  /** The interior cells of a w by h grid. */
  ghost function InteriorCells(w: int, h: int): set<GridPos> {
    set x, y | 0 < x < w - 1 && 0 < y < h - 1 :: GridPos(x, y)
  }

  /** What the search keeps: every visited cell is interior and has a recorded interior route from the start. */
  ghost predicate Searched(g: Grid, w: int, h: int, start: GridPos, visited: set<GridPos>, queue: seq<GridPos>,
                           route: map<GridPos, seq<GridPos>>)
  {
    start in visited && visited <= InteriorCells(w, h) &&
    (forall c :: c in visited ==> c in route && InnerRoute(g, w, h, start, c, route[c])) &&
    forall i :: 0 <= i < |queue| ==> queue[i] in visited
  }

  /** A cell the search may enter from a neighbour: interior and not a wall. */
  predicate Open(g: Grid, w: int, h: int, n: GridPos) {
    Interior(w, h, n) && InGrid(g, n) && At(g, n) != '#'
  }

  /**
   * Every visited cell that has left the queue has had its turn: each of its
   * open 4-neighbours is visited too.
   */
  ghost predicate Closed(g: Grid, w: int, h: int, visited: set<GridPos>, queue: seq<GridPos>) {
    forall c, n :: c in visited && c !in queue && Adjacent4(c, n) && Open(g, w, h, n) ==> n in visited
  }

  /** The four offsets are exactly the 4-neighbours. */
  lemma NeighbourCases(c: GridPos, n: GridPos)
    ensures Adjacent4(c, n) <==> n == Neighbour(c, 0) || n == Neighbour(c, 1) || n == Neighbour(c, 2) || n == Neighbour(c, 3)
  {
  }

  /** One turn of the search: queue the unvisited, interior, passable 4-neighbours of cur. */
  method Visit(g: Grid, w: int, h: int, ghost start: GridPos, cur: GridPos, visited0: set<GridPos>, queue0: seq<GridPos>,
               ghost route0: map<GridPos, seq<GridPos>>)
    returns (visited: set<GridPos>, queue: seq<GridPos>, ghost route: map<GridPos, seq<GridPos>>)
    requires Shaped(g, w, h) && Glyphs(g, {'#', '.', 'S', 'E'})
    requires Searched(g, w, h, start, visited0, queue0, route0) && cur in visited0
    ensures Searched(g, w, h, start, visited, queue, route)
    ensures visited0 <= visited && (visited == visited0 ==> queue == queue0)
    ensures |queue0| <= |queue| && queue[..|queue0|] == queue0
    ensures forall c :: c in visited && c !in visited0 ==> c in queue
    ensures forall n :: Adjacent4(cur, n) && Open(g, w, h, n) ==> n in visited
  {
    visited, queue, route := visited0, queue0, route0;
    for i := 0 to 4
      invariant Searched(g, w, h, start, visited, queue, route)
      invariant visited0 <= visited && (visited == visited0 ==> queue == queue0)
      invariant |queue0| <= |queue| && queue[..|queue0|] == queue0
      invariant forall c :: c in visited && c !in visited0 ==> c in queue
      invariant forall k :: 0 <= k < i && Open(g, w, h, Neighbour(cur, k)) ==> Neighbour(cur, k) in visited
    {
      var nx := cur.x + [0, 1, 0, -1][i];
      var ny := cur.y + [-1, 0, 1, 0][i];
      var n := GridPos(nx, ny);
      assert n == Neighbour(cur, i);
      if nx > 0 && nx < w - 1 && ny > 0 && ny < h - 1 && n !in visited {
        if g[ny][nx] != '#' {
          assert Adjacent4(cur, n) && At(g, n) in Passable;
          WalkExtend(g, route[cur], n, Passable);
          route := route[n := route[cur] + [n]];
          visited := visited + {n};
          queue := queue + [n];
        }
      }
    }
    forall n | Adjacent4(cur, n) && Open(g, w, h, n)
      ensures n in visited
    {
      NeighbourCases(cur, n);
    }
  }

  /** Taking cur off the queue and giving it its turn keeps every finished cell finished. */
  lemma ClosedAfterTurn(g: Grid, w: int, h: int, cur: GridPos, visited0: set<GridPos>, queue0: seq<GridPos>,
                        visited: set<GridPos>, queue: seq<GridPos>)
    requires Closed(g, w, h, visited0, [cur] + queue0)
    requires visited0 <= visited && |queue0| <= |queue| && queue[..|queue0|] == queue0
    requires forall c :: c in visited && c !in visited0 ==> c in queue
    requires forall n :: Adjacent4(cur, n) && Open(g, w, h, n) ==> n in visited
    ensures Closed(g, w, h, visited, queue)
  {
    forall c, n | c in visited && c !in queue && Adjacent4(c, n) && Open(g, w, h, n)
      ensures n in visited
    {
      if c != cur && c in visited0 {
        assert c !in [cur] + queue0;
      }
    }
  }

  /** A walk that starts in a closed visited set, with an empty queue, stays in it. */
  lemma {:induction false} WalkStaysVisited(g: Grid, w: int, h: int, visited: set<GridPos>, p: seq<GridPos>, i: nat)
    requires Closed(g, w, h, visited, []) && Glyphs(g, {'#', '.', 'S', 'E'})
    requires Walk(g, p, Passable) && (forall k :: 0 <= k < |p| ==> Interior(w, h, p[k]))
    requires |p| > 0 && p[0] in visited && i < |p|
    ensures p[i] in visited
  {
    if i > 0 {
      WalkStaysVisited(g, w, h, visited, p, i - 1);
      assert Adjacent4(p[i - 1], p[i]) && Open(g, w, h, p[i]);
    }
  }

  /** When the queue runs dry without the exit, no interior passable walk reaches it. */
  lemma {:induction false} Unreachable(g: Grid, w: int, h: int, start: GridPos, exit: GridPos, visited: set<GridPos>)
    requires Closed(g, w, h, visited, []) && Glyphs(g, {'#', '.', 'S', 'E'})
    requires start in visited && exit !in visited
    ensures !InnerJoined(g, w, h, start, exit)
  {
    if p :| InnerRoute(g, w, h, start, exit, p) {
      WalkStaysVisited(g, w, h, visited, p, |p| - 1);
    }
  }

  /**
   * The search of ensurePath: true exactly when an interior passable walk
   * joins the start to the exit, and then a recorded route is such a walk.
   */
  method Search(g: Grid, w: int, h: int, start: GridPos, exit: GridPos) returns (found: bool)
    requires Shaped(g, w, h) && Glyphs(g, {'#', '.', 'S', 'E'}) && Interior(w, h, start) && At(g, start) != '#'
    ensures found ==> Joined(g, start, exit, Passable)
    ensures found <==> InnerJoined(g, w, h, start, exit)
  {
    var visited := {start};
    var queue := [start];
    ghost var route := map[start := [start]];
    assert Walk(g, [start], Passable);
    assert InnerRoute(g, w, h, start, start, [start]);
    while queue != []
      invariant Searched(g, w, h, start, visited, queue, route)
      invariant Closed(g, w, h, visited, queue)
      invariant exit in visited ==> exit in queue
      decreases InteriorCells(w, h) - visited, |queue|
    {
      var cur := queue[0];
      assert queue == [cur] + queue[1..];
      queue := queue[1..];
      if cur == exit {
        assert InnerRoute(g, w, h, start, exit, route[exit]);
        return true;
      }
      ghost var visited0, queue0 := visited, queue;
      visited, queue, route := Visit(g, w, h, start, cur, visited, queue, route);
      ClosedAfterTurn(g, w, h, cur, visited0, queue0, visited, queue);
      if exit in visited {
        if exit in visited0 {
          var k :| 0 <= k < |queue0| && queue0[k] == exit;
          assert queue[k] == exit;
        }
      }
    }
    Unreachable(g, w, h, start, exit, visited);
    return false;
  }

  /** The bounding box of a and b. */
  predicate InBox(a: GridPos, b: GridPos, q: GridPos) {
    (if a.x <= b.x then a.x <= q.x <= b.x else b.x <= q.x <= a.x) &&
    (if a.y <= b.y then a.y <= q.y <= b.y else b.y <= q.y <= a.y)
  }

  /** A cell may have changed only from a wall to a passage inside the box of a and b. */
  ghost predicate OnlyCarvedIn(g0: Grid, g: Grid, a: GridPos, b: GridPos) {
    forall q :: InGrid(g0, q) ==>
      InGrid(g, q) && (At(g, q) == At(g0, q) || (At(g0, q) == '#' && At(g, q) == '.' && InBox(a, b, q)))
  }

  /**
   * ensurePath.  The grid changes only where a wall inside the bounding box
   * of the start and the exit becomes a passage, and afterwards a walk
   * through passable cells joins the start to the exit.
   */
  method EnsurePath(g0: Grid, w: int, h: int, start: GridPos, exit: GridPos, rng: Stream, pos0: nat)
    returns (g: Grid, pos: nat)
    requires Shaped(g0, w, h) && Glyphs(g0, {'#', '.', 'S', 'E'})
    requires Interior(w, h, start) && Interior(w, h, exit) && At(g0, start) != '#'
    ensures Shaped(g, w, h) && OnlyCarvedIn(g0, g, start, exit)
    ensures Joined(g, start, exit, Passable)
    ensures InnerJoined(g0, w, h, start, exit) ==> g == g0 && pos == pos0
  {
    g, pos := g0, pos0;
    var found := Search(g, w, h, start, exit);
    if found {
      return;
    }
    g, pos := Corridor(g0, w, h, start, exit, rng, pos0);
  }

  /**
   * The fallback of ensurePath: walk from the start to the exit, each step
   * one cell nearer along x or y (a coin from the stream picks which when
   * both are left), opening every wall it steps on.
   */
  method Corridor(g0: Grid, w: int, h: int, start: GridPos, exit: GridPos, rng: Stream, pos0: nat)
    returns (g: Grid, pos: nat)
    requires Shaped(g0, w, h) && Glyphs(g0, {'#', '.', 'S', 'E'})
    requires Interior(w, h, start) && Interior(w, h, exit) && At(g0, start) != '#'
    ensures Shaped(g, w, h) && OnlyCarvedIn(g0, g, start, exit)
    ensures Joined(g, start, exit, Passable)
  {
    g, pos := g0, pos0;
    var x, y := start.x, start.y;
    ghost var walk := [start];
    assert Walk(g, walk, Passable);
    while x != exit.x || y != exit.y
      invariant Shaped(g, w, h) && Glyphs(g, {'#', '.', 'S', 'E'}) && OnlyCarvedIn(g0, g, start, exit)
      invariant InBox(start, exit, GridPos(x, y)) && PassRoute(g, start, GridPos(x, y), walk)
      invariant |walk| + Manhattan(GridPos(x, y), exit) == Manhattan(start, exit) + 1
      decreases Manhattan(GridPos(x, y), exit)
    {
      ghost var cur := GridPos(x, y);
      var moveX := rng(pos) % 2 == 0;
      pos := pos + 1;
      if moveX && x != exit.x {
        x := x + if exit.x > x then 1 else -1;
      } else if y != exit.y {
        y := y + if exit.y > y then 1 else -1;
      } else if x != exit.x {
        x := x + if exit.x > x then 1 else -1;
      }
      var next := GridPos(x, y);
      assert Adjacent4(cur, next) && Manhattan(next, exit) == Manhattan(cur, exit) - 1;
      g, walk := Dig(g0, g, w, h, start, exit, walk, next);
    }
  }

  /** One step of the fallback: the wall on the next cell, if any, opened, and the walk extended onto it. */
  method Dig(g0: Grid, g: Grid, w: int, h: int, start: GridPos, exit: GridPos, ghost walk: seq<GridPos>, next: GridPos)
    returns (g': Grid, ghost walk': seq<GridPos>)
    requires Shaped(g, w, h) && Glyphs(g, {'#', '.', 'S', 'E'}) && OnlyCarvedIn(g0, g, start, exit)
    requires Interior(w, h, start) && Interior(w, h, exit) && InBox(start, exit, next)
    requires |walk| > 0 && PassRoute(g, start, walk[|walk| - 1], walk) && Adjacent4(walk[|walk| - 1], next)
    ensures Shaped(g', w, h) && Glyphs(g', {'#', '.', 'S', 'E'}) && OnlyCarvedIn(g0, g', start, exit)
    ensures walk' == walk + [next] && PassRoute(g', start, next, walk')
  {
    g' := g;
    if g[next.y][next.x] == '#' {
      g' := SetAt(g, next, '.');
      WalkSurvives(g, g', walk, Passable, Passable);
    }
    WalkExtend(g', walk, next, Passable);
    walk' := walk + [next];
  }

  /** Two arrangements of one multiset hold the same entries. */
  lemma PermMembers<T>(s: seq<T>, t: seq<T>)
    requires multiset(s) == multiset(t)
    ensures forall q :: q in s <==> q in t
  {
    forall q ensures q in s <==> q in t {
      assert q in s <==> q in multiset(s);
      assert q in t <==> q in multiset(t);
    }
  }

  // ---------------------------------------------------------------------
  // placeEnemies.
  // ---------------------------------------------------------------------

  /** How many markers placeEnemies writes: count, but none below zero and no more than there are candidates. */
  function Placed(count: int, n: nat): (k: nat)
    ensures k <= n && (count <= 0 ==> k == 0) && (0 <= count <= n ==> k == count) && (count >= n ==> k == n)
  {
    if count <= 0 then 0 else if count < n then count else n
  }

  /**
   * The cells placeEnemies marks: the first Placed(count, n) of a shuffle of
   * the n empty cells farther than 5 from the start and farther than 3 from
   * the exit; each such cell once.
   */
  function EnemyCells(g: Grid, w: int, h: int, start: GridPos, exit: GridPos, count: int, rng: Stream, pos: nat)
    : (cells: seq<GridPos>)
    ensures var n := |Scan(g, w, h, EnemySpot(start, exit), h - 1)|; |cells| == Placed(count, n)
    ensures Distinct(cells)
    ensures forall q :: q in cells ==>
      (Interior(w, h, q) && InGrid(g, q) && At(g, q) == '.' &&
       Manhattan(q, start) > MinDistFromStart && Manhattan(q, exit) > MinDistFromExit)
  {
    var candidates := Scan(g, w, h, EnemySpot(start, exit), h - 1);
    ScanMembers(g, w, h, EnemySpot(start, exit), h - 1);
    var shuffled := Shuffle(candidates, rng, pos);
    PermMembers(candidates, shuffled);
    TakeFacts(shuffled, Placed(count, |candidates|));
    shuffled[..Placed(count, |candidates|)]
  }

  /** A prefix holds only entries of the whole, and no entry twice if the whole does not. */
  lemma TakeFacts<T>(s: seq<T>, k: int)
    requires 0 <= k <= |s|
    ensures forall q :: q in s[..k] ==> q in s
    ensures Distinct(s) ==> Distinct(s[..k])
  {
  }

  /** placeEnemies: the chosen candidates become 'X', every other cell is unchanged. */
  method PlaceEnemies(g0: Grid, w: int, h: int, start: GridPos, exit: GridPos, count: int, rng: Stream, pos0: nat)
    returns (g: Grid, pos: nat)
    requires Shaped(g0, w, h)
    ensures Shaped(g, w, h)
    ensures forall q :: InGrid(g0, q) ==>
      At(g, q) == if q in EnemyCells(g0, w, h, start, exit, count, rng, pos0) then 'X' else At(g0, q)
  {
    var candidates := Collect(g0, w, h, EnemySpot(start, exit));
    ScanMembers(g0, w, h, EnemySpot(start, exit), h - 1);
    var shuffled := Shuffle(candidates, rng, pos0);
    pos := pos0 + ShuffleDraws(|candidates|);
    PermMembers(candidates, shuffled);
    g := MarkFirst(g0, w, h, shuffled, count);
    assert shuffled[..Placed(count, |shuffled|)] == EnemyCells(g0, w, h, start, exit, count, rng, pos0);
  }

  /** The marking loop of placeEnemies: 'X' on the cells in order until count markers are down. */
  method MarkFirst(g0: Grid, w: int, h: int, cells: seq<GridPos>, count: int) returns (g: Grid)
    requires Shaped(g0, w, h) && forall q :: q in cells ==> InGrid(g0, q)
    ensures Shaped(g, w, h)
    ensures forall q :: InGrid(g0, q) ==> At(g, q) == if q in cells[..Placed(count, |cells|)] then 'X' else At(g0, q)
  {
    g := g0;
    var placed := 0;
    var i := 0;
    while i < |cells|
      invariant 0 <= i <= |cells| && placed == i && i <= Placed(count, |cells|)
      invariant Shaped(g, w, h)
      invariant forall q :: InGrid(g0, q) ==> At(g, q) == if q in cells[..i] then 'X' else At(g0, q)
    {
      if placed >= count {
        break;
      }
      assert cells[..i + 1] == cells[..i] + [cells[i]];
      assert cells[i] in cells;
      g := SetAt(g, cells[i], 'X');
      placed := placed + 1;
      i := i + 1;
    }
    assert i == Placed(count, |cells|);
  }

  // ---------------------------------------------------------------------
  // placeDestructibleWalls.
  // ---------------------------------------------------------------------

  /** roll: a draw of the engine reduced to a fraction in [0, 1) in steps of 1/1000. */
  function Roll(v: nat): (r: real)
    ensures 0.0 <= r < 1.0
  {
    (v % 1000) as real / 1000.0
  }

  /** What an eligible wall becomes: '*' when its roll falls below the ratio. */
  function WallMark(roll: real, ratio: real): char {
    if roll < ratio then '*' else '#'
  }

  /** The hasAdjacentPath loop: the neighbours in order, stopping at the first path cell. */
  method HasAdjacentPath(g: Grid, w: int, h: int, q: GridPos) returns (found: bool)
    requires Shaped(g, w, h)
    ensures found == NearPath(g, w, h, q)
  {
    found := false;
    var i := 0;
    while i < 4
      invariant 0 <= i <= 4 && !found
      invariant forall j :: 0 <= j < i ==> !PathCell(g, w, h, Neighbour(q, j))
    {
      var nx := q.x + [0, 1, 0, -1][i];
      var ny := q.y + [-1, 0, 1, 0][i];
      assert GridPos(nx, ny) == Neighbour(q, i);
      if nx >= 0 && nx < w && ny >= 0 && ny < h {
        if g[ny][nx] == '.' || g[ny][nx] == 'S' || g[ny][nx] == 'E' {
          found := true;
          break;
        }
      }
      i := i + 1;
    }
  }

  /**
   * Walls after the scan has passed the cells of done (the eligible walls
   * so far, in order): the k-th of them holds the mark of draw pos0 + k,
   * every other cell its original symbol.
   */
  ghost predicate WallsSoFar(g0: Grid, g: Grid, w: int, h: int, ratio: real, rng: Stream, pos0: nat, done: seq<GridPos>) {
    Shaped(g0, w, h) && Shaped(g, w, h) &&
    (forall k :: 0 <= k < |done| ==>
       (InGrid(g0, done[k]) && At(g0, done[k]) == '#' && At(g, done[k]) == WallMark(Roll(rng(pos0 + k)), ratio))) &&
    forall q :: InGrid(g0, q) && q !in done ==> At(g, q) == At(g0, q)
  }

  /** Writing '*' over walls does not change which walls lie beside a path. */
  lemma NearPathKept(g0: Grid, g: Grid, w: int, h: int, ratio: real, rng: Stream, pos0: nat, done: seq<GridPos>, q: GridPos)
    requires Shaped(g0, w, h) && WallsSoFar(g0, g, w, h, ratio, rng, pos0, done)
    ensures NearPath(g, w, h, q) == NearPath(g0, w, h, q)
  {
    forall i | 0 <= i < 4 ensures PathCell(g, w, h, Neighbour(q, i)) == PathCell(g0, w, h, Neighbour(q, i)) {
      var c := Neighbour(q, i);
      if c in done {
        var k :| 0 <= k < |done| && done[k] == c;
      }
    }
  }

  /** One cell of the wall scan. */
  method WallCell(g0: Grid, g: Grid, w: int, h: int, ratio: real, rng: Stream, pos0: nat, pos: nat,
                  ghost done: seq<GridPos>, x: int, y: int)
    returns (g': Grid, pos': nat)
    requires Shaped(g0, w, h) && WallsSoFar(g0, g, w, h, ratio, rng, pos0, done) && pos == pos0 + |done|
    requires 0 < x < w - 1 && 0 < y < h - 1 && GridPos(x, y) !in done
    ensures var done' := done + if Picks(g0, w, h, WallBesidePath, GridPos(x, y)) then [GridPos(x, y)] else [];
      WallsSoFar(g0, g', w, h, ratio, rng, pos0, done') && pos' == pos0 + |done'|
  {
    g', pos' := g, pos;
    var c := GridPos(x, y);
    if g[y][x] == '#' {
      var hasAdjacentPath := HasAdjacentPath(g, w, h, c);
      NearPathKept(g0, g, w, h, ratio, rng, pos0, done, c);
      if hasAdjacentPath {
        var roll := Roll(rng(pos));
        pos' := pos + 1;
        if roll < ratio {
          g' := SetAt(g, c, '*');
        }
        ghost var done' := done + [c];
        assert done'[|done|] == c;
        assert forall k :: 0 <= k < |done| ==> done'[k] == done[k];
      }
    }
  }

  /**
   * placeDestructibleWalls.  The eligible cells are the interior walls with
   * a passage, the start or the exit beside them, in row-major order on the
   * grid as it was on entry; the k-th of them draws pos0 + k and becomes
   * '*' when its roll falls below the ratio.  No other cell changes.
   */
  method PlaceDestructibleWalls(g0: Grid, w: int, h: int, ratio: real, rng: Stream, pos0: nat)
    returns (g: Grid, pos: nat)
    requires Shaped(g0, w, h)
    ensures WallsSoFar(g0, g, w, h, ratio, rng, pos0, Scan(g0, w, h, WallBesidePath, h - 1))
    ensures pos == pos0 + |Scan(g0, w, h, WallBesidePath, h - 1)|
  {
    g, pos := g0, pos0;
    var y := 1;
    while y < h - 1
      invariant 1 <= y && (y == 1 || y <= h - 1)
      invariant WallsSoFar(g0, g, w, h, ratio, rng, pos0, Scan(g0, w, h, WallBesidePath, y))
      invariant pos == pos0 + |Scan(g0, w, h, WallBesidePath, y)|
    {
      g, pos := WallRow(g0, g, w, h, ratio, rng, pos0, pos, y);
      y := y + 1;
    }
  }

  /** The scan so far has not reached cell (x, y). */
  lemma NotYetScanned(g: Grid, w: int, h: int, pick: Pick, y: int, x: int)
    ensures GridPos(x, y) !in Scan(g, w, h, pick, y) + RowScan(g, w, h, pick, y, x)
  {
    ScanMembers(g, w, h, pick, y);
    RowScanMembers(g, w, h, pick, y, x);
  }

  /** The scan of a row, one cell further on. */
  lemma RowStep(before: seq<GridPos>, g: Grid, w: int, h: int, pick: Pick, y: int, x: int)
    requires x >= 1
    ensures before + RowScan(g, w, h, pick, y, x + 1) ==
      (before + RowScan(g, w, h, pick, y, x)) + if Picks(g, w, h, pick, GridPos(x, y)) then [GridPos(x, y)] else []
  {
  }

  /** Cell (x, y) of the wall scan, with the cells of the rows above and of row y to its left done. */
  method WallStep(g0: Grid, g: Grid, w: int, h: int, ratio: real, rng: Stream, pos0: nat, pos: nat,
                  ghost before: seq<GridPos>, x: int, y: int)
    returns (g': Grid, pos': nat)
    requires before == Scan(g0, w, h, WallBesidePath, y) && 0 < x < w - 1 && 0 < y < h - 1
    requires WallsSoFar(g0, g, w, h, ratio, rng, pos0, before + RowScan(g0, w, h, WallBesidePath, y, x))
    requires pos == pos0 + |before + RowScan(g0, w, h, WallBesidePath, y, x)|
    ensures WallsSoFar(g0, g', w, h, ratio, rng, pos0, before + RowScan(g0, w, h, WallBesidePath, y, x + 1))
    ensures pos' == pos0 + |before + RowScan(g0, w, h, WallBesidePath, y, x + 1)|
  {
    NotYetScanned(g0, w, h, WallBesidePath, y, x);
    g', pos' := WallCell(g0, g, w, h, ratio, rng, pos0, pos, before + RowScan(g0, w, h, WallBesidePath, y, x), x, y);
    RowStep(before, g0, w, h, WallBesidePath, y, x);
  }

  /** One row of the wall scan. */
  method WallRow(g0: Grid, g: Grid, w: int, h: int, ratio: real, rng: Stream, pos0: nat, pos: nat, y: int)
    returns (g': Grid, pos': nat)
    requires Shaped(g0, w, h) && 0 < y < h - 1
    requires WallsSoFar(g0, g, w, h, ratio, rng, pos0, Scan(g0, w, h, WallBesidePath, y))
    requires pos == pos0 + |Scan(g0, w, h, WallBesidePath, y)|
    ensures WallsSoFar(g0, g', w, h, ratio, rng, pos0, Scan(g0, w, h, WallBesidePath, y + 1))
    ensures pos' == pos0 + |Scan(g0, w, h, WallBesidePath, y + 1)|
  {
    g', pos' := g, pos;
    ghost var before := Scan(g0, w, h, WallBesidePath, y);
    ghost var done := before;
    var x := 1;
    while x < w - 1
      invariant 1 <= x && (x == 1 || x <= w - 1)
      invariant done == before + RowScan(g0, w, h, WallBesidePath, y, x)
      invariant WallsSoFar(g0, g', w, h, ratio, rng, pos0, done) && pos' == pos0 + |done|
    {
      g', pos' := WallStep(g0, g', w, h, ratio, rng, pos0, pos', before, x, y);
      done := before + RowScan(g0, w, h, WallBesidePath, y, x + 1);
      x := x + 1;
    }
  }

  /** Only interior walls beside a path can turn destructible, and a ratio of 0 or less turns none. */
  lemma WallsOnlyNearPath(g0: Grid, g: Grid, w: int, h: int, ratio: real, rng: Stream, pos0: nat)
    requires Shaped(g0, w, h) && WallsSoFar(g0, g, w, h, ratio, rng, pos0, Scan(g0, w, h, WallBesidePath, h - 1))
    ensures forall q :: InGrid(g0, q) ==>
      At(g, q) == At(g0, q) || (At(g0, q) == '#' && At(g, q) == '*' && Interior(w, h, q) && NearPath(g0, w, h, q))
    ensures ratio <= 0.0 ==> forall q :: InGrid(g0, q) ==> At(g, q) == At(g0, q)
  {
    var e := Scan(g0, w, h, WallBesidePath, h - 1);
    ScanMembers(g0, w, h, WallBesidePath, h - 1);
    forall q | InGrid(g0, q) && q in e
      ensures At(g, q) == At(g0, q) || (At(g0, q) == '#' && At(g, q) == '*' && Interior(w, h, q) && NearPath(g0, w, h, q))
      ensures ratio <= 0.0 ==> At(g, q) == At(g0, q)
    {
      var k :| 0 <= k < |e| && e[k] == q;
    }
  }
}

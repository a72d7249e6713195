/**
 * Maze::findPath: A* search over the walkable tiles with unit step cost and
 * the Manhattan heuristic, and the reconstruction of the path it found.
 *
 * The open set (a std::priority_queue ordered by f-cost) is a sequence of
 * nodes from which an entry of least f-cost is removed; the cost and
 * predecessor tables (unordered_maps) are maps.
 */
module Pathfinding {
  import opened Wrappers
  import opened Geometry
  import opened Cells
  import opened MazeWorld

  /** A tile the search may enter: on the grid, and empty or an exit. */
  predicate Walkable(t: Tiles, g: GridPos) {
    0 <= g.y < |t| && 0 <= g.x < |t[g.y]| && IsWalkableKind(t[g.y][g.x])
  }

  lemma WalkableInMaze(m: Maze, g: GridPos)
    requires m.Valid()
    ensures m.IsWalkable(g.y, g.x) == Walkable(m.Kinds(), g)
  {
  }

  /** All walkable tiles. */
  function WalkSet(t: Tiles): set<GridPos> {
    set y, x | 0 <= y < |t| && 0 <= x < |t[y]| && IsWalkableKind(t[y][x]) :: GridPos(x, y)
  }

  lemma InWalkSet(t: Tiles, g: GridPos)
    ensures g in WalkSet(t) <==> Walkable(t, g)
  {
    if Walkable(t, g) {
      assert GridPos(g.x, g.y) in WalkSet(t);
    }
  }

  /** The neighbour in direction d, in the order up, right, down, left. */
  function Neighbour(p: GridPos, d: int): (q: GridPos)
    requires 0 <= d < 4
    ensures Adjacent4(p, q)
  {
    GridPos(p.x + [0, 1, 0, -1][d], p.y + [-1, 0, 1, 0][d])
  }

  /** Every 4-neighbour of p is one of the four directions. */
  function DirectionTo(p: GridPos, q: GridPos): (d: int)
    requires Adjacent4(p, q)
    ensures 0 <= d < 4 && Neighbour(p, d) == q
  {
    if q.y < p.y then 0 else if q.x > p.x then 1 else if q.y > p.y then 2 else 3
  }

  /** A walk through walkable tiles, each a 4-neighbour of the one before. */
  predicate WalkPath(t: Tiles, p: seq<GridPos>) {
    (forall i :: 0 <= i < |p| ==> Walkable(t, p[i])) &&
    (forall i :: 0 <= i < |p| - 1 ==> Adjacent4(p[i], p[i + 1]))
  }

  /** Some walk leads from s to e. */
  ghost predicate Reachable(t: Tiles, s: GridPos, e: GridPos) {
    exists p :: WalkPath(t, p) && |p| > 0 && p[0] == s && p[|p| - 1] == e
  }

  /** The tiles the points of a path lie in. */
  function CellsOf(path: seq<Point>): (cs: seq<GridPos>)
    ensures |cs| == |path| && forall i :: 0 <= i < |path| ==> cs[i] == WorldToGrid(path[i])
  {
    if path == [] then [] else [WorldToGrid(path[0])] + CellsOf(path[1..])
  }

  /**
   * path is the list of tile centres of a walk from s to e, without s: what
   * findPath returns when it finds e.
   */
  predicate Route(t: Tiles, s: GridPos, e: GridPos, path: seq<Point>) {
    |path| > 0 && WalkPath(t, [s] + CellsOf(path)) && WorldToGrid(path[|path| - 1]) == e &&
    forall i :: 0 <= i < |path| ==> path[i] == GridToWorld(WorldToGrid(path[i]))
  }

  /** A route is a walk from its start to its end. */
  lemma RouteReaches(t: Tiles, s: GridPos, e: GridPos, path: seq<Point>)
    requires Route(t, s, e, path)
    ensures Reachable(t, s, e)
  {
    var p := [s] + CellsOf(path);
    assert p[|p| - 1] == e;
  }

  /** A open-set entry (struct Node): tile, cost so far, cost plus heuristic. */
  datatype Node = Node(pos: GridPos, g: int, f: int)

  /** The heuristic of findPath: Manhattan distance to the target. */
  function Heuristic(a: GridPos, b: GridPos): (h: nat)
    ensures h == 0 <==> a == b
  {
    Manhattan(a, b)
  }

  /** A walk without repeats fits inside any set holding its tiles. */
  lemma {:induction false} DistinctFits(w: seq<GridPos>, s: set<GridPos>)
    requires Distinct(w) && forall i :: 0 <= i < |w| ==> w[i] in s
    ensures |w| <= |s|
    decreases |w|
  {
    if w != [] {
      var x := w[|w| - 1];
      var u := w[..|w| - 1];
      assert forall i :: 0 <= i < |u| ==> u[i] in s - {x} by {
        forall i | 0 <= i < |u| ensures u[i] in s - {x} {
          assert u[i] == w[i] && w[i] != w[|w| - 1];
        }
      }
      DistinctFits(u, s - {x});
    }
  }

  /**
   * The history behind a cost: a tile sequence without repeats of length
   * cost + 1, ending at n, whose i-th tile now costs at most i.  It bounds
   * every cost by the number of walkable tiles.
   */
  ghost predicate Witness(g: map<GridPos, int>, w: seq<GridPos>, n: GridPos)
    requires n in g
  {
    |w| == g[n] + 1 && |w| > 0 && w[|w| - 1] == n && Distinct(w) &&
    forall i :: 0 <= i < |w| ==> w[i] in g && g[w[i]] <= i
  }

  /**
   * The cost and predecessor tables as findPath keeps them: the start
   * costs 0, every recorded tile is walkable with a history, and every other
   * recorded tile has a recorded neighbour as predecessor that costs less.
   */
  ghost predicate Books(t: Tiles, s: GridPos, g: map<GridPos, int>, came: map<GridPos, GridPos>,
                        wit: map<GridPos, seq<GridPos>>)
  {
    s in g && g[s] == 0 && Histories(t, g, wit) && Predecessors(s, g, came)
  }

  ghost predicate Histories(t: Tiles, g: map<GridPos, int>, wit: map<GridPos, seq<GridPos>>) {
    (forall n :: n in g ==> Walkable(t, n) && g[n] >= 0 && n in wit) &&
    forall n {:trigger wit[n]} :: n in g && n in wit ==> Witness(g, wit[n], n)
  }

  predicate Predecessors(s: GridPos, g: map<GridPos, int>, came: map<GridPos, GridPos>) {
    (forall n :: n in g && n != s ==> n in came) &&
    forall n {:trigger came[n]} :: n in g && n != s && n in came ==>
      came[n] in g && Adjacent4(came[n], n) && g[came[n]] < g[n]
  }

  /** Every open entry is for a recorded tile, at its cost or above. */
  ghost predicate OpenOk(g: map<GridPos, int>, tg: GridPos, open: seq<Node>) {
    forall k :: 0 <= k < |open| ==>
      open[k].pos in g && open[k].g >= g[open[k].pos] && open[k].f == open[k].g + Heuristic(open[k].pos, tg)
  }

  /** The open entry that stands for recorded tile n at its current cost. */
  function Entry(g: map<GridPos, int>, tg: GridPos, n: GridPos): Node
    requires n in g
  {
    Node(n, g[n], g[n] + Heuristic(n, tg))
  }

  /**
   * Direction d of recorded tile n is settled: a walkable neighbour there is
   * recorded at a cost at most one above that of n.
   */
  ghost predicate Step(t: Tiles, g: map<GridPos, int>, n: GridPos, d: int)
    requires n in g && 0 <= d < 4
  {
    Walkable(t, Neighbour(n, d)) ==> Neighbour(n, d) in g && g[Neighbour(n, d)] <= g[n] + 1
  }

  /** All four directions of recorded tile n are settled. */
  ghost predicate Settled(t: Tiles, g: map<GridPos, int>, n: GridPos)
    requires n in g
  {
    forall d :: 0 <= d < 4 ==> Step(t, g, n, d)
  }

  /** The first i directions of recorded tile n are settled. */
  ghost predicate StepsUpTo(t: Tiles, g: map<GridPos, int>, n: GridPos, i: int)
    requires n in g
  {
    (i > 0 ==> Step(t, g, n, 0)) && (i > 1 ==> Step(t, g, n, 1)) &&
    (i > 2 ==> Step(t, g, n, 2)) && (i > 3 ==> Step(t, g, n, 3))
  }

  /**
   * Every recorded tile, unless excepted, has an open entry at its current
   * cost or is settled.
   */
  ghost predicate Tracked(t: Tiles, g: map<GridPos, int>, tg: GridPos, open: seq<Node>, except: set<GridPos>) {
    forall n :: n in g ==> n in except || Entry(g, tg, n) in open || Settled(t, g, n)
  }

  /** The target, once recorded, keeps an open entry at its current cost: it is never expanded. */
  ghost predicate TargetOpen(g: map<GridPos, int>, tg: GridPos, open: seq<Node>) {
    tg in g ==> Entry(g, tg, tg) in open
  }

  /** What holds at the head of the search loop. */
  ghost predicate Searching(t: Tiles, s: GridPos, tg: GridPos, open: seq<Node>, came: map<GridPos, GridPos>,
                            g: map<GridPos, int>, wit: map<GridPos, seq<GridPos>>)
  {
    Books(t, s, g, came, wit) && OpenOk(g, tg, open) && Tracked(t, g, tg, open, {}) && TargetOpen(g, tg, open)
  }

  /** No walk from s to e is shorter than path: with Route, path has the least possible length. */
  ghost predicate Shortest(t: Tiles, s: GridPos, e: GridPos, path: seq<Point>) {
    forall p :: WalkPath(t, p) && |p| > 0 && p[0] == s && p[|p| - 1] == e ==> |path| <= |p| - 1
  }

  /**
   * Everything findPath promises about its answer from s to e: nothing when
   * an end is not walkable or the ends coincide, otherwise a route that is a
   * shortest one, and no route at all only when e cannot be reached.
   */
  ghost predicate PathAnswer(t: Tiles, s: GridPos, e: GridPos, path: seq<Point>) {
    (!Walkable(t, s) || !Walkable(t, e) || s == e ==> path == [])
    && (path != [] ==> Route(t, s, e, path))
    && Shortest(t, s, e, path)
    && (path == [] && Walkable(t, s) && Walkable(t, e) && s != e ==> !Reachable(t, s, e))
  }

  /** The cost a tile can still drop to, plus one; one more than any history for an unrecorded tile. */
  function Slack(w: set<GridPos>, g: map<GridPos, int>, c: GridPos): int {
    if c in g then g[c] else |w| + 1
  }

  /** The (tile, cost) pairs the search can still record: shrinks on every improvement. */
  ghost function Avail(w: set<GridPos>, g: map<GridPos, int>): set<(GridPos, int)> {
    set c, v | c in w && 0 <= v < Slack(w, g, c) :: (c, v)
  }

  lemma AvailShrinks(w: set<GridPos>, g: map<GridPos, int>, c: GridPos, v: int)
    requires c in w && 0 <= v < Slack(w, g, c)
    ensures Avail(w, g[c := v]) < Avail(w, g)
  {
    var g' := g[c := v];
    assert (c, v) in Avail(w, g);
    assert (c, v) !in Avail(w, g');
    forall x | x in Avail(w, g') ensures x in Avail(w, g) {
      assert Slack(w, g', x.0) <= Slack(w, g, x.0);
    }
  }

  /** Recording a cheaper cost for a walkable neighbour of a recorded tile keeps the books. */
  lemma BooksUpdate(t: Tiles, s: GridPos, g: map<GridPos, int>, came: map<GridPos, GridPos>,
                    wit: map<GridPos, seq<GridPos>>, cur: GridPos, nb: GridPos)
    requires Books(t, s, g, came, wit) && cur in g && Adjacent4(cur, nb) && Walkable(t, nb)
    requires nb !in g || g[cur] + 1 < g[nb]
    ensures nb != s
    ensures Books(t, s, g[nb := g[cur] + 1], came[nb := cur], wit[nb := wit[cur] + [nb]])
  {
    HistoriesUpdate(t, g, wit, cur, nb);
    PredecessorsUpdate(s, g, came, cur, nb);
  }

  lemma HistoriesUpdate(t: Tiles, g: map<GridPos, int>, wit: map<GridPos, seq<GridPos>>, cur: GridPos, nb: GridPos)
    requires Histories(t, g, wit) && cur in g && Walkable(t, nb)
    requires nb !in g || g[cur] + 1 < g[nb]
    ensures Histories(t, g[nb := g[cur] + 1], wit[nb := wit[cur] + [nb]])
  {
    var v := g[cur] + 1;
    var g', wit' := g[nb := v], wit[nb := wit[cur] + [nb]];
    var wc := wit[cur];
    assert Witness(g, wc, cur);
    assert nb !in wc by {
      forall i | 0 <= i < |wc| ensures wc[i] != nb {
        assert wc[i] in g && g[wc[i]] <= i < |wc|;
      }
    }
    assert Witness(g', wit'[nb], nb) by {
      var w := wc + [nb];
      forall i, j | 0 <= i < j < |w| ensures w[i] != w[j] {
        if j < |wc| { assert w[i] == wc[i] && w[j] == wc[j]; }
      }
      forall i | 0 <= i < |w| ensures w[i] in g' && g'[w[i]] <= i {
        if i < |wc| { assert w[i] == wc[i]; }
      }
    }
    assert forall x :: x in g ==> x in g' && g'[x] <= g[x];
    forall n | n in g' ensures Walkable(t, n) && g'[n] >= 0 && n in wit' && Witness(g', wit'[n], n) {
      if n != nb {
        WitnessMonotone(g, g', wit[n], n);
      }
    }
  }

  lemma PredecessorsUpdate(s: GridPos, g: map<GridPos, int>, came: map<GridPos, GridPos>, cur: GridPos, nb: GridPos)
    requires Predecessors(s, g, came) && s in g && g[s] == 0 && cur in g && g[cur] >= 0 && Adjacent4(cur, nb)
    requires nb !in g || g[cur] + 1 < g[nb]
    ensures nb != s
    ensures Predecessors(s, g[nb := g[cur] + 1], came[nb := cur])
  {
  }

  /** A history stays one when costs only drop and the cost it explains does not. */
  lemma WitnessMonotone(g: map<GridPos, int>, g': map<GridPos, int>, w: seq<GridPos>, n: GridPos)
    requires n in g && Witness(g, w, n) && n in g' && g'[n] == g[n]
    requires forall x :: x in g ==> x in g' && g'[x] <= g[x]
    ensures Witness(g', w, n)
  {
  }

  /** A settled direction stays settled when costs only drop and the tile's own cost does not. */
  lemma StepsKeep(t: Tiles, g: map<GridPos, int>, g': map<GridPos, int>, n: GridPos, i: int)
    requires n in g && StepsUpTo(t, g, n, i) && n in g' && g'[n] == g[n]
    requires forall x :: x in g ==> x in g' && g'[x] <= g[x]
    ensures StepsUpTo(t, g', n, i)
  {
    forall d | 0 <= d < 4 && d < i ensures Step(t, g', n, d) {
      assert Step(t, g, n, d);
    }
  }

  /** A pop takes one entry away; every recorded tile but the popped one stays accounted for. */
  lemma PopKeeps(t: Tiles, g: map<GridPos, int>, tg: GridPos, open: seq<Node>, k: int)
    requires 0 <= k < |open| && OpenOk(g, tg, open) && Tracked(t, g, tg, open, {}) && TargetOpen(g, tg, open)
    ensures OpenOk(g, tg, open[..k] + open[k + 1..])
    ensures Tracked(t, g, tg, open[..k] + open[k + 1..], {open[k].pos})
    ensures open[k].g != g[open[k].pos] ==> Tracked(t, g, tg, open[..k] + open[k + 1..], {})
    ensures open[k].pos != tg ==> TargetOpen(g, tg, open[..k] + open[k + 1..])
  {
    var rest := open[..k] + open[k + 1..];
    forall x | x in open && x != open[k] ensures x in rest {
      var j :| 0 <= j < |open| && open[j] == x;
      if j < k { assert rest[j] == x; } else { assert rest[j - 1] == x; }
    }
    forall j | 0 <= j < |rest| ensures rest[j] in open {
      if j < k { assert rest[j] == open[j]; } else { assert rest[j] == open[j + 1]; }
    }
  }

  /** The index of an open entry of least f-cost: the top of the priority queue. */
  method PickMin(open: seq<Node>) returns (k: int)
    requires open != []
    ensures 0 <= k < |open| && forall j :: 0 <= j < |open| ==> open[k].f <= open[j].f
  {
    k := 0;
    for j := 1 to |open|
      invariant 0 <= k < |open| && forall q :: 0 <= q < j ==> open[k].f <= open[q].f
    {
      if open[j].f < open[k].f {
        k := j;
      }
    }
  }

  /** The new cost is below the slack of the neighbour, so Avail shrinks. */
  lemma AvailStep(t: Tiles, w: set<GridPos>, g: map<GridPos, int>, wit: map<GridPos, seq<GridPos>>,
                  cur: GridPos, nb: GridPos, g0: map<GridPos, int>)
    requires w == WalkSet(t) && Histories(t, g, wit) && cur in g && Walkable(t, nb)
    requires (nb !in g || g[cur] + 1 < g[nb]) && Avail(w, g) <= Avail(w, g0)
    ensures Avail(w, g[nb := g[cur] + 1]) < Avail(w, g0)
  {
    assert Witness(g, wit[cur], cur);
    DistinctFits(wit[cur], w) by {
      forall j | 0 <= j < |wit[cur]| ensures wit[cur][j] in w {
        InWalkSet(t, wit[cur][j]);
      }
    }
    InWalkSet(t, nb);
    AvailShrinks(w, g, nb, g[cur] + 1);
  }

  /** One improvement in the neighbour loop keeps every fact the search relies on, and shrinks Avail. */
  lemma RecordKeeps(t: Tiles, w: set<GridPos>, s: GridPos, tg: GridPos, open: seq<Node>,
                    came: map<GridPos, GridPos>, g: map<GridPos, int>, wit: map<GridPos, seq<GridPos>>,
                    cur: GridPos, nb: GridPos, v: int, d: int, g0: map<GridPos, int>)
    requires w == WalkSet(t) && Books(t, s, g, came, wit) && OpenOk(g, tg, open) && cur in g
    requires Tracked(t, g, tg, open, {cur}) && TargetOpen(g, tg, open) && StepsUpTo(t, g, cur, d)
    requires Adjacent4(cur, nb) && Walkable(t, nb) && (nb !in g || g[cur] + 1 < g[nb])
    requires Avail(w, g) <= Avail(w, g0) && v == g[cur] + 1
    ensures Books(t, s, g[nb := v], came[nb := cur], wit[nb := wit[cur] + [nb]])
    ensures OpenOk(g[nb := v], tg, open + [Node(nb, v, v + Heuristic(nb, tg))])
    ensures Tracked(t, g[nb := v], tg, open + [Node(nb, v, v + Heuristic(nb, tg))], {cur})
    ensures TargetOpen(g[nb := v], tg, open + [Node(nb, v, v + Heuristic(nb, tg))])
    ensures nb != cur && StepsUpTo(t, g[nb := v], cur, d)
    ensures Avail(w, g[nb := v]) < Avail(w, g0)
  {
    BooksUpdate(t, s, g, came, wit, cur, nb);
    AvailStep(t, w, g, wit, cur, nb, g0);
    OpenUpdate(g, tg, open, nb, v);
    TrackedUpdate(t, g, tg, open, cur, nb, v);
    StepsKeep(t, g, g[nb := v], cur, d);
  }

  lemma OpenUpdate(g: map<GridPos, int>, tg: GridPos, open: seq<Node>, nb: GridPos, v: int)
    requires OpenOk(g, tg, open) && (nb !in g || v < g[nb])
    ensures OpenOk(g[nb := v], tg, open + [Node(nb, v, v + Heuristic(nb, tg))])
  {
    var e := Node(nb, v, v + Heuristic(nb, tg));
    forall k | 0 <= k < |open + [e]|
      ensures (open + [e])[k].pos in g[nb := v] && (open + [e])[k].g >= g[nb := v][(open + [e])[k].pos]
    {
      if k < |open| { assert (open + [e])[k] == open[k]; }
    }
  }

  /**
   * Lowering the cost of nb and opening an entry for it keeps every other
   * tile accounted for: its entry is unchanged, and a settled tile stays
   * settled because costs only drop.
   */
  lemma TrackedUpdate(t: Tiles, g: map<GridPos, int>, tg: GridPos, open: seq<Node>, cur: GridPos, nb: GridPos, v: int)
    requires Tracked(t, g, tg, open, {cur}) && TargetOpen(g, tg, open) && (nb !in g || v < g[nb])
    ensures Tracked(t, g[nb := v], tg, open + [Node(nb, v, v + Heuristic(nb, tg))], {cur})
    ensures TargetOpen(g[nb := v], tg, open + [Node(nb, v, v + Heuristic(nb, tg))])
  {
    var e := Node(nb, v, v + Heuristic(nb, tg));
    var g' := g[nb := v];
    assert (open + [e])[|open|] == e;
    forall n | n in g' && n != nb && Entry(g, tg, n) in open ensures Entry(g', tg, n) in open + [e] {
      var k :| 0 <= k < |open| && open[k] == Entry(g, tg, n);
      assert (open + [e])[k] == open[k];
    }
    forall n | n in g' && n != nb && n != cur && Entry(g, tg, n) !in open ensures Settled(t, g', n) {
      forall d | 0 <= d < 4 ensures Step(t, g', n, d) {
        assert Step(t, g, n, d);
      }
    }
  }

  /** A tile whose four directions are settled no longer needs an open entry. */
  lemma SettleTile(t: Tiles, g: map<GridPos, int>, tg: GridPos, open: seq<Node>, cur: GridPos)
    requires cur in g && Tracked(t, g, tg, open, {cur}) && StepsUpTo(t, g, cur, 4)
    ensures Tracked(t, g, tg, open, {})
  {
    assert Settled(t, g, cur);
  }

  /**
   * One direction of the neighbour loop of findPath, for the expanded tile
   * cur of cost gc: a walkable neighbour that is unrecorded or recorded at a
   * cost above gc + 1 gets cost gc + 1, cur as predecessor and an open entry;
   * otherwise nothing changes.
   */
  method Relax(t: Tiles, ghost s: GridPos, cur: GridPos, gc: int, tg: GridPos, d: int, open0: seq<Node>,
               came0: map<GridPos, GridPos>, g0: map<GridPos, int>, ghost wit0: map<GridPos, seq<GridPos>>,
               ghost gStart: map<GridPos, int>)
    returns (open: seq<Node>, came: map<GridPos, GridPos>, g: map<GridPos, int>, ghost wit: map<GridPos, seq<GridPos>>)
    requires 0 <= d < 4 && Books(t, s, g0, came0, wit0) && cur in g0 && g0[cur] == gc && OpenOk(g0, tg, open0)
    requires Tracked(t, g0, tg, open0, {cur}) && TargetOpen(g0, tg, open0) && StepsUpTo(t, g0, cur, d)
    requires Avail(WalkSet(t), g0) <= Avail(WalkSet(t), gStart)
    ensures Books(t, s, g, came, wit) && cur in g && g[cur] == gc && OpenOk(g, tg, open)
    ensures Tracked(t, g, tg, open, {cur}) && TargetOpen(g, tg, open) && StepsUpTo(t, g, cur, d + 1)
    ensures Avail(WalkSet(t), g) <= Avail(WalkSet(t), gStart)
    ensures (open == open0 && g == g0) || Avail(WalkSet(t), g) < Avail(WalkSet(t), gStart)
  {
    open, came, g, wit := open0, came0, g0, wit0;
    var neighbour := GridPos(cur.x + [0, 1, 0, -1][d], cur.y + [-1, 0, 1, 0][d]);
    assert neighbour == Neighbour(cur, d);
    if !Walkable(t, neighbour) {
      return;
    }
    var tentative := gc + 1;
    if neighbour !in g || tentative < g[neighbour] {
      RecordKeeps(t, WalkSet(t), s, tg, open, came, g, wit, cur, neighbour, tentative, d, gStart);
      came := came[neighbour := cur];
      g := g[neighbour := tentative];
      wit := wit[neighbour := wit[cur] + [neighbour]];
      open := open + [Node(neighbour, tentative, tentative + Heuristic(neighbour, tg))];
    }
  }

  /**
   * The neighbour loop of findPath for the expanded tile cur of cost gc,
   * over the directions up, right, down, left: afterwards every walkable
   * neighbour is recorded at a cost at most gc + 1, and the search state is
   * consistent.
   */
  method Expand(t: Tiles, ghost s: GridPos, cur: GridPos, gc: int, tg: GridPos, open0: seq<Node>,
                came0: map<GridPos, GridPos>, g0: map<GridPos, int>, ghost wit0: map<GridPos, seq<GridPos>>)
    returns (open: seq<Node>, came: map<GridPos, GridPos>, g: map<GridPos, int>, ghost wit: map<GridPos, seq<GridPos>>)
    requires Books(t, s, g0, came0, wit0) && cur in g0 && g0[cur] == gc && OpenOk(g0, tg, open0)
    requires Tracked(t, g0, tg, open0, {cur}) && TargetOpen(g0, tg, open0)
    ensures Books(t, s, g, came, wit) && cur in g && g[cur] == gc && OpenOk(g, tg, open)
    ensures Tracked(t, g, tg, open, {cur}) && TargetOpen(g, tg, open) && StepsUpTo(t, g, cur, 4)
    ensures Avail(WalkSet(t), g) <= Avail(WalkSet(t), g0)
    ensures open == open0 || Avail(WalkSet(t), g) < Avail(WalkSet(t), g0)
  {
    open, came, g, wit := open0, came0, g0, wit0;
    for i := 0 to 4
      invariant Books(t, s, g, came, wit) && cur in g && g[cur] == gc && OpenOk(g, tg, open)
      invariant Tracked(t, g, tg, open, {cur}) && TargetOpen(g, tg, open) && StepsUpTo(t, g, cur, i)
      invariant Avail(WalkSet(t), g) <= Avail(WalkSet(t), g0)
      invariant open == open0 || Avail(WalkSet(t), g) < Avail(WalkSet(t), g0)
    {
      open, came, g, wit := Relax(t, s, cur, gc, tg, i, open, came, g, wit, g0);
    }
  }

  /**
   * The path reconstruction of findPath: follow the predecessors from the
   * target back to the start, collecting tile centres (the source collects
   * them back to front and reverses; here each is put at the front).  The
   * path is no longer than the recorded cost of the target.
   */
  method Reconstruct(ghost t: Tiles, s: GridPos, tg: GridPos, came: map<GridPos, GridPos>, g: map<GridPos, int>,
                     ghost wit: map<GridPos, seq<GridPos>>)
    returns (path: seq<Point>)
    requires Books(t, s, g, came, wit) && tg in g
    ensures s == tg ==> path == []
    ensures s != tg ==> Route(t, s, tg, path)
    ensures |path| <= g[tg]
  {
    path := [];
    var curr := tg;
    while curr != s
      invariant curr in g && |path| + g[curr] <= g[tg]
      invariant path == [] ==> curr == tg
      invariant path != [] ==> Route(t, curr, tg, path) && g[curr] < g[tg]
      decreases g[curr]
    {
      var prev := came[curr];
      RoutePrepend(t, prev, curr, tg, path);
      path := [GridToWorld(curr)] + path;
      curr := prev;
    }
  }

  /** Putting a tile in front of a route from its neighbour gives a route from that neighbour's predecessor. */
  lemma RoutePrepend(t: Tiles, prev: GridPos, curr: GridPos, tg: GridPos, path: seq<Point>)
    requires Walkable(t, prev) && Walkable(t, curr) && Adjacent4(prev, curr)
    requires path == [] ==> curr == tg
    requires path != [] ==> Route(t, curr, tg, path)
    ensures Route(t, prev, tg, [GridToWorld(curr)] + path)
  {
    GridRoundTrip(curr);
    var q := [GridToWorld(curr)] + path;
    assert CellsOf(q) == [curr] + CellsOf(path);
    assert [prev] + CellsOf(q) == [prev] + ([curr] + CellsOf(path));
    if path != [] {
      var p := [curr] + CellsOf(path);
      forall i | 0 <= i < |q| ensures q[i] == GridToWorld(WorldToGrid(q[i])) {
        if i > 0 { assert q[i] == path[i - 1]; }
      }
      assert WalkPath(t, p);
      assert [prev] + CellsOf(q) == [prev] + p;
    }
  }

  /** Manhattan distance obeys the triangle inequality. */
  lemma ManhattanTriangle(a: GridPos, b: GridPos, c: GridPos)
    ensures Manhattan(a, c) <= Manhattan(a, b) + Manhattan(b, c)
  {
  }

  /** The heuristic never overestimates: from tile j of a walk, its last tile is at most the remaining steps away. */
  lemma {:induction false} WalkManhattan(t: Tiles, p: seq<GridPos>, j: int)
    requires WalkPath(t, p) && 0 <= j < |p|
    ensures Manhattan(p[j], p[|p| - 1]) <= |p| - 1 - j
    decreases |p| - j
  {
    if j < |p| - 1 {
      WalkManhattan(t, p, j + 1);
      ManhattanTriangle(p[j], p[j + 1], p[|p| - 1]);
    }
  }

  /**
   * Along any walk from the start, either some tile j up to i is recorded at
   * a cost at most j and has an open entry at that cost (j is returned), or
   * tile i itself is recorded at a cost at most i and settled (-1 is
   * returned).
   */
  lemma {:induction false} Frontier(t: Tiles, s: GridPos, tg: GridPos, g: map<GridPos, int>, open: seq<Node>,
                                    p: seq<GridPos>, i: int)
    returns (j: int)
    requires s in g && g[s] == 0 && Tracked(t, g, tg, open, {})
    requires WalkPath(t, p) && |p| > 0 && p[0] == s && 0 <= i < |p|
    ensures -1 <= j <= i
    ensures j >= 0 ==> p[j] in g && g[p[j]] <= j && Entry(g, tg, p[j]) in open
    ensures j == -1 ==> p[i] in g && g[p[i]] <= i && Settled(t, g, p[i])
    decreases i
  {
    if i == 0 {
      j := if Entry(g, tg, s) in open then 0 else -1;
    } else {
      j := Frontier(t, s, tg, g, open, p, i - 1);
      if j == -1 {
        var d := DirectionTo(p[i - 1], p[i]);
        assert Step(t, g, p[i - 1], d);
        j := if Entry(g, tg, p[i]) in open then i else -1;
      }
    }
  }

  /**
   * An entry of least f-cost is no dearer than any walk from the start to
   * the target: the Manhattan heuristic is consistent with unit steps.
   */
  lemma MinBound(t: Tiles, s: GridPos, tg: GridPos, open: seq<Node>, came: map<GridPos, GridPos>,
                 g: map<GridPos, int>, wit: map<GridPos, seq<GridPos>>, k: int, p: seq<GridPos>)
    requires Searching(t, s, tg, open, came, g, wit)
    requires 0 <= k < |open| && forall q :: 0 <= q < |open| ==> open[k].f <= open[q].f
    requires WalkPath(t, p) && |p| > 0 && p[0] == s && p[|p| - 1] == tg
    ensures open[k].f <= |p| - 1
  {
    var j := Frontier(t, s, tg, g, open, p, |p| - 1);
    if j == -1 {
      j := |p| - 1;
    }
    WalkManhattan(t, p, j);
    var q :| 0 <= q < |open| && open[q] == Entry(g, tg, p[j]);
  }

  /**
   * One turn of the search loop of findPath: pop an entry of least f-cost;
   * at the target, rebuild the path and stop; skip an entry whose cost is
   * above the recorded one; otherwise expand its tile.
   */
  method SearchStep(t: Tiles, s: GridPos, tg: GridPos, open0: seq<Node>, came0: map<GridPos, GridPos>,
                    g0: map<GridPos, int>, ghost wit0: map<GridPos, seq<GridPos>>)
    returns (done: bool, path: seq<Point>, open: seq<Node>, came: map<GridPos, GridPos>, g: map<GridPos, int>,
             ghost wit: map<GridPos, seq<GridPos>>)
    requires open0 != [] && Searching(t, s, tg, open0, came0, g0, wit0)
    ensures done && s == tg ==> path == []
    ensures done && s != tg ==> Route(t, s, tg, path)
    ensures done ==> Shortest(t, s, tg, path)
    ensures !done ==> Searching(t, s, tg, open, came, g, wit)
    ensures !done ==> Avail(WalkSet(t), g) < Avail(WalkSet(t), g0) ||
                      (Avail(WalkSet(t), g) == Avail(WalkSet(t), g0) && |open| < |open0|)
  {
    done, path, came, g, wit := false, [], came0, g0, wit0;
    var k := PickMin(open0);
    var current := open0[k];
    PopKeeps(t, g, tg, open0, k);
    open := open0[..k] + open0[k + 1..];
    if current.pos == tg {
      path := Reconstruct(t, s, tg, came, g, wit);
      forall p | WalkPath(t, p) && |p| > 0 && p[0] == s && p[|p| - 1] == tg ensures |path| <= |p| - 1 {
        MinBound(t, s, tg, open0, came, g, wit, k, p);
      }
      done := true;
      return;
    }
    if current.pos in g && current.g > g[current.pos] {
      return;
    }
    open, came, g, wit := Expand(t, s, current.pos, current.g, tg, open, came, g, wit);
    SettleTile(t, g, tg, open, current.pos);
  }

  /**
   * The search loop of findPath from walkable start s to walkable target
   * tg: a shortest path to tg when it is reached, empty when the open set
   * runs out.
   */
  method Search(t: Tiles, s: GridPos, tg: GridPos) returns (path: seq<Point>)
    requires Walkable(t, s) && Walkable(t, tg)
    ensures s == tg ==> path == []
    ensures path != [] ==> Route(t, s, tg, path) && Shortest(t, s, tg, path)
    ensures path == [] && s != tg ==> !Reachable(t, s, tg)
  {
    var open := [Node(s, 0, Heuristic(s, tg))];
    var came: map<GridPos, GridPos> := map[];
    var g: map<GridPos, int> := map[s := 0];
    ghost var wit: map<GridPos, seq<GridPos>> := map[s := [s]];
    Initially(t, s, tg);
    while open != []
      invariant Searching(t, s, tg, open, came, g, wit)
      decreases Avail(WalkSet(t), g), |open|
    {
      var done;
      done, path, open, came, g, wit := SearchStep(t, s, tg, open, came, g, wit);
      if done {
        return;
      }
    }
    path := [];
    Exhausted(t, s, tg, open, came, g, wit);
  }

  /** The search state before the first turn of the loop. */
  lemma Initially(t: Tiles, s: GridPos, tg: GridPos)
    requires Walkable(t, s)
    ensures Searching(t, s, tg, [Node(s, 0, Heuristic(s, tg))], map[], map[s := 0], map[s := [s]])
  {
    assert Witness(map[s := 0], [s], s);
    assert Node(s, 0, Heuristic(s, tg)) in [Node(s, 0, Heuristic(s, tg))];
  }

  /**
   * With the open set empty, every recorded tile is settled and the target,
   * which would keep an open entry, was never recorded; so no walk from the
   * start reaches it.
   */
  lemma Exhausted(t: Tiles, s: GridPos, tg: GridPos, open: seq<Node>, came: map<GridPos, GridPos>,
                  g: map<GridPos, int>, wit: map<GridPos, seq<GridPos>>)
    requires Searching(t, s, tg, open, came, g, wit) && open == []
    ensures !Reachable(t, s, tg)
  {
    forall p | WalkPath(t, p) && |p| > 0 && p[0] == s ensures p[|p| - 1] != tg {
      var j := Frontier(t, s, tg, g, open, p, |p| - 1);
    }
  }

  /**
   * Maze::findPath: empty when either end is not walkable, when both ends
   * are the same tile, or when no walk joins them; otherwise the centres of
   * the tiles of a shortest walk from the start tile (excluded) to the
   * target tile.
   */
  method FindPath(m: Maze, start: Point, target: Point) returns (path: seq<Point>)
    requires m.Valid()
    ensures !m.IsWalkable(WorldToGrid(start).y, WorldToGrid(start).x) ==> path == []
    ensures !m.IsWalkable(WorldToGrid(target).y, WorldToGrid(target).x) ==> path == []
    ensures WorldToGrid(start) == WorldToGrid(target) ==> path == []
    ensures path != [] ==> Route(m.Kinds(), WorldToGrid(start), WorldToGrid(target), path)
    ensures Shortest(m.Kinds(), WorldToGrid(start), WorldToGrid(target), path)
    ensures (path == [] && m.IsWalkable(WorldToGrid(start).y, WorldToGrid(start).x) &&
             m.IsWalkable(WorldToGrid(target).y, WorldToGrid(target).x) && WorldToGrid(start) != WorldToGrid(target))
            ==> !Reachable(m.Kinds(), WorldToGrid(start), WorldToGrid(target))
  {
    var startGrid := WorldToGrid(start);
    var targetGrid := WorldToGrid(target);
    WalkableInMaze(m, startGrid);
    WalkableInMaze(m, targetGrid);
    path := PathOnTiles(m.Kinds(), startGrid, targetGrid);
  }

  /** findPath on a snapshot of the tile kinds, from tile s to tile e. */
  method PathOnTiles(t: Tiles, s: GridPos, e: GridPos) returns (path: seq<Point>)
    ensures !Walkable(t, s) || !Walkable(t, e) || s == e ==> path == []
    ensures path != [] ==> Route(t, s, e, path)
    ensures Shortest(t, s, e, path)
    ensures path == [] && Walkable(t, s) && Walkable(t, e) && s != e ==> !Reachable(t, s, e)
  {
    if !Walkable(t, s) || !Walkable(t, e) {
      NoneShorter(t, s, e);
      return [];
    }
    path := Search(t, s, e);
    if path == [] {
      NoneShorter(t, s, e);
    }
  }

  /** No walk is shorter than the empty answer. */
  lemma NoneShorter(t: Tiles, s: GridPos, e: GridPos)
    ensures Shortest(t, s, e, [])
  {
  }
}

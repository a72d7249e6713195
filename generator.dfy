/**
 * MazeGenerator: a random maze as a grid of symbols, built in phases that
 * each rewrite the grid in place: a recursive-backtracker carve, start and
 * exit placement, a repair corridor when the exit is cut off, enemy markers
 * and destructible walls.
 *
 * The random engine is an explicit stream of draws (the outputs of the
 * 32-bit Mersenne Twister for the chosen seed) and a count of the draws
 * used so far.
 */
module MazeGeneration {
  import opened Wrappers
  import opened Geometry

  /** The grid, row by row; a row is the string generate returns for it. */
  type Grid = seq<seq<char>>

  /** The outputs of the random engine, in order. */
  type Stream = nat -> nat

  predicate Shaped(g: Grid, w: int, h: int) {
    |g| == h && forall y :: 0 <= y < h ==> |g[y]| == w
  }

  predicate InGrid(g: Grid, c: GridPos) {
    0 <= c.y < |g| && 0 <= c.x < |g[c.y]|
  }

  function At(g: Grid, c: GridPos): char
    requires InGrid(g, c)
  {
    g[c.y][c.x]
  }

  /** The grid with one cell rewritten. */
  function SetAt(g: Grid, c: GridPos, ch: char): (r: Grid)
    requires InGrid(g, c)
    ensures |r| == |g| && forall y :: 0 <= y < |g| ==> |r[y]| == |g[y]|
    ensures forall q :: InGrid(g, q) ==> At(r, q) == if q == c then ch else At(g, q)
  {
    g[c.y := g[c.y][c.x := ch]]
  }

  /** A cell off the outer ring of the w by h grid. */
  predicate Interior(w: int, h: int, c: GridPos) {
    0 < c.x < w - 1 && 0 < c.y < h - 1
  }

  /** Every cell of the outer ring is a wall. */
  ghost predicate Bordered(g: Grid, w: int, h: int)
    requires Shaped(g, w, h)
  {
    forall c :: InGrid(g, c) && !Interior(w, h, c) ==> At(g, c) == '#'
  }

  /** Every cell holds one of the given symbols. */
  ghost predicate Glyphs(g: Grid, allowed: set<char>) {
    forall c :: InGrid(g, c) ==> At(g, c) in allowed
  }

  // ---------------------------------------------------------------------
  // std::shuffle and std::sort.  Neither algorithm is part of the source;
  // the shuffle is a Fisher-Yates pass over draws from the stream and the
  // sort an insertion sort, and callers rely only on what their contracts
  // state.
  // ---------------------------------------------------------------------

  /** Where entry k of a sequence comes from after entries i and j trade places. */
  function Swapped(k: int, i: int, j: int): int {
    if k == i then j else if k == j then i else k
  }

  function Swap<T(==)>(s: seq<T>, i: int, j: int): (r: seq<T>)
    requires 0 <= i < |s| && 0 <= j < |s|
    ensures |r| == |s| && multiset(r) == multiset(s)
    ensures forall k :: 0 <= k < |s| ==> r[k] == s[Swapped(k, i, j)]
  {
    s[i := s[j]][j := s[i]]
  }

  lemma SwapDistinct<T>(s: seq<T>, i: int, j: int)
    requires 0 <= i < |s| && 0 <= j < |s|
    ensures Distinct(s) ==> Distinct(Swap(s, i, j))
  {
    if Distinct(s) {
      var r := Swap(s, i, j);
      forall a, b | 0 <= a < b < |s| ensures r[a] != r[b] {
        var x, y := Swapped(a, i, j), Swapped(b, i, j);
        assert r[a] == s[x] && r[b] == s[y];
        if x < y {
          assert s[x] != s[y];
        } else {
          assert s[y] != s[x];
        }
      }
    }
  }

  /** The number of draws a shuffle of n entries takes. */
  function ShuffleDraws(n: nat): nat {
    if n < 2 then 0 else n - 1
  }

  /** Fisher-Yates over s[..i + 1], taking draws from position pos on. */
  function FisherYates<T(==)>(s: seq<T>, rng: Stream, pos: nat, i: int): (r: seq<T>)
    requires i < |s|
    ensures |r| == |s| && multiset(r) == multiset(s)
    ensures Distinct(s) ==> Distinct(r)
    decreases i
  {
    if i <= 0 then s
    else
      SwapDistinct(s, i, rng(pos) % (i + 1));
      FisherYates(Swap(s, i, rng(pos) % (i + 1)), rng, pos + 1, i - 1)
  }

  /** std::shuffle with the engine at draw pos: a permutation of s. */
  function Shuffle<T(==)>(s: seq<T>, rng: Stream, pos: nat): (r: seq<T>)
    ensures |r| == |s| && multiset(r) == multiset(s)
    ensures Distinct(s) ==> Distinct(r)
  {
    FisherYates(s, rng, pos, |s| - 1)
  }

  /** A candidate exit and its distance from the start (the pairs placeStartAndEnd sorts). */
  datatype Ranked = Ranked(dist: int, pos: GridPos)

  predicate SortedDesc(s: seq<Ranked>) {
    forall i, j :: 0 <= i < j < |s| ==> s[i].dist >= s[j].dist
  }

  function InsertDesc(s: seq<Ranked>, x: Ranked): (r: seq<Ranked>)
    requires SortedDesc(s)
    ensures SortedDesc(r) && multiset(r) == multiset(s) + multiset{x} && |r| == |s| + 1
    ensures r[0] == x || (s != [] && r[0] == s[0])
  {
    if s == [] || s[0].dist <= x.dist then [x] + s
    else
      assert s == [s[0]] + s[1..];
      var t := InsertDesc(s[1..], x);
      assert t[0].dist <= s[0].dist;
      [s[0]] + t
  }

  /** std::sort by descending distance: a permutation of s, farthest first. */
  function SortDesc(s: seq<Ranked>): (r: seq<Ranked>)
    ensures SortedDesc(r) && multiset(r) == multiset(s) && |r| == |s|
  {
    if s == [] then []
    else
      assert s == s[..|s| - 1] + [s[|s| - 1]];
      InsertDesc(SortDesc(s[..|s| - 1]), s[|s| - 1])
  }

  /** Rewrite every listed cell to ch. */
  function Paint(g: Grid, cells: seq<GridPos>, ch: char): (r: Grid)
    requires forall i :: 0 <= i < |cells| ==> InGrid(g, cells[i])
    ensures |r| == |g| && forall y :: 0 <= y < |g| ==> |r[y]| == |g[y]|
    ensures forall q :: InGrid(g, q) ==> At(r, q) == if q in cells then ch else At(g, q)
    decreases |cells|
  {
    if cells == [] then g
    else
      var last := cells[|cells| - 1];
      var r := SetAt(Paint(g, cells[..|cells| - 1], ch), last, ch);
      assert forall q :: q in cells <==> q in cells[..|cells| - 1] || q == last by {
        assert cells == cells[..|cells| - 1] + [last];
      }
      r
  }

  // ---------------------------------------------------------------------
  // Walks through the grid.
  // ---------------------------------------------------------------------

  /** A walk of 4-neighbours through cells holding allowed symbols. */
  ghost predicate Walk(g: Grid, p: seq<GridPos>, allowed: set<char>) {
    (forall i :: 0 <= i < |p| ==> InGrid(g, p[i]) && At(g, p[i]) in allowed) &&
    (forall i :: 0 <= i < |p| - 1 ==> Adjacent4(p[i], p[i + 1]))
  }

  /** Some walk through allowed cells leads from a to b. */
  ghost predicate Joined(g: Grid, a: GridPos, b: GridPos, allowed: set<char>) {
    exists p :: Walk(g, p, allowed) && |p| > 0 && p[0] == a && p[|p| - 1] == b
  }

  /** A walk stays a walk when each of its cells keeps a symbol of a wider set. */
  lemma WalkSurvives(g: Grid, g': Grid, p: seq<GridPos>, allowed: set<char>, allowed': set<char>)
    requires Walk(g, p, allowed)
    requires forall i :: 0 <= i < |p| ==> InGrid(g', p[i]) && At(g', p[i]) in allowed'
    ensures Walk(g', p, allowed')
  {
  }

  // ---------------------------------------------------------------------
  // carvePassage, as a loop over an explicit stack of the recursion's
  // frames.  A frame holds a carved cell, its shuffled directions and how
  // many of them its loop has taken.
  // ---------------------------------------------------------------------

  /** A cell of the maze proper: both coordinates odd.  Walls and passages lie between them. */
  predicate Room(c: GridPos) {
    c.x % 2 == 1 && c.y % 2 == 1
  }

  /** The cell two steps away in direction d (up, right, down, left), where carvePassage recurses. */
  function Jump(c: GridPos, d: int): GridPos
    requires 0 <= d < 4
  {
    GridPos(c.x + [0, 2, 0, -2][d], c.y + [-2, 0, 2, 0][d])
  }

  /** The wall between c and Jump(c, d), which carvePassage knocks through. */
  function Gap(c: GridPos, d: int): (m: GridPos)
    requires 0 <= d < 4
    ensures Adjacent4(c, m) && Adjacent4(m, Jump(c, d))
  {
    GridPos(c.x + [0, 2, 0, -2][d] / 2, c.y + [-2, 0, 2, 0][d] / 2)
  }

  /** The opposite direction. */
  function Back(d: int): int
    requires 0 <= d < 4
  {
    [2, 3, 0, 1][d]
  }

  /**
   * From a room, a jump lands on a room; the gap is no room, lies on the
   * way back too, and has the room it is checked against (left of it or
   * above it) at one of its two ends.
   */
  lemma JumpFacts(w: int, h: int, c: GridPos, d: int)
    requires Room(c) && 0 <= d < 4
    ensures Room(Jump(c, d)) && !Room(Gap(c, d)) && 0 <= Back(d) < 4
    ensures Jump(Jump(c, d), Back(d)) == c && Gap(Jump(c, d), Back(d)) == Gap(c, d)
    ensures Interior(w, h, c) && Interior(w, h, Jump(c, d)) ==> Interior(w, h, Gap(c, d))
    ensures var m := Gap(c, d);
      (m.x % 2 == 0 && m.y % 2 == 1 && (GridPos(m.x - 1, m.y) == c || GridPos(m.x - 1, m.y) == Jump(c, d))) ||
      (m.x % 2 == 1 && m.y % 2 == 0 && (GridPos(m.x, m.y - 1) == c || GridPos(m.x, m.y - 1) == Jump(c, d)))
  {
    if d == 0 {
      assert Jump(c, d) == GridPos(c.x, c.y - 2) && Gap(c, d) == GridPos(c.x, c.y - 1);
    } else if d == 1 {
      assert Jump(c, d) == GridPos(c.x + 2, c.y) && Gap(c, d) == GridPos(c.x + 1, c.y);
    } else if d == 2 {
      assert Jump(c, d) == GridPos(c.x, c.y + 2) && Gap(c, d) == GridPos(c.x, c.y + 1);
    } else {
      assert Jump(c, d) == GridPos(c.x - 2, c.y) && Gap(c, d) == GridPos(c.x - 1, c.y);
    }
  }

  datatype Frame = Frame(pos: GridPos, dirs: seq<int>, next: nat)

  /** The directions carvePassage shuffles, in their declared order. */
  const Directions: seq<int> := [0, 1, 2, 3]

  /** Room c is carved and direction d of it still leads to an uncarved interior room. */
  ghost predicate Owed(g: Grid, w: int, h: int, c: GridPos, d: int) {
    0 <= d < 4 && Room(c) && Interior(w, h, c) && InGrid(g, c) && At(g, c) == '.' &&
    Interior(w, h, Jump(c, d)) && InGrid(g, Jump(c, d)) && At(g, Jump(c, d)) == '#'
  }

  /** The (room, direction) pairs frame f has still to take. */
  ghost function FrameOwes(f: Frame): set<(GridPos, int)> {
    set j | f.next <= j < |f.dirs| :: (f.pos, f.dirs[j])
  }

  /** The (room, direction) pairs the stack has still to take. */
  ghost function Pending(stack: seq<Frame>): set<(GridPos, int)>
    decreases |stack|
  {
    if stack == [] then {} else Pending(stack[..|stack| - 1]) + FrameOwes(stack[|stack| - 1])
  }

  /** The directions the stack has still to take, plus one per frame: falls on every turn that carves nothing. */
  function Work(stack: seq<Frame>): nat
    decreases |stack|
  {
    if stack == [] then 0
    else
      var f := stack[|stack| - 1];
      Work(stack[..|stack| - 1]) + 1 + (if f.next <= |f.dirs| then |f.dirs| - f.next else 0)
  }

  /** The interior rooms still uncarved. */
  ghost function Uncarved(g: Grid, w: int, h: int): set<GridPos>
    requires Shaped(g, w, h)
  {
    set y, x | 0 < y < h - 1 && 0 < x < w - 1 && x % 2 == 1 && y % 2 == 1 && g[y][x] == '#' :: GridPos(x, y)
  }

  lemma UncarvedShrinks(g: Grid, w: int, h: int, n: GridPos, m: GridPos)
    requires Shaped(g, w, h) && Interior(w, h, n) && Room(n) && At(g, n) == '#' && Interior(w, h, m) && !Room(m)
    ensures Uncarved(SetAt(SetAt(g, m, '.'), n, '.'), w, h) < Uncarved(g, w, h)
  {
    var g' := SetAt(SetAt(g, m, '.'), n, '.');
    assert n in Uncarved(g, w, h) && n !in Uncarved(g', w, h);
    forall c | c in Uncarved(g', w, h) ensures c in Uncarved(g, w, h) {
      assert At(g', c) == '#';
    }
  }

  /** A frame on the stack: a carved interior room and a shuffle of the four directions. */
  ghost predicate Framed(g: Grid, w: int, h: int, f: Frame) {
    Room(f.pos) && Interior(w, h, f.pos) && InGrid(g, f.pos) && At(g, f.pos) == '.' &&
    |f.dirs| == 4 && f.next <= 4 && (forall j :: 0 <= j < 4 ==> 0 <= f.dirs[j] < 4) &&
    forall d :: 0 <= d < 4 ==> d in f.dirs
  }

  /** Cell c is carved. */
  predicate Open(g: Grid, c: GridPos) {
    InGrid(g, c) && At(g, c) == '.'
  }

  /**
   * Where the carved cells lie: an interior room, or a passage whose room
   * to the left (a horizontal passage) or above (a vertical one) is carved.
   */
  ghost predicate Layout(g: Grid, w: int, h: int)
    requires Shaped(g, w, h)
  {
    forall c {:trigger Open(g, c)} :: Open(g, c) ==>
      Interior(w, h, c) &&
      (Room(c) ||
       (c.x % 2 == 0 && c.y % 2 == 1 && At(g, GridPos(c.x - 1, c.y)) == '.') ||
       (c.x % 2 == 1 && c.y % 2 == 0 && At(g, GridPos(c.x, c.y - 1)) == '.'))
  }

  /**
   * The recursion tree of the carve: every carved room has a depth, and
   * every carved room but the first hangs off a shallower carved room
   * through a carved passage.
   */
  ghost predicate Tree(g: Grid, w: int, h: int, root: GridPos, depth: map<GridPos, nat>, parent: map<GridPos, int>)
    requires Shaped(g, w, h)
  {
    root in depth &&
    (forall c :: InGrid(g, c) && Room(c) && At(g, c) == '.' ==> c in depth) &&
    (forall c :: c in depth ==> InGrid(g, c) && At(g, c) == '.' && (c != root ==> c in parent)) &&
    forall c {:trigger parent[c]} :: c in depth && c != root && c in parent ==>
      0 <= parent[c] < 4 && Jump(c, parent[c]) in depth && depth[Jump(c, parent[c])] < depth[c] &&
      InGrid(g, Gap(c, parent[c])) && At(g, Gap(c, parent[c])) == '.'
  }

  /** What holds at the head of the carve loop. */
  ghost predicate Carving(g: Grid, w: int, h: int, root: GridPos, stack: seq<Frame>,
                          depth: map<GridPos, nat>, parent: map<GridPos, int>)
  {
    CarveShape(g, w, h, root, stack, depth, parent) && forall c, d :: Owed(g, w, h, c, d) ==> (c, d) in Pending(stack)
  }

  /** The carve invariants but the one about the directions still owed. */
  ghost predicate CarveShape(g: Grid, w: int, h: int, root: GridPos, stack: seq<Frame>,
                             depth: map<GridPos, nat>, parent: map<GridPos, int>)
  {
    Shaped(g, w, h) && Bordered(g, w, h) && Glyphs(g, {'#', '.'}) && Layout(g, w, h) &&
    Tree(g, w, h, root, depth, parent) &&
    forall i :: 0 <= i < |stack| ==> Framed(g, w, h, stack[i])
  }

  lemma PendingSnoc(stack: seq<Frame>, f: Frame)
    ensures Pending(stack + [f]) == Pending(stack) + FrameOwes(f)
    ensures Work(stack + [f]) == Work(stack) + 1 + (if f.next <= |f.dirs| then |f.dirs| - f.next else 0)
  {
    assert (stack + [f])[..|stack|] == stack;
  }

  /** The directions of a fresh shuffle: each of the four, once. */
  lemma ShuffledDirections(dirs: seq<int>)
    requires |dirs| == |Directions| && multiset(dirs) == multiset(Directions)
    ensures forall j :: 0 <= j < 4 ==> 0 <= dirs[j] < 4
    ensures forall d :: 0 <= d < 4 ==> d in dirs
  {
    forall j | 0 <= j < 4 ensures 0 <= dirs[j] < 4 {
      assert dirs[j] in multiset(Directions);
    }
    forall d | 0 <= d < 4 ensures d in dirs {
      assert d in multiset(Directions);
      assert d in multiset(dirs);
    }
  }

  /**
   * Knocking through the wall gap and carving room n, reached from the top
   * room in direction dir, keeps every carve invariant once n's frame is
   * pushed.
   */
  lemma CarveKeeps(g: Grid, g': Grid, w: int, h: int, root: GridPos, stack: seq<Frame>, depth: map<GridPos, nat>,
                   parent: map<GridPos, int>, top: Frame, dir: int, dirs: seq<int>)
    requires CarveShape(g, w, h, root, stack, depth, parent) && Framed(g, w, h, top)
    requires 0 <= dir < 4 && Interior(w, h, Jump(top.pos, dir)) && At(g, Jump(top.pos, dir)) == '#'
    requires forall c, d :: Owed(g, w, h, c, d) && (c, d) != (top.pos, dir) ==> (c, d) in Pending(stack)
    requires |dirs| == |Directions| && multiset(dirs) == multiset(Directions)
    requires CarvedJump(g, g', w, h, top.pos, dir)
    ensures Carving(g', w, h, root, stack + [Frame(Jump(top.pos, dir), dirs, 0)],
                    depth[Jump(top.pos, dir) := depth[top.pos] + 1], parent[Jump(top.pos, dir) := Back(dir)])
  {
    var n := Jump(top.pos, dir);
    var f := Frame(n, dirs, 0);
    ShuffledDirections(dirs);
    assert JumpFrom(g, g', w, h, top.pos, dir) && FreshFrame(f, n);
    ShapeKeeps(g, g', w, h, root, stack, depth, parent, top.pos, dir, f);
    OwedKeeps(g, g', w, h, stack, top.pos, dir, f);
  }

  /** The carve invariants but the one about owed directions survive the jump and the push of the new frame. */
  lemma ShapeKeeps(g: Grid, g': Grid, w: int, h: int, root: GridPos, stack: seq<Frame>, depth: map<GridPos, nat>,
                   parent: map<GridPos, int>, c0: GridPos, dir: int, f: Frame)
    requires CarveShape(g, w, h, root, stack, depth, parent)
    requires JumpFrom(g, g', w, h, c0, dir) && FreshFrame(f, Jump(c0, dir))
    ensures CarveShape(g', w, h, root, stack + [f], depth[Jump(c0, dir) := depth[c0] + 1], parent[Jump(c0, dir) := Back(dir)])
  {
    FramesKeep(g, g', w, h, stack, c0, dir, f);
    BorderKeeps(g, g', w, h, c0, dir);
    LayoutKeeps(g, g', w, h, c0, dir);
    TreeKeeps(g, g', w, h, root, depth, parent, c0, dir);
  }

  lemma FramesKeep(g: Grid, g': Grid, w: int, h: int, stack: seq<Frame>, c0: GridPos, dir: int, f: Frame)
    requires JumpFrom(g, g', w, h, c0, dir) && FreshFrame(f, Jump(c0, dir))
    requires forall i :: 0 <= i < |stack| ==> Framed(g, w, h, stack[i])
    ensures forall i :: 0 <= i < |stack + [f]| ==> Framed(g', w, h, (stack + [f])[i])
  {
    JumpFacts(w, h, c0, dir);
    forall i | 0 <= i < |stack + [f]| ensures Framed(g', w, h, (stack + [f])[i]) {
      if i < |stack| {
        var e := stack[i];
        assert (stack + [f])[i] == e && Framed(g, w, h, e);
        assert At(g', e.pos) == '.';
      } else {
        assert (stack + [f])[i] == f;
      }
    }
  }

  /** Carving the gap and the room of a jump: the two cells change, and Uncarved loses the room. */
  lemma CarveJump(g: Grid, w: int, h: int, c: GridPos, d: int)
    requires Shaped(g, w, h) && Room(c) && 0 <= d < 4 && Interior(w, h, c) && Interior(w, h, Jump(c, d))
    requires At(g, Jump(c, d)) == '#'
    ensures CarvedJump(g, SetAt(SetAt(g, Gap(c, d), '.'), Jump(c, d), '.'), w, h, c, d)
    ensures Uncarved(SetAt(SetAt(g, Gap(c, d), '.'), Jump(c, d), '.'), w, h) < Uncarved(g, w, h)
  {
    JumpFacts(w, h, c, d);
    UncarvedShrinks(g, w, h, Jump(c, d), Gap(c, d));
  }

  lemma BorderKeeps(g: Grid, g': Grid, w: int, h: int, c0: GridPos, dir: int)
    requires JumpFrom(g, g', w, h, c0, dir) && Bordered(g, w, h) && Glyphs(g, {'#', '.'})
    ensures Bordered(g', w, h) && Glyphs(g', {'#', '.'})
  {
    JumpFacts(w, h, c0, dir);
  }

  /** g' is g with the gap and the room of a jump from c in direction d carved. */
  ghost predicate CarvedJump(g: Grid, g': Grid, w: int, h: int, c: GridPos, d: int)
    requires 0 <= d < 4
  {
    Shaped(g, w, h) && Shaped(g', w, h) && InGrid(g, Gap(c, d)) && InGrid(g, Jump(c, d)) &&
    forall q :: InGrid(g, q) ==> At(g', q) == if q == Gap(c, d) || q == Jump(c, d) then '.' else At(g, q)
  }

  /** The step from room c0 in direction dir carves the uncarved interior room two cells on, giving g'. */
  ghost predicate JumpFrom(g: Grid, g': Grid, w: int, h: int, c0: GridPos, dir: int) {
    0 <= dir < 4 && Room(c0) && Interior(w, h, c0) && Interior(w, h, Jump(c0, dir)) &&
    CarvedJump(g, g', w, h, c0, dir) && At(g, c0) == '.' && At(g, Jump(c0, dir)) == '#'
  }

  /** f is the frame of a fresh call for room n: no direction taken, all four to come. */
  ghost predicate FreshFrame(f: Frame, n: GridPos) {
    f.pos == n && f.next == 0 && |f.dirs| == 4 && (forall j :: 0 <= j < 4 ==> 0 <= f.dirs[j] < 4) &&
    forall d :: 0 <= d < 4 ==> d in f.dirs
  }

  lemma OwedKeeps(g: Grid, g': Grid, w: int, h: int, stack: seq<Frame>, c0: GridPos, dir: int, f: Frame)
    requires JumpFrom(g, g', w, h, c0, dir) && FreshFrame(f, Jump(c0, dir))
    requires forall c, d :: Owed(g, w, h, c, d) && (c, d) != (c0, dir) ==> (c, d) in Pending(stack)
    ensures forall c, d :: Owed(g', w, h, c, d) ==> (c, d) in Pending(stack + [f])
  {
    JumpFacts(w, h, c0, dir);
    PendingSnoc(stack, f);
    forall c, d | Owed(g', w, h, c, d) ensures (c, d) in Pending(stack) + FrameOwes(f) {
      if c == f.pos {
        assert d in f.dirs;
        var j :| 0 <= j < |f.dirs| && f.dirs[j] == d;
        assert (c, d) in FrameOwes(f);
      } else {
        assert At(g, c) == At(g', c);
        assert At(g, Jump(c, d)) == At(g', Jump(c, d));
        assert Owed(g, w, h, c, d);
      }
    }
  }

  lemma LayoutKeeps(g: Grid, g': Grid, w: int, h: int, c0: GridPos, dir: int)
    requires JumpFrom(g, g', w, h, c0, dir) && Layout(g, w, h)
    ensures Layout(g', w, h)
  {
    JumpFacts(w, h, c0, dir);
    var m, n := Gap(c0, dir), Jump(c0, dir);
    forall c | Open(g', c)
      ensures Interior(w, h, c) &&
        (Room(c) ||
         (c.x % 2 == 0 && c.y % 2 == 1 && At(g', GridPos(c.x - 1, c.y)) == '.') ||
         (c.x % 2 == 1 && c.y % 2 == 0 && At(g', GridPos(c.x, c.y - 1)) == '.'))
    {
      if c == m {
        assert At(g', c0) == '.' && At(g', n) == '.';
      } else if c != n {
        assert Open(g, c);
        if c.x % 2 == 0 && c.y % 2 == 1 {
          assert At(g, GridPos(c.x - 1, c.y)) == '.';
          assert At(g', GridPos(c.x - 1, c.y)) == '.';
        } else if c.x % 2 == 1 && c.y % 2 == 0 {
          assert At(g, GridPos(c.x, c.y - 1)) == '.';
          assert At(g', GridPos(c.x, c.y - 1)) == '.';
        }
      }
    }
  }

  lemma TreeKeeps(g: Grid, g': Grid, w: int, h: int, root: GridPos, depth: map<GridPos, nat>,
                  parent: map<GridPos, int>, c0: GridPos, dir: int)
    requires JumpFrom(g, g', w, h, c0, dir) && Tree(g, w, h, root, depth, parent)
    ensures Tree(g', w, h, root, depth[Jump(c0, dir) := depth[c0] + 1], parent[Jump(c0, dir) := Back(dir)])
  {
    JumpFacts(w, h, c0, dir);
    var n := Jump(c0, dir);
    assert n !in depth;
    TreeRoomsKeep(g, g', w, h, depth, c0, dir);
    TreeCellsKeep(g, g', w, h, root, depth, parent, c0, dir);
    TreeEdgesKeep(g, g', w, h, root, depth, parent, c0, dir);
  }

  /** Every carved room still has a depth. */
  lemma TreeRoomsKeep(g: Grid, g': Grid, w: int, h: int, depth: map<GridPos, nat>, c0: GridPos, dir: int)
    requires JumpFrom(g, g', w, h, c0, dir) && c0 in depth
    requires forall c :: InGrid(g, c) && Room(c) && At(g, c) == '.' ==> c in depth
    ensures forall c :: InGrid(g', c) && Room(c) && At(g', c) == '.' ==> c in depth[Jump(c0, dir) := depth[c0] + 1]
  {
    JumpFacts(w, h, c0, dir);
    forall c | InGrid(g', c) && Room(c) && At(g', c) == '.' ensures c in depth[Jump(c0, dir) := depth[c0] + 1] {
      if c != Jump(c0, dir) { assert At(g, c) == '.'; }
    }
  }

  /** Every cell with a depth is still carved, and still has a parent unless it is the root. */
  lemma TreeCellsKeep(g: Grid, g': Grid, w: int, h: int, root: GridPos, depth: map<GridPos, nat>,
                      parent: map<GridPos, int>, c0: GridPos, dir: int)
    requires JumpFrom(g, g', w, h, c0, dir) && c0 in depth
    requires forall c :: c in depth ==> InGrid(g, c) && At(g, c) == '.' && (c != root ==> c in parent)
    ensures var n := Jump(c0, dir);
      forall c :: c in depth[n := depth[c0] + 1] ==>
        InGrid(g', c) && At(g', c) == '.' && (c != root ==> c in parent[n := Back(dir)])
  {
    var n := Jump(c0, dir);
    forall c | c in depth[n := depth[c0] + 1]
      ensures InGrid(g', c) && At(g', c) == '.' && (c != root ==> c in parent[n := Back(dir)])
    {
      if c != n { assert c in depth && At(g, c) == '.'; }
    }
  }

  /** Every parent link still leads to a shallower room through a carved gap; the new room's leads back to c0. */
  lemma TreeEdgesKeep(g: Grid, g': Grid, w: int, h: int, root: GridPos, depth: map<GridPos, nat>,
                      parent: map<GridPos, int>, c0: GridPos, dir: int)
    requires JumpFrom(g, g', w, h, c0, dir) && c0 in depth && Jump(c0, dir) !in depth
    requires forall c {:trigger parent[c]} :: c in depth && c != root && c in parent ==>
      0 <= parent[c] < 4 && Jump(c, parent[c]) in depth && depth[Jump(c, parent[c])] < depth[c] &&
      InGrid(g, Gap(c, parent[c])) && At(g, Gap(c, parent[c])) == '.'
    ensures var n := Jump(c0, dir);
      var depth', parent' := depth[n := depth[c0] + 1], parent[n := Back(dir)];
      forall c {:trigger parent'[c]} :: c in depth' && c != root && c in parent' ==>
        0 <= parent'[c] < 4 && Jump(c, parent'[c]) in depth' && depth'[Jump(c, parent'[c])] < depth'[c] &&
        InGrid(g', Gap(c, parent'[c])) && At(g', Gap(c, parent'[c])) == '.'
  {
    JumpFacts(w, h, c0, dir);
    var n := Jump(c0, dir);
    var depth', parent' := depth[n := depth[c0] + 1], parent[n := Back(dir)];
    forall c | c in depth' && c != root && c in parent'
      ensures 0 <= parent'[c] < 4 && Jump(c, parent'[c]) in depth' && depth'[Jump(c, parent'[c])] < depth'[c] &&
        InGrid(g', Gap(c, parent'[c])) && At(g', Gap(c, parent'[c])) == '.'
    {
      if c != n {
        assert c in depth && c in parent && parent'[c] == parent[c];
        var d := parent[c];
        assert Jump(c, d) in depth && Jump(c, d) != n;
        assert At(g, Gap(c, d)) == '.';
      } else {
        assert parent'[c] == Back(dir) && Jump(c, Back(dir)) == c0;
      }
    }
  }

  /** The top frame is framed; once it has taken all its directions, popping it keeps the invariants. */
  lemma Top(g: Grid, w: int, h: int, root: GridPos, rest: seq<Frame>, top: Frame,
            depth: map<GridPos, nat>, parent: map<GridPos, int>)
    requires Carving(g, w, h, root, rest + [top], depth, parent)
    ensures Framed(g, w, h, top) && Work(rest) < Work(rest + [top])
    ensures top.next == 4 ==> Carving(g, w, h, root, rest, depth, parent)
  {
    PendingSnoc(rest, top);
    assert (rest + [top])[|rest|] == top;
    if top.next == 4 {
      assert FrameOwes(top) == {};
      forall i | 0 <= i < |rest| ensures Framed(g, w, h, rest[i]) {
        assert rest[i] == (rest + [top])[i];
      }
    }
  }

  /** A direction that leads nowhere new leaves nothing owed. */
  lemma Skip(g: Grid, w: int, h: int, root: GridPos, stack: seq<Frame>, depth: map<GridPos, nat>,
             parent: map<GridPos, int>, c0: GridPos, dir: int)
    requires CarveShape(g, w, h, root, stack, depth, parent) && !Owed(g, w, h, c0, dir)
    requires forall c, d :: Owed(g, w, h, c, d) && (c, d) != (c0, dir) ==> (c, d) in Pending(stack)
    ensures Carving(g, w, h, root, stack, depth, parent)
  {
  }

  /** The top frame takes its next direction: that pair is the only one no longer pending. */
  lemma Advance(g: Grid, w: int, h: int, root: GridPos, rest: seq<Frame>, top: Frame,
                depth: map<GridPos, nat>, parent: map<GridPos, int>)
    requires Carving(g, w, h, root, rest + [top], depth, parent) && top.next < |top.dirs|
    ensures CarveShape(g, w, h, root, rest + [top.(next := top.next + 1)], depth, parent)
    ensures Framed(g, w, h, top.(next := top.next + 1))
    ensures Work(rest + [top.(next := top.next + 1)]) < Work(rest + [top])
    ensures forall c, d :: Owed(g, w, h, c, d) && (c, d) != (top.pos, top.dirs[top.next]) ==>
      (c, d) in Pending(rest + [top.(next := top.next + 1)])
  {
    AdvanceShape(g, w, h, root, rest, top, depth, parent);
    AdvanceOwed(g, w, h, rest, top);
  }

  /** Taking a direction changes no frame's room or directions, so the shape invariants stay. */
  lemma AdvanceShape(g: Grid, w: int, h: int, root: GridPos, rest: seq<Frame>, top: Frame,
                     depth: map<GridPos, nat>, parent: map<GridPos, int>)
    requires CarveShape(g, w, h, root, rest + [top], depth, parent) && top.next < |top.dirs|
    ensures CarveShape(g, w, h, root, rest + [top.(next := top.next + 1)], depth, parent)
    ensures Framed(g, w, h, top.(next := top.next + 1))
  {
    var top' := top.(next := top.next + 1);
    assert (rest + [top])[|rest|] == top;
    forall i | 0 <= i < |rest + [top']| ensures Framed(g, w, h, (rest + [top'])[i]) {
      if i < |rest| { assert (rest + [top'])[i] == (rest + [top])[i]; }
    }
  }

  /** Taking a direction leaves less work, and only that (room, direction) pair stops being pending. */
  lemma AdvanceOwed(g: Grid, w: int, h: int, rest: seq<Frame>, top: Frame)
    requires (forall c, d :: Owed(g, w, h, c, d) ==> (c, d) in Pending(rest + [top])) && top.next < |top.dirs|
    ensures Work(rest + [top.(next := top.next + 1)]) < Work(rest + [top])
    ensures forall c, d :: Owed(g, w, h, c, d) && (c, d) != (top.pos, top.dirs[top.next]) ==>
      (c, d) in Pending(rest + [top.(next := top.next + 1)])
  {
    var top' := top.(next := top.next + 1);
    PendingSnoc(rest, top);
    PendingSnoc(rest, top');
    assert FrameOwes(top) <= FrameOwes(top') + {(top.pos, top.dirs[top.next])};
  }

  /**
   * One turn of the carve loop: the top frame's loop ends (its call
   * returns), or it takes its next direction; a room two steps away that is
   * inside the ring and uncarved gets the wall before it knocked through, a
   * shuffle of its own and a frame (the recursive call).
   */
  method CarveStep(w: int, h: int, ghost root: GridPos, g0: Grid, stack0: seq<Frame>, rng: Stream, pos0: nat,
                   ghost depth0: map<GridPos, nat>, ghost parent0: map<GridPos, int>)
    returns (g: Grid, stack: seq<Frame>, pos: nat, ghost depth: map<GridPos, nat>, ghost parent: map<GridPos, int>)
    requires stack0 != [] && Carving(g0, w, h, root, stack0, depth0, parent0)
    ensures Carving(g, w, h, root, stack, depth, parent)
    ensures Uncarved(g, w, h) < Uncarved(g0, w, h) ||
            (Uncarved(g, w, h) == Uncarved(g0, w, h) && Work(stack) < Work(stack0))
  {
    g, stack, pos, depth, parent := g0, stack0, pos0, depth0, parent0;
    var top := stack[|stack| - 1];
    var rest := stack[..|stack| - 1];
    assert stack == rest + [top];
    Top(g, w, h, root, rest, top, depth, parent);
    if top.next == 4 {
      stack := rest;
      return;
    }
    var dir := top.dirs[top.next];
    var top' := top.(next := top.next + 1);
    Advance(g, w, h, root, rest, top, depth, parent);
    stack := rest + [top'];
    var nx := top.pos.x + [0, 2, 0, -2][dir];
    var ny := top.pos.y + [-2, 0, 2, 0][dir];
    assert GridPos(nx, ny) == Jump(top.pos, dir);
    if nx > 0 && nx < w - 1 && ny > 0 && ny < h - 1 && g[ny][nx] == '#' {
      g, stack, pos, depth, parent := Knock(w, h, root, g, rest, top', dir, rng, pos, depth, parent);
    } else {
      assert !Owed(g, w, h, top.pos, dir);
      Skip(g, w, h, root, stack, depth, parent, top.pos, dir);
    }
  }

  /**
   * The recursive call of carvePassage: the wall gap towards the uncarved
   * room n two steps from the top frame's room knocked through, n carved,
   * and n's frame with a shuffle of its own pushed.
   */
  method Knock(w: int, h: int, ghost root: GridPos, g0: Grid, rest: seq<Frame>, top: Frame, dir: int,
               rng: Stream, pos0: nat, ghost depth0: map<GridPos, nat>, ghost parent0: map<GridPos, int>)
    returns (g: Grid, stack: seq<Frame>, pos: nat, ghost depth: map<GridPos, nat>, ghost parent: map<GridPos, int>)
    requires CarveShape(g0, w, h, root, rest + [top], depth0, parent0) && Framed(g0, w, h, top)
    requires 0 <= dir < 4 && Interior(w, h, Jump(top.pos, dir)) && At(g0, Jump(top.pos, dir)) == '#'
    requires forall c, d :: Owed(g0, w, h, c, d) && (c, d) != (top.pos, dir) ==> (c, d) in Pending(rest + [top])
    ensures Carving(g, w, h, root, stack, depth, parent) && Uncarved(g, w, h) < Uncarved(g0, w, h)
  {
    var n := Jump(top.pos, dir);
    var gap := GridPos(top.pos.x + [0, 2, 0, -2][dir] / 2, top.pos.y + [-2, 0, 2, 0][dir] / 2);
    assert gap == Gap(top.pos, dir);
    var dirs := Shuffle(Directions, rng, pos0);
    CarveJump(g0, w, h, top.pos, dir);
    CarveKeeps(g0, SetAt(SetAt(g0, gap, '.'), n, '.'), w, h, root, rest + [top], depth0, parent0, top, dir, dirs);
    g := SetAt(g0, gap, '.');
    pos := pos0 + ShuffleDraws(|Directions|);
    g := SetAt(g, n, '.');
    stack := rest + [top] + [Frame(n, dirs, 0)];
    depth := depth0[n := depth0[top.pos] + 1];
    parent := parent0[n := Back(dir)];
  }

  /** A grid of h rows of w copies of ch: the grid generate starts from. */
  function Filled(w: nat, h: nat, ch: char): (g: Grid)
    ensures Shaped(g, w, h) && forall c :: InGrid(g, c) ==> At(g, c) == ch
  {
    seq(h, _ => seq(w, _ => ch))
  }

  /** The first call of carvePassage, for (1, 1) on a grid of walls, sets up the carve invariants. */
  lemma CarveStart(w: int, h: int, dirs: seq<int>)
    requires w >= 3 && h >= 3 && |dirs| == |Directions| && multiset(dirs) == multiset(Directions)
    ensures Carving(SetAt(Filled(w, h, '#'), GridPos(1, 1), '.'), w, h, GridPos(1, 1),
                    [Frame(GridPos(1, 1), dirs, 0)], map[GridPos(1, 1) := 0], map[])
  {
    var root := GridPos(1, 1);
    var g := SetAt(Filled(w, h, '#'), root, '.');
    var f := Frame(root, dirs, 0);
    StartShape(w, h, dirs);
    PendingSnoc([], f);
    assert [] + [f] == [f];
    forall c, d | Owed(g, w, h, c, d) ensures (c, d) in Pending([f]) {
      assert c == root;
      assert d in dirs;
      var j :| 0 <= j < |dirs| && dirs[j] == d;
      assert (c, d) in FrameOwes(f);
    }
  }

  /** The grid, the tree and the stack of the first call meet the carve invariants but the one about owed directions. */
  lemma StartShape(w: int, h: int, dirs: seq<int>)
    requires w >= 3 && h >= 3 && |dirs| == |Directions| && multiset(dirs) == multiset(Directions)
    ensures CarveShape(SetAt(Filled(w, h, '#'), GridPos(1, 1), '.'), w, h, GridPos(1, 1),
                       [Frame(GridPos(1, 1), dirs, 0)], map[GridPos(1, 1) := 0], map[])
    ensures forall d :: 0 <= d < 4 ==> d in dirs
  {
    ShuffledDirections(dirs);
  }

  /**
   * carvePassage(1, 1) on a grid of walls.  Afterwards every interior room
   * is carved, the outer ring is untouched, and every carved cell is
   * reached from (1, 1) through carved cells.
   */
  method Carve(w: int, h: int, rng: Stream, pos0: nat) returns (g: Grid, pos: nat)
    requires w >= 3 && h >= 3
    ensures Shaped(g, w, h) && Bordered(g, w, h) && Glyphs(g, {'#', '.'})
    ensures forall c :: Interior(w, h, c) && Room(c) ==> Open(g, c)
    ensures forall c :: Open(g, c) ==> Joined(g, GridPos(1, 1), c, {'.'})
  {
    var root := GridPos(1, 1);
    g := Filled(w, h, '#');
    var dirs := Shuffle(Directions, rng, pos0);
    pos := pos0 + ShuffleDraws(|Directions|);
    g := SetAt(g, root, '.');
    var stack := [Frame(root, dirs, 0)];
    ghost var depth: map<GridPos, nat> := map[root := 0];
    ghost var parent: map<GridPos, int> := map[];
    CarveStart(w, h, dirs);
    while stack != []
      invariant Carving(g, w, h, root, stack, depth, parent)
      decreases Uncarved(g, w, h), Work(stack)
    {
      g, stack, pos, depth, parent := CarveStep(w, h, root, g, stack, rng, pos, depth, parent);
    }
    AllRoomsCarved(g, w, h);
    JoinedToRoot(g, w, h, root, depth, parent);
  }

  /** With no direction owed anywhere, every interior room is carved. */
  lemma AllRoomsCarved(g: Grid, w: int, h: int)
    requires Shaped(g, w, h) && w >= 3 && h >= 3 && At(g, GridPos(1, 1)) == '.' && Glyphs(g, {'#', '.'})
    requires forall c, d :: !Owed(g, w, h, c, d)
    ensures forall c :: Interior(w, h, c) && Room(c) ==> Open(g, c)
  {
    forall c | Interior(w, h, c) && Room(c) ensures Open(g, c) {
      RoomCarved(g, w, h, c);
    }
  }

  /** Room c is carved: so is the room left of it, or else the one above, and neither owes the step to c. */
  lemma {:induction false} RoomCarved(g: Grid, w: int, h: int, c: GridPos)
    requires Shaped(g, w, h) && w >= 3 && h >= 3 && At(g, GridPos(1, 1)) == '.' && Glyphs(g, {'#', '.'})
    requires forall c, d :: !Owed(g, w, h, c, d)
    requires Interior(w, h, c) && Room(c)
    ensures At(g, c) == '.'
    decreases c.x + c.y
  {
    if c.x > 1 {
      var b := GridPos(c.x - 2, c.y);
      RoomCarved(g, w, h, b);
      assert Jump(b, 1) == c && !Owed(g, w, h, b, 1);
    } else if c.y > 1 {
      var b := GridPos(c.x, c.y - 2);
      RoomCarved(g, w, h, b);
      assert Jump(b, 2) == c && !Owed(g, w, h, b, 2);
    }
  }

  /** Following parent links from a carved room back to the root gives a walk through carved cells. */
  lemma {:induction false} RoomWalk(g: Grid, w: int, h: int, root: GridPos, depth: map<GridPos, nat>,
                                    parent: map<GridPos, int>, c: GridPos) returns (p: seq<GridPos>)
    requires Shaped(g, w, h) && Tree(g, w, h, root, depth, parent) && c in depth
    ensures Walk(g, p, {'.'}) && |p| > 0 && p[0] == root && p[|p| - 1] == c
    decreases depth[c]
  {
    if c == root {
      p := [root];
    } else {
      var d := parent[c];
      var b, m := Jump(c, d), Gap(c, d);
      var q := RoomWalk(g, w, h, root, depth, parent, b);
      assert Adjacent4(b, m) && Adjacent4(m, c);
      WalkExtend(g, q, m, {'.'});
      WalkExtend(g, q + [m], c, {'.'});
      p := q + [m] + [c];
    }
  }

  /** A walk extended by a neighbour of its last cell holding an allowed symbol. */
  lemma WalkExtend(g: Grid, q: seq<GridPos>, c: GridPos, allowed: set<char>)
    requires Walk(g, q, allowed) && |q| > 0 && Adjacent4(q[|q| - 1], c) && InGrid(g, c) && At(g, c) in allowed
    ensures Walk(g, q + [c], allowed) && (q + [c])[0] == q[0]
  {
    var p := q + [c];
    forall i | 0 <= i < |p| - 1 ensures Adjacent4(p[i], p[i + 1]) {
      if i < |q| - 1 { assert p[i] == q[i] && p[i + 1] == q[i + 1]; }
    }
  }

  /** Every carved cell is joined to the root: rooms by their parent links, passages through the room before them. */
  lemma JoinedToRoot(g: Grid, w: int, h: int, root: GridPos, depth: map<GridPos, nat>, parent: map<GridPos, int>)
    requires Shaped(g, w, h) && Layout(g, w, h) && Tree(g, w, h, root, depth, parent)
    ensures forall c :: Open(g, c) ==> Joined(g, root, c, {'.'})
  {
    forall c | Open(g, c) ensures Joined(g, root, c, {'.'}) {
      var p := CellWalk(g, w, h, root, depth, parent, c);
    }
  }

  lemma CellWalk(g: Grid, w: int, h: int, root: GridPos, depth: map<GridPos, nat>, parent: map<GridPos, int>,
                 c: GridPos) returns (p: seq<GridPos>)
    requires Shaped(g, w, h) && Layout(g, w, h) && Tree(g, w, h, root, depth, parent) && Open(g, c)
    ensures Walk(g, p, {'.'}) && |p| > 0 && p[0] == root && p[|p| - 1] == c
  {
    if Room(c) {
      p := RoomWalk(g, w, h, root, depth, parent, c);
    } else {
      var b := PassageRoom(g, w, h, c);
      var q := RoomWalk(g, w, h, root, depth, parent, b);
      WalkExtend(g, q, c, {'.'});
      p := q + [c];
    }
  }

  /** A carved passage has a carved room beside it. */
  lemma PassageRoom(g: Grid, w: int, h: int, c: GridPos) returns (b: GridPos)
    requires Shaped(g, w, h) && Layout(g, w, h) && Open(g, c) && !Room(c)
    ensures Open(g, b) && Room(b) && Adjacent4(b, c)
  {
    b := if c.x % 2 == 0 then GridPos(c.x - 1, c.y) else GridPos(c.x, c.y - 1);
  }
}

/**
 * The enemy tank's decisions (Enemy.cpp): when it wakes up, which of two
 * routes it follows, which target it picks, where it aims and when it
 * fires.  Steering, rotation and interpolation are floating-point policy
 * and stay out; the position the movement code produces is an input.
 */
module EnemyAI {
  import opened Wrappers
  import opened Geometry
  import opened Cells
  import opened MazeWorld
  import opened LineOfSight
  import opened Pathfinding

  const ActivationRange: real := 450.0
  const ShootCooldown: real := 1.0
  const PathUpdateInterval: real := 0.5
  /** A waypoint closer than this is passed. */
  const WaypointReach: real := 20.0
  /** The distance bestDist starts from in the target loop. */
  const FarDist: real := 999999.0
  const EnemyRadius: real := 18.0

  /**
   * What findPathThroughDestructible returns: a route that may cross
   * destructible walls, whether it does, and the first such wall.
   */
  datatype SmartPath = SmartPath(path: seq<Point>, hasDestructibleWall: bool, firstDestructibleWallPos: Point)

  /** The route an enemy keeps: the waypoints, whether they cross a wall, and the wall to shoot. */
  datatype Route = Route(path: seq<Point>, hasWall: bool, wallTarget: Point)

  // ---------------------------------------------------------------------
  // Which route.
  // ---------------------------------------------------------------------

  /** The test of update, with its float comparison smartLen < normalLen * 0.5. */
  predicate PrefersSmart(normalLen: nat, smart: SmartPath) {
    smart.path != []
    && (normalLen == 0 || (smart.hasDestructibleWall && (|smart.path| as real) < (normalLen as real) * 0.5))
  }

  /**
   * The route update keeps: the smart one exactly when it is non-empty and
   * either there is no normal route or it crosses a wall and is less than
   * half as long; the normal one, with no wall and the origin as wall
   * target, otherwise.  No route is kept only when neither search found one.
   */
  function ChooseRoute(normal: seq<Point>, smart: SmartPath): (r: Route)
    ensures var useSmart := smart.path != [] && (normal == [] || (smart.hasDestructibleWall && 2 * |smart.path| < |normal|));
      (useSmart ==> r == Route(smart.path, smart.hasDestructibleWall, smart.firstDestructibleWallPos))
      && (!useSmart ==> r == Route(normal, false, Origin))
    ensures r.path == [] <==> normal == [] && smart.path == []
    ensures r.hasWall ==> r.path == smart.path && (normal == [] || 2 * |r.path| < |normal|)
  {
    if PrefersSmart(|normal|, smart) then Route(smart.path, smart.hasDestructibleWall, smart.firstDestructibleWallPos)
    else Route(normal, false, Origin)
  }

  // ---------------------------------------------------------------------
  // Which target.
  // ---------------------------------------------------------------------

  /** A candidate of the target loop: the point, its line-of-sight code and its squared distance. */
  datatype Choice = Choice(target: Point, los: int, distSq: real)

  /** checkLineOfSight between two world points: 0 clear, 1 destructible wall, 2 solid wall. */
  function Los(t: Tiles, from: Point, to: Point): (level: int)
    ensures 0 <= level <= 2
  {
    Sight(t, Line(WorldToGrid(from), WorldToGrid(to)))
  }

  /** a beats b: a lower code, or the same code and nearer (the loop's strict `<`). */
  predicate Ahead(a: Choice, b: Choice) {
    a.los < b.los || (a.los == b.los && a.distSq < b.distSq)
  }

  /** How a target looks from the enemy. */
  function Sighting(t: Tiles, from: Point, p: Point): Choice {
    Choice(p, Los(t, from, p), DistSq(from, p))
  }

  /** Before the loop: bestTarget = m_targetPos, bestLOS = 2, bestDist = 999999. */
  function Opening(fallback: Point): Choice {
    Choice(fallback, 2, FarDist * FarDist)
  }

  /** The best of the first |ts| targets, one comparison per target, in order. */
  function Rank(t: Tiles, from: Point, ts: seq<Point>, fallback: Point): Choice
    decreases |ts|
  {
    if ts == [] then Opening(fallback)
    else
      var best := Rank(t, from, ts[..|ts| - 1], fallback);
      var s := Sighting(t, from, ts[|ts| - 1]);
      if Ahead(s, best) then s else best
  }

  /** No target beats the one picked, and neither does the starting point of the loop. */
  lemma {:induction false} RankMinimal(t: Tiles, from: Point, ts: seq<Point>, fallback: Point)
    ensures !Ahead(Opening(fallback), Rank(t, from, ts, fallback))
    ensures forall j :: 0 <= j < |ts| ==> !Ahead(Sighting(t, from, ts[j]), Rank(t, from, ts, fallback))
    decreases |ts|
  {
    if ts != [] {
      var front := ts[..|ts| - 1];
      RankMinimal(t, from, front, fallback);
      forall j | 0 <= j < |ts| - 1
        ensures !Ahead(Sighting(t, from, ts[j]), Rank(t, from, front, fallback))
      {
        assert ts[j] == front[j];
      }
    }
  }

  /**
   * The pick is the starting point of the loop, or a target that beats it
   * and beats strictly every target before it: among equal candidates the
   * earliest wins.
   */
  lemma {:induction false} RankFirst(t: Tiles, from: Point, ts: seq<Point>, fallback: Point)
    ensures var c := Rank(t, from, ts, fallback);
      c == Opening(fallback)
      || exists j :: 0 <= j < |ts| && c == Sighting(t, from, ts[j]) && Ahead(c, Opening(fallback))
                     && forall i :: 0 <= i < j ==> Ahead(c, Sighting(t, from, ts[i]))
    decreases |ts|
  {
    if ts != [] {
      var n := |ts| - 1;
      var front := ts[..n];
      var best := Rank(t, from, front, fallback);
      var s := Sighting(t, from, ts[n]);
      RankFirst(t, from, front, fallback);
      if Ahead(s, best) {
        RankMinimal(t, from, front, fallback);
        forall i | 0 <= i < n
          ensures Ahead(s, Sighting(t, from, ts[i]))
        {
          assert ts[i] == front[i];
          assert !Ahead(Sighting(t, from, front[i]), best);
        }
        assert !Ahead(Opening(fallback), best);
      } else if best != Opening(fallback) {
        var j :| 0 <= j < |front| && best == Sighting(t, from, front[j]) && Ahead(best, Opening(fallback))
                 && forall i :: 0 <= i < j ==> Ahead(best, Sighting(t, from, front[i]));
        assert ts[j] == front[j];
        forall i | 0 <= i < j
          ensures Ahead(best, Sighting(t, from, ts[i]))
        {
          assert ts[i] == front[i];
        }
      }
    }
  }

  /** The pick's code is its own line-of-sight code unless it is the starting point (code 2). */
  lemma RankSighted(t: Tiles, from: Point, ts: seq<Point>, fallback: Point)
    ensures var c := Rank(t, from, ts, fallback);
      0 <= c.los <= 2 && (c.los < 2 ==> c.los == Los(t, from, c.target))
  {
    RankFirst(t, from, ts, fallback);
  }

  /** Every candidate the loop compares: m_targets, or m_targetPos alone when that is empty. */
  function Candidates(targets: seq<Point>, targetPos: Point): (ts: seq<Point>)
    ensures ts != [] && (targets != [] ==> ts == targets)
  {
    if targets == [] then [targetPos] else targets
  }

  // ---------------------------------------------------------------------
  // Where to shoot.
  // ---------------------------------------------------------------------

  /** The walk from one world point to another. */
  function LineTo(from: Point, to: Point): seq<GridPos> {
    Line(WorldToGrid(from), WorldToGrid(to))
  }

  /**
   * The shoot target for the pick: the target itself when the line is
   * clear, the first wall on the line when only destructible walls block
   * it; behind a solid wall, the smart route's wall when that is not hidden
   * by a solid wall itself (or the first wall in front of it); none otherwise.
   */
  function Aim(t: Tiles, from: Point, best: Choice, hasWall: bool, wallTarget: Point): Option<Point> {
    if best.los == 0 then Some(best.target)
    else if best.los == 1 then Some(FirstBlocked(t, LineTo(from, best.target), best.target))
    else if hasWall then
      var losToWall := Los(t, from, wallTarget);
      if losToWall == 2 then None
      else if losToWall == 0 then Some(wallTarget)
      else Some(FirstBlocked(t, LineTo(from, wallTarget), wallTarget))
    else None
  }

  /** p is the centre of the first wall cell on the walk from `from` to `to`. */
  predicate FirstWallOnLine(t: Tiles, from: Point, to: Point, p: Point) {
    var path := LineTo(from, to);
    exists k :: 0 <= k < |path| && FirstWallAt(t, path, k) && p == GridToWorld(path[k])
  }

  /**
   * What the aim means, for a pick of the target loop: there is a shot
   * exactly when the target is not behind a solid wall or the route's wall
   * is not; a clear target or a clear wall is aimed at directly; otherwise
   * the shot goes to the first destructible wall in the way.
   */
  lemma AimMeaning(t: Tiles, from: Point, ts: seq<Point>, fallback: Point, hasWall: bool, wallTarget: Point)
    ensures var best := Rank(t, from, ts, fallback);
      var a := Aim(t, from, best, hasWall, wallTarget);
      (a.Some? <==> best.los < 2 || (hasWall && Los(t, from, wallTarget) < 2))
      && (best.los == 0 ==> a == Some(best.target))
      && (best.los == 1 ==> a.Some? && FirstWallOnLine(t, from, best.target, a.value))
      && (best.los == 2 && hasWall && Los(t, from, wallTarget) == 0 ==> a == Some(wallTarget))
      && (best.los == 2 && hasWall && Los(t, from, wallTarget) == 1 ==> a.Some? && FirstWallOnLine(t, from, wallTarget, a.value))
  {
    var best := Rank(t, from, ts, fallback);
    RankSighted(t, from, ts, fallback);
    if best.los == 1 {
      FirstBlockedAgreesWithSight(t, LineTo(from, best.target), best.target);
    }
    if best.los == 2 && hasWall && Los(t, from, wallTarget) == 1 {
      FirstBlockedAgreesWithSight(t, LineTo(from, wallTarget), wallTarget);
    }
  }

  // ---------------------------------------------------------------------
  // The nearest target (setTargets).
  // ---------------------------------------------------------------------

  /** The first of the nearest points of ts: the loop with its strict `dist < minDist`. */
  function Nearest(from: Point, ts: seq<Point>): (k: nat)
    requires ts != []
    ensures k < |ts|
    decreases |ts|
  {
    if |ts| == 1 then 0
    else
      var k := Nearest(from, ts[..|ts| - 1]);
      if DistSq(from, ts[|ts| - 1]) < DistSq(from, ts[k]) then |ts| - 1 else k
  }

  /** Nothing is nearer than the pick, and everything before it is farther. */
  lemma {:induction false} NearestMeaning(from: Point, ts: seq<Point>)
    requires ts != []
    ensures var k := Nearest(from, ts);
      (forall j :: 0 <= j < |ts| ==> DistSq(from, ts[k]) <= DistSq(from, ts[j]))
      && (forall j :: 0 <= j < k ==> DistSq(from, ts[k]) < DistSq(from, ts[j]))
    decreases |ts|
  {
    if |ts| > 1 {
      var front := ts[..|ts| - 1];
      NearestMeaning(from, front);
      var k := Nearest(from, front);
      assert ts[k] == front[k];
      forall j | 0 <= j < |ts| - 1
        ensures ts[j] == front[j]
      {
      }
    }
  }

  // ---------------------------------------------------------------------
  // The enemy tank.
  // ---------------------------------------------------------------------

  class Enemy {
    /** The hull and turret sprites exist (loadTextures succeeded). */
    var loaded: bool
    /** The hull sprite's position. */
    var hull: Point
    var health: real
    var activated: bool
    var team: int
    var id: int
    var targetPos: Point
    var targets: seq<Point>
    var path: seq<Point>
    var pathIndex: nat
    /** When the path clock and the shoot clock were last restarted. */
    var pathClock: real
    var shootClock: real
    var hasWallOnPath: bool
    var wallTarget: Point
    var hasValidTarget: bool
    var shootTarget: Point
    var lastLos: int

    /** getPosition: the hull's position, the origin before the sprites exist. */
    function Position(): (p: Point)
      reads this`loaded, this`hull
      ensures loaded ==> p == hull
      ensures !loaded ==> p == Origin
    {
      if loaded then hull else Origin
    }

    /** isDead, read as health at or below zero. */
    predicate IsDead(): (d: bool)
      reads this`health
      ensures d <==> !(health > 0.0)
    {
      health <= 0.0
    }

    /** Enemy::Enemy: full health (100), not activated, no sprites, no path. */
    constructor (id: int)
      ensures this.id == id && health == 100.0 && !loaded && !activated && team == 0
      ensures path == [] && pathIndex == 0 && targets == [] && !hasValidTarget && !hasWallOnPath
    {
      this.id := id;
      loaded, hull, health := false, Origin, 100.0;
      activated, team := false, 0;
      targetPos, targets := Origin, [];
      path, pathIndex := [], 0;
      pathClock, shootClock := 0.0, 0.0;
      hasWallOnPath, wallTarget := false, Origin;
      hasValidTarget, shootTarget, lastLos := false, Origin, 0;
    }

    /** activate: only the first call has an effect; it sets the team. */
    method Activate(team: int)
      modifies this`activated, this`team
      ensures old(activated) ==> activated && this.team == old(this.team)
      ensures !old(activated) ==> activated && this.team == team
    {
      if !activated {
        activated := true;
        this.team := team;
      }
    }

    /**
     * checkAutoActivation: an activated enemy is left alone; otherwise it
     * wakes up in team 0 when the player is nearer than 450.
     */
    method CheckAutoActivation(playerPos: Point)
      modifies this`activated, this`team
      ensures old(activated) ==> activated && team == old(team)
      ensures !old(activated) ==> (activated <==> DistSq(playerPos, Position()) < ActivationRange * ActivationRange)
      ensures !old(activated) && activated ==> team == 0
      ensures !old(activated) && !activated ==> team == old(team)
    {
      if activated {
        return;
      }
      var d := DistSq(playerPos, Position());
      if d < ActivationRange * ActivationRange {
        activated := true;
        team := 0;
      }
    }

    /** setTarget */
    method SetTarget(p: Point)
      modifies this`targetPos
      ensures targetPos == p
    {
      targetPos := p;
    }

    /** setTargets: the list is kept and the nearest of it, the first on ties, becomes the target. */
    method SetTargets(ts: seq<Point>)
      modifies this`targets, this`targetPos
      ensures targets == ts
      ensures ts == [] ==> targetPos == old(targetPos)
      ensures ts != [] ==> targetPos == ts[Nearest(Position(), ts)]
    {
      targets := ts;
      if ts == [] {
        return;
      }
      var from := Position();
      var k := 0;
      var minDist := DistSq(from, ts[0]);
      targetPos := ts[0];
      var i := 1;
      while i < |ts|
        invariant 1 <= i <= |ts| && k == Nearest(from, ts[..i])
        invariant minDist == DistSq(from, ts[k]) && targetPos == ts[k] && targets == ts
      {
        assert ts[..i + 1][..i] == ts[..i];
        var d := DistSq(from, ts[i]);
        if d < minDist {
          k, minDist := i, d;
          targetPos := ts[i];
        }
        i := i + 1;
      }
      assert ts[..i] == ts;
    }

    /** takeDamage */
    method TakeDamage(damage: real)
      modifies this`health
      ensures health == old(health) - damage
      ensures IsDead() <==> damage >= old(health)
    {
      health := health - damage;
    }

    /**
     * shouldShoot, at time now: never when not activated or without a
     * valid target; otherwise when the cooldown has run out, which restarts it.
     */
    method ShouldShoot(now: real) returns (shoot: bool)
      modifies this`shootClock
      ensures shoot <==> activated && hasValidTarget && now - old(shootClock) > ShootCooldown
      ensures shootClock == if shoot then now else old(shootClock)
    {
      if !activated {
        return false;
      }
      if !hasValidTarget {
        return false;
      }
      if now - shootClock > ShootCooldown {
        shootClock := now;
        return true;
      }
      return false;
    }

    /**
     * The path refresh of update: the normal route (findPath) against the
     * smart one; the waypoint index restarts and so does the path clock.
     */
    method RefreshPath(maze: Maze, now: real, smart: SmartPath) returns (normal: seq<Point>)
      requires maze.Valid()
      modifies this`path, this`hasWallOnPath, this`wallTarget, this`pathIndex, this`pathClock
      ensures PathAnswer(old(maze.Kinds()), WorldToGrid(old(Position())), WorldToGrid(old(targetPos)), normal)
      ensures Route(path, hasWallOnPath, wallTarget) == ChooseRoute(normal, smart)
      ensures pathIndex == 0 && pathClock == now
    {
      ghost var t, s, e := maze.Kinds(), WorldToGrid(Position()), WorldToGrid(targetPos);
      normal := NormalPath(maze, Position(), targetPos);
      assert PathAnswer(t, s, e, normal);
      var r := Follow(normal, smart);
      path, hasWallOnPath, wallTarget := r.path, r.hasWall, r.wallTarget;
      pathIndex := 0;
      pathClock := now;
    }

    /** maze.findPath between the tiles of two world points, stated on the tile kinds. */
    static method NormalPath(maze: Maze, from: Point, to: Point) returns (normal: seq<Point>)
      requires maze.Valid()
      ensures PathAnswer(maze.Kinds(), WorldToGrid(from), WorldToGrid(to), normal)
    {
      normal := FindPath(maze, from, to);
      WalkableInMaze(maze, WorldToGrid(from));
      WalkableInMaze(maze, WorldToGrid(to));
    }

    /** The comparison of the two routes in update. */
    static method Follow(normal: seq<Point>, smart: SmartPath) returns (r: Route)
      ensures r == ChooseRoute(normal, smart)
    {
      var useSmart := false;
      if smart.path != [] {
        if normal == [] {
          useSmart := true;
        } else if smart.hasDestructibleWall {
          var normalLen := |normal| as real;
          var smartLen := |smart.path| as real;
          if smartLen < normalLen * 0.5 {
            useSmart := true;
          }
        }
      }
      if useSmart {
        r := Route(smart.path, smart.hasDestructibleWall, smart.firstDestructibleWallPos);
      } else {
        r := Route(normal, false, Origin);
      }
    }

    /** The waypoint step of update: a waypoint nearer than 20 is passed. */
    method PassWaypoint(from: Point)
      modifies this`pathIndex
      ensures pathIndex == if path != [] && old(pathIndex) < |path| && DistSq(path[old(pathIndex)], from) < WaypointReach * WaypointReach
                           then old(pathIndex) + 1 else old(pathIndex)
    {
      if path != [] && pathIndex < |path| {
        var d := DistSq(path[pathIndex], from);
        if d < WaypointReach * WaypointReach {
          pathIndex := pathIndex + 1;
        }
      }
    }

    /** The target loop of update, over m_targets or m_targetPos alone. */
    method SelectTarget(maze: Maze, ghost t: Tiles) returns (best: Choice)
      requires maze.Valid() && t == maze.Kinds()
      ensures best == Rank(t, Position(), Candidates(targets, targetPos), targetPos)
    {
      var all := targets;
      if all == [] {
        all := [targetPos];
      }
      best := RankTargets(maze, t, Position(), all, targetPos);
    }

    /** The loop itself: each candidate replaces the best so far when it beats it. */
    static method RankTargets(maze: Maze, ghost t: Tiles, from: Point, all: seq<Point>, fallback: Point) returns (best: Choice)
      requires maze.Valid() && t == maze.Kinds()
      ensures best == Rank(t, from, all, fallback)
    {
      best := Choice(fallback, 2, FarDist * FarDist);
      var i := 0;
      while i < |all|
        invariant 0 <= i <= |all| && best == Rank(t, from, all[..i], fallback)
      {
        assert all[..i + 1][..i] == all[..i];
        var dist := DistSq(from, all[i]);
        var los := CheckLineOfSight(maze, from, all[i]);
        assert Sighting(t, from, all[i]) == Choice(all[i], los, dist);
        if los < best.los || (los == best.los && dist < best.distSq) {
          best := Choice(all[i], los, dist);
        }
        i := i + 1;
      }
      assert all[..i] == all;
    }

    /** The branches on bestLOS, and on the line to the route's wall behind a solid wall. */
    static method ShotFor(maze: Maze, ghost t: Tiles, from: Point, best: Choice, hasWall: bool, wallTarget: Point)
      returns (a: Option<Point>)
      requires maze.Valid() && t == maze.Kinds()
      ensures a == Aim(t, from, best, hasWall, wallTarget)
    {
      a := None;
      if best.los == 0 {
        a := Some(best.target);
      } else if best.los == 1 {
        var p := GetFirstBlockedPosition(maze, from, best.target);
        a := Some(p);
      } else if hasWall {
        var losToWall := CheckLineOfSight(maze, from, wallTarget);
        if losToWall != 2 {
          if losToWall == 0 {
            a := Some(wallTarget);
          } else {
            var p := GetFirstBlockedPosition(maze, from, wallTarget);
            a := Some(p);
          }
        }
      }
    }

    /**
     * The end of update: the best target from where the hull now is, its
     * code kept for the next call, and the shot; with no valid target the
     * old shoot target stays.
     */
    method Decide(maze: Maze, ghost t: Tiles)
      requires maze.Valid() && t == maze.Kinds()
      modifies this`lastLos, this`hasValidTarget, this`shootTarget
      ensures var best := Rank(t, old(Position()), Candidates(old(targets), old(targetPos)), old(targetPos));
        var a := Aim(t, old(Position()), best, old(hasWallOnPath), old(wallTarget));
        lastLos == best.los && hasValidTarget == a.Some? && shootTarget == (if a.Some? then a.value else old(shootTarget))
    {
      var best := SelectTarget(maze, t);
      var shot := ShotFor(maze, t, Position(), best, hasWallOnPath, wallTarget);
      lastLos, hasValidTarget := best.los, shot.Some?;
      shootTarget := if shot.Some? then shot.value else shootTarget;
    }

    /**
     * The route the enemy now follows is what ChooseRoute makes of the smart
     * route and some answer findPath may give from the enemy's tile to its
     * target's tile.
     */
    ghost predicate Refreshed(t: Tiles, from: Point, to: Point, smart: SmartPath)
      reads this`path, this`hasWallOnPath, this`wallTarget
    {
      exists normal :: PathAnswer(t, WorldToGrid(from), WorldToGrid(to), normal)
        && Route(path, hasWallOnPath, wallTarget) == ChooseRoute(normal, smart)
    }

    /** update refreshes the route when the path clock has run out or there is no path. */
    predicate Stale(now: real)
      reads this`pathClock, this`path
    {
      now - pathClock > PathUpdateInterval || path == []
    }

    /**
     * What update's aiming step leaves behind, seen from hull position from:
     * the line of sight to the best target, and a shot at it when there is
     * one; otherwise the shot target stays shoot0.
     */
    ghost predicate Aimed(t: Tiles, from: Point, shoot0: Point)
      reads this`targets, this`targetPos, this`hasWallOnPath, this`wallTarget, this`lastLos, this`hasValidTarget, this`shootTarget
    {
      var best := Rank(t, from, Candidates(targets, targetPos), targetPos);
      var a := Aim(t, from, best, hasWallOnPath, wallTarget);
      lastLos == best.los && hasValidTarget == a.Some? && shootTarget == (if a.Some? then a.value else shoot0)
    }

    /**
     * The route after update's path step, given whether it was stale and
     * what it and the path clock were before: refreshed with the clock
     * restarted, or as it was.
     */
    ghost predicate RouteRule(t: Tiles, from: Point, goal: Point, smart: SmartPath, now: real,
                              stale: bool, before: Route, clock0: real)
      reads this`path, this`hasWallOnPath, this`wallTarget, this`pathClock
    {
      if stale then pathClock == now && Refreshed(t, from, goal, smart)
      else Route(path, hasWallOnPath, wallTarget) == before && pathClock == clock0
    }

    /**
     * The waypoint index after update's path step: i0 is the index the
     * waypoint check starts from (0 after a refresh), and the waypoint there
     * is passed when it is nearer than 20 to the hull position from.
     */
    predicate WaypointRule(i0: nat, from: Point)
      reads this`path, this`pathIndex
    {
      pathIndex == if path != [] && i0 < |path| && DistSq(path[i0], from) < WaypointReach * WaypointReach
                   then i0 + 1 else i0
    }

    /**
     * The path and position part of update: the path is refreshed when its
     * clock has run out or it is empty, a near waypoint is passed, and the
     * hull moves to where the movement code took it.
     */
    method Advance(maze: Maze, now: real, smart: SmartPath, moved: Point)
      requires maze.Valid()
      modifies this`path, this`hasWallOnPath, this`wallTarget, this`pathIndex, this`pathClock, this`hull
      ensures hull == moved
      ensures RouteRule(old(maze.Kinds()), old(Position()), old(targetPos), smart, now, old(Stale(now)), old(Route(path, hasWallOnPath, wallTarget)), old(pathClock))
      ensures WaypointRule(if old(Stale(now)) then 0 else old(pathIndex), old(hull))
    {
      var oldPos := hull;
      if Stale(now) {
        var normal := RefreshPath(maze, now, smart);
      }
      PassWaypoint(oldPos);
      hull := moved;
    }

    /** One update of a loaded, activated enemy: move along the route, then pick a target and aim. */
    method Step(maze: Maze, now: real, smart: SmartPath, moved: Point)
      requires maze.Valid() && loaded && activated
      modifies this`path, this`hasWallOnPath, this`wallTarget, this`pathIndex, this`pathClock, this`hull,
        this`lastLos, this`hasValidTarget, this`shootTarget
      ensures hull == moved
      ensures RouteRule(old(maze.Kinds()), old(Position()), old(targetPos), smart, now, old(Stale(now)), old(Route(path, hasWallOnPath, wallTarget)), old(pathClock))
      ensures WaypointRule(if old(Stale(now)) then 0 else old(pathIndex), old(hull))
      ensures Aimed(old(maze.Kinds()), moved, old(shootTarget))
    {
      ghost var t := maze.Kinds();
      Advance(maze, now, smart, moved);
      assert Position() == moved;
      Decide(maze, t);
    }

    /**
     * update, at time now, with the smart route findPathThroughDestructible
     * would return and the hull position the movement code reaches.  Without
     * sprites or before activation nothing happens.
     */
    method Update(maze: Maze, now: real, smart: SmartPath, moved: Point)
      requires maze.Valid()
      modifies this`path, this`hasWallOnPath, this`wallTarget, this`pathIndex, this`pathClock, this`hull,
        this`lastLos, this`hasValidTarget, this`shootTarget
      ensures !old(loaded) || !old(activated) ==> unchanged(this)
      ensures old(loaded) && old(activated) ==> hull == moved
      ensures old(loaded) && old(activated) ==>
        RouteRule(old(maze.Kinds()), old(Position()), old(targetPos), smart, now, old(Stale(now)), old(Route(path, hasWallOnPath, wallTarget)), old(pathClock))
      ensures old(loaded) && old(activated) ==> WaypointRule(if old(Stale(now)) then 0 else old(pathIndex), old(hull))
      ensures old(loaded) && old(activated) ==> Aimed(old(maze.Kinds()), moved, old(shootTarget))
    {
      if loaded && activated {
        Step(maze, now, smart, moved);
      }
    }
  }
}

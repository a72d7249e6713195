/**
 * Bullet resolution (CollisionSystem.cpp).  Every live bullet, in list
 * order, is checked against the walls first, then against the tanks, then
 * against the non-player tanks in list order; a bullet hits at most one
 * thing, and the bullets spent in the pass are erased from the list at its
 * end.  In a two-player game who fired a bullet and the teams decide what
 * it may hit.
 *
 * The pure part says what becomes of each bullet (its Fate) and folds the
 * fates over the list; the methods do what the source does, step by step,
 * and are proved equal to the fold.
 */
module Collisions {
  import opened Wrappers
  import opened Geometry
  import opened Cells
  import opened MazeWorld
  import opened EnemyAI

  /** The default extraRadius of checkBulletTankCollision and checkBulletNpcCollision. */
  const ExtraRadius: real := 5.0
  /** What a gold wall gives, and what a heal wall heals. */
  const GoldCoins: int := 2
  const HealFraction: real := 0.25

  /** BulletOwner: fired by the local player, or by anything else. */
  datatype Owner = PlayerOwned | EnemyOwned

  /** A bullet as the pass reads it; `alive` is what setInactive clears. */
  datatype Bullet = Bullet(position: Point, damage: real, owner: Owner, team: int, alive: bool)

  /** A call handleWallDestroyEffect makes on the shooter: addCoins(n) or heal(fraction). */
  datatype Effect = Coins(amount: int) | Healing(fraction: real)

  /** A sendNpcDamage message. */
  datatype NpcDamage = NpcDamage(npcId: int, damage: real)

  /** A tank's collision circle: its position and its collision radius. */
  datatype Body = Body(centre: Point, radius: real)

  /** What the pass reads of an enemy tank. */
  datatype Npc = Npc(position: Point, team: int, activated: bool, health: real, id: int)

  /**
   * What became of one bullet: skipped as already spent, still flying,
   * stopped by a wall, by the local player, by the other player, or by the
   * k-th enemy tank, which it damages or (an NPC bullet on a guest) does not.
   */
  datatype Fate = Skipped | Flying | WallStop | PlayerHit | OtherHit | NpcHit(k: nat, damaging: bool)

  /** The NPC rules in force: none in a single-player game, the team rules in a two-player one. */
  datatype Rules = SinglePlayer | Multiplayer(localTeam: int)

  /** What a two-player pass holds fixed: the local team, both tanks' circles, and whether this client hosts. */
  datatype Sides = Sides(localTeam: int, player: Body, other: Body, isHost: bool)

  // ---------------------------------------------------------------------
  // Who can hit whom.
  // ---------------------------------------------------------------------

  /**
   * The distance test `hypot(d) < radius + extraRadius`, squared; the two
   * agree over the reals because both sides are non-negative once the
   * bound is positive, and no distance is below a bound that is not.
   */
  predicate Touches(p: Point, body: Body) {
    var reach := body.radius + ExtraRadius;
    0.0 < reach && DistSq(p, body.centre) < reach * reach
  }

  /** canHitNpc with the activation and death checks before it; every enemy in a single-player game. */
  predicate CanHitNpc(rules: Rules, b: Bullet, n: Npc) {
    match rules
    case SinglePlayer => true
    case Multiplayer(localTeam) =>
      n.activated && !(n.health <= 0.0)
      && (if b.owner == PlayerOwned then n.team != localTeam && n.team != 0
          else if b.team == 0 then n.team == localTeam && n.team != 0
          else b.team != n.team && n.team != 0)
  }

  /** The bullet may hit the NPC and is inside its circle. */
  predicate Strikes(rules: Rules, b: Bullet, n: Npc) {
    CanHitNpc(rules, b, n) && Touches(b.position, Body(n.position, EnemyRadius))
  }

  /** The NPC loop with its break: the first NPC from index i on that the bullet strikes. */
  function FirstNpc(rules: Rules, b: Bullet, npcs: seq<Npc>, i: nat): (k: Option<nat>)
    requires i <= |npcs|
    ensures k.Some? ==> i <= k.value < |npcs|
    decreases |npcs| - i
  {
    if i == |npcs| then None
    else if Strikes(rules, b, npcs[i]) then Some(i)
    else FirstNpc(rules, b, npcs, i + 1)
  }

  /** The NPC found is struck and none before it is; finding none means none is struck. */
  lemma {:induction false} FirstNpcMeaning(rules: Rules, b: Bullet, npcs: seq<Npc>, i: nat)
    requires i <= |npcs|
    ensures var k := FirstNpc(rules, b, npcs, i);
      (k.Some? ==> Strikes(rules, b, npcs[k.value]) && forall j :: i <= j < k.value ==> !Strikes(rules, b, npcs[j]))
      && (k.None? ==> forall j :: i <= j < |npcs| ==> !Strikes(rules, b, npcs[j]))
    decreases |npcs| - i
  {
    if i < |npcs| && !Strikes(rules, b, npcs[i]) {
      FirstNpcMeaning(rules, b, npcs, i + 1);
    }
  }

  /** The local player can be hit only by a bullet it did not fire, of team 0 or another team. */
  predicate CanHitLocal(b: Bullet, localTeam: int) {
    b.owner != PlayerOwned && (b.team == 0 || b.team != localTeam)
  }

  /** The other player can be hit by the local player's bullets and by bullets of the local team. */
  predicate CanHitOther(b: Bullet, localTeam: int) {
    b.owner == PlayerOwned || b.team == localTeam
  }

  /** An NPC hit takes health (and is reported) for a local bullet, or for an NPC bullet on the host. */
  predicate Damaging(b: Bullet, isHost: bool) {
    b.owner == PlayerOwned || (b.team != 0 && isHost)
  }

  /** hitWall || destroyed: a wall was hit when the result holds a position other than (0, 0). */
  predicate HitsWall(res: WallDestroyResult) {
    res.position != Origin || res.destroyed
  }

  // ---------------------------------------------------------------------
  // The fate of one bullet.
  // ---------------------------------------------------------------------

  /**
   * checkSinglePlayerCollisions for one bullet, given whether bulletHit
   * found a wall: enemy bullets can stop only at the player, player bullets
   * at the first enemy they are inside of.
   */
  function SingleFate(b: Bullet, wall: bool, player: Body, npcs: seq<Npc>): Fate {
    if !b.alive then Skipped
    else if wall then WallStop
    else if b.owner == EnemyOwned && Touches(b.position, player) then PlayerHit
    else if b.owner == PlayerOwned then
      match FirstNpc(SinglePlayer, b, npcs, 0)
      case Some(k) => NpcHit(k, true)
      case None => Flying
    else Flying
  }

  /**
   * checkMultiplayerCollisions for one bullet, given what
   * bulletHitWithResult reported: the wall, the local player, the other
   * player, then the NPCs, each under its team rule.
   */
  function MultiFate(b: Bullet, res: WallDestroyResult, s: Sides, npcs: seq<Npc>): Fate {
    if !b.alive then Skipped
    else if HitsWall(res) then WallStop
    else if CanHitLocal(b, s.localTeam) && Touches(b.position, s.player) then PlayerHit
    else if CanHitOther(b, s.localTeam) && Touches(b.position, s.other) then OtherHit
    else
      match FirstNpc(Multiplayer(s.localTeam), b, npcs, 0)
      case Some(k) => NpcHit(k, Damaging(b, s.isHost))
      case None => Flying
  }

  /**
   * The single-player rules: a wall stops a live bullet before anything
   * else; only enemy bullets hit the player and only player bullets hit
   * enemies, the first one in list order that the bullet is inside of; a
   * player bullet inside some enemy always hits one.
   */
  lemma SingleRules(b: Bullet, wall: bool, player: Body, npcs: seq<Npc>)
    ensures var f := SingleFate(b, wall, player, npcs);
      (f == Skipped <==> !b.alive)
      && (b.alive && wall ==> f == WallStop)
      && (f == PlayerHit ==> b.owner == EnemyOwned && !wall && Touches(b.position, player))
      && (f.NpcHit? ==>
            b.owner == PlayerOwned && !wall && f.damaging && f.k < |npcs|
            && Touches(b.position, Body(npcs[f.k].position, EnemyRadius))
            && forall j :: 0 <= j < f.k ==> !Touches(b.position, Body(npcs[j].position, EnemyRadius)))
      && ((b.alive && !wall && b.owner == PlayerOwned && exists j :: 0 <= j < |npcs| && Touches(b.position, Body(npcs[j].position, EnemyRadius)))
          ==> f.NpcHit?)
      && f != OtherHit
  {
    FirstNpcMeaning(SinglePlayer, b, npcs, 0);
  }

  /**
   * The two-player rules: a wall stops a live bullet first; the local
   * player is never hit by its own bullets, and otherwise only by team 0 or
   * another team; the other player only by local bullets or the local
   * team; an NPC only when activated, alive, not of team 0 and of a team
   * the bullet may hit, the first such one it is inside of; and the hit
   * takes health exactly for local bullets and for NPC bullets on the host.
   */
  lemma MultiRules(b: Bullet, res: WallDestroyResult, s: Sides, npcs: seq<Npc>)
    ensures var f := MultiFate(b, res, s, npcs);
      (f == Skipped <==> !b.alive)
      && (b.alive && HitsWall(res) ==> f == WallStop)
      && (f == PlayerHit ==> b.owner == EnemyOwned && (b.team == 0 || b.team != s.localTeam) && Touches(b.position, s.player))
      && (b.alive && !HitsWall(res) && CanHitLocal(b, s.localTeam) && Touches(b.position, s.player) ==> f == PlayerHit)
      && (f == OtherHit ==> (b.owner == PlayerOwned || b.team == s.localTeam) && Touches(b.position, s.other))
      && (f.NpcHit? ==>
            f.k < |npcs| && npcs[f.k].activated && !(npcs[f.k].health <= 0.0) && npcs[f.k].team != 0
            && Touches(b.position, Body(npcs[f.k].position, EnemyRadius))
            && (b.owner == PlayerOwned ==> npcs[f.k].team != s.localTeam)
            && (f.damaging <==> b.owner == PlayerOwned || (b.team != 0 && s.isHost))
            && forall j :: 0 <= j < f.k ==> !Strikes(Multiplayer(s.localTeam), b, npcs[j]))
  {
    FirstNpcMeaning(Multiplayer(s.localTeam), b, npcs, 0);
  }

  /** setInactive on every bullet that the pass stopped. */
  function Mark(b: Bullet, f: Fate): (m: Bullet)
    ensures m == b.(alive := m.alive)
    ensures f != Flying && f != Skipped ==> !m.alive
  {
    if f == Flying || f == Skipped then b else b.(alive := false)
  }

  /** The bullets with their fates applied. */
  function Marked(bs: seq<Bullet>, fs: seq<Fate>): (ms: seq<Bullet>)
    requires |fs| == |bs|
    ensures |ms| == |bs|
  {
    seq(|bs|, i requires 0 <= i < |bs| => Mark(bs[i], fs[i]))
  }

  // ---------------------------------------------------------------------
  // The pass over the bullet list.
  // ---------------------------------------------------------------------

  /** What a pass has done so far: the fates, the NPCs, the player's health, the effects and the damage messages. */
  datatype Outcome = Outcome(fates: seq<Fate>, npcs: seq<Npc>, playerHealth: real, rewards: seq<Effect>, sent: seq<NpcDamage>)

  /** Before the first bullet. */
  function Start(npcs: seq<Npc>, health: real): Outcome {
    Outcome([], npcs, health, [], [])
  }

  /** takeDamage on the k-th NPC. */
  function Hurt(npcs: seq<Npc>, k: nat, damage: real): (r: seq<Npc>)
    requires k < |npcs|
  {
    npcs[k := npcs[k].(health := npcs[k].health - damage)]
  }

  /** handleWallDestroyEffect: nothing unless the wall was destroyed; 2 coins for gold, a quarter heal for heal. */
  function Reward(res: WallDestroyResult): (e: seq<Effect>)
    ensures e != [] <==> res.destroyed && res.attribute in {Gold, Heal}
    ensures res.destroyed && res.attribute == Gold ==> e == [Coins(GoldCoins)]
    ensures res.destroyed && res.attribute == Heal ==> e == [Healing(HealFraction)]
  {
    if !res.destroyed then []
    else
      match res.attribute
      case Gold => [Coins(GoldCoins)]
      case Heal => [Healing(HealFraction)]
      case _ => []
  }

  /** One bullet of a single-player pass. */
  function SingleStep(o: Outcome, b: Bullet, wall: bool, player: Body): (r: Outcome) {
    var f := SingleFate(b, wall, player, o.npcs);
    o.(fates := o.fates + [f],
       npcs := if f.NpcHit? && f.k < |o.npcs| then Hurt(o.npcs, f.k, b.damage) else o.npcs,
       playerHealth := if f == PlayerHit then o.playerHealth - b.damage else o.playerHealth)
  }

  /** A single-player pass over the bullets, given what bulletHit returned for each. */
  function SinglePass(start: Outcome, bs: seq<Bullet>, walls: seq<bool>, player: Body): (r: Outcome)
    requires |walls| == |bs|
    ensures |r.fates| == |start.fates| + |bs| && |r.npcs| == |start.npcs|
    decreases |bs|
  {
    if bs == [] then start
    else SingleStep(SinglePass(start, bs[..|bs| - 1], walls[..|bs| - 1], player), bs[|bs| - 1], walls[|bs| - 1], player)
  }

  /** One bullet of a two-player pass. */
  function MultiStep(o: Outcome, b: Bullet, res: WallDestroyResult, s: Sides): (r: Outcome) {
    var f := MultiFate(b, res, s, o.npcs);
    var hurt := f.NpcHit? && f.damaging && f.k < |o.npcs|;
    o.(fates := o.fates + [f],
       npcs := if hurt then Hurt(o.npcs, f.k, b.damage) else o.npcs,
       playerHealth := if f == PlayerHit then o.playerHealth - b.damage else o.playerHealth,
       rewards := if f == WallStop && b.owner == PlayerOwned then o.rewards + Reward(res) else o.rewards,
       sent := if hurt then o.sent + [NpcDamage(o.npcs[f.k].id, b.damage)] else o.sent)
  }

  /** A two-player pass over the bullets, given what bulletHitWithResult returned for each. */
  function MultiPass(start: Outcome, bs: seq<Bullet>, rs: seq<WallDestroyResult>, s: Sides): (r: Outcome)
    requires |rs| == |bs|
    ensures |r.fates| == |start.fates| + |bs| && |r.npcs| == |start.npcs|
    ensures |r.sent| <= |start.sent| + |bs| && |r.rewards| <= |start.rewards| + |bs|
    decreases |bs|
  {
    if bs == [] then start
    else MultiStep(MultiPass(start, bs[..|bs| - 1], rs[..|bs| - 1], s), bs[|bs| - 1], rs[|bs| - 1], s)
  }

  // ---------------------------------------------------------------------
  // What a pass does.
  // ---------------------------------------------------------------------

  /** A pass changes nothing of an NPC but its health. */
  lemma {:induction false} MultiPassHealthOnly(start: Outcome, bs: seq<Bullet>, rs: seq<WallDestroyResult>, s: Sides)
    requires |rs| == |bs|
    ensures var r := MultiPass(start, bs, rs, s);
      |r.npcs| == |start.npcs| && forall k :: 0 <= k < |start.npcs| ==> r.npcs[k] == start.npcs[k].(health := r.npcs[k].health)
    decreases |bs|
  {
    if bs != [] {
      MultiPassHealthOnly(start, bs[..|bs| - 1], rs[..|bs| - 1], s);
    }
  }

  /** An NPC that no bullet may hit (a team-0 one, one not activated, or one already dead) leaves the pass as it came. */
  lemma {:induction false} MultiPassSpares(start: Outcome, bs: seq<Bullet>, rs: seq<WallDestroyResult>, s: Sides, k: nat)
    requires |rs| == |bs| && k < |start.npcs|
    requires start.npcs[k].team == 0 || !start.npcs[k].activated || start.npcs[k].health <= 0.0
    ensures var r := MultiPass(start, bs, rs, s); |r.npcs| == |start.npcs| && r.npcs[k] == start.npcs[k]
    decreases |bs|
  {
    if bs != [] {
      var n := |bs| - 1;
      var o := MultiPass(start, bs[..n], rs[..n], s);
      MultiPassSpares(start, bs[..n], rs[..n], s, k);
      MultiRules(bs[n], rs[n], s, o.npcs);
    }
  }

  /**
   * On a client that does not host, bullets not fired by the local player
   * never take an NPC's health and never send damage: the host does that.
   */
  lemma {:induction false} GuestLeavesNpcBullets(start: Outcome, bs: seq<Bullet>, rs: seq<WallDestroyResult>, s: Sides)
    requires |rs| == |bs| && !s.isHost
    requires forall i :: 0 <= i < |bs| ==> bs[i].owner == EnemyOwned
    ensures var r := MultiPass(start, bs, rs, s); r.npcs == start.npcs && r.sent == start.sent
    decreases |bs|
  {
    if bs != [] {
      var n := |bs| - 1;
      GuestLeavesNpcBullets(start, bs[..n], rs[..n], s);
    }
  }

  /** The local player's own bullets never take its health, and only its own bullets earn wall rewards. */
  lemma {:induction false} OwnBulletsSparePlayer(start: Outcome, bs: seq<Bullet>, rs: seq<WallDestroyResult>, s: Sides)
    requires |rs| == |bs|
    ensures (forall i :: 0 <= i < |bs| ==> bs[i].owner == PlayerOwned) ==>
      MultiPass(start, bs, rs, s).playerHealth == start.playerHealth
    ensures (forall i :: 0 <= i < |bs| ==> bs[i].owner == EnemyOwned) ==>
      MultiPass(start, bs, rs, s).rewards == start.rewards
    decreases |bs|
  {
    if bs != [] {
      var n := |bs| - 1;
      OwnBulletsSparePlayer(start, bs[..n], rs[..n], s);
    }
  }

  /**
   * In a single-player game the player's bullets never take the player's
   * health and the enemies' bullets never take an enemy's.
   */
  lemma {:induction false} SingleSidesApart(start: Outcome, bs: seq<Bullet>, walls: seq<bool>, player: Body)
    requires |walls| == |bs|
    ensures (forall i :: 0 <= i < |bs| ==> bs[i].owner == PlayerOwned) ==>
      SinglePass(start, bs, walls, player).playerHealth == start.playerHealth
    ensures (forall i :: 0 <= i < |bs| ==> bs[i].owner == EnemyOwned) ==>
      SinglePass(start, bs, walls, player).npcs == start.npcs
    decreases |bs|
  {
    if bs != [] {
      var n := |bs| - 1;
      SinglePassSideStep(SinglePass(start, bs[..n], walls[..n], player), bs[n], walls[n], player);
      SingleSidesApart(start, bs[..n], walls[..n], player);
    }
  }

  lemma SinglePassSideStep(o: Outcome, b: Bullet, wall: bool, player: Body)
    ensures b.owner == PlayerOwned ==> SingleStep(o, b, wall, player).playerHealth == o.playerHealth
    ensures b.owner == EnemyOwned ==> SingleStep(o, b, wall, player).npcs == o.npcs
  {
    SingleRules(b, wall, player, o.npcs);
  }

  /** The damage the bullets with these fates deal to the k-th NPC: one hit per bullet at most. */
  function Dealt(bs: seq<Bullet>, fs: seq<Fate>, k: nat): real
    requires |fs| == |bs|
    decreases |bs|
  {
    if bs == [] then 0.0
    else Dealt(bs[..|bs| - 1], fs[..|bs| - 1], k) + (if fs[|bs| - 1] == NpcHit(k, true) then bs[|bs| - 1].damage else 0.0)
  }

  /** The damage the bullets with these fates deal to the local player. */
  function Suffered(bs: seq<Bullet>, fs: seq<Fate>): real
    requires |fs| == |bs|
    decreases |bs|
  {
    if bs == [] then 0.0
    else Suffered(bs[..|bs| - 1], fs[..|bs| - 1]) + (if fs[|bs| - 1] == PlayerHit then bs[|bs| - 1].damage else 0.0)
  }

  /**
   * The health a two-player pass leaves: each NPC loses what the bullets
   * whose fate is a damaging hit on it carry, and the player what the
   * bullets that hit it carry.
   */
  lemma {:induction false} MultiPassAccounts(start: Outcome, bs: seq<Bullet>, rs: seq<WallDestroyResult>, s: Sides)
    requires |rs| == |bs| && start.fates == []
    ensures var r := MultiPass(start, bs, rs, s);
      |r.fates| == |bs| && |r.npcs| == |start.npcs|
      && r.playerHealth == start.playerHealth - Suffered(bs, r.fates)
      && forall k :: 0 <= k < |start.npcs| ==> r.npcs[k].health == start.npcs[k].health - Dealt(bs, r.fates, k)
    decreases |bs|
  {
    if bs != [] {
      var n := |bs| - 1;
      var o := MultiPass(start, bs[..n], rs[..n], s);
      var r := MultiPass(start, bs, rs, s);
      MultiPassAccounts(start, bs[..n], rs[..n], s);
      assert r.fates[..n] == o.fates;
      assert bs[..n][..|bs[..n]|] == bs[..n];
    }
  }

  /** The same for a single-player pass. */
  lemma {:induction false} SinglePassAccounts(start: Outcome, bs: seq<Bullet>, walls: seq<bool>, player: Body)
    requires |walls| == |bs| && start.fates == []
    ensures var r := SinglePass(start, bs, walls, player);
      |r.fates| == |bs| && |r.npcs| == |start.npcs|
      && r.playerHealth == start.playerHealth - Suffered(bs, r.fates)
      && forall k :: 0 <= k < |start.npcs| ==> r.npcs[k].health == start.npcs[k].health - Dealt(bs, r.fates, k)
    decreases |bs|
  {
    if bs != [] {
      var n := |bs| - 1;
      var o := SinglePass(start, bs[..n], walls[..n], player);
      var r := SinglePass(start, bs, walls, player);
      SinglePassAccounts(start, bs[..n], walls[..n], player);
      assert r.fates[..n] == o.fates;
    }
  }

  // ---------------------------------------------------------------------
  // Erasing the spent bullets.
  // ---------------------------------------------------------------------

  /** The live bullets, in their order (erase over remove_if of !isAlive). */
  function Live(bs: seq<Bullet>): seq<Bullet>
    decreases |bs|
  {
    if bs == [] then [] else Live(bs[..|bs| - 1]) + (if bs[|bs| - 1].alive then [bs[|bs| - 1]] else [])
  }

  /** Only live bullets remain, every live bullet remains, and nothing else is added. */
  lemma {:induction false} LiveMeaning(bs: seq<Bullet>)
    ensures forall b :: b in Live(bs) <==> b in bs && b.alive
    ensures |Live(bs)| <= |bs|
    decreases |bs|
  {
    if bs != [] {
      var n := |bs| - 1;
      LiveMeaning(bs[..n]);
      assert bs == bs[..n] + [bs[n]];
    }
  }

  /** Erasing keeps the relative order: the survivors of two runs are the survivors of the first, then of the second. */
  lemma {:induction false} LiveAppend(a: seq<Bullet>, b: seq<Bullet>)
    ensures Live(a + b) == Live(a) + Live(b)
    decreases |b|
  {
    if b != [] {
      var n := |b| - 1;
      assert (a + b)[..|a + b| - 1] == a + b[..n];
      assert (a + b)[|a + b| - 1] == b[n];
      LiveAppend(a, b[..n]);
      var tail := if b[n].alive then [b[n]] else [];
      assert Live(a + b) == Live(a + b[..n]) + tail;
      assert Live(b) == Live(b[..n]) + tail;
      assert Live(a) + Live(b) == Live(a) + Live(b[..n]) + tail;
    } else {
      assert a + b == a;
    }
  }

  // ---------------------------------------------------------------------
  // The grid a pass leaves, and what each bullet's wall test answered.
  // ---------------------------------------------------------------------

  /** The grid after bullet x's turn: a live bullet hits its tile, a spent one is skipped. */
  function AfterBullet(b: Board, x: Bullet): Board {
    if x.alive then AfterHit(b, WorldToGrid(x.position), x.damage) else b
  }

  /** The grid after the turns of the bullets bs, in list order. */
  function AfterBullets(b: Board, bs: seq<Bullet>): Board
    decreases |bs|
  {
    if bs == [] then b else AfterBullet(AfterBullets(b, bs[..|bs| - 1]), bs[|bs| - 1])
  }

  /** What bulletHit answers for each bullet, on the grid the bullets before it left (false for a spent one). */
  function WallAnswers(b: Board, bs: seq<Bullet>): (ws: seq<bool>)
    ensures |ws| == |bs|
    decreases |bs|
  {
    if bs == [] then []
    else
      var n := |bs| - 1;
      WallAnswers(b, bs[..n]) + [bs[n].alive && IsWallAt(AfterBullets(b, bs[..n]), WorldToGrid(bs[n].position))]
  }

  /** What bulletHitWithResult reports for each bullet, on the grid the bullets before it left (the default for a spent one). */
  function WallResults(b: Board, bs: seq<Bullet>): (rs: seq<WallDestroyResult>)
    ensures |rs| == |bs|
    decreases |bs|
  {
    if bs == [] then []
    else
      var n := |bs| - 1;
      WallResults(b, bs[..n]) +
        [if bs[n].alive then HitResult(AfterBullets(b, bs[..n]), WorldToGrid(bs[n].position), bs[n].damage) else NoResult]
  }

  /** Bullet i's answer is read on the grid that bullets[..i] left. */
  lemma {:induction false} WallAnswersMeaning(b: Board, bs: seq<Bullet>)
    ensures forall i :: 0 <= i < |bs| ==>
      WallAnswers(b, bs)[i] == (bs[i].alive && IsWallAt(AfterBullets(b, bs[..i]), WorldToGrid(bs[i].position)))
    decreases |bs|
  {
    if bs != [] {
      var n := |bs| - 1;
      WallAnswersMeaning(b, bs[..n]);
      forall i | 0 <= i < n
        ensures bs[..n][..i] == bs[..i] && bs[..n][i] == bs[i]
      {
      }
    }
  }

  /** Bullet i's result is read on the grid that bullets[..i] left. */
  lemma {:induction false} WallResultsMeaning(b: Board, bs: seq<Bullet>)
    ensures forall i :: 0 <= i < |bs| ==>
      WallResults(b, bs)[i] ==
        (if bs[i].alive then HitResult(AfterBullets(b, bs[..i]), WorldToGrid(bs[i].position), bs[i].damage) else NoResult)
    decreases |bs|
  {
    if bs != [] {
      var n := |bs| - 1;
      WallResultsMeaning(b, bs[..n]);
      forall i | 0 <= i < n
        ensures bs[..n][..i] == bs[..i] && bs[..n][i] == bs[i]
      {
      }
    }
  }

  /** A bullet hits what the wall test saw: the answer is true exactly when its result is not the default one. */
  lemma {:induction false} AnswersAgree(b: Board, bs: seq<Bullet>, i: nat)
    requires i < |bs|
    ensures WallAnswers(b, bs)[i] <==> WallResults(b, bs)[i] != NoResult
  {
    WallAnswersMeaning(b, bs);
    WallResultsMeaning(b, bs);
    var g := AfterBullets(b, bs[..i]);
    HitRules(g, WorldToGrid(bs[i].position), bs[i].damage);
  }

  /** Spent bullets leave the grid alone: the grid after the list is the grid after its live bullets. */
  lemma {:induction false} SpentLeaveGrid(b: Board, bs: seq<Bullet>)
    ensures AfterBullets(b, bs) == AfterBullets(b, Live(bs))
    decreases |bs|
  {
    if bs != [] {
      var n := |bs| - 1;
      SpentLeaveGrid(b, bs[..n]);
      if bs[n].alive {
        var live := Live(bs[..n]) + [bs[n]];
        assert live[..|live| - 1] == Live(bs[..n]);
      } else {
        assert Live(bs) == Live(bs[..n]) + [] == Live(bs[..n]);
        assert AfterBullets(b, bs) == AfterBullets(b, bs[..n]);
        assert AfterBullets(b, Live(bs)) == AfterBullets(b, Live(bs[..n]));
      }
    }
  }

  /** The grid after one more bullet: the prefix's grid, then that bullet's turn. */
  lemma AfterPrefix(b: Board, bs: seq<Bullet>, i: nat)
    requires i < |bs|
    ensures AfterBullets(b, bs[..i + 1]) == AfterBullet(AfterBullets(b, bs[..i]), bs[i])
    ensures WallAnswers(b, bs[..i + 1]) == WallAnswers(b, bs[..i]) + [bs[i].alive && IsWallAt(AfterBullets(b, bs[..i]), WorldToGrid(bs[i].position))]
    ensures WallResults(b, bs[..i + 1]) == WallResults(b, bs[..i]) +
      [if bs[i].alive then HitResult(AfterBullets(b, bs[..i]), WorldToGrid(bs[i].position), bs[i].damage) else NoResult]
  {
    assert bs[..i + 1][..i] == bs[..i];
  }

  // ---------------------------------------------------------------------
  // The tanks and the pass itself.
  // ---------------------------------------------------------------------

  /** The part of a player tank the pass reads and changes. */
  class Tank {
    var position: Point
    var scale: real
    var health: real
    var team: int
    /** The addCoins and heal calls the tank has received, in order. */
    var effects: seq<Effect>

    /** getCollisionRadius: 12 * scale / 0.25. */
    function Radius(): real
      reads this`scale
    {
      12.0 * scale / 0.25
    }

    function Outline(): Body
      reads this`position, this`scale
    {
      Body(position, Radius())
    }

    /** takeDamage */
    method TakeDamage(damage: real)
      modifies this`health
      ensures health == old(health) - damage
    {
      health := health - damage;
    }

    /** addCoins, recorded. */
    method AddCoins(amount: int)
      modifies this`effects
      ensures effects == old(effects) + [Coins(amount)]
    {
      effects := effects + [Coins(amount)];
    }

    /** heal, recorded. */
    method Heal(fraction: real)
      modifies this`effects
      ensures effects == old(effects) + [Healing(fraction)]
    {
      effects := effects + [Healing(fraction)];
    }
  }

  /** handleWallDestroyEffect: nothing without a destroyed wall or a shooter. */
  method HandleWallDestroyEffect(result: WallDestroyResult, shooter: Tank?)
    modifies (if shooter == null then {} else {shooter})`effects
    ensures shooter != null ==> shooter.effects == old(shooter.effects) + Reward(result)
  {
    if !result.destroyed || shooter == null {
      return;
    }
    match result.attribute {
      case Gold => shooter.AddCoins(GoldCoins);
      case Heal => shooter.Heal(HealFraction);
      case Explosive =>
      case Plain =>
    }
  }

  /** What the pass reads of each enemy, in list order. */
  function Snapshot(es: seq<Enemy>): (ns: seq<Npc>)
    reads es
    ensures |ns| == |es|
  {
    seq(|es|, k requires 0 <= k < |es| reads es => Npc(es[k].Position(), es[k].team, es[k].activated, es[k].health, es[k].id))
  }

  /** takeDamage on one enemy of a list changes its snapshot as Hurt says. */
  method Damage(es: seq<Enemy>, k: nat, e: Enemy, damage: real)
    requires Distinct(es) && k < |es| && e == es[k]
    modifies e`health
    ensures Snapshot(es) == Hurt(old(Snapshot(es)), k, damage)
  {
    e.TakeDamage(damage);
    assert forall j :: 0 <= j < |es| && j != k ==> es[j] != es[k];
  }

  /** The NPC loop: the first enemy the bullet may hit and is inside of. */
  method FirstStruck(rules: Rules, b: Bullet, enemies: seq<Enemy>) returns (k: Option<nat>)
    ensures k == FirstNpc(rules, b, Snapshot(enemies), 0)
  {
    ghost var ns := Snapshot(enemies);
    var i := 0;
    while i < |enemies|
      invariant 0 <= i <= |enemies| && FirstNpc(rules, b, ns, 0) == FirstNpc(rules, b, ns, i)
    {
      var e := enemies[i];
      var n := Npc(e.Position(), e.team, e.activated, e.health, e.id);
      assert n == ns[i];
      if Strikes(rules, b, n) {
        return Some(i);
      }
      i := i + 1;
    }
    return None;
  }

  /** One bullet of checkSinglePlayerCollisions. */
  method SingleBullet(player: Tank, enemies: seq<Enemy>, b: Bullet, maze: Maze, ghost o: Outcome)
    returns (after: Bullet, ghost wall: bool)
    requires maze.Valid() && Distinct(enemies) && Snapshot(enemies) == o.npcs && player.health == o.playerHealth
    modifies maze.walls, player`health, enemies`health
    ensures maze.Valid()
    ensures wall == (b.alive && IsWallAt(old(maze.Cells()), WorldToGrid(b.position)))
    ensures maze.Cells() == AfterBullet(old(maze.Cells()), b)
    ensures var r := SingleStep(o, b, wall, player.Outline());
      after == Mark(b, SingleFate(b, wall, player.Outline(), o.npcs))
      && Snapshot(enemies) == r.npcs && player.health == r.playerHealth
  {
    wall := false;
    after := b;
    if !b.alive {
      return;
    }
    var hit := maze.BulletHit(b.position, b.damage);
    wall := hit;
    if hit {
      after := b.(alive := false);
      return;
    }
    if b.owner == EnemyOwned && Touches(b.position, player.Outline()) {
      player.TakeDamage(b.damage);
      after := b.(alive := false);
      return;
    }
    if b.owner == PlayerOwned {
      var k := FirstStruck(SinglePlayer, b, enemies);
      if k.Some? {
        Damage(enemies, k.value, enemies[k.value], b.damage);
        after := b.(alive := false);
      }
    }
  }

  /** The erase over remove_if: the live bullets, in order. */
  method EraseInactive(bs: seq<Bullet>) returns (kept: seq<Bullet>)
    ensures kept == Live(bs)
  {
    kept := [];
    var i := 0;
    while i < |bs|
      invariant 0 <= i <= |bs| && kept == Live(bs[..i])
    {
      assert bs[..i + 1][..i] == bs[..i];
      if bs[i].alive {
        kept := kept + [bs[i]];
      }
      i := i + 1;
    }
    assert bs[..i] == bs;
  }

  /** One bullet of checkMultiplayerCollisions; `sent` is the sendNpcDamage message it causes, if any. */
  method MultiBullet(player: Tank, other: Tank, enemies: seq<Enemy>, b: Bullet, maze: Maze, localTeam: int, isHost: bool,
                     ghost o: Outcome)
    returns (after: Bullet, sent: seq<NpcDamage>, ghost res: WallDestroyResult)
    requires maze.Valid() && Distinct(enemies) && Snapshot(enemies) == o.npcs && player.health == o.playerHealth
    modifies maze.walls, player`health, player`effects, enemies`health
    ensures maze.Valid()
    ensures res == if b.alive then HitResult(old(maze.Cells()), WorldToGrid(b.position), b.damage) else NoResult
    ensures maze.Cells() == AfterBullet(old(maze.Cells()), b)
    ensures var s := Sides(localTeam, old(player.Outline()), old(other.Outline()), isHost);
      var f := MultiFate(b, res, s, o.npcs);
      var r := MultiStep(o, b, res, s);
      after == Mark(b, f) && Snapshot(enemies) == r.npcs && player.health == r.playerHealth
      && o.sent + sent == r.sent
      && player.effects == old(player.effects) + (if f == WallStop && b.owner == PlayerOwned then Reward(res) else [])
  {
    after, sent, res := b, [], NoResult;
    if !b.alive {
      return;
    }
    var wallResult := maze.BulletHitWithResult(b.position, b.damage);
    res := wallResult;
    var hitWall := wallResult.position.x != 0.0 || wallResult.position.y != 0.0;
    if hitWall || wallResult.destroyed {
      if wallResult.destroyed {
        var isLocalPlayerBullet := b.owner == PlayerOwned;
        if isLocalPlayerBullet {
          HandleWallDestroyEffect(wallResult, player);
        }
      }
      after := b.(alive := false);
      return;
    }
    assert !HitsWall(res);
    after, sent := MultiTanks(player, other, enemies, b, localTeam, isHost, o);
  }

  /** The rest of that bullet's turn once no wall stopped it: the two players, then the NPCs. */
  method MultiTanks(player: Tank, other: Tank, enemies: seq<Enemy>, b: Bullet, localTeam: int, isHost: bool, ghost o: Outcome)
    returns (after: Bullet, sent: seq<NpcDamage>)
    requires b.alive && Distinct(enemies) && Snapshot(enemies) == o.npcs && player.health == o.playerHealth
    modifies player`health, enemies`health
    ensures var s := Sides(localTeam, old(player.Outline()), old(other.Outline()), isHost);
      var r := MultiStep(o, b, NoResult, s);
      after == Mark(b, MultiFate(b, NoResult, s, o.npcs)) && Snapshot(enemies) == r.npcs && player.health == r.playerHealth
      && o.sent + sent == r.sent
  {
    after, sent := b, [];
    var isLocalPlayerBullet := b.owner == PlayerOwned;
    var canHitLocalPlayer := !isLocalPlayerBullet && (b.team == 0 || b.team != localTeam);
    if canHitLocalPlayer && Touches(b.position, player.Outline()) {
      player.TakeDamage(b.damage);
      after := b.(alive := false);
      return;
    }
    var canHitOtherPlayer := isLocalPlayerBullet || b.team == localTeam;
    if canHitOtherPlayer && Touches(b.position, other.Outline()) {
      after := b.(alive := false);
      return;
    }
    var k := FirstStruck(Multiplayer(localTeam), b, enemies);
    if k.Some? {
      var npc := enemies[k.value];
      if isLocalPlayerBullet || (b.team != 0 && isHost) {
        var id := npc.id;
        Damage(enemies, k.value, npc, b.damage);
        sent := [NpcDamage(id, b.damage)];
      }
      after := b.(alive := false);
    }
  }

  /**
   * checkSinglePlayerCollisions.  Without a player nothing happens, spent
   * bullets included.  Otherwise every bullet meets the fate the
   * single-player pass gives it, in list order; the player and the enemies
   * keep the health the pass leaves; and the list keeps its live bullets
   * in order.  `walls` is what bulletHit returned for each bullet (false
   * for those skipped).
   */
  method CheckSinglePlayerCollisions(player: Tank?, enemies: seq<Enemy>, bullets: seq<Bullet>, maze: Maze)
    returns (kept: seq<Bullet>, ghost walls: seq<bool>)
    requires maze.Valid() && Distinct(enemies)
    modifies maze.walls, (if player == null then {} else {player})`health, enemies`health
    ensures maze.Valid()
    ensures player == null ==> kept == bullets && unchanged(maze.walls) && Snapshot(enemies) == old(Snapshot(enemies))
    ensures player != null ==>
      walls == WallAnswers(old(maze.Cells()), bullets) && maze.Cells() == AfterBullets(old(maze.Cells()), bullets)
      && var r := SinglePass(Start(old(Snapshot(enemies)), old(player.health)), bullets, walls, old(player.Outline()));
         kept == Live(Marked(bullets, r.fates)) && player.health == r.playerHealth && Snapshot(enemies) == r.npcs
  {
    if player == null {
      return bullets, [];
    }
    kept, walls := SinglePlayerPass(player, enemies, bullets, maze);
  }

  /** The loop of checkSinglePlayerCollisions and the erase after it. */
  method SinglePlayerPass(player: Tank, enemies: seq<Enemy>, bullets: seq<Bullet>, maze: Maze)
    returns (kept: seq<Bullet>, ghost walls: seq<bool>)
    requires maze.Valid() && Distinct(enemies)
    modifies maze.walls, player`health, enemies`health
    ensures maze.Valid()
    ensures walls == WallAnswers(old(maze.Cells()), bullets) && maze.Cells() == AfterBullets(old(maze.Cells()), bullets)
    ensures var r := SinglePass(Start(old(Snapshot(enemies)), old(player.health)), bullets, walls, old(player.Outline()));
      kept == Live(Marked(bullets, r.fates)) && player.health == r.playerHealth && Snapshot(enemies) == r.npcs
  {
    ghost var start := Start(Snapshot(enemies), player.health);
    ghost var board := maze.Cells();
    var body := player.Outline();
    var marked: seq<Bullet> := [];
    walls := [];
    var i := 0;
    while i < |bullets|
      invariant 0 <= i <= |bullets| && maze.Valid()
      invariant walls == WallAnswers(board, bullets[..i]) && maze.Cells() == AfterBullets(board, bullets[..i])
      invariant SingleSoFar(player, enemies, start, body, bullets[..i], walls, marked)
    {
      AfterPrefix(board, bullets, i);
      marked, walls := SingleTurn(player, enemies, maze, start, body, bullets, i, walls, marked);
      i := i + 1;
    }
    assert bullets[..i] == bullets;
    kept := EraseInactive(marked);
  }

  /** The loop invariant of checkSinglePlayerCollisions, after the bullets bs. */
  predicate SingleSoFar(player: Tank, enemies: seq<Enemy>, start: Outcome, body: Body, bs: seq<Bullet>, walls: seq<bool>,
                        marked: seq<Bullet>)
    reads player, enemies
  {
    |walls| == |bs| && start.fates == [] && player.Outline() == body
    && var r := SinglePass(start, bs, walls, body);
       marked == Marked(bs, r.fates) && player.health == r.playerHealth && Snapshot(enemies) == r.npcs
  }

  /** One turn of that loop: the invariant after bullets[..i] becomes the invariant after bullets[..i + 1]. */
  method SingleTurn(player: Tank, enemies: seq<Enemy>, maze: Maze, ghost start: Outcome, body: Body,
                    bullets: seq<Bullet>, i: nat, ghost walls: seq<bool>, marked: seq<Bullet>)
    returns (marked': seq<Bullet>, ghost walls': seq<bool>)
    requires i < |bullets| && maze.Valid() && Distinct(enemies)
    requires SingleSoFar(player, enemies, start, body, bullets[..i], walls, marked)
    modifies maze.walls, player`health, enemies`health
    ensures maze.Valid()
    ensures maze.Cells() == AfterBullet(old(maze.Cells()), bullets[i])
    ensures walls' == walls + [bullets[i].alive && IsWallAt(old(maze.Cells()), WorldToGrid(bullets[i].position))]
    ensures SingleSoFar(player, enemies, start, body, bullets[..i + 1], walls', marked')
  {
    ghost var r := SinglePass(start, bullets[..i], walls, body);
    var after;
    ghost var wall;
    after, wall := SingleBullet(player, enemies, bullets[i], maze, r);
    assert bullets[..i + 1][..i] == bullets[..i];
    assert (walls + [wall])[..i] == walls;
    marked', walls' := marked + [after], walls + [wall];
  }

  /**
   * checkMultiplayerCollisions.  Without both players nothing happens.
   * Otherwise every bullet meets the fate the two-player pass gives it, in
   * list order, with the local team read once at the start; the player and
   * the NPCs keep the health the pass leaves, the player receives the wall
   * rewards, `sent` holds the sendNpcDamage messages in order, and the list
   * keeps its live bullets in order.  `results` is what
   * bulletHitWithResult returned for each bullet (the default result for
   * those skipped).
   */
  method CheckMultiplayerCollisions(player: Tank?, otherPlayer: Tank?, enemies: seq<Enemy>, bullets: seq<Bullet>,
                                    maze: Maze, isHost: bool)
    returns (kept: seq<Bullet>, sent: seq<NpcDamage>, ghost results: seq<WallDestroyResult>)
    requires maze.Valid() && Distinct(enemies)
    modifies maze.walls, (if player == null then {} else {player})`health, (if player == null then {} else {player})`effects
    modifies enemies`health
    ensures maze.Valid()
    ensures player == null || otherPlayer == null ==>
      kept == bullets && sent == [] && unchanged(maze.walls) && Snapshot(enemies) == old(Snapshot(enemies))
    ensures player != null && otherPlayer != null ==>
      results == WallResults(old(maze.Cells()), bullets) && maze.Cells() == AfterBullets(old(maze.Cells()), bullets)
      && var s := Sides(old(player.team), old(player.Outline()), old(otherPlayer.Outline()), isHost);
         var r := MultiPass(Start(old(Snapshot(enemies)), old(player.health)), bullets, results, s);
         kept == Live(Marked(bullets, r.fates)) && player.health == r.playerHealth && Snapshot(enemies) == r.npcs
         && player.effects == old(player.effects) + r.rewards && sent == r.sent
  {
    if player == null || otherPlayer == null {
      return bullets, [], [];
    }
    kept, sent, results := MultiplayerPass(player, otherPlayer, enemies, bullets, maze, isHost);
  }

  /** The loop of checkMultiplayerCollisions and the erase after it. */
  method MultiplayerPass(player: Tank, otherPlayer: Tank, enemies: seq<Enemy>, bullets: seq<Bullet>, maze: Maze, isHost: bool)
    returns (kept: seq<Bullet>, sent: seq<NpcDamage>, ghost results: seq<WallDestroyResult>)
    requires maze.Valid() && Distinct(enemies)
    modifies maze.walls, player`health, player`effects, enemies`health
    ensures maze.Valid()
    ensures results == WallResults(old(maze.Cells()), bullets) && maze.Cells() == AfterBullets(old(maze.Cells()), bullets)
    ensures var s := Sides(old(player.team), old(player.Outline()), old(otherPlayer.Outline()), isHost);
      var r := MultiPass(Start(old(Snapshot(enemies)), old(player.health)), bullets, results, s);
      kept == Live(Marked(bullets, r.fates)) && player.health == r.playerHealth && Snapshot(enemies) == r.npcs
      && player.effects == old(player.effects) + r.rewards && sent == r.sent
  {
    var localTeam := player.team;
    ghost var start := Start(Snapshot(enemies), player.health);
    var s := Sides(localTeam, player.Outline(), otherPlayer.Outline(), isHost);
    ghost var effects0 := player.effects;
    ghost var board := maze.Cells();
    var marked: seq<Bullet> := [];
    sent, results := [], [];
    var i := 0;
    while i < |bullets|
      invariant 0 <= i <= |bullets| && maze.Valid()
      invariant results == WallResults(board, bullets[..i]) && maze.Cells() == AfterBullets(board, bullets[..i])
      invariant MultiSoFar(player, otherPlayer, enemies, start, s, effects0, bullets[..i], results, marked, sent)
    {
      AfterPrefix(board, bullets, i);
      marked, sent, results := MultiTurn(player, otherPlayer, enemies, maze, start, s, effects0, bullets, i, results,
                                         marked, sent);
      i := i + 1;
    }
    assert bullets[..i] == bullets;
    kept := EraseInactive(marked);
  }

  /** The loop invariant of checkMultiplayerCollisions, after the bullets bs. */
  predicate MultiSoFar(player: Tank, otherPlayer: Tank, enemies: seq<Enemy>, start: Outcome, s: Sides, effects0: seq<Effect>,
                       bs: seq<Bullet>, results: seq<WallDestroyResult>, marked: seq<Bullet>, sent: seq<NpcDamage>)
    reads player, otherPlayer, enemies
  {
    |results| == |bs| && start.fates == []
    && player.Outline() == s.player && otherPlayer.Outline() == s.other && player.team == s.localTeam
    && var r := MultiPass(start, bs, results, s);
       marked == Marked(bs, r.fates) && player.health == r.playerHealth && Snapshot(enemies) == r.npcs
       && player.effects == effects0 + r.rewards && sent == r.sent
  }

  /** One turn of that loop: the invariant after bullets[..i] becomes the invariant after bullets[..i + 1]. */
  method MultiTurn(player: Tank, otherPlayer: Tank, enemies: seq<Enemy>, maze: Maze, ghost start: Outcome,
                   s: Sides, ghost effects0: seq<Effect>, bullets: seq<Bullet>, i: nat, ghost results: seq<WallDestroyResult>,
                   marked: seq<Bullet>, sent: seq<NpcDamage>)
    returns (marked': seq<Bullet>, sent': seq<NpcDamage>, ghost results': seq<WallDestroyResult>)
    requires i < |bullets| && maze.Valid() && Distinct(enemies)
    requires MultiSoFar(player, otherPlayer, enemies, start, s, effects0, bullets[..i], results, marked, sent)
    modifies maze.walls, player`health, player`effects, enemies`health
    ensures maze.Valid()
    ensures maze.Cells() == AfterBullet(old(maze.Cells()), bullets[i])
    ensures results' == results +
      [if bullets[i].alive then HitResult(old(maze.Cells()), WorldToGrid(bullets[i].position), bullets[i].damage) else NoResult]
    ensures MultiSoFar(player, otherPlayer, enemies, start, s, effects0, bullets[..i + 1], results', marked', sent')
  {
    ghost var r := MultiPass(start, bullets[..i], results, s);
    var after, more;
    ghost var res;
    after, more, res := MultiBullet(player, otherPlayer, enemies, bullets[i], maze, s.localTeam, s.isHost, r);
    assert bullets[..i + 1][..i] == bullets[..i];
    assert (results + [res])[..i] == results;
    marked', sent', results' := marked + [after], sent + more, results + [res];
  }
}

/**
 * The raycasting game's controller: the fixed 8 x 8 occupancy grid, the
 * grid-cell half of the ray caster, the collision-gated moves, firing with
 * its cooldown, and the per-tick timers of the muzzle flash, the cooldown
 * and the bullet impacts.
 *
 * Floating-point geometry stays outside: positions are exact reals, the
 * (cos, sin) of an angle is supplied by the caller, and the ray caster is
 * given the grid cells and distances its march passes through.
 */
module Raycast {
  import opened Wrappers
  import opened LedMatrix

  /** Width of the rendered view in pixels (GAME_WIDTH). */
  const GameWidth: int := 320

  /** The world: 1 is a wall, 0 is empty; Grid[y][x]. */
  const Grid: seq<seq<int>> := [
    [1, 1, 1, 1, 1, 1, 1, 1],
    [1, 0, 0, 0, 0, 0, 0, 1],
    [1, 0, 1, 0, 0, 1, 0, 1],
    [1, 0, 0, 0, 0, 0, 0, 1],
    [1, 0, 1, 0, 0, 1, 0, 1],
    [1, 0, 0, 0, 0, 0, 0, 1],
    [1, 0, 0, 1, 1, 0, 0, 1],
    [1, 1, 1, 1, 1, 1, 1, 1]
  ]

  const StartX: real := 3.5
  const StartY: real := 3.5
  const MoveSpeed: real := 0.05
  const RotSpeed: real := 0.05
  /** np.pi / 2 as a double. */
  const HalfPi: real := 1.5707963267948966

  /** Steps of one ray march. */
  const MaxSteps: int := 200
  /** Farthest point a march reaches: MaxSteps steps of 0.02 cells. */
  const MaxRayDistance: real := 4.0
  /** Distance reported when the march meets no wall. */
  const NoHitDistance: real := 100.0
  /** A shot leaves an impact when the ray's distance is below this. */
  const HitRange: real := 10.0

  const FlashTicks: int := 5
  const CooldownTicks: int := 10
  const ImpactTicks: int := 10
  /** Shots are always centred in the view. */
  const ImpactColumn: int := GameWidth / 2

  /** The map is 8 x 8, walled all round, and the start cell (3, 3) is empty. */
  lemma GridShape()
    ensures |Grid| == 8
    ensures forall y :: 0 <= y < 8 ==> |Grid[y]| == 8
    ensures forall k :: 0 <= k < 8 ==>
      Grid[0][k] == 1 && Grid[7][k] == 1 && Grid[k][0] == 1 && Grid[k][7] == 1
    ensures Grid[3][3] == 0
  {
    forall k | 0 <= k < 8
      ensures |Grid[k]| == 8 && Grid[0][k] == 1 && Grid[7][k] == 1 && Grid[k][0] == 1 && Grid[k][7] == 1
    {
      assert k in {0, 1, 2, 3, 4, 5, 6, 7};
    }
  }

  /** The bounds test of the ray caster, against the first row's length. */
  predicate InMap(x: int, y: int) {
    0 <= y < |Grid| && 0 <= x < |Grid[0]|
  }

  function CellValue(x: int, y: int): int
    requires InMap(x, y)
  {
    GridShape();
    Grid[y][x]
  }

  /** Every empty cell lies strictly inside the border. */
  lemma EmptyCellsInterior(x: int, y: int)
    requires InMap(x, y) && CellValue(x, y) == 0
    ensures 1 <= x <= 6 && 1 <= y <= 6
  {
    GridShape();
  }

  // ---------------------------------------------------------------- ray caster

  /** A cell stops a ray when it is inside the map and holds a wall. */
  predicate IsWallCell(c: Point) {
    InMap(c.x, c.y) && CellValue(c.x, c.y) == 1
  }

  /** The step at which a march first lands on a wall cell, if any. */
  function FirstWall(cells: seq<Point>): (k: Option<nat>)
    ensures k.Some? ==>
      k.value < |cells| && IsWallCell(cells[k.value]) &&
      forall j :: 0 <= j < k.value ==> !IsWallCell(cells[j])
    ensures k.None? ==> forall j :: 0 <= j < |cells| ==> !IsWallCell(cells[j])
  {
    if cells == [] then None
    else if IsWallCell(cells[0]) then Some(0)
    else match FirstWall(cells[1..])
      case Some(k) => Some(k + 1)
      case None => None
  }

  /**
   * The grid lookup of cast_ray. cells[k] is the cell the march is in after
   * step k + 1 (its coordinates truncated) and dists[k] the distance from the
   * origin to that point. The first wall cell wins and reports its parity;
   * a march that meets no wall reports (NoHitDistance, 0).
   */
  method CastRay(cells: seq<Point>, dists: seq<real>) returns (dist: real, surface: int)
    requires |cells| == MaxSteps && |dists| == MaxSteps
    ensures surface == 0 || surface == 1
    ensures FirstWall(cells).Some? ==>
      var k := FirstWall(cells).value;
      dist == dists[k] && surface == (cells[k].x + cells[k].y) % 2
    ensures FirstWall(cells).None? ==> dist == NoHitDistance && surface == 0
    ensures (forall k :: 0 <= k < |dists| ==> dists[k] <= MaxRayDistance) ==>
      (dist < HitRange <==> FirstWall(cells).Some?)
  {
    for k := 0 to MaxSteps
      invariant forall j :: 0 <= j < k ==> !IsWallCell(cells[j])
    {
      var mapX, mapY := cells[k].x, cells[k].y;
      if 0 <= mapY < |Grid| && 0 <= mapX < |Grid[0]| && CellValue(mapX, mapY) == 1 {
        return dists[k], (mapX + mapY) % 2;
      }
    }
    return NoHitDistance, 0;
  }

  // ---------------------------------------------------------------- movement

  /** A position (or a direction) in grid-cell units. */
  datatype Vec = Vec(x: real, y: real)

  /** Python's int() on a float: truncation toward zero. */
  function Trunc(v: real): (n: int)
    ensures v >= 0.0 ==> n as real <= v < n as real + 1.0
    ensures v < 0.0 ==> n as real - 1.0 < v <= n as real
  {
    if v >= 0.0 then v.Floor else -((-v).Floor)
  }

  /** The cell holding p is inside the map and empty. */
  predicate EmptyAt(p: Vec) {
    InMap(Trunc(p.x), Trunc(p.y)) && CellValue(Trunc(p.x), Trunc(p.y)) == 0
  }

  /** dest is at most one move step from p along each axis. */
  predicate Near(p: Vec, dest: Vec) {
    -MoveSpeed <= dest.x - p.x <= MoveSpeed && -MoveSpeed <= dest.y - p.y <= MoveSpeed
  }

  /** A (cos, sin) pair: both components in [-1, 1]. */
  predicate Bounded(u: Vec) {
    -1.0 <= u.x <= 1.0 && -1.0 <= u.y <= 1.0
  }

  /** From an empty cell, one move step never leaves the map. */
  lemma NearStaysInMap(p: Vec, dest: Vec)
    requires EmptyAt(p) && Near(p, dest)
    ensures InMap(Trunc(dest.x), Trunc(dest.y))
  {
    EmptyCellsInterior(Trunc(p.x), Trunc(p.y));
  }

  /**
   * One move: the player goes to dest when dest's cell is empty and stays
   * put otherwise, so the player's cell stays empty.
   */
  function Commit(p: Vec, dest: Vec): (r: Vec)
    requires EmptyAt(p) && Near(p, dest)
    ensures EmptyAt(r)
    ensures r == dest || r == p
  {
    NearStaysInMap(p, dest);
    if CellValue(Trunc(dest.x), Trunc(dest.y)) == 0 then dest else p
  }

  /** A move into a wall cell is rejected and leaves the position exactly as it was. */
  lemma MoveIntoWallRejected(p: Vec, dest: Vec)
    requires EmptyAt(p) && Near(p, dest)
    requires IsWallCell(Point(Trunc(dest.x), Trunc(dest.y)))
    ensures Commit(p, dest) == p
  {
  }

  /** A move whose destination cell is empty is committed. */
  lemma MoveIntoEmptyCommitted(p: Vec, dest: Vec)
    requires EmptyAt(p) && Near(p, dest) && EmptyAt(dest)
    ensures Commit(p, dest) == dest
  {
  }

  /**
   * The proposed destination (new_x, new_y): one move step from p along
   * direction u, forwards or backwards. For a (cos, sin) direction it is at
   * most MoveSpeed away on each axis, and stepping back undoes stepping forward.
   */
  function Step(p: Vec, u: Vec, forward: bool): (r: Vec)
    ensures Bounded(u) ==> Near(p, r)
    ensures !forward ==> Vec(r.x + u.x * MoveSpeed, r.y + u.y * MoveSpeed) == p
  {
    if forward then Vec(p.x + u.x * MoveSpeed, p.y + u.y * MoveSpeed)
    else Vec(p.x - u.x * MoveSpeed, p.y - u.y * MoveSpeed)
  }

  /** The pressed keys of one tick. */
  datatype Keys = Keys(left: bool, right: bool, up: bool, down: bool,
                       strafeLeft: bool, strafeRight: bool, fire: bool)

  /**
   * One move branch: when its key is pressed the player tries the step along
   * u (backwards when not forward) and the move is committed or rejected.
   */
  function Move(p: Vec, pressed: bool, u: Vec, forward: bool): (r: Vec)
    requires EmptyAt(p) && Bounded(u)
    ensures EmptyAt(r)
  {
    if pressed then Commit(p, Step(p, u, forward)) else p
  }

  /**
   * The four moves of one tick, in order: forward and back along heading h,
   * strafes along hl (heading - pi/2) and hr (heading + pi/2). Each is
   * committed or rejected on its own.
   */
  function Steer(p: Vec, keys: Keys, h: Vec, hl: Vec, hr: Vec): (r: Vec)
    requires EmptyAt(p) && Bounded(h) && Bounded(hl) && Bounded(hr)
    ensures EmptyAt(r)
  {
    var p1 := Move(p, keys.up, h, true);
    var p2 := Move(p1, keys.down, h, false);
    var p3 := Move(p2, keys.strafeLeft, hl, true);
    Move(p3, keys.strafeRight, hr, true)
  }

  // ---------------------------------------------------------------- timers

  /** A bullet impact: the view column it is drawn at and its remaining ticks. */
  datatype Impact = Impact(column: int, timer: int)

  /** One tick of a timer: a positive timer drops by one, any other stays. */
  function CountDown(t: int): (r: int)
    ensures t > 0 ==> r == t - 1
    ensures t <= 0 ==> r == t
    ensures t >= 0 ==> 0 <= r <= t
  {
    if t > 0 then t - 1 else t
  }

  /**
   * The in-place pass over the impact list: every impact keeps its column and
   * its place, and one with a positive timer drops by exactly one.
   */
  function TickAll(s: seq<Impact>): (r: seq<Impact>)
    ensures |r| == |s|
    ensures forall i :: 0 <= i < |s| ==>
      r[i].column == s[i].column && (s[i].timer > 0 ==> r[i].timer == s[i].timer - 1) &&
      (s[i].timer <= 0 ==> r[i].timer == s[i].timer)
  {
    seq(|s|, i requires 0 <= i < |s| => s[i].(timer := CountDown(s[i].timer)))
  }

  /** The impacts kept after a tick: those with a positive timer, in their order. */
  function Survivors(s: seq<Impact>): (r: seq<Impact>)
    ensures |r| <= |s|
    ensures forall imp :: imp in r <==> imp in s && imp.timer > 0
  {
    if s == [] then []
    else (if s[0].timer > 0 then [s[0]] else []) + Survivors(s[1..])
  }

  /** Filtering keeps relative order: it distributes over concatenation. */
  lemma {:induction false} SurvivorsAppend(a: seq<Impact>, b: seq<Impact>)
    ensures Survivors(a + b) == Survivors(a) + Survivors(b)
  {
    if a == [] {
      assert a + b == b;
    } else {
      assert (a + b)[1..] == a[1..] + b;
      SurvivorsAppend(a[1..], b);
    }
  }

  /**
   * Radius of an impact's highlight with `timer` ticks left:
   * max(2, int(5 * timer / 10)), Python's true division then truncation.
   * It shrinks as the impact ages and stays within [2, 5].
   */
  function ImpactSize(timer: int): (r: int)
    ensures 0 <= timer <= ImpactTicks ==> 2 <= r <= 5
  {
    var scaled := Trunc((5 * timer) as real / 10.0);
    if scaled > 2 then scaled else 2
  }

  lemma ImpactSizeShrinks(t1: int, t2: int)
    requires 0 <= t1 <= t2
    ensures ImpactSize(t1) <= ImpactSize(t2)
  {
    assert (5 * t1) as real / 10.0 <= (5 * t2) as real / 10.0;
  }

  // ---------------------------------------------------------------- the game

  class RaycastGame {
    var playerX: real
    var playerY: real
    var playerAngle: real
    var shooting: bool
    var muzzleFlashTimer: int
    var shotCooldown: int
    var bulletImpacts: seq<Impact>

    /**
     * The player stands in an empty cell, the timers stay within the values
     * firing sets, and every live impact is centred with 1 to ImpactTicks ticks left.
     */
    ghost predicate Valid()
      reads this
    {
      EmptyAt(Pos()) &&
      0 <= muzzleFlashTimer <= FlashTicks &&
      0 <= shotCooldown <= CooldownTicks &&
      forall i :: 0 <= i < |bulletImpacts| ==>
        bulletImpacts[i].column == ImpactColumn && 1 <= bulletImpacts[i].timer <= ImpactTicks
    }

    function Pos(): Vec
      reads this
    {
      Vec(playerX, playerY)
    }

    constructor ()
      ensures Valid()
      ensures playerX == StartX && playerY == StartY && playerAngle == 0.0
      ensures !shooting && muzzleFlashTimer == 0 && shotCooldown == 0 && bulletImpacts == []
    {
      playerX, playerY, playerAngle := StartX, StartY, 0.0;
      shooting := false;
      muzzleFlashTimer, shotCooldown := 0, 0;
      bulletImpacts := [];
      GridShape();
    }

    /** One move branch of handle_input: commit (newX, newY) if its cell is empty. */
    method CommitMove(newX: real, newY: real)
      requires Valid() && Near(Pos(), Vec(newX, newY))
      modifies this`playerX, this`playerY
      ensures Valid()
      ensures Pos() == Commit(old(Pos()), Vec(newX, newY))
    {
      NearStaysInMap(Pos(), Vec(newX, newY));
      if CellValue(Trunc(newX), Trunc(newY)) == 0 {
        playerX := newX;
        playerY := newY;
      }
    }

    /** A pressed move key: new_x, new_y one step along u (backwards when not forward), then the commit. */
    method TryStep(u: Vec, forward: bool)
      requires Valid() && Bounded(u)
      modifies this`playerX, this`playerY
      ensures Valid()
      ensures Pos() == Move(old(Pos()), true, u, forward)
    {
      var dest := Step(Pos(), u, forward);
      CommitMove(dest.x, dest.y);
    }

    /** The four move branches of handle_input, each committed or rejected on its own. */
    method MovePlayer(keys: Keys, h: Vec, hl: Vec, hr: Vec)
      requires Valid() && Bounded(h) && Bounded(hl) && Bounded(hr)
      modifies this`playerX, this`playerY
      ensures Valid()
      ensures Pos() == Steer(old(Pos()), keys, h, hl, hr)
    {
      ghost var p0 := Pos();
      if keys.up {
        TryStep(h, true);
      }
      ghost var p1 := Pos();
      assert p1 == Move(p0, keys.up, h, true);
      if keys.down {
        TryStep(h, false);
      }
      ghost var p2 := Pos();
      assert p2 == Move(p1, keys.down, h, false);
      if keys.strafeLeft {
        TryStep(hl, true);
      }
      ghost var p3 := Pos();
      assert p3 == Move(p2, keys.strafeLeft, hl, true);
      if keys.strafeRight {
        TryStep(hr, true);
      }
      assert Pos() == Move(p3, keys.strafeRight, hr, true);
    }

    /**
     * Fires: sets the flash and cooldown timers and, when the centre ray's
     * distance is below HitRange, adds one fresh centred impact.
     */
    method Shoot(rayDist: real)
      requires Valid()
      modifies this`shooting, this`muzzleFlashTimer, this`shotCooldown, this`bulletImpacts
      ensures Valid()
      ensures shooting && muzzleFlashTimer == FlashTicks && shotCooldown == CooldownTicks
      ensures bulletImpacts ==
        old(bulletImpacts) + if rayDist < HitRange then [Impact(ImpactColumn, ImpactTicks)] else []
    {
      shooting := true;
      muzzleFlashTimer := FlashTicks;
      shotCooldown := CooldownTicks;
      if rayDist < HitRange {
        var impactX := GameWidth / 2;
        bulletImpacts := bulletImpacts + [Impact(impactX, ImpactTicks)];
      }
    }

    /**
     * One tick of input. `unit` gives (cos a, sin a) for an angle a; rayDist is
     * the distance cast_ray reports along the heading, used only when firing.
     */
    method HandleInput(keys: Keys, unit: real -> Vec, rayDist: real)
      requires Valid()
      requires forall a :: Bounded(unit(a))
      modifies this
      ensures Valid()
      ensures playerAngle ==
        old(playerAngle) - (if keys.left then RotSpeed else 0.0) + (if keys.right then RotSpeed else 0.0)
      ensures Pos() == Steer(old(Pos()), keys, unit(playerAngle), unit(playerAngle - HalfPi), unit(playerAngle + HalfPi))
      ensures if keys.fire && old(shotCooldown) == 0 then
          shooting && muzzleFlashTimer == FlashTicks && shotCooldown == CooldownTicks &&
          bulletImpacts == old(bulletImpacts) + if rayDist < HitRange then [Impact(ImpactColumn, ImpactTicks)] else []
        else
          shooting == old(shooting) && muzzleFlashTimer == old(muzzleFlashTimer) &&
          shotCooldown == old(shotCooldown) && bulletImpacts == old(bulletImpacts)
    {
      if keys.left {
        playerAngle := playerAngle - RotSpeed;
      }
      if keys.right {
        playerAngle := playerAngle + RotSpeed;
      }
      var h, hl, hr := unit(playerAngle), unit(playerAngle - HalfPi), unit(playerAngle + HalfPi);
      MovePlayer(keys, h, hl, hr);
      if keys.fire && shotCooldown == 0 {
        Shoot(rayDist);
      }
    }

    /**
     * One tick of the timers: the flash, the cooldown and every impact's timer
     * count down, then expired impacts are dropped.
     */
    method UpdateTimers()
      requires Valid()
      modifies this`muzzleFlashTimer, this`shotCooldown, this`bulletImpacts
      ensures Valid()
      ensures muzzleFlashTimer == CountDown(old(muzzleFlashTimer))
      ensures shotCooldown == CountDown(old(shotCooldown))
      ensures bulletImpacts == Survivors(TickAll(old(bulletImpacts)))
      ensures forall imp :: imp in bulletImpacts ==> 1 <= imp.timer < ImpactTicks
    {
      if muzzleFlashTimer > 0 {
        muzzleFlashTimer := muzzleFlashTimer - 1;
      }
      if shotCooldown > 0 {
        shotCooldown := shotCooldown - 1;
      }
      var i := 0;
      while i < |bulletImpacts|
        invariant 0 <= i <= |bulletImpacts| == |old(bulletImpacts)|
        invariant bulletImpacts[..i] == TickAll(old(bulletImpacts))[..i]
        invariant bulletImpacts[i..] == old(bulletImpacts)[i..]
        invariant muzzleFlashTimer == CountDown(old(muzzleFlashTimer))
        invariant shotCooldown == CountDown(old(shotCooldown))
      {
        if bulletImpacts[i].timer > 0 {
          bulletImpacts := bulletImpacts[i := bulletImpacts[i].(timer := bulletImpacts[i].timer - 1)];
        }
        i := i + 1;
      }
      assert bulletImpacts == TickAll(old(bulletImpacts));
      bulletImpacts := Survivors(bulletImpacts);
    }
  }

  /**
   * Firing twice within the cooldown window: the second request is ignored,
   * so exactly one impact exists and the cooldown has run down by one tick.
   */
  method FireTwiceWithinCooldown(unit: real -> Vec, rayDist: real) returns (impacts: nat, cooldown: int)
    requires forall a :: Bounded(unit(a))
    requires rayDist < HitRange
    ensures impacts == 1 && cooldown == CooldownTicks - 1
  {
    var game := new RaycastGame();
    var fire := Keys(false, false, false, false, false, false, true);
    game.HandleInput(fire, unit, rayDist);
    game.UpdateTimers();
    game.HandleInput(fire, unit, rayDist);
    impacts, cooldown := |game.bulletImpacts|, game.shotCooldown;
  }
}

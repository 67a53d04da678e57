/** Player-block collision (`collision.rs`) in fixed point: 10000 units make a block, so every constant of the source is
    a whole number of units and its epsilon comparisons are equalities. */
module Collision {

  const UNIT: int := 10000
  const PLAYER_HALF_WIDTH: int := 3000
  const PLAYER_HEIGHT: int := 18000
  const SURFACE_EPS: int := 1
  const PROBE_DEPTH: int := 500
  const MAX_HORIZONTAL_STEP: int := 32 * UNIT
  const MAX_FALL_BLOCKS: int := 64
  const MAX_FALL: int := MAX_FALL_BLOCKS * UNIT
  const MAX_RISE: int := 2 * UNIT
  const GAMEMODE_SPECTATOR: int := 3

  const AIR_BLOCK_STATE: int := 0
  const WATER_BLOCK_STATE: int := 80
  const WATER_STATE_MAX: int := 95
  const LAVA_BLOCK_STATE: int := 96
  const LAVA_STATE_MAX: int := 111

  /** The block states of one dimension. */
  type World = (int, int, int) -> int

  predicate IsFluid(state: int) {
    WATER_BLOCK_STATE <= state <= WATER_STATE_MAX || LAVA_BLOCK_STATE <= state <= LAVA_STATE_MAX
  }

  predicate IsSolid(state: int) {
    state != AIR_BLOCK_STATE && !IsFluid(state)
  }

  datatype Position = Position(x: int, y: int, z: int)
  datatype CollisionResult = CollisionResult(at: Position, onGround: bool, corrected: bool)
  datatype Aabb = Aabb(minX: int, minY: int, minZ: int, maxX: int, maxY: int, maxZ: int)

  function FromFeet(p: Position): Aabb {
    Aabb(p.x - PLAYER_HALF_WIDTH, p.y, p.z - PLAYER_HALF_WIDTH,
         p.x + PLAYER_HALF_WIDTH, p.y + PLAYER_HEIGHT, p.z + PLAYER_HALF_WIDTH)
  }

  /** The open interval `(min, max)` meets the open block `(b, b + 1)` along one axis. */
  predicate Meets(min: int, max: int, b: int) {
    min < (b + 1) * UNIT && b * UNIT < max
  }

  predicate OverlapsBlock(box: Aabb, bx: int, level: int, bz: int) {
    Meets(box.minX, box.maxX, bx) && Meets(box.minY, box.maxY, level) && Meets(box.minZ, box.maxZ, bz)
  }

  function Floor(v: int): int {
    v / UNIT
  }

  function RangeStart(min: int): int {
    Floor(min)
  }

  function RangeEnd(min: int, max: int): int {
    var end := if max % UNIT == 0 then max / UNIT - 1 else Floor(max);
    if end < RangeStart(min) then RangeStart(min) else end
  }

  /** `block_range` lists exactly the blocks a box meets along an axis. */
  lemma RangeExact(min: int, max: int, b: int)
    requires min < max
    ensures RangeStart(min) <= b <= RangeEnd(min, max) <==> Meets(min, max, b)
  {
  }

  // ---------------------------------------------------------------------------
  // What a position touches
  // ---------------------------------------------------------------------------

  predicate InFootprint(p: Position, bx: int, bz: int) {
    && Meets(p.x - PLAYER_HALF_WIDTH, p.x + PLAYER_HALF_WIDTH, bx)
    && Meets(p.z - PLAYER_HALF_WIDTH, p.z + PLAYER_HALF_WIDTH, bz)
  }

  /** Some solid block of layer `level` lies under or beside the player's footprint. */
  ghost predicate LayerSolid(world: World, p: Position, level: int) {
    exists bx, bz :: InFootprint(p, bx, bz) && IsSolid(world(bx, level, bz))
  }

  predicate InBody(y: int, level: int) {
    Meets(y, y + PLAYER_HEIGHT, level)
  }

  /** The player's box at `p` overlaps no solid block. */
  ghost predicate Clear(world: World, p: Position) {
    forall level :: InBody(p.y, level) ==> !LayerSolid(world, p, level)
  }

  ghost predicate HitsSolid(world: World, box: Aabb) {
    exists bx, level, bz :: OverlapsBlock(box, bx, level, bz) && IsSolid(world(bx, level, bz))
  }

  lemma ClearMeansNoHit(world: World, p: Position)
    ensures Clear(world, p) <==> !HitsSolid(world, FromFeet(p))
  {
    var box := FromFeet(p);
    if !Clear(world, p) {
      var level :| InBody(p.y, level) && LayerSolid(world, p, level);
      var bx, bz :| InFootprint(p, bx, bz) && IsSolid(world(bx, level, bz));
      assert OverlapsBlock(box, bx, level, bz);
    }
    if HitsSolid(world, box) {
      var bx, level, bz :| OverlapsBlock(box, bx, level, bz) && IsSolid(world(bx, level, bz));
      assert InFootprint(p, bx, bz) && InBody(p.y, level);
    }
  }

  /** Only the footprint matters for a layer, not the height. */
  lemma SameFootprint(world: World, p: Position, q: Position, level: int)
    requires p.x == q.x && p.z == q.z
    ensures LayerSolid(world, p, level) <==> LayerSolid(world, q, level)
  {
    if LayerSolid(world, p, level) {
      var bx, bz :| InFootprint(p, bx, bz) && IsSolid(world(bx, level, bz));
      assert InFootprint(q, bx, bz);
    }
    if LayerSolid(world, q, level) {
      var bx, bz :| InFootprint(q, bx, bz) && IsSolid(world(bx, level, bz));
      assert InFootprint(p, bx, bz);
    }
  }

  // ---------------------------------------------------------------------------
  // The resolver as a function of the world
  // ---------------------------------------------------------------------------

  function OnTopOf(p: Position, level: int): Position {
    p.(y := (level + 1) * UNIT + SURFACE_EPS)
  }

  /** The first layer from `level` down to `lowest` that is solid and has room on top decides, if there is one. */
  ghost function SnapFrom(world: World, p: Position, level: int, lowest: int): int
    decreases level - lowest
  {
    if level < lowest then p.y
    else if LayerSolid(world, p, level) && Clear(world, OnTopOf(p, level)) then OnTopOf(p, level).y
    else SnapFrom(world, p, level - 1, lowest)
  }

  /** `snap_to_ground`, searching from the height of `p`. */
  ghost function SnapToGround(world: World, p: Position): int {
    SnapFrom(world, p, Floor(p.y), Floor(p.y) - MAX_FALL_BLOCKS)
  }

  function Clamp(v: int, low: int, high: int): int
    requires low <= high
  {
    if v < low then low else if v > high then high else v
  }

  /** The proposal, limited to a step the server accepts. */
  function Target(from: Position, to: Position): Position {
    Position(from.x + Clamp(to.x - from.x, -MAX_HORIZONTAL_STEP, MAX_HORIZONTAL_STEP),
             from.y + Clamp(to.y - from.y, -MAX_FALL, MAX_RISE),
             from.z + Clamp(to.z - from.z, -MAX_HORIZONTAL_STEP, MAX_HORIZONTAL_STEP))
  }

  ghost function MoveX(world: World, from: Position, x: int): Position {
    if x != from.x && !Clear(world, from.(x := x)) then from else from.(x := x)
  }

  ghost function MoveZ(world: World, from: Position, z: int): Position {
    if z != from.z && !Clear(world, from.(z := z)) then from else from.(z := z)
  }

  ghost function MoveY(world: World, from: Position, y: int): Position {
    if y == from.y || Clear(world, from.(y := y)) then from.(y := y)
    else if y < from.y then from.(y := SnapToGround(world, from))
    else from
  }

  ghost function MoveHorizontally(world: World, from: Position, to: Position): Position {
    MoveZ(world, MoveX(world, from, Target(from, to).x), Target(from, to).z)
  }

  /** After the three axes, before the push-up. */
  ghost function MoveAxes(world: World, from: Position, to: Position): Position {
    MoveY(world, MoveHorizontally(world, from, to), Target(from, to).y)
  }

  ghost function PushUp(world: World, p: Position): Position {
    if Clear(world, p) then p else p.(y := SnapToGround(world, p.(y := p.y + PLAYER_HEIGHT)))
  }

  /** `standing_on_ground`. */
  ghost predicate OnGround(world: World, p: Position) {
    LayerSolid(world, p, Floor(p.y - PROBE_DEPTH))
  }

  /** `resolve_movement`. */
  ghost function Resolve(world: World, from: Position, to: Position, gamemode: int): CollisionResult {
    if gamemode == GAMEMODE_SPECTATOR then CollisionResult(to, false, false)
    else
      var at := PushUp(world, MoveAxes(world, from, to));
      CollisionResult(at, OnGround(world, at), at != to)
  }

  // ---------------------------------------------------------------------------
  // Landing
  // ---------------------------------------------------------------------------

  /** No solid in the footprint between the top of `layer` and `p`: then a player fits on `layer`. */
  lemma RoomOnTop(world: World, p: Position, layer: int)
    requires Clear(world, p) && layer < Floor(p.y)
    requires forall b :: layer < b < Floor(p.y) ==> !LayerSolid(world, p, b)
    ensures Clear(world, OnTopOf(p, layer))
  {
    hide LayerSolid;
    var q := OnTopOf(p, layer);
    forall level | InBody(q.y, level) ensures !LayerSolid(world, q, level) {
      SameFootprint(world, p, q, level);
      assert layer < level <= layer + 2;
      assert level >= Floor(p.y) ==> InBody(p.y, level);
    }
  }

  /** Searching down from a clear position finds the highest solid layer below it. */
  lemma {:induction false} SnapFinds(world: World, p: Position, layer: int, level: int, lowest: int)
    requires Clear(world, p) && lowest <= layer <= level <= Floor(p.y) && layer < Floor(p.y)
    requires LayerSolid(world, p, layer)
    requires forall b :: layer < b < Floor(p.y) ==> !LayerSolid(world, p, b)
    ensures SnapFrom(world, p, level, lowest) == OnTopOf(p, layer).y
    decreases level - layer
  {
    hide LayerSolid, Clear;
    if level == layer {
      RoomOnTop(world, p, layer);
    } else {
      if level == Floor(p.y) {
        FeetLayerClear(world, p);
      }
      SnapFinds(world, p, layer, level - 1, lowest);
    }
  }

  lemma FeetLayerClear(world: World, p: Position)
    requires Clear(world, p)
    ensures !LayerSolid(world, p, Floor(p.y))
  {
    assert InBody(p.y, Floor(p.y));
  }

  /** The highest solid layer of the footprint in a non-empty stretch that has one. */
  lemma {:induction false} HighestSolid(world: World, p: Position, some: int, top: int) returns (layer: int)
    requires some < top && LayerSolid(world, p, some)
    ensures some <= layer < top && LayerSolid(world, p, layer)
    ensures forall b :: layer < b < top ==> !LayerSolid(world, p, b)
    decreases top - some
  {
    hide LayerSolid;
    if LayerSolid(world, p, top - 1) {
      layer := top - 1;
    } else {
      layer := HighestSolid(world, p, some, top - 1);
    }
  }

  /** A fall from a clear position into a solid is stopped by a solid layer between the target and the feet. */
  lemma FallHitsBelow(world: World, p: Position, y: int) returns (some: int)
    requires Clear(world, p) && y < p.y && !Clear(world, p.(y := y))
    ensures Floor(y) <= some < Floor(p.y) && LayerSolid(world, p, some)
  {
    hide LayerSolid;
    var q := p.(y := y);
    some :| InBody(y, some) && LayerSolid(world, q, some);
    SameFootprint(world, p, q, some);
    assert some >= Floor(p.y) ==> InBody(p.y, some);
  }

  /** Landing, exactly: on the highest solid layer of the footprint below the feet. */
  lemma FallLands(world: World, p: Position, y: int) returns (layer: int)
    requires Clear(world, p) && p.y - MAX_FALL <= y < p.y && !Clear(world, p.(y := y))
    ensures layer < Floor(p.y) && LayerSolid(world, p, layer)
    ensures forall b :: layer < b < Floor(p.y) ==> !LayerSolid(world, p, b)
    ensures MoveY(world, p, y) == OnTopOf(p, layer) && Clear(world, OnTopOf(p, layer))
    ensures y < OnTopOf(p, layer).y <= p.y + SURFACE_EPS
  {
    hide LayerSolid, Clear;
    var some := FallHitsBelow(world, p, y);
    layer := HighestSolid(world, p, some, Floor(p.y));
    SnapFinds(world, p, layer, Floor(p.y), Floor(p.y) - MAX_FALL_BLOCKS);
    RoomOnTop(world, p, layer);
  }

  lemma StandsOn(world: World, p: Position, layer: int)
    requires LayerSolid(world, p, layer)
    ensures OnGround(world, OnTopOf(p, layer))
  {
    SameFootprint(world, p, OnTopOf(p, layer), layer);
  }

  // ---------------------------------------------------------------------------
  // The promises of the resolver
  // ---------------------------------------------------------------------------

  lemma HorizontalClear(world: World, from: Position, to: Position)
    requires Clear(world, from)
    ensures var p := MoveHorizontally(world, from, to);
            && Clear(world, p) && p.y == from.y
            && (p.x == from.x || p.x == Target(from, to).x) && (p.z == from.z || p.z == Target(from, to).z)
  {
    hide Clear;
    var x, z := Target(from, to).x, Target(from, to).z;
    assert from.(x := from.x) == from;
    var p := MoveX(world, from, x);
    assert p.(z := p.z) == p;
  }

  lemma AxesClear(world: World, from: Position, to: Position)
    requires Clear(world, from)
    ensures var p := MoveAxes(world, from, to);
            Clear(world, p) && -MAX_FALL <= p.y - from.y <= MAX_RISE
  {
    hide Clear;
    HorizontalClear(world, from, to);
    var p := MoveHorizontally(world, from, to);
    var y := Target(from, to).y;
    assert p.(y := p.y) == p;
    if y < p.y && !Clear(world, p.(y := y)) {
      var layer := FallLands(world, p, y);
    }
  }

  /** No penetration: a player whose start is clear of solids ends clear of solids, wherever it wanted to go, so the
      push-up is never taken, and it moves at most 32 blocks sideways, 64 down and 2 up. */
  lemma NoPenetration(world: World, from: Position, to: Position, gamemode: int)
    requires gamemode != GAMEMODE_SPECTATOR && Clear(world, from)
    ensures var at := Resolve(world, from, to, gamemode).at;
            && Clear(world, at)
            && at == MoveAxes(world, from, to)
            && -MAX_HORIZONTAL_STEP <= at.x - from.x <= MAX_HORIZONTAL_STEP
            && -MAX_HORIZONTAL_STEP <= at.z - from.z <= MAX_HORIZONTAL_STEP
            && -MAX_FALL <= at.y - from.y <= MAX_RISE
  {
    hide Clear, OnGround;
    AxesClear(world, from, to);
    HorizontalClear(world, from, to);
    SameColumn(world, from, to);
  }

  lemma SameColumn(world: World, from: Position, to: Position)
    ensures MoveAxes(world, from, to).x == MoveHorizontally(world, from, to).x
    ensures MoveAxes(world, from, to).z == MoveHorizontally(world, from, to).z
  {
  }

  /** Replaying a result as a move of its own changes nothing and is not a correction. */
  lemma ResultIsStable(world: World, from: Position, to: Position, gamemode: int)
    requires gamemode != GAMEMODE_SPECTATOR && Clear(world, from)
    ensures var r := Resolve(world, from, to, gamemode);
            Resolve(world, r.at, r.at, gamemode) == r.(corrected := false)
  {
    hide Clear, OnGround, MoveAxes;
    NoPenetration(world, from, to, gamemode);
    StandingStill(world, Resolve(world, from, to, gamemode).at);
  }

  lemma StandingStill(world: World, p: Position)
    requires Clear(world, p)
    ensures MoveAxes(world, p, p) == p
  {
    hide Clear;
    assert Target(p, p) == p;
  }

  // ---------------------------------------------------------------------------
  // Where a player ends up
  // ---------------------------------------------------------------------------

  /** Everything but air and the two fluids stops a player. */
  lemma SolidStates(state: int)
    ensures IsSolid(state) <==> state < 0 || 0 < state < 80 || 111 < state
  {
  }

  /** Of all positions within 32 blocks sideways, 64 down and 2 up, the target is the nearest to the proposal, axis by
      axis. */
  lemma TargetNearest(from: Position, to: Position, p: Position)
    requires from.x - 320000 <= p.x <= from.x + 320000 && from.z - 320000 <= p.z <= from.z + 320000
    requires from.y - 640000 <= p.y <= from.y + 20000
    ensures var t := Target(from, to);
            && from.x - 320000 <= t.x <= from.x + 320000 && from.z - 320000 <= t.z <= from.z + 320000
            && from.y - 640000 <= t.y <= from.y + 20000
            && Distance(t.x, to.x) <= Distance(p.x, to.x)
            && Distance(t.y, to.y) <= Distance(p.y, to.y)
            && Distance(t.z, to.z) <= Distance(p.z, to.z)
  {
  }

  function Distance(a: int, b: int): nat {
    if a < b then b - a else a - b
  }

  /** The column a player ends in: each horizontal axis is taken on its own, so a player blocked along one of them
      slides along the other. */
  ghost function Column(world: World, from: Position, to: Position): Position {
    var t := Target(from, to);
    var x := if Clear(world, from.(x := t.x)) then t.x else from.x;
    var z := if Clear(world, from.(x := x, z := t.z)) then t.z else from.z;
    Position(x, from.y, z)
  }

  lemma ColumnReached(world: World, from: Position, to: Position)
    ensures MoveHorizontally(world, from, to) == Column(world, from, to)
  {
    hide Clear, Target;
    var x, z := Target(from, to).x, Target(from, to).z;
    assert from.(x := from.x) == from;
    var p := MoveX(world, from, x);
    assert p.(z := p.z) == p;
    assert p.(z := z) == from.(x := p.x, z := z);
  }

  /** The feet stand right above a solid layer with room for the body on top of it. */
  ghost predicate Landing(world: World, p: Position, level: int) {
    LayerSolid(world, p, level) && Clear(world, p.(y := 10000 * (level + 1) + 1))
  }

  /** `snap_to_ground` takes the highest landing among the layer of the feet and the 64 below it; without one the height
      stays. */
  lemma SnapExact(world: World, p: Position)
    ensures var y, top := SnapToGround(world, p), Floor(p.y);
            || (exists level :: top - 64 <= level <= top && y == 10000 * (level + 1) + 1 && Landing(world, p, level)
                                && forall higher :: level < higher <= top ==> !Landing(world, p, higher))
            || (y == p.y && forall level :: top - 64 <= level <= top ==> !Landing(world, p, level))
  {
    hide LayerSolid, Clear;
    SnapFromExact(world, p, Floor(p.y), Floor(p.y) - 64);
  }

  lemma {:induction false} SnapFromExact(world: World, p: Position, top: int, lowest: int)
    ensures var y := SnapFrom(world, p, top, lowest);
            || (exists level :: lowest <= level <= top && y == 10000 * (level + 1) + 1 && Landing(world, p, level)
                                && forall higher :: level < higher <= top ==> !Landing(world, p, higher))
            || (y == p.y && forall level :: lowest <= level <= top ==> !Landing(world, p, level))
    decreases top - lowest
  {
    hide LayerSolid, Clear;
    if top >= lowest {
      if Landing(world, p, top) {
        assert lowest <= top && Landing(world, p, top);
      } else {
        SnapFromExact(world, p, top - 1, lowest);
      }
    }
  }

  /** The result for any start at all: the column, then the target height if the body fits there, a landing if it was
      falling, the old height if it was rising; and if the body still overlaps a solid, a landing searched for from one
      body height above. It is on the ground exactly when a solid in the footprint holds the point 0.05 below the feet,
      and corrected exactly when it is not the proposal. */
  lemma ResolvedExactly(world: World, from: Position, to: Position, gamemode: int)
    requires gamemode != 3
    ensures var p := Column(world, from, to);
            var y := Target(from, to).y;
            var q := p.(y := if Clear(world, p.(y := y)) then y
                             else if y < from.y then SnapToGround(world, p)
                             else from.y);
            var r := Resolve(world, from, to, gamemode);
            && r.at == (if Clear(world, q) then q else q.(y := SnapToGround(world, q.(y := q.y + 18000))))
            && (r.onGround <==> exists bx, level, bz :: InFootprint(r.at, bx, bz)
                                  && 10000 * level <= r.at.y - 500 < 10000 * (level + 1)
                                  && IsSolid(world(bx, level, bz)))
            && (r.corrected <==> r.at != to)
  {
    hide Clear, SnapToGround, Target, MoveHorizontally, Column;
    ColumnReached(world, from, to);
    ColumnHeight(world, from, to);
    var r := Resolve(world, from, to, gamemode);
    GroundProbe(world, r.at);
  }

  lemma ColumnHeight(world: World, from: Position, to: Position)
    ensures Column(world, from, to).y == from.y
  {
  }

  lemma GroundProbe(world: World, p: Position)
    ensures OnGround(world, p) <==> exists bx, level, bz :: InFootprint(p, bx, bz)
                                      && 10000 * level <= p.y - 500 < 10000 * (level + 1)
                                      && IsSolid(world(bx, level, bz))
  {
    hide InFootprint, IsSolid;
    if OnGround(world, p) {
      var bx, bz :| InFootprint(p, bx, bz) && IsSolid(world(bx, Floor(p.y - PROBE_DEPTH), bz));
    }
  }

  /** A spectator goes where it wants. */
  lemma SpectatorPasses(world: World, from: Position, to: Position)
    ensures Resolve(world, from, to, 3) == CollisionResult(to, false, false)
  {
  }

  /** From a clear start that leaves three outcomes: a free target height is reached, a blocked rise is not begun, and a
      blocked fall ends in the landing below. */
  lemma ClearStartExactly(world: World, from: Position, to: Position, gamemode: int)
    requires gamemode != 3 && Clear(world, from)
    ensures var p := Column(world, from, to);
            var y := Target(from, to).y;
            var at := Resolve(world, from, to, gamemode).at;
            && at.x == p.x && at.z == p.z
            && (Clear(world, p.(y := y)) ==> at.y == y)
            && (!Clear(world, p.(y := y)) && y >= from.y ==> at.y == from.y)
            && (!Clear(world, p.(y := y)) && y < from.y ==>
                  exists layer :: at.y == 10000 * (layer + 1) + 1 && y < at.y <= from.y + 1
                                  && LayerSolid(world, p, layer)
                                  && forall b :: layer < b < Floor(from.y) ==> !LayerSolid(world, p, b))
  {
    hide Clear, SnapToGround, Target, MoveHorizontally, Column, LayerSolid, OnGround;
    ColumnReached(world, from, to);
    ColumnHeight(world, from, to);
    NoPenetration(world, from, to, gamemode);
    var p, y := Column(world, from, to), Target(from, to).y;
    if !Clear(world, p.(y := y)) && y < from.y {
      var layer := FallLandingExact(world, from, to, gamemode);
      assert LayerSolid(world, p, layer);
    }
  }

  /** Falling into a solid lands the player exactly 1e-4 above the highest solid layer of its footprint below its old
      feet, in the clear, on the ground, above where it wanted to be and at most 1e-4 above where it was. */
  lemma FallLandingExact(world: World, from: Position, to: Position, gamemode: int) returns (layer: int)
    requires gamemode != GAMEMODE_SPECTATOR && Clear(world, from)
    requires var p := Column(world, from, to); var y := Target(from, to).y;
             y < from.y && !Clear(world, p.(y := y))
    ensures var p := Column(world, from, to);
            var r := Resolve(world, from, to, gamemode);
            && layer < Floor(from.y) && LayerSolid(world, p, layer)
            && (forall b :: layer < b < Floor(from.y) ==> !LayerSolid(world, p, b))
            && r.at == p.(y := 10000 * (layer + 1) + 1)
            && Clear(world, r.at) && r.onGround
            && Target(from, to).y < r.at.y <= from.y + 1
  {
    hide Clear, LayerSolid, OnGround, MoveHorizontally, MoveY, Column, Target;
    ColumnReached(world, from, to);
    HorizontalClear(world, from, to);
    TargetNearest(from, to, from);
    var p := Column(world, from, to);
    layer := FallLands(world, p, Target(from, to).y);
    StandsOn(world, p, layer);
  }

  /** A clear start: the proposal goes through unchanged exactly when it is within the step limits and each of the
      three boxes tried on the way is clear. */
  lemma AcceptedExactly(world: World, from: Position, to: Position, gamemode: int)
    requires gamemode != GAMEMODE_SPECTATOR && Clear(world, from)
    ensures !Resolve(world, from, to, gamemode).corrected
       <==> Target(from, to) == to
            && Clear(world, from.(x := to.x)) && Clear(world, from.(x := to.x, z := to.z)) && Clear(world, to)
  {
    hide Clear, OnGround, SnapToGround;
    NoPenetration(world, from, to, gamemode);
    HorizontalClear(world, from, to);
    var t := Target(from, to);
    var p := MoveHorizontally(world, from, to);
    assert from.(x := from.x) == from && p.(y := p.y) == p;
    assert from.(x := to.x).(z := to.z) == from.(x := to.x, z := to.z);
    if t.y < p.y && !Clear(world, p.(y := t.y)) {
      var layer := FallLands(world, p, t.y);
    }
    assert from.(x := to.x, z := to.z).(y := to.y) == to;
  }

  /** Started inside a block, the player ends in the clear unless no layer within reach has room on top; then it is
      left one body height above where the axes put it. */
  lemma PushUpClears(world: World, from: Position, to: Position, gamemode: int)
    requires gamemode != GAMEMODE_SPECTATOR
    ensures var p := MoveAxes(world, from, to);
            var at := Resolve(world, from, to, gamemode).at;
            Clear(world, at) || at == p.(y := p.y + PLAYER_HEIGHT)
  {
    hide Clear, OnGround, MoveAxes;
    var p := MoveAxes(world, from, to);
    var high := p.(y := p.y + PLAYER_HEIGHT);
    SnapClears(world, high, Floor(high.y), Floor(high.y) - MAX_FALL_BLOCKS);
    assert high.(y := SnapToGround(world, high)) == p.(y := SnapToGround(world, high));
  }

  lemma {:induction false} SnapClears(world: World, p: Position, level: int, lowest: int)
    ensures var y := SnapFrom(world, p, level, lowest); Clear(world, p.(y := y)) || y == p.y
    decreases level - lowest
  {
    hide Clear, LayerSolid;
    if level >= lowest {
      SnapClears(world, p, level - 1, lowest);
    }
  }

  // ---------------------------------------------------------------------------
  // The loops of the source
  // ---------------------------------------------------------------------------

  /** The search of `aabb_hits_solid`, block by block; by `RangeExact` its overlap test never fails. */
  method AabbHitsSolid(world: World, box: Aabb) returns (hit: bool)
    requires box.minX < box.maxX && box.minY < box.maxY && box.minZ < box.maxZ
    ensures hit <==> HitsSolid(world, box)
  {
    for level := RangeStart(box.minY) to RangeEnd(box.minY, box.maxY) + 1
      invariant NoHitBelow(world, box, level)
    {
      for bx := RangeStart(box.minX) to RangeEnd(box.minX, box.maxX) + 1
        invariant NoHitBefore(world, box, level, bx)
      {
        for bz := RangeStart(box.minZ) to RangeEnd(box.minZ, box.maxZ) + 1
          invariant forall k :: OverlapsBlock(box, bx, level, k) && k < bz ==> !IsSolid(world(bx, level, k))
        {
          if IsSolid(world(bx, level, bz)) && OverlapsBlock(box, bx, level, bz) {
            return true;
          }
        }
        forall k | OverlapsBlock(box, bx, level, k) ensures !IsSolid(world(bx, level, k)) {
          RangeExact(box.minZ, box.maxZ, k);
        }
      }
      forall i, k | OverlapsBlock(box, i, level, k) ensures !IsSolid(world(i, level, k)) {
        RangeExact(box.minX, box.maxX, i);
      }
    }
    forall i, j, k | OverlapsBlock(box, i, j, k) ensures !IsSolid(world(i, j, k)) {
      RangeExact(box.minY, box.maxY, j);
    }
    return false;
  }

  ghost predicate NoHitBelow(world: World, box: Aabb, level: int) {
    forall i, j, k :: OverlapsBlock(box, i, j, k) && j < level ==> !IsSolid(world(i, j, k))
  }

  ghost predicate NoHitBefore(world: World, box: Aabb, level: int, bx: int) {
    forall i, k :: OverlapsBlock(box, i, level, k) && i < bx ==> !IsSolid(world(i, level, k))
  }

  method HitsAt(world: World, p: Position) returns (hit: bool)
    ensures hit <==> !Clear(world, p)
  {
    ClearMeansNoHit(world, p);
    hit := AabbHitsSolid(world, FromFeet(p));
  }

  /** The loops over the columns of the footprint, in `standing_on_ground` and `snap_to_ground`. */
  method LayerHit(world: World, p: Position, level: int) returns (hit: bool)
    ensures hit <==> LayerSolid(world, p, level)
  {
    var box := FromFeet(p);
    for bx := RangeStart(box.minX) to RangeEnd(box.minX, box.maxX) + 1
      invariant forall i, j :: InFootprint(p, i, j) && RangeStart(box.minX) <= i < bx ==> !IsSolid(world(i, level, j))
    {
      for bz := RangeStart(box.minZ) to RangeEnd(box.minZ, box.maxZ) + 1
        invariant forall i, j :: InFootprint(p, i, j) && RangeStart(box.minX) <= i < bx ==> !IsSolid(world(i, level, j))
        invariant forall j :: InFootprint(p, bx, j) && RangeStart(box.minZ) <= j < bz ==> !IsSolid(world(bx, level, j))
      {
        if IsSolid(world(bx, level, bz)) {
          RangeExact(box.minX, box.maxX, bx);
          RangeExact(box.minZ, box.maxZ, bz);
          assert InFootprint(p, bx, bz);
          return true;
        }
      }
      forall j | InFootprint(p, bx, j) ensures !IsSolid(world(bx, level, j)) {
        RangeExact(box.minZ, box.maxZ, j);
      }
    }
    forall i, j | InFootprint(p, i, j) ensures !IsSolid(world(i, level, j)) {
      RangeExact(box.minX, box.maxX, i);
    }
    return false;
  }

  method StandingOnGround(world: World, p: Position) returns (standing: bool)
    ensures standing <==> OnGround(world, p)
  {
    standing := LayerHit(world, p, Floor(p.y - PROBE_DEPTH));
  }

  method SnapDown(world: World, p: Position) returns (y: int)
    ensures y == SnapToGround(world, p)
  {
    hide Clear, LayerSolid;
    var start := Floor(p.y);
    var lowest := start - MAX_FALL_BLOCKS;
    for level := start + 1 downto lowest
      invariant SnapFrom(world, p, start, lowest) == SnapFrom(world, p, level - 1, lowest)
    {
      var solid := LayerHit(world, p, level);
      if solid {
        var blocked := HitsAt(world, OnTopOf(p, level));
        if !blocked {
          return OnTopOf(p, level).y;
        }
      }
    }
    return p.y;
  }

  method ResolveMovement(world: World, from: Position, to: Position, gamemode: int) returns (r: CollisionResult)
    ensures r == Resolve(world, from, to, gamemode)
  {
    hide Clear, OnGround, SnapToGround;
    if gamemode == GAMEMODE_SPECTATOR {
      return CollisionResult(to, false, false);
    }
    var target := Target(from, to);
    var x, y, z := target.x, target.y, target.z;
    if x != from.x {
      var hit := HitsAt(world, Position(x, from.y, from.z));
      if hit {
        x := from.x;
      }
    }
    assert Position(x, from.y, from.z) == MoveX(world, from, target.x);
    if z != from.z {
      var hit := HitsAt(world, Position(x, from.y, z));
      if hit {
        z := from.z;
      }
    }
    assert Position(x, from.y, z) == MoveHorizontally(world, from, to);
    if y != from.y {
      var hit := HitsAt(world, Position(x, y, z));
      if hit {
        if y < from.y {
          y := SnapDown(world, Position(x, from.y, z));
        } else {
          y := from.y;
        }
      }
    }
    assert Position(x, y, z) == MoveAxes(world, from, to);
    var inside := HitsAt(world, Position(x, y, z));
    if inside {
      y := SnapDown(world, Position(x, y + PLAYER_HEIGHT, z));
    }
    var at := Position(x, y, z);
    assert at == PushUp(world, MoveAxes(world, from, to));
    var onGround := StandingOnGround(world, at);
    return CollisionResult(at, onGround, x != to.x || y != to.y || z != to.z);
  }
}

/** Pixel-stepped actor motion over the tile map, with box collision sampled every eight pixels. */
module Actors {
  import opened Words

  const MAP_WIDTH: int := 64
  const MAP_HEIGHT: int := 32
  const TILE: int := 8

  datatype Flag = Solid | Platform | Hazard | Collect

  /** The flag bits of a tile, PRG32_TILE_FLAG_*. */
  function FlagsOf(b: bv8): set<Flag> {
    (if b & 1 != 0 then {Solid} else {}) + (if b & 2 != 0 then {Platform} else {})
    + (if b & 4 != 0 then {Hazard} else {}) + (if b & 8 != 0 then {Collect} else {})
  }

  // PRG32_PLATFORM_* state bits.
  const ON_GROUND: bv16 := 1
  const HIT_LEFT: bv16 := 2
  const HIT_RIGHT: bv16 := 4
  const HIT_HEAD: bv16 := 8
  const TOUCHED_HAZARD: bv16 := 16
  const TOUCHED_COLLECT: bv16 := 32

  /** Two 64x32 layers of tile ids and the flag byte of every tile id. */
  datatype Raw = Raw(layers: seq<seq<uint8>>, tileFlags: seq<bv8>)
  type World = w: Raw | |w.layers| == 2 && |w.layers[0]| == |w.layers[1]| == 2048 && |w.tileFlags| == 256
    witness Raw([seq(2048, _ => 0), seq(2048, _ => 0)], seq(256, _ => 0))

  function TileAt(world: World, layer: uint8, x: int, y: int): uint8 {
    if x < 0 || y < 0 || layer > 1 then 0
    else
      var tx, ty := x / TILE, y / TILE;
      if tx >= MAP_WIDTH || ty >= MAP_HEIGHT then 0 else world.layers[layer][ty * MAP_WIDTH + tx]
  }

  function TileFlagsAt(world: World, layer: uint8, x: int, y: int): bv8 {
    world.tileFlags[TileAt(world, layer, x, y)]
  }

  predicate Has(world: World, layer: uint8, x: int, y: int, flag: Flag) {
    flag in FlagsOf(TileFlagsAt(world, layer, x, y))
  }

  /** An actor's box: top left pixel, size and layer. */
  datatype Box = Box(x: int, y: int, w: uint16, h: uint16, layer: uint8)

  predicate Inside(lo: int, size: int, p: int) {
    lo <= p <= lo + size - 1
  }

  /** Some pixel of the box lies on a tile with this flag. */
  ghost predicate Touches(world: World, b: Box, flag: Flag) {
    exists px, py :: Inside(b.x, b.w, px) && Inside(b.y, b.h, py) && Has(world, b.layer, px, py, flag)
  }

  /** The coordinates the collision test looks at: every eighth from the near edge, and the far edge. */
  predicate Sampled(lo: int, size: int, s: int) {
    s == lo + size - 1 || Grid(lo, size, s)
  }

  predicate Grid(lo: int, size: int, s: int) {
    Inside(lo, size, s) && (s - lo) % TILE == 0
  }

  ghost predicate SampleTouches(world: World, b: Box, flag: Flag) {
    exists sx, sy :: Sampled(b.x, b.w, sx) && Sampled(b.y, b.h, sy) && Has(world, b.layer, sx, sy, flag)
  }

  /** Every coordinate of an interval shares its tile with a sampled one. */
  lemma SampleCovers(lo: int, size: int, p: int) returns (s: int)
    requires Inside(lo, size, p)
    ensures Sampled(lo, size, s) && Inside(lo, size, s) && s / TILE == p / TILE
  {
    var k := (p - lo) / TILE;
    var below := lo + k * TILE;
    if below / TILE == p / TILE {
      s := below;
    } else {
      s := if below + TILE <= lo + size - 1 then below + TILE else lo + size - 1;
    }
  }

  lemma SameTileSameFlags(world: World, layer: uint8, x: int, y: int, x': int, y': int)
    requires x / TILE == x' / TILE && y / TILE == y' / TILE
    ensures TileFlagsAt(world, layer, x, y) == TileFlagsAt(world, layer, x', y')
  {
  }

  /** Sampling every eight pixels plus both far edges sees exactly what looking at every pixel would. */
  lemma SamplingIsExact(world: World, b: Box, flag: Flag)
    requires b.w >= 1 && b.h >= 1
    ensures SampleTouches(world, b, flag) <==> Touches(world, b, flag)
  {
    hide FlagsOf, TileFlagsAt;
    if Touches(world, b, flag) {
      var px, py :| Inside(b.x, b.w, px) && Inside(b.y, b.h, py) && Has(world, b.layer, px, py, flag);
      var sx := SampleCovers(b.x, b.w, px);
      var sy := SampleCovers(b.y, b.h, py);
      SameTileSameFlags(world, b.layer, px, py, sx, sy);
      assert Has(world, b.layer, sx, sy, flag);
    }
    if SampleTouches(world, b, flag) {
      var sx, sy :| Sampled(b.x, b.w, sx) && Sampled(b.y, b.h, sy) && Has(world, b.layer, sx, sy, flag);
      assert Inside(b.x, b.w, sx) && Inside(b.y, b.h, sy);
    }
  }

  lemma OrIsUnion(a: bv8, b: bv8)
    ensures FlagsOf(a | b) == FlagsOf(a) + FlagsOf(b)
  {
  }

  /** What the samples of one row contribute, and what its grid samples left of `limit` do. */
  ghost predicate RowTouches(world: World, b: Box, y: int, flag: Flag) {
    exists sx :: Sampled(b.x, b.w, sx) && Has(world, b.layer, sx, y, flag)
  }

  ghost predicate RowSoFar(world: World, b: Box, y: int, limit: int, flag: Flag) {
    exists sx :: Grid(b.x, b.w, sx) && sx < limit && Has(world, b.layer, sx, y, flag)
  }

  ghost predicate RowsSoFar(world: World, b: Box, limit: int, flag: Flag) {
    exists sy :: Grid(b.y, b.h, sy) && sy < limit && RowTouches(world, b, sy, flag)
  }

  lemma GridStep(lo: int, size: int, at: int)
    requires Grid(lo, size, at)
    ensures forall s :: Grid(lo, size, s) && s < at + TILE <==> (Grid(lo, size, s) && s < at) || s == at
  {
  }

  lemma NextColumn(world: World, b: Box, y: int, x: int, flag: Flag)
    requires Grid(b.x, b.w, x)
    ensures RowSoFar(world, b, y, x + TILE, flag) <==> RowSoFar(world, b, y, x, flag) || Has(world, b.layer, x, y, flag)
  {
    hide Grid, Has;
    GridStep(b.x, b.w, x);
    if Has(world, b.layer, x, y, flag) { assert Grid(b.x, b.w, x) && x < x + TILE; }
  }

  lemma NextRow(world: World, b: Box, y: int, flag: Flag)
    requires Grid(b.y, b.h, y)
    ensures RowsSoFar(world, b, y + TILE, flag) <==> RowsSoFar(world, b, y, flag) || RowTouches(world, b, y, flag)
  {
    hide Grid, RowTouches;
    GridStep(b.y, b.h, y);
    if RowTouches(world, b, y, flag) { assert Grid(b.y, b.h, y) && y < y + TILE; }
  }

  lemma WholeRow(world: World, b: Box, y: int, limit: int, flag: Flag)
    requires limit > b.x + b.w - 1
    ensures RowTouches(world, b, y, flag)
            <==> RowSoFar(world, b, y, limit, flag) || Has(world, b.layer, b.x + b.w - 1, y, flag)
  {
    hide Has;
    assert Sampled(b.x, b.w, b.x + b.w - 1);
  }

  lemma WholeBox(world: World, b: Box, limit: int, flag: Flag)
    requires limit > b.y + b.h - 1
    ensures SampleTouches(world, b, flag)
            <==> RowsSoFar(world, b, limit, flag) || RowTouches(world, b, b.y + b.h - 1, flag)
  {
    hide Has;
    assert Sampled(b.y, b.h, b.y + b.h - 1);
    if SampleTouches(world, b, flag) {
      var sx, sy :| Sampled(b.x, b.w, sx) && Sampled(b.y, b.h, sy) && Has(world, b.layer, sx, sy, flag);
      assert RowTouches(world, b, sy, flag);
    }
  }

  lemma NextSample(n: nat)
    requires n % TILE == 0
    ensures (n + 8) % TILE == 0
  {
  }

  /** One row of the collision test: every eighth column, then the right edge. */
  method RowFlags(world: World, b: Box, y: int, before: bv8) returns (flags: bv8)
    ensures forall f :: f in FlagsOf(flags) <==> f in FlagsOf(before) || RowTouches(world, b, y, f)
  {
    hide FlagsOf, TileFlagsAt, RowSoFar, RowTouches;
    flags := before;
    var x1 := b.x + b.w - 1;
    var x := b.x;
    forall f ensures !RowSoFar(world, b, y, x, f) { NoColumns(world, b, y, f); }
    while x <= x1
      invariant b.x <= x && (x - b.x) % TILE == 0
      invariant forall f :: f in FlagsOf(flags) <==> f in FlagsOf(before) || RowSoFar(world, b, y, x, f)
      decreases x1 - x
    {
      OrIsUnion(flags, TileFlagsAt(world, b.layer, x, y));
      forall f { NextColumn(world, b, y, x, f); }
      flags := flags | TileFlagsAt(world, b.layer, x, y);
      NextSample(x - b.x);
      x := x + 8;
    }
    OrIsUnion(flags, TileFlagsAt(world, b.layer, x1, y));
    forall f { WholeRow(world, b, y, x, f); }
    flags := flags | TileFlagsAt(world, b.layer, x1, y);
  }

  lemma NoColumns(world: World, b: Box, y: int, f: Flag)
    ensures !RowSoFar(world, b, y, b.x, f) && !RowsSoFar(world, b, b.y, f)
  {
    hide Has;
  }

  /** OR of the flags of every tile the box overlaps. */
  method ActorFlagsOverlapping(world: World, b: Box) returns (flags: bv8)
    ensures forall f :: f in FlagsOf(flags) <==> SampleTouches(world, b, f)
  {
    hide FlagsOf, RowsSoFar, RowTouches, SampleTouches;
    flags := 0;
    NoFlags();
    var y1 := b.y + b.h - 1;
    var y := b.y;
    forall f ensures !RowsSoFar(world, b, y, f) { NoColumns(world, b, y, f); }
    while y <= y1
      invariant b.y <= y && (y - b.y) % TILE == 0
      invariant forall f :: f in FlagsOf(flags) <==> RowsSoFar(world, b, y, f)
      decreases y1 - y
    {
      forall f { NextRow(world, b, y, f); }
      flags := RowFlags(world, b, y, flags);
      NextSample(y - b.y);
      y := y + 8;
    }
    forall f { WholeBox(world, b, y, f); }
    flags := RowFlags(world, b, y1, flags);
  }

  lemma NoFlags()
    ensures FlagsOf(0) == {}
  {
  }

  // One-way floors.

  /** The top pixel row of the tile below, with C++ division. */
  function TruncTile(n: int): int {
    TruncDiv(n, TILE) * TILE
  }

  function Bottom(b: Box): int {
    b.y + b.h - 1
  }

  /** The bottom edge has just crossed from previousY into a platform tile. */
  ghost predicate FloorBlocks(world: World, b: Box, previousY: int) {
    var oldBottom := previousY + b.h - 1;
    oldBottom <= Bottom(b) && oldBottom < TruncTile(Bottom(b)) && RowTouches(world, b, Bottom(b), Platform)
  }

  lemma PlatformBit(b: bv8)
    ensures b & 2 != 0 <==> Platform in FlagsOf(b)
    ensures b & 1 != 0 <==> Solid in FlagsOf(b)
  {
  }

  method ActorHitsPlatformFloor(world: World, b: Box, previousY: int) returns (hit: bool)
    ensures hit <==> FloorBlocks(world, b, previousY)
  {
    hide FlagsOf, TileFlagsAt, RowSoFar, RowTouches;
    var oldBottom := previousY + b.h - 1;
    var newBottom := b.y + b.h - 1;
    if newBottom < oldBottom { return false; }
    var tileY := TruncTile(newBottom);
    if oldBottom >= tileY { return false; }
    var x1 := b.x + b.w - 1;
    var x := b.x;
    NoColumns(world, b, newBottom, Platform);
    while x <= x1
      invariant b.x <= x && (x - b.x) % TILE == 0
      invariant !RowSoFar(world, b, newBottom, x, Platform)
      decreases x1 - x
    {
      PlatformBit(TileFlagsAt(world, b.layer, x, newBottom));
      NextColumn(world, b, newBottom, x, Platform);
      if TileFlagsAt(world, b.layer, x, newBottom) & 2 != 0 {
        InRow(world, b, newBottom, x);
        return true;
      }
      x := x + 8;
    }
    PlatformBit(TileFlagsAt(world, b.layer, x1, newBottom));
    WholeRow(world, b, newBottom, x, Platform);
    return TileFlagsAt(world, b.layer, x1, newBottom) & 2 != 0;
  }

  lemma InRow(world: World, b: Box, y: int, x: int)
    requires Grid(b.x, b.w, x) && Has(world, b.layer, x, y, Platform)
    ensures RowTouches(world, b, y, Platform)
  {
    hide Has;
    assert Sampled(b.x, b.w, x);
  }

  // Motion.

  datatype Event = OnGround | HitLeft | HitRight | HitHead | HazardTouched | CollectTouched

  predicate Marked(s: bv16, mask: bv16) {
    s & mask != 0
  }

  /** The state word's bits, PRG32_PLATFORM_*. */
  function EventsOf(s: bv16): set<Event> {
    (if Marked(s, ON_GROUND) then {OnGround} else {}) + (if Marked(s, HIT_LEFT) then {HitLeft} else {})
    + (if Marked(s, HIT_RIGHT) then {HitRight} else {}) + (if Marked(s, HIT_HEAD) then {HitHead} else {})
    + (if Marked(s, TOUCHED_HAZARD) then {HazardTouched} else {})
    + (if Marked(s, TOUCHED_COLLECT) then {CollectTouched} else {})
  }

  lemma OrIsZero(a: bv16, b: bv16)
    ensures a | b == 0 <==> a == 0 && b == 0
  {
  }

  lemma MaskDistributes(a: bv16, b: bv16, mask: bv16)
    ensures (a | b) & mask == (a & mask) | (b & mask)
  {
  }

  lemma MarkedUnion(a: bv16, b: bv16, mask: bv16)
    ensures Marked(a | b, mask) <==> Marked(a, mask) || Marked(b, mask)
  {
    MaskDistributes(a, b, mask);
    OrIsZero(a & mask, b & mask);
  }

  lemma EventUnion(a: bv16, b: bv16)
    ensures EventsOf(a | b) == EventsOf(a) + EventsOf(b)
  {
    hide Marked;
    MarkedUnion(a, b, ON_GROUND);
    MarkedUnion(a, b, HIT_LEFT);
    MarkedUnion(a, b, HIT_RIGHT);
    MarkedUnion(a, b, HIT_HEAD);
    MarkedUnion(a, b, TOUCHED_HAZARD);
    MarkedUnion(a, b, TOUCHED_COLLECT);
  }

  lemma EventMasks(s: bv16)
    ensures EventsOf(s & (TOUCHED_HAZARD | TOUCHED_COLLECT)) == EventsOf(s) * {HazardTouched, CollectTouched}
    ensures EventsOf(ON_GROUND) == {OnGround} && EventsOf(HIT_LEFT) == {HitLeft}
    ensures EventsOf(HIT_RIGHT) == {HitRight} && EventsOf(HIT_HEAD) == {HitHead}
  {
  }

  function ActorStateFromFlags(flags: bv8): bv16 {
    (if flags & 4 != 0 then TOUCHED_HAZARD else 0) | (if flags & 8 != 0 then TOUCHED_COLLECT else 0)
  }

  lemma StateFromFlags(flags: bv8)
    ensures EventsOf(ActorStateFromFlags(flags)) == Pickups(FlagsOf(flags))
  {
  }

  function Pickups(flags: set<Flag>): set<Event> {
    (if Hazard in flags then {HazardTouched} else {}) + (if Collect in flags then {CollectTouched} else {})
  }

  ghost function Picked(world: World, b: Box): set<Event> {
    (if SampleTouches(world, b, Hazard) then {HazardTouched} else {})
    + (if SampleTouches(world, b, Collect) then {CollectTouched} else {})
  }

  function Shift(b: Box, dx: int, dy: int): Box {
    b.(x := b.x + dx, y := b.y + dy)
  }

  ghost predicate Blocked(world: World, b: Box, sy: int) {
    SampleTouches(world, b, Solid) || (sy > 0 && FloorBlocks(world, b, b.y - sy))
  }

  /** How far a walk gets, whether something stopped it, and what it touched, the refused position included. */
  datatype Walk = Walk(steps: nat, blocked: bool, touched: set<Event>)

  ghost function Walked(world: World, b: Box, sx: int, sy: int, n: nat): Walk
    decreases n
  {
    if n == 0 then Walk(0, false, {})
    else
      var next := Shift(b, sx, sy);
      if Blocked(world, next, sy) then Walk(0, true, Picked(world, next))
      else
        var r := Walked(world, next, sx, sy, n - 1);
        Walk(r.steps + 1, r.blocked, Picked(world, next) + r.touched)
  }

  lemma WalkedOnce(world: World, b: Box, sx: int, sy: int, n: nat)
    ensures var next, walk := Shift(b, sx, sy), Walked(world, b, sx, sy, n);
      if n == 0 then walk == Walk(0, false, {})
      else if Blocked(world, next, sy) then walk == Walk(0, true, Picked(world, next))
      else var r := Walked(world, next, sx, sy, n - 1);
        walk == Walk(r.steps + 1, r.blocked, Picked(world, next) + r.touched)
  {
  }

  function Sign(n: int): int {
    if n < 0 then -1 else 1
  }

  ghost function WalkX(world: World, b: Box, dx: int): Walk {
    Walked(world, b, Sign(dx), 0, Abs(dx))
  }

  ghost function AfterX(world: World, b: Box, dx: int): Box {
    Shift(b, Sign(dx) * WalkX(world, b, dx).steps, 0)
  }

  ghost function WalkY(world: World, b: Box, dy: int): Walk {
    Walked(world, b, 0, Sign(dy), Abs(dy))
  }

  ghost function AfterY(world: World, b: Box, dy: int): Box {
    Shift(b, 0, Sign(dy) * WalkY(world, b, dy).steps)
  }

  class Actor {
    var x: int
    var y: int
    var vx: int
    var vy: int
    var w: uint16
    var h: uint16
    var state: bv16
    var layer: uint8

    function Bounds(): Box
      reads this
    {
      Box(x, y, w, h, layer)
    }

    constructor (x: int, y: int, w: uint16, h: uint16, layer: uint8)
      ensures Bounds() == Box(x, y, w, h, layer) && vx == 0 == vy && state == 0
    {
      this.x, this.y, this.w, this.h, this.layer := x, y, w, h, layer;
      vx, vy, state := 0, 0, 0;
    }

    /** Look at the current position: solid or not, and what was picked up. */
    method Look(world: World, state: bv16) returns (solid: bool, state': bv16)
      ensures solid <==> SampleTouches(world, Bounds(), Solid)
      ensures EventsOf(state') == EventsOf(state) + Picked(world, Bounds())
    {
      hide SampleTouches, FlagsOf, EventsOf;
      var flags := ActorFlagsOverlapping(world, Bounds());
      StateFromFlags(flags);
      EventUnion(state, ActorStateFromFlags(flags));
      PlatformBit(flags);
      state' := state | ActorStateFromFlags(flags);
      solid := flags & 1 != 0;
    }

    /** Step pixel by pixel along x until something solid is in the way. */
    method MoveX(world: World, dx: int, before: bv16) returns (after: bv16)
      modifies this
      ensures w == old(w) && h == old(h) && layer == old(layer) && vy == old(vy) && state == old(state)
      ensures var b := old(Bounds());
        var walk := WalkX(world, b, dx);
        && Bounds() == AfterX(world, b, dx) && vx == (if walk.blocked then 0 else old(vx))
        && EventsOf(after) == EventsOf(before) + walk.touched
                              + if walk.blocked then {if dx < 0 then HitLeft else HitRight} else {}
    {
      hide SampleTouches, FloorBlocks, EventsOf, Picked, Walked;
      ghost var b := Bounds();
      ghost var walk := WalkX(world, b, dx);
      var stepX := if dx < 0 then -1 else 1;
      var n := if dx < 0 then -dx else dx;
      after := before;
      EventMasks(0);
      for i := 0 to n
        invariant w == old(w) && h == old(h) && layer == old(layer) && vy == old(vy) && state == old(state)
        invariant Bounds() == Shift(b, stepX * i, 0) && vx == old(vx)
        invariant var rest := Walked(world, Bounds(), stepX, 0, n - i);
          && walk.steps == i + rest.steps && walk.blocked == rest.blocked
          && EventsOf(before) + walk.touched == EventsOf(after) + rest.touched
      {
        WalkedOnce(world, Bounds(), stepX, 0, n - i);
        x := x + stepX;
        var solid;
        solid, after := Look(world, after);
        if solid {
          x := x - stepX;
          vx := 0;
          EventUnion(after, if stepX < 0 then HIT_LEFT else HIT_RIGHT);
          after := after | (if stepX < 0 then HIT_LEFT else HIT_RIGHT);
          break;
        }
      }
      WalkedOnce(world, Bounds(), stepX, 0, 0);
    }

    /** Step pixel by pixel along y until something solid, or a one-way floor from above, is in the way. */
    method MoveY(world: World, dy: int, before: bv16) returns (after: bv16)
      modifies this
      ensures w == old(w) && h == old(h) && layer == old(layer) && vx == old(vx) && state == old(state)
      ensures var b := old(Bounds());
        var walk := WalkY(world, b, dy);
        && Bounds() == AfterY(world, b, dy) && vy == (if walk.blocked then 0 else old(vy))
        && EventsOf(after) == EventsOf(before) + walk.touched
                              + if walk.blocked then {if dy < 0 then HitHead else OnGround} else {}
    {
      hide SampleTouches, FloorBlocks, EventsOf, Picked, Walked;
      ghost var b := Bounds();
      ghost var walk := WalkY(world, b, dy);
      var stepY := if dy < 0 then -1 else 1;
      var n := if dy < 0 then -dy else dy;
      after := before;
      EventMasks(0);
      for i := 0 to n
        invariant w == old(w) && h == old(h) && layer == old(layer) && vx == old(vx) && state == old(state)
        invariant Bounds() == Shift(b, 0, stepY * i) && vy == old(vy)
        invariant var rest := Walked(world, Bounds(), 0, stepY, n - i);
          && walk.steps == i + rest.steps && walk.blocked == rest.blocked
          && EventsOf(before) + walk.touched == EventsOf(after) + rest.touched
      {
        var previousY := y;
        WalkedOnce(world, Bounds(), 0, stepY, n - i);
        y := y + stepY;
        var solid;
        solid, after := Look(world, after);
        var floor := false;
        if !solid && stepY > 0 { floor := ActorHitsPlatformFloor(world, Bounds(), previousY); }
        if solid || floor {
          y := y - stepY;
          vy := 0;
          EventUnion(after, if stepY < 0 then HIT_HEAD else ON_GROUND);
          after := after | (if stepY < 0 then HIT_HEAD else ON_GROUND);
          break;
        }
      }
      WalkedOnce(world, Bounds(), 0, stepY, 0);
    }

    /** actorMove: along x, then along y, then one more look at where the actor ended. */
    method Move(world: World, dx: int, dy: int) returns (result: bv16)
      modifies this
      ensures w == old(w) && h == old(h) && layer == old(layer) && state == result
      ensures var b := old(Bounds());
        var b1 := AfterX(world, b, dx);
        var mx, my := WalkX(world, b, dx), WalkY(world, b1, dy);
        && Bounds() == AfterY(world, b1, dy)
        && vx == (if mx.blocked then 0 else old(vx)) && vy == (if my.blocked then 0 else old(vy))
        && EventsOf(result) ==
           EventsOf(old(state)) * {HazardTouched, CollectTouched}
           + mx.touched + (if mx.blocked then {if dx < 0 then HitLeft else HitRight} else {})
           + my.touched + (if my.blocked then {if dy < 0 then HitHead else OnGround} else {})
           + Picked(world, Bounds())
    {
      hide SampleTouches, EventsOf, Picked, WalkX, WalkY, AfterX, AfterY;
      EventMasks(state);
      result := state & (TOUCHED_HAZARD | TOUCHED_COLLECT);
      result := MoveX(world, dx, result);
      result := MoveY(world, dy, result);
      var _, seen := Look(world, result);
      result := seen;
      state := result;
    }
  }

  // What a walk guarantees.

  lemma {:induction false} WalkIsMaximal(world: World, b: Box, sx: int, sy: int, n: nat)
    ensures var r := Walked(world, b, sx, sy, n);
      && r.steps <= n && (r.blocked <==> r.steps < n)
      && (forall j | 1 <= j <= r.steps :: !Blocked(world, Shift(b, sx * j, sy * j), sy))
      && (r.blocked ==> Blocked(world, Shift(b, sx * (r.steps + 1), sy * (r.steps + 1)), sy))
    decreases n
  {
    hide Blocked, Picked;
    if n == 0 {
    } else {
      var next := Shift(b, sx, sy);
      WalkIsMaximal(world, next, sx, sy, n - 1);
      var r, rest := Walked(world, b, sx, sy, n), Walked(world, next, sx, sy, n - 1);
      assert Shift(b, sx * 1, sy * 1) == next;
      if !Blocked(world, next, sy) {
        forall j | 2 <= j <= r.steps ensures !Blocked(world, Shift(b, sx * j, sy * j), sy) {
          ShiftOnce(b, sx, sy, j - 1);
        }
        ShiftOnce(b, sx, sy, rest.steps + 1);
      }
    }
  }

  lemma ShiftOnce(b: Box, sx: int, sy: int, j: int)
    ensures Shift(Shift(b, sx, sy), sx * j, sy * j) == Shift(b, sx * (j + 1), sy * (j + 1))
  {
    assert sx + sx * j == sx * (j + 1) && sy + sy * j == sy * (j + 1);
  }

  ghost function Moved(world: World, b: Box, dx: int, dy: int): Box {
    AfterY(world, AfterX(world, b, dx), dy)
  }

  /**
   * Motion is safe to the pixel: from a box free of SOLID pixels the actor ends in one, each displacement has the
   * requested sign and at most the requested length, and a short one means the very next pixel was refused.
   */
  lemma MotionIsSafe(world: World, b: Box, dx: int, dy: int)
    requires b.w >= 1 && b.h >= 1 && !Touches(world, b, Solid)
    ensures var b1, b2 := AfterX(world, b, dx), Moved(world, b, dx, dy);
      && !Touches(world, b1, Solid) && !Touches(world, b2, Solid)
      && b2.x == b1.x && b1.y == b.y
      && 0 <= Sign(dx) * (b1.x - b.x) <= Abs(dx) && 0 <= Sign(dy) * (b2.y - b.y) <= Abs(dy)
      && (WalkX(world, b, dx).blocked <==> b1.x != b.x + dx)
      && (WalkY(world, b1, dy).blocked <==> b2.y != b.y + dy)
      && (b1.x != b.x + dx ==> Touches(world, Shift(b1, Sign(dx), 0), Solid))
      && (b2.y != b.y + dy ==> || Touches(world, Shift(b2, 0, Sign(dy)), Solid)
                               || (dy > 0 && FloorBlocks(world, Shift(b2, 0, 1), b2.y)))
  {
    hide SampleTouches, Touches, FloorBlocks, Walked;
    var b1, b2 := AfterX(world, b, dx), Moved(world, b, dx, dy);
    var mx, my := WalkX(world, b, dx), WalkY(world, b1, dy);
    WalkIsMaximal(world, b, Sign(dx), 0, Abs(dx));
    WalkIsMaximal(world, b1, 0, Sign(dy), Abs(dy));
    if mx.steps > 0 { assert !Blocked(world, Shift(b, Sign(dx) * mx.steps, 0 * mx.steps), 0); }
    if my.steps > 0 { assert !Blocked(world, Shift(b1, 0 * my.steps, Sign(dy) * my.steps), Sign(dy)); }
    SamplingIsExact(world, b1, Solid);
    SamplingIsExact(world, b2, Solid);
    SamplingIsExact(world, Shift(b1, Sign(dx), 0), Solid);
    SamplingIsExact(world, Shift(b2, 0, Sign(dy)), Solid);
    assert Sign(dx) * (mx.steps + 1) == Sign(dx) * mx.steps + Sign(dx);
    assert Sign(dy) * (my.steps + 1) == Sign(dy) * my.steps + Sign(dy);
  }

  /** Row `row` holds a PLATFORM tile under some column of the box. */
  ghost predicate PlatformUnder(world: World, b: Box, row: int) {
    exists px :: Inside(b.x, b.w, px) && Has(world, b.layer, px, row, Platform)
  }

  lemma PlatformSampled(world: World, b: Box, row: int)
    requires b.w >= 1 && PlatformUnder(world, b, row)
    ensures RowTouches(world, b, row, Platform)
  {
    hide FlagsOf, TileFlagsAt;
    var px :| Inside(b.x, b.w, px) && Has(world, b.layer, px, row, Platform);
    var sx := SampleCovers(b.x, b.w, px);
    SameTileSameFlags(world, b.layer, px, row, sx, row);
    assert Has(world, b.layer, sx, row, Platform);
  }

  /** However fast it falls, an actor never gets its bottom edge to a platform row that was below it. */
  lemma NeverFallsThroughPlatform(world: World, b: Box, dx: int, dy: int, k: nat)
    requires b.w >= 1 && b.h >= 1 && Bottom(b) < TILE * k
    requires PlatformUnder(world, AfterX(world, b, dx), TILE * k)
    ensures Bottom(Moved(world, b, dx, dy)) < TILE * k
  {
    hide Walked, PlatformUnder, RowTouches, WalkX;
    var b1, row := AfterX(world, b, dx), TILE * k;
    var my := WalkY(world, b1, dy);
    WalkIsMaximal(world, b1, 0, Sign(dy), Abs(dy));
    if dy > 0 && Bottom(b1) + my.steps >= row {
      var j := row - Bottom(b1);
      var crossing := Shift(b1, 0 * j, Sign(dy) * j);
      assert Bottom(crossing) == row && TruncTile(row) == row;
      SameColumns(world, b1, crossing, row);
      PlatformBlocks(world, crossing, row);
    }
  }

  lemma PlatformBlocks(world: World, b: Box, row: int)
    requires b.w >= 1 && Bottom(b) == row == TruncTile(row) && PlatformUnder(world, b, row)
    ensures Blocked(world, b, 1)
  {
    PlatformSampled(world, b, row);
  }

  /** Falling by one pixel lands only on the top row of a platform tile; above the map it lands on tile 0 anywhere. */
  lemma LandsOnTileTops(world: World, b: Box)
    requires b.w >= 1
    ensures FloorBlocks(world, b, b.y - 1) <==>
      (Bottom(b) < 0 || Bottom(b) % TILE == 0) && PlatformUnder(world, b, Bottom(b))
  {
    hide RowTouches, PlatformUnder;
    if PlatformUnder(world, b, Bottom(b)) { PlatformSampled(world, b, Bottom(b)); }
    if RowTouches(world, b, Bottom(b), Platform) { SampledPlatform(world, b, Bottom(b)); }
  }

  lemma SampledPlatform(world: World, b: Box, row: int)
    requires b.w >= 1 && RowTouches(world, b, row, Platform)
    ensures PlatformUnder(world, b, row)
  {
    hide Has;
    var sx :| Sampled(b.x, b.w, sx) && Has(world, b.layer, sx, row, Platform);
    assert Inside(b.x, b.w, sx);
  }

  /** The two worlds have the same tiles and agree on which of them are solid. */
  predicate SameSolids(world: World, other: World) {
    world.layers == other.layers && forall id: uint8 ::
      Solid in FlagsOf(world.tileFlags[id]) <==> Solid in FlagsOf(other.tileFlags[id])
  }

  lemma SameSolidTouches(world: World, other: World, b: Box)
    requires SameSolids(world, other)
    ensures SampleTouches(world, b, Solid) <==> SampleTouches(other, b, Solid)
  {
    hide FlagsOf;
  }

  /** Nothing but solid tiles stops a walk to the side or up: one-way floors are passed from below. */
  lemma {:induction false} OnlySolidsStopRising(world: World, other: World, b: Box, sx: int, sy: int, n: nat)
    requires sy <= 0 && SameSolids(world, other)
    ensures var r, s := Walked(world, b, sx, sy, n), Walked(other, b, sx, sy, n);
      r.steps == s.steps && r.blocked == s.blocked
    decreases n
  {
    hide SampleTouches, FloorBlocks, Picked, SameSolids;
    if n == 0 {
    } else {
      SameSolidTouches(world, other, Shift(b, sx, sy));
      OnlySolidsStopRising(world, other, Shift(b, sx, sy), sx, sy, n - 1);
    }
  }

  lemma SameColumns(world: World, b: Box, c: Box, row: int)
    requires b.x == c.x && b.w == c.w && b.layer == c.layer
    ensures PlatformUnder(world, b, row) == PlatformUnder(world, c, row)
  {
    hide Has;
  }
}

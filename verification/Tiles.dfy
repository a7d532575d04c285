/** Tiles, the dirty-cell tile screen and the wrapped, scrolling playfield. */
module Tiles {
  import opened Words
  import opened Framebuffers

  const COLUMNS: int := 40
  const ROWS: int := 25
  const MAP_WIDTH: int := 64
  const MAP_HEIGHT: int := 32

  datatype TileDef = TileDef(bits: seq<bv8>, fg: uint16, bg: uint16)
  type Tile = t: TileDef | |t.bits| == 8 witness TileDef(seq(8, _ => 0), 0, 0)

  const BLANK: Tile := TileDef(seq(8, _ => 0), 0, 0)

  /** The palette index that pixel (dx, dy) of a tile shows. */
  function TilePixel(palette: Palette, t: Tile, dx: int, dy: int): uint8
    requires 0 <= dx < 8 && 0 <= dy < 8
  {
    Nearest(palette, if BitSet(t.bits[dy], dx) then t.fg else t.bg)
  }

  // The playfield.

  /** C++ remainder, moved up into range when negative. */
  function Wrap(a: int, m: int): int
    requires m > 0
  {
    var r := TruncRem(a, m);
    if r < 0 then r + m else r
  }

  lemma WrapIsModulo(a: int)
    ensures Wrap(a, MAP_WIDTH) == a % MAP_WIDTH && Wrap(a, MAP_HEIGHT) == a % MAP_HEIGHT
  {
    WrapWidth(a);
    WrapHeight(a);
  }

  lemma WrapWidth(a: int)
    ensures Wrap(a, MAP_WIDTH) == a % MAP_WIDTH
  {
  }

  lemma WrapHeight(a: int)
    ensures Wrap(a, MAP_HEIGHT) == a % MAP_HEIGHT
  {
  }

  /** The hand-written floor division by 8 of the drawing loop. */
  lemma FloorByEight(origin: int)
    ensures (if origin >= 0 then origin / 8 else 0 - (0 - origin + 7) / 8) == origin / 8
  {
  }

  /** Where a layer's origin lies on the map: its scroll plus its share of the camera, truncated like C++. */
  function Origin(scroll: int, camera: int, parallax: int): int {
    scroll + TruncDiv(camera * parallax, 256)
  }

  /**
   * The camera's share is its distance times parallax / 256, rounded toward the layer's own scroll: all of it at 256,
   * none at 0, and as much to the left as to the right.
   */
  lemma OriginIsTruncated(scroll: int, camera: int, parallax: int)
    ensures var moved := Origin(scroll, camera, parallax) - scroll;
      && 256 * Abs(moved) <= Abs(camera * parallax) < 256 * (Abs(moved) + 1)
      && (moved != 0 ==> (moved > 0 <==> camera * parallax > 0))
    ensures Origin(scroll, camera, 256) == scroll + camera && Origin(scroll, camera, 0) == scroll
    ensures Origin(scroll, 0 - camera, parallax) - scroll == scroll - Origin(scroll, camera, parallax)
  {
    assert (0 - camera) * parallax == 0 - camera * parallax;
  }

  function WithTile(layers: seq<seq<uint8>>, layer: nat, n: nat, id: uint8): seq<seq<uint8>>
    requires layer < |layers| && n < |layers[layer]|
  {
    var ids: seq<uint8> := layers[layer][n := id];
    layers[layer := ids]
  }

  /** The layer's tile id under a world pixel, on the map wrapped in both directions. */
  function WrappedTile(ids: seq<uint8>, wx: int, wy: int): uint8
    requires |ids| == MAP_WIDTH * MAP_HEIGHT
  {
    ids[wy / 8 % MAP_HEIGHT * MAP_WIDTH + wx / 8 % MAP_WIDTH]
  }

  /** The map repeats every 512 pixels across and 256 down, to the pixel, on both sides of its origin. */
  lemma MapRepeats(ids: seq<uint8>, wx: int, wy: int, i: int, j: int)
    requires |ids| == MAP_WIDTH * MAP_HEIGHT
    ensures WrappedTile(ids, wx + 512 * i, wy + 256 * j) == WrappedTile(ids, wx, wy)
    ensures (wx + 512 * i) % 8 == wx % 8 && (wy + 256 * j) % 8 == wy % 8
  {
    assert (wx + 512 * i) / 8 == wx / 8 + 64 * i && (wy + 256 * j) / 8 == wy / 8 + 32 * j;
    assert (wx / 8 + 64 * i) % 64 == wx / 8 % 64 && (wy / 8 + 32 * j) % 32 == wy / 8 % 32;
  }

  /** The tile-screen cell of a pixel. */
  function CellOf(x: int, y: int): int {
    y / 8 * COLUMNS + x / 8
  }

  lemma CellIsRect(tx: int, ty: int, x: int, y: int)
    requires OnScreen(x, y) && 0 <= tx < COLUMNS && 0 <= ty < ROWS
    ensures InRect(tx * 8, ty * 8, 8, 8, x, y) <==> CellOf(x, y) == ty * COLUMNS + tx
    ensures InRect(tx * 8, ty * 8, 8, 8, x, y) ==> x - tx * 8 == x % 8 && y - ty * 8 == y % 8
    ensures 0 <= CellOf(x, y) < COLUMNS * ROWS
  {
  }

  lemma EightWide(dx: int, dy: int)
    requires 0 <= dx < 8
    ensures BitIndex(8, dx, dy) / 8 == dy && BitIndex(8, dx, dy) % 8 == dx
  {
  }

  class TileEngine {
    const fb: Framebuffer
    var tiles: seq<Tile>
    const tileScreen: array<uint8>
    const tileDirty: array<bool>
    var playfield: seq<seq<uint8>>
    var playfieldReady: bool
    var scrollX: seq<int>
    var scrollY: seq<int>
    var parallaxX: seq<int>
    var parallaxY: seq<int>
    var cameraX: int
    var cameraY: int

    ghost predicate Valid()
      reads this
    {
      && fb.Valid() && |tiles| == 256 && tileScreen.Length == tileDirty.Length == COLUMNS * ROWS
      && tileScreen as object != fb.pixels && tileDirty as object != fb.pixels && tileScreen as object != tileDirty
      && |playfield| == 2 && |playfield[0]| == |playfield[1]| == MAP_WIDTH * MAP_HEIGHT
      && |scrollX| == |scrollY| == |parallaxX| == |parallaxY| == 2
    }

    constructor ()
      ensures Valid() && fresh(fb) && fresh(fb.pixels) && fresh(tileScreen) && fresh(tileDirty)
      ensures Coherent()
    {
      fb := new Framebuffer();
      tiles := seq(256, _ => BLANK);
      tileScreen := new uint8[COLUMNS * ROWS](_ => 0);
      tileDirty := new bool[COLUMNS * ROWS](_ => false);
      playfield := seq(2, _ => seq(MAP_WIDTH * MAP_HEIGHT, _ => 0));
      playfieldReady := false;
      scrollX, scrollY, parallaxX, parallaxY := [0, 0], [0, 0], [256, 256], [256, 256];
      cameraX, cameraY := 0, 0;
      new;
      BlackIsZero();
    }

    /** Paint one tile: its background, then its set bits; tile 0 is skipped when it counts as transparent. */
    method DrawTile(px: int, py: int, id: uint8, transparentZero: bool)
      requires Valid()
      modifies fb.pixels
      ensures forall x, y | OnScreen(x, y) ::
        fb.At(x, y) == if InRect(px, py, 8, 8, x, y) && !(transparentZero && id == 0)
                       then TilePixel(fb.palette, tiles[id], x - px, y - py) else old(fb.At(x, y))
    {
      hide Nearest, BitSet, BitIndex;
      if transparentZero && id == 0 { return; }
      var tile := tiles[id];
      var background := fb.FindNearest(tile.bg);
      fb.RectIndexed(px, py, 8, 8, background);
      if tile.fg == tile.bg { return; }
      fb.Draw1BPP(px, py, 8, 8, tile.bits, tile.fg, None);
      forall dx, dy | 0 <= dx < 8 && 0 <= dy < 8 { EightWide(dx, dy); }
    }

    // The tile screen, ABI calls 80 to 83.

    /** Cell n shows exactly its current tile. */
    ghost predicate Shows(n: int)
      requires Valid() && 0 <= n < COLUMNS * ROWS
      reads this, fb, fb.pixels, tileScreen
    {
      forall x, y | OnScreen(x, y) && CellOf(x, y) == n ::
        fb.At(x, y) == TilePixel(fb.palette, tiles[tileScreen[n]], x % 8, y % 8)
    }

    /** The cache is coherent: every clean cell shows its tile. */
    ghost predicate Coherent()
      requires Valid()
      reads this, fb, fb.pixels, tileScreen, tileDirty
    {
      forall n | 0 <= n < COLUMNS * ROWS && !tileDirty[n] :: Shows(n)
    }

    method TileClear(color: uint16)
      requires Valid() && Coherent()
      modifies this`tiles, tileScreen, tileDirty
      ensures Valid() && Coherent()
      ensures tiles == old(tiles)[0 := BLANK.(fg := color, bg := color)]
      ensures forall n | 0 <= n < COLUMNS * ROWS :: tileScreen[n] == 0 && tileDirty[n]
    {
      forall n | 0 <= n < COLUMNS * ROWS { tileScreen[n] := 0; }
      forall n | 0 <= n < COLUMNS * ROWS { tileDirty[n] := true; }
      tiles := tiles[0 := BLANK.(fg := color, bg := color)];
    }

    /** `bits` is what the guest's bitmap pointer yields, or eight zeros for a null pointer. */
    method TileDefine(id: uint8, bits: seq<bv8>, fg: uint16, bg: uint16)
      requires Valid() && Coherent() && |bits| == 8
      modifies this`tiles, tileDirty
      ensures Valid() && Coherent()
      ensures tiles == old(tiles)[id := TileDef(bits, fg, bg)]
      ensures forall n | 0 <= n < COLUMNS * ROWS :: tileDirty[n] == (old(tileDirty[n]) || tileScreen[n] == id)
    {
      hide TilePixel, CellOf;
      tiles := tiles[id := TileDef(bits, fg, bg)];
      for n := 0 to COLUMNS * ROWS
        invariant tiles == old(tiles)[id := TileDef(bits, fg, bg)]
        invariant forall k | 0 <= k < COLUMNS * ROWS ::
          tileDirty[k] == (old(tileDirty[k]) || (k < n && tileScreen[k] == id))
      {
        if tileScreen[n] == id { tileDirty[n] := true; }
      }
      forall n | 0 <= n < COLUMNS * ROWS && !tileDirty[n] ensures Shows(n) {
        assert old(Shows(n));
      }
    }

    method TilePut(x: uint8, y: uint8, id: uint8)
      requires Valid() && Coherent()
      modifies tileScreen, tileDirty
      ensures Valid() && Coherent()
      ensures forall n | 0 <= n < COLUMNS * ROWS ::
        tileScreen[n] == if x < COLUMNS && y < ROWS && n == y * COLUMNS + x then id else old(tileScreen[n])
      ensures forall n | 0 <= n < COLUMNS * ROWS :: tileDirty[n] == (old(tileDirty[n]) || tileScreen[n] != old(tileScreen[n]))
    {
      hide TilePixel, CellOf;
      if x < COLUMNS && y < ROWS && tileScreen[y * COLUMNS + x] != id {
        tileScreen[y * COLUMNS + x] := id;
        tileDirty[y * COLUMNS + x] := true;
      }
      forall n | 0 <= n < COLUMNS * ROWS && !tileDirty[n] ensures Shows(n) {
        assert old(Shows(n));
      }
    }

    method PresentCell(x: int, y: int)
      requires Valid() && Coherent() && 0 <= x < COLUMNS && 0 <= y < ROWS
      modifies fb.pixels, tileDirty
      ensures Valid() && Coherent()
      ensures forall n | 0 <= n < COLUMNS * ROWS :: tileDirty[n] == (n != y * COLUMNS + x && old(tileDirty[n]))
    {
      hide TilePixel, CellOf;
      var n := y * COLUMNS + x;
      if tileDirty[n] {
        tileDirty[n] := false;
        DrawTile(x * 8, y * 8, tileScreen[n], false);
        forall px, py | OnScreen(px, py) { CellIsRect(x, y, px, py); }
        forall k | 0 <= k < COLUMNS * ROWS && !tileDirty[k] ensures Shows(k) {
          if k != n { assert old(Shows(k)); }
        }
      }
    }

    /** Repaint the dirty cells only. Afterwards the whole screen is what repainting every cell would give. */
    method TilePresent()
      requires Valid() && Coherent()
      modifies fb.pixels, tileDirty
      ensures Valid() && Coherent()
      ensures forall n | 0 <= n < COLUMNS * ROWS :: !tileDirty[n]
      ensures forall x, y | OnScreen(x, y) ::
        && 0 <= CellOf(x, y) < COLUMNS * ROWS
        && fb.At(x, y) == TilePixel(fb.palette, tiles[tileScreen[CellOf(x, y)]], x % 8, y % 8)
    {
      hide TilePixel, CellOf;
      for y := 0 to ROWS
        invariant Coherent() && forall n | 0 <= n < y * COLUMNS :: !tileDirty[n]
      {
        for x := 0 to COLUMNS
          invariant Coherent() && forall n | 0 <= n < y * COLUMNS + x :: !tileDirty[n]
        {
          PresentCell(x, y);
        }
      }
      forall x, y | OnScreen(x, y)
        ensures 0 <= CellOf(x, y) < COLUMNS * ROWS
        ensures fb.At(x, y) == TilePixel(fb.palette, tiles[tileScreen[CellOf(x, y)]], x % 8, y % 8)
      {
        CellIsRect(0, 0, x, y);
        assert Shows(CellOf(x, y));
      }
    }

    // The playfield, ABI calls 84 to 95.

    /** What a world pixel of a layer shows, over what the screen showed before. */
    function LayerPixel(layer: int, transparentZero: bool, x: int, y: int, before: uint8): uint8
      requires Valid() && 0 <= layer < 2
      reads this, fb
    {
      var wx, wy := OriginX(layer) + x, OriginY(layer) + y;
      var id := WrappedTile(playfield[layer], wx, wy);
      if transparentZero && id == 0 then before else TilePixel(fb.palette, tiles[id], wx % 8, wy % 8)
    }

    function OriginX(layer: int): int
      requires Valid() && 0 <= layer < 2
      reads this
    {
      Origin(scrollX[layer], cameraX, parallaxX[layer])
    }

    function OriginY(layer: int): int
      requires Valid() && 0 <= layer < 2
      reads this
    {
      Origin(scrollY[layer], cameraY, parallaxY[layer])
    }

    method PlayfieldClear(layer: uint8, id: uint8)
      requires Valid()
      modifies this`playfieldReady, this`playfield, this`scrollX, this`scrollY, this`parallaxX, this`parallaxY
      ensures Valid()
      ensures layer < 2 ==> playfieldReady && playfield == old(playfield)[layer := seq(MAP_WIDTH * MAP_HEIGHT, _ => id)]
      ensures layer < 2 ==> scrollX == old(scrollX)[layer := 0] && scrollY == old(scrollY)[layer := 0]
      ensures layer < 2 ==> parallaxX == old(parallaxX)[layer := 256] && parallaxY == old(parallaxY)[layer := 256]
      ensures layer >= 2 ==> unchanged(this)
    {
      if layer < 2 {
        playfieldReady := true;
        playfield := playfield[layer := seq(MAP_WIDTH * MAP_HEIGHT, _ => id)];
        scrollX, scrollY := scrollX[layer := 0], scrollY[layer := 0];
        parallaxX, parallaxY := parallaxX[layer := 256], parallaxY[layer := 256];
      }
    }

    method PlayfieldPut(layer: uint8, x: uint8, y: uint8, id: uint8)
      requires Valid()
      modifies this`playfieldReady, this`playfield
      ensures Valid()
      ensures var hit := layer < 2 && x < MAP_WIDTH && y < MAP_HEIGHT;
        && playfieldReady == (hit || old(playfieldReady))
        && (if hit then playfield == WithTile(old(playfield), layer, y * MAP_WIDTH + x, id)
            else playfield == old(playfield))
    {
      if layer < 2 && x < MAP_WIDTH && y < MAP_HEIGHT {
        playfieldReady := true;
        playfield := WithTile(playfield, layer, y * MAP_WIDTH + x, id);
      }
    }

    /** One row of tiles from the left edge of the screen. */
    method DrawBand(layer: uint8, transparentZero: bool, startX: int, offsetX: int, tileY: int, screenY: int)
      requires Valid() && layer < 2 && 0 <= offsetX < 8
      requires OriginX(layer) == startX * 8 + offsetX && OriginY(layer) + screenY == tileY * 8
      modifies fb.pixels
      ensures forall x, y | OnScreen(x, y) ::
        fb.At(x, y) == if screenY <= y < screenY + 8 then LayerPixel(layer, transparentZero, x, y, old(fb.At(x, y)))
                       else old(fb.At(x, y))
    {
      hide TilePixel, OriginX, OriginY, Wrap;
      WrapIsModulo(tileY);
      var mapY := Wrap(tileY, MAP_HEIGHT);
      var screenX, column := 0 - offsetX, 0;
      while screenX < WIDTH
        invariant column >= 0 && screenX == 8 * column - offsetX
        invariant forall x, y | OnScreen(x, y) ::
          fb.At(x, y) == if screenY <= y < screenY + 8 && x < screenX
                         then LayerPixel(layer, transparentZero, x, y, old(fb.At(x, y))) else old(fb.At(x, y))
        decreases WIDTH - screenX
      {
        WrapIsModulo(startX + column);
        var mapX := Wrap(startX + column, MAP_WIDTH);
        DrawTile(screenX, screenY, playfield[layer][mapY * MAP_WIDTH + mapX], transparentZero);
        screenX, column := screenX + 8, column + 1;
      }
    }

    /** Draw one layer tile by tile, from the partly visible tile at the top left. */
    method DrawPlayfield(layer: uint8, transparentZero: bool)
      requires Valid()
      modifies fb.pixels
      ensures forall x, y | OnScreen(x, y) ::
        fb.At(x, y) == if layer > 1 || !playfieldReady then old(fb.At(x, y))
                       else LayerPixel(layer, transparentZero, x, y, old(fb.At(x, y)))
    {
      if layer > 1 || !playfieldReady { return; }
      hide LayerPixel;
      var originX := scrollX[layer] + TruncDiv(cameraX * parallaxX[layer], 256);
      var originY := scrollY[layer] + TruncDiv(cameraY * parallaxY[layer], 256);
      FloorByEight(originX);
      FloorByEight(originY);
      var startX := if originX >= 0 then originX / 8 else 0 - (0 - originX + 7) / 8;
      var startY := if originY >= 0 then originY / 8 else 0 - (0 - originY + 7) / 8;
      var offsetX, offsetY := originX - startX * 8, originY - startY * 8;
      var screenY, row := 0 - offsetY, 0;
      while screenY < HEIGHT
        invariant row >= 0 && screenY == 8 * row - offsetY
        invariant forall x, y | OnScreen(x, y) ::
          fb.At(x, y) == if y < screenY then LayerPixel(layer, transparentZero, x, y, old(fb.At(x, y)))
                         else old(fb.At(x, y))
        decreases HEIGHT - screenY
      {
        DrawBand(layer, transparentZero, startX, offsetX, startY + row, screenY);
        screenY, row := screenY + 8, row + 1;
      }
    }

    /** playfield_draw_all: the back layer opaque, then the front layer over it. */
    method DrawPlayfields()
      requires Valid()
      modifies fb.pixels
      ensures forall x, y | OnScreen(x, y) && !playfieldReady :: fb.At(x, y) == old(fb.At(x, y))
      ensures forall x, y | OnScreen(x, y) && playfieldReady ::
        fb.At(x, y) ==
          var front := WrappedTile(playfield[1], OriginX(1) + x, OriginY(1) + y);
          var back := WrappedTile(playfield[0], OriginX(0) + x, OriginY(0) + y);
          if front != 0 then TilePixel(fb.palette, tiles[front], (OriginX(1) + x) % 8, (OriginY(1) + y) % 8)
          else TilePixel(fb.palette, tiles[back], (OriginX(0) + x) % 8, (OriginY(0) + y) % 8)
    {
      hide TilePixel, WrappedTile, OriginX, OriginY;
      DrawPlayfield(0, false);
      DrawPlayfield(1, true);
    }
  }

  lemma BlackIsZero()
    ensures Nearest(DefaultPalette(), 0) == 0
  {
    NearestUnique(DefaultPalette(), 0, 0);
  }
}

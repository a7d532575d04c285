/** The map that actors collide with is the map that the playfield draws. */
module CollisionMap {
  import opened Words
  import opened Framebuffers
  import Actors
  import Tiles

  /** A world pixel on the 64 by 32 tile map. */
  predicate OnMap(x: int, y: int) {
    0 <= x < 512 && 0 <= y < 256
  }

  /** On the map an actor meets the tile that is drawn under it; off the map it meets tile 0. */
  lemma CollidesWithWhatIsDrawn(world: Actors.World, layer: uint8, x: int, y: int)
    ensures Actors.TileAt(world, layer, x, y) ==
      if layer < 2 && OnMap(x, y) then Tiles.WrappedTile(world.layers[layer], x, y) else 0
  {
  }

  /** Putting a tile changes what actors meet at exactly the 64 pixels of its cell, on its layer. */
  lemma PutChangesItsCell(world: Actors.World, layer: uint8, tx: uint8, ty: uint8, id: uint8, l: uint8, x: int, y: int)
    requires layer < 2 && tx < 64 && ty < 32
    ensures var after: seq<seq<uint8>> := Tiles.WithTile(world.layers, layer, ty * Tiles.MAP_WIDTH + tx, id);
      && |after| == 2 && |after[0]| == |after[1]| == 2048
      && Actors.TileAt(world.(layers := after), l, x, y) ==
         if l == layer && InRect(8 * tx, 8 * ty, 8, 8, x, y) then id else Actors.TileAt(world, l, x, y)
  {
  }
}

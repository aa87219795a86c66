/** The three zoom levels (`world/Zoom.h`): saturating zoom steps and the
    tile sizes and elevations of each level. */
module Zooms {

  newtype Zoom = n: int | 0 <= n < 3

  const SGFX: Zoom := 0
  const MGFX: Zoom := 1
  const GFX: Zoom := 2

  const NR_OF_ZOOMS: nat := 3

  /** `TILE_SIZES`: (width, height) of a tile in pixels, per zoom. */
  const TILE_SIZES: seq<(int, int)> := [(16, 8), (32, 16), (64, 32)]

  /** `ELEVATIONS`: 20 / 4, 20 / 2 and 20 pixels. */
  const ELEVATIONS: seq<int> := [20 / 4, 20 / 2, 20]

  /** `operator++`: zoom in one level, staying at GFX. */
  function ZoomIn(z: Zoom): (n: Zoom)
    ensures z == GFX ==> n == GFX
    ensures z != GFX ==> n as int == z as int + 1
  {
    if z == GFX then GFX else z + 1
  }

  /** `operator--`: zoom out one level, staying at SGFX. */
  function ZoomOut(z: Zoom): (n: Zoom)
    ensures z == SGFX ==> n == SGFX
    ensures z != SGFX ==> n as int + 1 == z as int
  {
    if z == SGFX then SGFX else z - 1
  }

  /** Zooming in and out again returns to the start, except at the
      saturated ends; two steps reach either end from anywhere. */
  lemma ZoomInOut(z: Zoom)
    ensures z != GFX ==> ZoomOut(ZoomIn(z)) == z
    ensures z != SGFX ==> ZoomIn(ZoomOut(z)) == z
    ensures ZoomIn(ZoomIn(z)) == GFX && ZoomOut(ZoomOut(z)) == SGFX
  {
  }

  /** 1, 2 and 4: each zoom level doubles the one below it. */
  function Scale(z: Zoom): nat
    decreases z
  {
    if z == SGFX then 1 else 2 * Scale(z - 1)
  }

  /** `get_tile_width`: 16 pixels at SGFX, doubled at each level. */
  function TileWidth(z: Zoom): (w: int)
    ensures w == 16 * Scale(z)
  {
    TILE_SIZES[z].0
  }

  /** `get_tile_height`: 8 pixels at SGFX, doubled at each level. */
  function TileHeight(z: Zoom): (h: int)
    ensures h == 8 * Scale(z)
  {
    TILE_SIZES[z].1
  }

  /** `get_tile_width_half`: the integer division is exact. */
  function TileWidthHalf(z: Zoom): (w: int)
    ensures 2 * w == TileWidth(z)
  {
    TILE_SIZES[z].0 / 2
  }

  /** `get_tile_height_half`: the integer division is exact. */
  function TileHeightHalf(z: Zoom): (h: int)
    ensures 2 * h == TileHeight(z)
  {
    TILE_SIZES[z].1 / 2
  }

  /** `get_elevation`: 5 pixels at SGFX, doubled at each level. */
  function Elevation(z: Zoom): (e: int)
    ensures e == 5 * Scale(z)
  {
    ELEVATIONS[z]
  }

  /** The values the source checks with `static_assert`. */
  lemma TileSizeValues()
    ensures TileWidth(SGFX) == 16 && TileHeight(SGFX) == 8 && TileWidthHalf(SGFX) == 8 && TileHeightHalf(SGFX) == 4
    ensures TileWidth(MGFX) == 32 && TileHeight(MGFX) == 16 && TileWidthHalf(MGFX) == 16 && TileHeightHalf(MGFX) == 8
    ensures TileWidth(GFX) == 64 && TileHeight(GFX) == 32 && TileWidthHalf(GFX) == 32 && TileHeightHalf(GFX) == 16
    ensures Elevation(SGFX) == 5 && Elevation(MGFX) == 10 && Elevation(GFX) == 20
  {
  }

  /** At every zoom a tile is twice as wide as high, the halves are exact,
      and zooming in doubles every size and the elevation. */
  lemma TileSizeShape(z: Zoom)
    ensures TileWidth(z) == 2 * TileHeight(z) > 0
    ensures 2 * TileWidthHalf(z) == TileWidth(z) && 2 * TileHeightHalf(z) == TileHeight(z)
    ensures z != GFX ==> TileWidth(ZoomIn(z)) == 2 * TileWidth(z)
                         && TileHeight(ZoomIn(z)) == 2 * TileHeight(z)
                         && Elevation(ZoomIn(z)) == 2 * Elevation(z)
  {
  }
}

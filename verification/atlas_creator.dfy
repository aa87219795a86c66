/** The TileAtlasCreator's packer (`AtlasCreator.createSgfxAtlas` and its
    two twins): decoded sprites are drawn, in order, into a fixed number of
    square grids of fixed-size cells, and the pages are written as
    "0.png", "1.png", ... Drawing is abstract: a page records which sprite
    it draws at which pixel, in drawing order, on a transparent page. */
module AtlasCreator {
  import opened Decimal
  import AtlasLookup
  import CArith

  /** The grid geometry of one zoom level (`TileAtlas` constants). */
  datatype Tier = Tier(name: string, pages: nat, rows: nat, cellWidth: nat, cellHeight: nat)

  const SGFX: Tier := Tier("sgfx", 2, 64, 16, 71)
  const MGFX: Tier := Tier("mgfx", 6, 32, 32, 143)
  const GFX: Tier := Tier("gfx", 24, 16, 64, 286)

  /** `g.drawImage(sprite, x, y, null)`. */
  datatype Draw = Draw(sprite: nat, x: nat, y: nat)

  datatype AtlasImage = AtlasImage(width: nat, height: nat, draws: seq<Draw>)

  /** Cells per page: `rows` full rows of `rows` cells each. */
  function Cells(t: Tier): (n: nat)
    ensures t.rows > 0 ==> n > 0 && n % t.rows == 0 && n / t.rows == t.rows
  {
    if t.rows == 0 then 0
    else
      CArith.RowMajorDivMod(0, t.rows, t.rows);
      t.rows * t.rows
  }

  function Capacity(t: Tier): nat { t.pages * Cells(t) }

  function Clamp(v: int, hi: nat): nat { if v < 0 then 0 else if v > hi then hi else v }

  /** The draw for cell `cell` (row-major) of page `page`. */
  function CellDraw(t: Tier, page: nat, cell: nat): Draw
    requires t.rows > 0
  {
    CArith.MulMono(0, page, Cells(t));
    CArith.MulMono(0, cell % t.rows, t.cellWidth);
    CArith.MulMono(0, cell / t.rows, t.cellHeight);
    Draw(page * Cells(t) + cell, (cell % t.rows) * t.cellWidth, (cell / t.rows) * t.cellHeight)
  }

  /** The draws made into page `page` once its first `cells` cells have been
      visited: one per visited cell whose sprite exists. */
  function PageDraws(spriteCount: nat, t: Tier, page: nat, cells: nat): seq<Draw>
    requires t.rows > 0
  {
    var n := Clamp(spriteCount - page * Cells(t), cells);
    seq(n, k requires 0 <= k < n => CellDraw(t, page, k))
  }

  /** A finished page, as the closed-form description of the packer. */
  function ExpectedPage(spriteCount: nat, t: Tier, page: nat): AtlasImage
    requires t.rows > 0
  {
    AtlasImage(t.cellWidth * t.rows, t.cellHeight * t.rows,
               PageDraws(spriteCount, t, page, Cells(t)))
  }

  lemma CellOfColumn(t: Tier, y: nat, x: nat)
    requires t.rows > 0 && x < t.rows
    ensures (y * t.rows + x) % t.rows == x && (y * t.rows + x) / t.rows == y
  {
    CArith.DivModOf(y * t.rows + x, t.rows, y, x);
  }

  /** Visiting one more cell of a page adds the draw of that cell exactly
      when its sprite exists. */
  lemma PageDrawsStep(spriteCount: nat, t: Tier, page: nat, y: nat, x: nat)
    requires t.rows > 0 && x < t.rows
    ensures var m := y * t.rows + x;
            var c := page * Cells(t) + m;
            PageDraws(spriteCount, t, page, m + 1)
            == if c < spriteCount then PageDraws(spriteCount, t, page, m) + [Draw(c, x * t.cellWidth, y * t.cellHeight)]
               else PageDraws(spriteCount, t, page, m)
  {
    var m := y * t.rows + x;
    var c := page * Cells(t) + m;
    CellOfColumn(t, y, x);
    if c < spriteCount {
      var before := PageDraws(spriteCount, t, page, m);
      var after := PageDraws(spriteCount, t, page, m + 1);
      assert |after| == m + 1 && |before| == m;
      assert after[m] == CellDraw(t, page, m);
      assert after == before + [after[m]];
    }
  }

  /** The three nested loops of `createSgfxAtlas`: the running cursor `c`
      visits every cell of every page and draws sprite `c` when it exists. */
  method CreateAtlas(spriteCount: nat, t: Tier) returns (atlases: seq<AtlasImage>)
    requires t.rows > 0
    ensures |atlases| == t.pages
    ensures forall i :: 0 <= i < t.pages ==> atlases[i] == ExpectedPage(spriteCount, t, i)
  {
    var r := t.rows;
    atlases := [];
    var c := 0;
    var i := 0;
    while i < t.pages
      invariant 0 <= i <= t.pages
      invariant c == i * Cells(t)
      invariant |atlases| == i
      invariant forall j :: 0 <= j < i ==> atlases[j] == ExpectedPage(spriteCount, t, j)
    {
      var draws: seq<Draw> := [];
      var y := 0;
      while y < r
        invariant 0 <= y <= r
        invariant c == i * Cells(t) + y * r
        invariant draws == PageDraws(spriteCount, t, i, y * r)
      {
        var x := 0;
        while x < r
          invariant 0 <= x <= r
          invariant c == i * Cells(t) + y * r + x
          invariant draws == PageDraws(spriteCount, t, i, y * r + x)
        {
          PageDrawsStep(spriteCount, t, i, y, x);
          if c < spriteCount {
            draws := draws + [Draw(c, x * t.cellWidth, y * t.cellHeight)];
          }
          c := c + 1;
          x := x + 1;
        }
        assert y * r + r == (y + 1) * r;
        y := y + 1;
      }
      assert r * r == Cells(t);
      atlases := atlases + [AtlasImage(t.cellWidth * r, t.cellHeight * r, draws)];
      assert (i + 1) * Cells(t) == i * Cells(t) + Cells(t);
      i := i + 1;
    }
  }

  /** Placement: sprite number k = page * R² + cell (cell < R²), when it
      exists, is drawn on page `page` as draw number `cell`, at column
      cell % R and row cell / R. */
  lemma SpritePlacement(spriteCount: nat, t: Tier, k: nat, page: nat, cell: nat)
    requires t.rows > 0 && k < spriteCount && cell < Cells(t) && k == page * Cells(t) + cell
    ensures cell < |ExpectedPage(spriteCount, t, page).draws|
    ensures var d := ExpectedPage(spriteCount, t, page).draws[cell];
            d.sprite == k && d.x == (cell % t.rows) * t.cellWidth && d.y == (cell / t.rows) * t.cellHeight
  {
    var draws := ExpectedPage(spriteCount, t, page).draws;
    assert |draws| == Clamp(spriteCount - page * Cells(t), Cells(t));
    assert draws[cell] == CellDraw(t, page, cell);
  }

  /** The packer and the game agree: for gfx number k = page * R² + cell, the
      game's `BshTileAtlas` looks up page `page`, column cell % R and row
      cell / R, the place where `SpritePlacement` puts it. */
  lemma SpriteLookup(t: Tier, k: nat, page: nat, cell: nat)
    requires t.rows > 0 && cell < Cells(t) && k == page * Cells(t) + cell
    ensures AtlasLookup.GetAtlasIndex(k, t.rows) == page
    ensures AtlasLookup.GetAtlasOffset(k, t.rows) == (cell % t.rows, cell / t.rows)
  {
    CArith.DivModOf(k, Cells(t), page, cell);
    CArith.CDivOfNat(cell, t.rows);
  }

  /** Every sprite within capacity has such a place: its page is one of the
      tier's pages. */
  lemma PlacementCoordinates(t: Tier, k: nat)
    requires t.rows > 0 && k < Capacity(t)
    ensures k / Cells(t) < t.pages && k % Cells(t) < Cells(t)
    ensures k == (k / Cells(t)) * Cells(t) + k % Cells(t)
  {
    var r2 := Cells(t);
    QuotientBound(k, r2, t.pages);
    Split(k, r2);
  }

  lemma Split(k: nat, d: nat)
    requires d > 0
    ensures k == (k / d) * d + k % d && k % d < d
  {
  }

  lemma QuotientBound(k: nat, r2: nat, pages: nat)
    requires r2 > 0 && k < pages * r2
    ensures k / r2 < pages
  {
    if k / r2 >= pages {
      CArith.MulMono(pages, k / r2, r2);
    }
  }

  /** Every drawn sprite exists, and every drawn sprite lies within the
      capacity of the grid: cells past the last sprite stay transparent. */
  lemma DrawsAreExistingSprites(spriteCount: nat, t: Tier, page: nat, j: nat)
    requires t.rows > 0 && page < t.pages
    requires j < |ExpectedPage(spriteCount, t, page).draws|
    ensures var d := ExpectedPage(spriteCount, t, page).draws[j];
            d.sprite < spriteCount && d.sprite < Capacity(t)
            && d.x + t.cellWidth <= t.cellWidth * t.rows
            && d.y + t.cellHeight <= t.cellHeight * t.rows
  {
    var r2 := Cells(t);
    assert j < r2;
    assert page * r2 + j < (page + 1) * r2;
    assert (page + 1) * r2 <= t.pages * r2;
    CellInsidePage(t, j);
  }

  /** A cell's pixel rectangle lies inside its page. */
  lemma CellInsidePage(t: Tier, j: nat)
    requires t.rows > 0 && j < Cells(t)
    ensures (j % t.rows) * t.cellWidth + t.cellWidth <= t.cellWidth * t.rows
    ensures (j / t.rows) * t.cellHeight + t.cellHeight <= t.cellHeight * t.rows
  {
    var col := j % t.rows;
    var row := j / t.rows;
    CArith.DivBound(j, t.rows);
    CArith.MulMono(col + 1, t.rows, t.cellWidth);
    CArith.MulMono(row + 1, t.rows, t.cellHeight);
  }

  /** Silent truncation: a sprite beyond the grid's capacity is drawn on no page. */
  lemma SpritesBeyondCapacityAreDropped(spriteCount: nat, t: Tier, k: nat)
    requires t.rows > 0 && k >= Capacity(t)
    ensures forall page, j :: 0 <= page < t.pages && 0 <= j < |ExpectedPage(spriteCount, t, page).draws| ==>
              ExpectedPage(spriteCount, t, page).draws[j].sprite != k
  {
    forall page, j | 0 <= page < t.pages && 0 <= j < |ExpectedPage(spriteCount, t, page).draws|
      ensures ExpectedPage(spriteCount, t, page).draws[j].sprite != k
    {
      DrawsAreExistingSprites(spriteCount, t, page, j);
    }
  }

  /** The directory of one zoom level: `ATLAS_OUT_PATH + "sgfx/"`. */
  function AtlasDirectory(outPath: string, t: Tier): string
  {
    outPath + t.name + "/"
  }

  /** `writeAtlasImages`: page `c` is written to `path + c + ".png"`. */
  function AtlasFileNames(path: string, count: nat): (names: seq<string>)
    ensures |names| == count
    ensures forall c :: 0 <= c < count ==>
              |names[c]| == |path| + |NatToString(c)| + 4
              && names[c][..|path|] == path && names[c][|names[c]| - 4..] == ".png"
              && names[c][|path|..|names[c]| - 4] == NatToString(c)
  {
    seq(count, c requires 0 <= c < count => path + NatToString(c) + ".png")
  }

  /** No two pages are written to the same file. */
  lemma AtlasFileNamesDistinct(path: string, count: nat, a: nat, b: nat)
    requires a < count && b < count && a != b
    ensures AtlasFileNames(path, count)[a] != AtlasFileNames(path, count)[b]
  {
    var names := AtlasFileNames(path, count);
    if names[a] == names[b] {
      NatToStringInjective(a, b);
    }
  }
}

/** Locating a sprite in the atlas pages at run time (`BshTileAtlas`):
    which page holds gfx number `g`, and at which column and row. The
    arithmetic is C++ `int` arithmetic, whose `/` and `%` truncate toward
    zero. */
module AtlasLookup {
  import opened CArith

  /** `GetAtlasIndex`: the page of gfx `g` in a grid of `rows` x `rows`
      cells. For a real gfx number it is the page whose cells hold `g`. */
  function GetAtlasIndex(g: int, rows: int): (page: int)
    requires rows != 0
    ensures g >= 0 && rows > 0 ==> 0 <= page && 0 <= g - page * (rows * rows) < rows * rows
  {
    var cells := rows * rows;
    if g >= 0 && rows > 0 then
      PageOf(g, rows, cells);
      CDiv(g, cells)
    else CDiv(g, cells)
  }

  /** `GetAtlasOffset`: (column, row) of gfx `g` inside its page. For a real
      gfx number both lie in the grid, and row-major they give `g`'s place
      in its page. */
  function GetAtlasOffset(g: int, rows: int): (offset: (int, int))
    requires rows != 0
    ensures g >= 0 && rows > 0 ==>
              0 <= offset.0 < rows && 0 <= offset.1 < rows
              && offset.1 * rows + offset.0 == g - GetAtlasIndex(g, rows) * (rows * rows)
  {
    var cells := rows * rows;
    var picInPic := CMod(g, cells);
    if g >= 0 && rows > 0 then
      PageOf(g, rows, cells);
      DivBound(picInPic, rows);
      CellOf(picInPic, rows);
      (CMod(picInPic, rows), CDiv(picInPic, rows))
    else (CMod(picInPic, rows), CDiv(picInPic, rows))
  }

  /** C++ division of a gfx number by the cells of a page. */
  lemma PageOf(g: int, rows: int, cells: int)
    requires g >= 0 && rows > 0 && cells == rows * rows
    ensures cells > 0 && 0 <= CDiv(g, cells) && 0 <= CMod(g, cells) < cells
    ensures CMod(g, cells) == g - CDiv(g, cells) * cells
  {
    assert cells > 0 by {
      MulMono(1, rows, rows);
    }
    CDivOfNat(g, cells);
    NatDivMod(g, cells);
  }

  /** C++ division of a place in a page by the width of its rows, for a
      place whose row is inside the page. */
  lemma CellOf(p: nat, rows: nat)
    requires rows > 0 && p / rows < rows
    ensures 0 <= CMod(p, rows) < rows && 0 <= CDiv(p, rows) < rows
    ensures CDiv(p, rows) * rows + CMod(p, rows) == p
  {
    CDivOfNat(p, rows);
    NatDivMod(p, rows);
  }

  /** Euclidean division of a natural number, quotient on the left. */
  lemma NatDivMod(p: nat, d: nat)
    requires d > 0
    ensures 0 <= p / d && 0 <= p % d < d && (p / d) * d + p % d == p
  {
    var q := p / d;
    assert p == d * q + p % d;
    assert q * d == d * q;
  }

  /** For a real gfx number and grid, the offsets lie inside the grid and the
      page, row and column give `g` back. */
  lemma LookupInverse(g: int, rows: int)
    requires g >= 0 && rows > 0
    ensures GetAtlasIndex(g, rows) >= 0
    ensures 0 <= GetAtlasOffset(g, rows).0 < rows
    ensures 0 <= GetAtlasOffset(g, rows).1 < rows
    ensures GetAtlasIndex(g, rows) * rows * rows
            + GetAtlasOffset(g, rows).1 * rows + GetAtlasOffset(g, rows).0 == g
  {
    var r2 := rows * rows;
    var page := g / r2;
    var p := g % r2;
    CDivOfNat(g, r2);
    CDivOfNat(p, rows);
    DivBound(p, rows);
    assert page * rows * rows == page * r2 by {
      MulAssoc(page, rows, rows);
    }
  }

  /** The other direction: page, row and column inside the grid identify one
      gfx number, and the lookup finds them again. */
  lemma LookupOfPosition(page: nat, row: nat, column: nat, rows: int)
    requires rows > 0 && row < rows && column < rows
    ensures var g := page * rows * rows + row * rows + column;
            GetAtlasIndex(g, rows) == page && GetAtlasOffset(g, rows) == (column, row)
  {
    var r2 := rows * rows;
    var inPage := row * rows + column;
    RowMajorInRange(column, row, rows, rows);
    MulAssoc(page, rows, rows);
    DivModOf(page * r2 + inPage, r2, page, inPage);
    DivModOf(inPage, rows, row, column);
  }

}

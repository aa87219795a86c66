/** The render order of map tiles (`Tile::GetRenderIndex` and
    `Tile::CalcRenderPositions`): a position of a width x height map is
    rotated, then flattened row by row. DEG0 and DEG180 flatten with the
    width, DEG90 and DEG270 with the height. The value sorts tiles for
    drawing; for DEG90 and DEG270 on a map that is not square it can be
    negative or exceed width * height. */
module RenderIndices {
  import opened Rotations
  import opened CArith

  /** `GetRenderIndex`: DEG0 and DEG180 number the cells 0 .. width *
      height - 1, and so do DEG90 and DEG270 on a square map. */
  function GetRenderIndex(x: int, y: int, width: int, height: int, r: Rotation): (i: int)
    requires 0 <= x < width && 0 <= y < height
    ensures r == DEG0 || r == DEG180 || width == height ==> 0 <= i < width * height
  {
    var p := RotatePosition(x, y, width, height, r);
    if r == DEG0 || r == DEG180 then
      RowMajorInRange(p.0, p.1, width, height);
      p.1 * width + p.0
    else if width == height then
      RowMajorInRange(p.0, p.1, height, width);
      p.1 * height + p.0
    else p.1 * height + p.0
  }

  /** The cell a DEG0 index comes from: column i % width, row i / width. */
  function CellOfIndex(i: nat, width: nat): (nat, nat)
    requires width > 0
  {
    (i % width, i / width)
  }

  /** DEG0 numbers the cells 0 .. width * height - 1 row by row, and
      `CellOfIndex` gives the cell back. */
  lemma RenderIndexDeg0(x: nat, y: nat, width: nat, height: nat)
    requires x < width && y < height
    ensures var i := GetRenderIndex(x, y, width, height, DEG0);
            0 <= i < width * height && CellOfIndex(i, width) == (x, y)
  {
    var i := y * width + x;
    DivModOf(i, width, y, x);
    CDivOfNat(i, width);
    RowMajorInRange(x, y, width, height);
  }

  /** Every index 0 .. width * height - 1 is the DEG0 index of exactly the
      cell `CellOfIndex` names: DEG0 is a bijection onto that range. */
  lemma RenderIndexDeg0Onto(i: nat, width: nat, height: nat)
    requires i < width * height
    ensures width > 0
    ensures var c := CellOfIndex(i, width);
            c.0 < width && c.1 < height && GetRenderIndex(c.0, c.1, width, height, DEG0) == i
  {
    var c := CellOfIndex(i, width);
    if c.1 >= height {
      MulMono(height, c.1, width);
    }
  }

  /** DEG180 visits the cells in the reverse DEG0 order. */
  lemma RenderIndexDeg180(x: int, y: int, width: int, height: int)
    requires 0 <= x < width && 0 <= y < height
    ensures GetRenderIndex(x, y, width, height, DEG180)
            == width * height - 1 - GetRenderIndex(x, y, width, height, DEG0)
  {
    assert (height - y - 1) * width == height * width - y * width - width;
  }

  /** For every rotation, two cells of the map never share an index, so the
      index is a sound sort key. */
  lemma RenderIndexInjective(x1: int, y1: int, x2: int, y2: int, width: int, height: int, r: Rotation)
    requires 0 <= x1 < width && 0 <= y1 < height && 0 <= x2 < width && 0 <= y2 < height
    requires GetRenderIndex(x1, y1, width, height, r) == GetRenderIndex(x2, y2, width, height, r)
    ensures x1 == x2 && y1 == y2
  {
    if r == DEG0 {
      RowMajorInjective(y1, x1, y2, x2, width);
    } else if r == DEG180 {
      RowMajorInjective(height - y1 - 1, width - x1 - 1, height - y2 - 1, width - x2 - 1, width);
    } else if r == DEG90 {
      RowMajorInjective(x1, height - y1 - 1, x2, height - y2 - 1, height);
    } else {
      RowMajorInjective(height - x1 - 1, y1, height - x2 - 1, y2, height);
    }
  }

  /** `CalcRenderPositions`: the index of the tile's position for each of
      the four rotations, in rotation order. */
  function CalcRenderPositions(x: int, y: int, width: int, height: int): (indices: seq<int>)
    requires 0 <= x < width && 0 <= y < height
    ensures |indices| == 4
    ensures forall r: Rotation :: indices[r] == GetRenderIndex(x, y, width, height, r)
  {
    [GetRenderIndex(x, y, width, height, DEG0), GetRenderIndex(x, y, width, height, DEG90),
     GetRenderIndex(x, y, width, height, DEG180), GetRenderIndex(x, y, width, height, DEG270)]
  }
}

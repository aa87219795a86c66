/** The bitmask passes of the island editor (`generator::IslandGenerator`).
    The map holds one `MapType` per cell, row by row; water cells next to
    land are turned, pass by pass, into embankment, coast, shallow and
    medium water. A pass gives each cell a bitmask: a base value for the
    cell's type plus one flag for each of the eight neighbours that is
    water or off the map; the bitmask's range then decides whether the cell
    takes the pass's type. */
module IslandGenerators {
  import opened Results
  import opened CArith

  datatype MapType = WATER | MEDIUM_WATER | SHALLOW_WATER | COAST | EMBANKMENT | TERRAIN | INVALID

  const TERRAIN_FLAG: int := 0
  const NORTH_WEST_FLAG: int := 1
  const NORTH_FLAG: int := 2
  const NORTH_EAST_FLAG: int := 4
  const WEST_FLAG: int := 8
  const EAST_FLAG: int := 16
  const SOUTH_WEST_FLAG: int := 32
  const SOUTH_FLAG: int := 64
  const SOUTH_EAST_FLAG: int := 128
  const EMBANKMENT_FLAG: int := 256
  const COAST_FLAG: int := 512
  const SHALLOW_FLAG: int := 768
  /** The next base after SHALLOW_FLAG. */
  const MEDIUM_FLAG: int := 1024
  /** MEDIUM_FLAG with every neighbour flag set. */
  const WATER_FLAG: int := 1279

  /** The generator's state: the map size, the map and the bitmasks. */
  datatype Generator = Generator(width: int, height: int, cells: seq<MapType>, bitmasks: seq<int>)

  datatype GeneratorError = IndexOutOfRange(index: int) | NoTileTypes(mapType: MapType)

  /** A map of `width` x `height` cells, as `CalcMapTypes` leaves it. */
  predicate Valid(g: Generator)
  {
    g.width >= 3 && g.height >= 0 && |g.cells| == g.width * g.height
  }

  /** `GetIndex`: row-major, for a non-negative position on a map at least
      three cells wide. */
  function GetIndex(x: int, y: int, width: int): (i: int)
    requires x >= 0 && y >= 0 && width >= 3
    ensures i >= 0
    ensures x < width ==> i % width == x && i / width == y
  {
    RowMajorDivMod(x, y, width);
    y * width + x
  }

  /** GetIndex numbers the cells of a width x height map 0 .. width * height
      - 1, one number per cell. */
  lemma GetIndexBijective(x1: int, y1: int, x2: int, y2: int, width: int, height: int)
    requires width >= 3 && 0 <= x1 < width && 0 <= y1 < height && 0 <= x2 < width && 0 <= y2 < height
    ensures 0 <= GetIndex(x1, y1, width) < width * height
    ensures GetIndex(x1, y1, width) == GetIndex(x2, y2, width) <==> x1 == x2 && y1 == y2
  {
    RowMajorInRange(x1, y1, width, height);
    if GetIndex(x1, y1, width) == GetIndex(x2, y2, width) {
      RowMajorInjective(y1, x1, y2, x2, width);
    }
  }

  /** The cell of index i: column i % width and row i / width. */
  lemma CellOfIndex(i: int, width: int, height: int)
    requires width >= 3 && 0 <= i < width * height
    ensures 0 <= i % width < width && 0 <= i / width < height
    ensures GetIndex(i % width, i / width, width) == i
  {
    if i / width >= height {
      MulMono(height, i / width, width);
    }
  }

  predicate InGrid(width: int, height: int, x: int, y: int)
  {
    0 <= x < width && 0 <= y < height
  }

  datatype Direction = NorthWest | North | NorthEast | West | East | SouthWest | South | SouthEast

  function Flag(d: Direction): int
  {
    match d
    case NorthWest => NORTH_WEST_FLAG
    case North => NORTH_FLAG
    case NorthEast => NORTH_EAST_FLAG
    case West => WEST_FLAG
    case East => EAST_FLAG
    case SouthWest => SOUTH_WEST_FLAG
    case South => SOUTH_FLAG
    case SouthEast => SOUTH_EAST_FLAG
  }

  function Dx(d: Direction): int
  {
    match d
    case NorthWest => -1 case West => -1 case SouthWest => -1
    case North => 0 case South => 0
    case NorthEast => 1 case East => 1 case SouthEast => 1
  }

  function Dy(d: Direction): int
  {
    match d
    case NorthWest => -1 case North => -1 case NorthEast => -1
    case West => 0 case East => 0
    case SouthWest => 1 case South => 1 case SouthEast => 1
  }

  /** Whether the neighbour of (x, y) in direction d counts for the
      bitmask: it is off the map, or water. */
  predicate WaterSide(g: Generator, x: int, y: int, d: Direction)
    requires Valid(g) && InGrid(g.width, g.height, x, y)
  {
    var nx, ny := x + Dx(d), y + Dy(d);
    !InGrid(g.width, g.height, nx, ny)
    || (GetIndexBijective(nx, ny, nx, ny, g.width, g.height); g.cells[GetIndex(nx, ny, g.width)] == WATER)
  }

  /** `GetNorthValue` and its seven siblings: the direction's flag when the
      neighbour is off the map (only the bounds the direction can cross are
      tested) or water, and 0 otherwise. */
  function NeighbourValue(g: Generator, x: int, y: int, d: Direction): (v: int)
    requires Valid(g) && InGrid(g.width, g.height, x, y)
    ensures v == Flag(d) <==> WaterSide(g, x, y, d)
    ensures v == 0 <==> !WaterSide(g, x, y, d)
  {
    var nx, ny := x + Dx(d), y + Dy(d);
    if (Dx(d) < 0 && nx < 0) || (Dx(d) > 0 && nx >= g.width) || (Dy(d) < 0 && ny < 0) || (Dy(d) > 0 && ny >= g.height) then
      Flag(d)
    else
      GetIndexBijective(nx, ny, nx, ny, g.width, g.height);
      if g.cells[GetIndex(nx, ny, g.width)] == WATER then Flag(d) else 0
  }

  /** The eight neighbour values, added in the order of `AddMapType`. */
  function NeighbourSum(g: Generator, x: int, y: int): (s: int)
    requires Valid(g) && InGrid(g.width, g.height, x, y)
  {
    NeighbourValue(g, x, y, NorthWest) + NeighbourValue(g, x, y, North) + NeighbourValue(g, x, y, NorthEast)
    + NeighbourValue(g, x, y, West) + NeighbourValue(g, x, y, East)
    + NeighbourValue(g, x, y, SouthWest) + NeighbourValue(g, x, y, South) + NeighbourValue(g, x, y, SouthEast)
  }

  /** The neighbour part of a bitmask is one byte: 0 exactly when no
      neighbour is water or off the map, 255 exactly when all are. */
  lemma NeighbourSumRange(g: Generator, x: int, y: int)
    requires Valid(g) && InGrid(g.width, g.height, x, y)
    ensures 0 <= NeighbourSum(g, x, y) <= 255
    ensures NeighbourSum(g, x, y) == 0 <==> forall d :: !WaterSide(g, x, y, d)
    ensures NeighbourSum(g, x, y) == 255 <==> forall d :: WaterSide(g, x, y, d)
  {
    if NeighbourSum(g, x, y) == 255 {
      forall d ensures WaterSide(g, x, y, d) {
        assert NeighbourValue(g, x, y, d) == Flag(d);
      }
    }
    if NeighbourSum(g, x, y) == 0 {
      forall d ensures !WaterSide(g, x, y, d) {
        assert NeighbourValue(g, x, y, d) == 0;
      }
    }
  }

  /** The passes of `CalcBitmaskValues`, in order. */
  predicate IsPass(t: MapType)
  {
    t == EMBANKMENT || t == COAST || t == SHALLOW_WATER || t == MEDIUM_WATER
  }

  /** The base value of a cell of type `t` in the pass for `pass`: a water
      cell takes the pass's flag, an embankment, coast or shallow cell its
      own flag, and every other cell TERRAIN_FLAG. */
  function BaseValue(t: MapType, pass: MapType): int
  {
    if t == EMBANKMENT then EMBANKMENT_FLAG
    else if t == COAST then COAST_FLAG
    else if t == SHALLOW_WATER then SHALLOW_FLAG
    else if t == WATER then
      (if pass == MEDIUM_WATER then MEDIUM_FLAG
       else if pass == SHALLOW_WATER then SHALLOW_FLAG
       else if pass == COAST then COAST_FLAG
       else if pass == EMBANKMENT then EMBANKMENT_FLAG
       else TERRAIN_FLAG)
    else TERRAIN_FLAG
  }

  /** The base value of cell (x, y) in the pass for `pass`. */
  function CellBase(g: Generator, x: int, y: int, pass: MapType): int
    requires Valid(g) && InGrid(g.width, g.height, x, y)
  {
    BaseValue(g.cells[(GetIndexBijective(x, y, x, y, g.width, g.height); GetIndex(x, y, g.width))], pass)
  }

  /** The bitmask of cell (x, y) in the pass for `pass`: the cell's base
      value plus a byte of neighbour flags, which is 0 exactly when no
      neighbour is water or off the map and 255 exactly when all are. */
  function CellBitmask(g: Generator, x: int, y: int, pass: MapType): (b: int)
    requires Valid(g) && InGrid(g.width, g.height, x, y)
    ensures 0 <= b - CellBase(g, x, y, pass) <= 255
    ensures b == CellBase(g, x, y, pass) <==> forall d :: !WaterSide(g, x, y, d)
    ensures b == CellBase(g, x, y, pass) + 255 <==> forall d :: WaterSide(g, x, y, d)
  {
    NeighbourSumRange(g, x, y);
    CellBase(g, x, y, pass) + NeighbourSum(g, x, y)
  }

  /** The cells whose bitmask a pass writes: every cell in the embankment
      pass; in each later pass no cell of a type an earlier pass settled. */
  predicate Writes(pass: MapType, t: MapType)
  {
    if pass == EMBANKMENT then true
    else if pass == COAST then t != TERRAIN && t != EMBANKMENT
    else if pass == SHALLOW_WATER then t != TERRAIN && t != EMBANKMENT && t != COAST
    else if pass == MEDIUM_WATER then t != TERRAIN && t != EMBANKMENT && t != COAST && t != SHALLOW_WATER
    else false
  }

  /** `Bitmask2MapTypeCol` (without the colour): the type a bitmask stands
      for. Each band ends one short of the next base, so a water cell with
      water all around (base + 255) is not taken by the pass. */
  function Bitmask2MapType(b: int): (t: MapType)
    ensures t == TERRAIN <==> TERRAIN_FLAG <= b < EMBANKMENT_FLAG
    ensures t == EMBANKMENT <==> EMBANKMENT_FLAG <= b < COAST_FLAG - 1
    ensures t == COAST <==> COAST_FLAG <= b < SHALLOW_FLAG - 1
    ensures t == SHALLOW_WATER <==> SHALLOW_FLAG <= b < MEDIUM_FLAG - 1
    ensures t == MEDIUM_WATER <==> MEDIUM_FLAG <= b < WATER_FLAG
    ensures t == WATER <==> b == WATER_FLAG
  {
    if b == TERRAIN_FLAG then TERRAIN
    else if b > TERRAIN_FLAG && b < EMBANKMENT_FLAG then TERRAIN
    else if b >= EMBANKMENT_FLAG && b < COAST_FLAG - 1 then EMBANKMENT
    else if b >= COAST_FLAG && b < SHALLOW_FLAG - 1 then COAST
    else if b >= SHALLOW_FLAG && b < MEDIUM_FLAG - 1 then SHALLOW_WATER
    else if b >= MEDIUM_FLAG && b < WATER_FLAG then MEDIUM_WATER
    else if b == WATER_FLAG then WATER
    else INVALID
  }

  /** The bitmasks after the first loop of `AddMapType`: cell i is
      recomputed when the pass writes its type, and kept otherwise. */
  function PassBitmask(g: Generator, pass: MapType, i: int): int
    requires Valid(g) && |g.bitmasks| == |g.cells| && 0 <= i < |g.cells|
  {
    CellOfIndex(i, g.width, g.height);
    if Writes(pass, g.cells[i]) then CellBitmask(g, i % g.width, i / g.width, pass) else g.bitmasks[i]
  }

  /** `AddMapType`: a row-by-row pass writing the bitmasks from the map as
      it was before the pass, then a pass over all bitmasks that gives the
      pass's type to each cell whose bitmask stands for it. */
  method AddMapType(g: Generator, pass: MapType) returns (r: Generator)
    requires Valid(g) && |g.bitmasks| == |g.cells| && IsPass(pass)
    ensures r.width == g.width && r.height == g.height
    ensures |r.bitmasks| == |g.bitmasks| && |r.cells| == |g.cells|
    ensures forall i :: 0 <= i < |g.cells| ==> r.bitmasks[i] == PassBitmask(g, pass, i)
    ensures forall i :: 0 <= i < |g.cells| ==>
              r.cells[i] == if Bitmask2MapType(r.bitmasks[i]) == pass then pass else g.cells[i]
    ensures r == Pass(g, pass)
  {
    var bitmasks := WriteBitmasks(g, pass);
    var cells := Reclassify(g.cells, bitmasks, pass);
    r := Generator(g.width, g.height, cells, bitmasks);
    assert r.bitmasks == Pass(g, pass).bitmasks;
  }

  /** The effect of `AddMapType` as a function of the state. */
  function Pass(g: Generator, pass: MapType): (r: Generator)
    requires Valid(g) && |g.bitmasks| == |g.cells|
    ensures Valid(r) && |r.bitmasks| == |r.cells| == |g.cells| && r.width == g.width && r.height == g.height
    ensures forall i :: 0 <= i < |g.cells| ==> r.cells[i] == g.cells[i] || r.cells[i] == pass
  {
    var n := |g.cells|;
    var bitmasks := seq(n, i requires 0 <= i < n => PassBitmask(g, pass, i));
    var cells := seq(n, i requires 0 <= i < n => if Bitmask2MapType(bitmasks[i]) == pass then pass else g.cells[i]);
    Generator(g.width, g.height, cells, bitmasks)
  }

  /** `CalcBitmaskValues`: the bitmasks resized to one per cell and zeroed,
      then the four passes in their fixed order. */
  method CalcBitmaskValues(g: Generator) returns (r: Generator)
    requires Valid(g)
    ensures r == CalcBitmasks(g)
  {
    var zeroed := Generator(g.width, g.height, g.cells, seq(|g.cells|, _ => 0));
    r := AddMapType(zeroed, EMBANKMENT);
    r := AddMapType(r, COAST);
    r := AddMapType(r, SHALLOW_WATER);
    r := AddMapType(r, MEDIUM_WATER);
  }

  function CalcBitmasks(g: Generator): (r: Generator)
    requires Valid(g)
    ensures Valid(r) && |r.bitmasks| == |r.cells| == |g.cells|
  {
    var zeroed := Generator(g.width, g.height, g.cells, seq(|g.cells|, _ => 0));
    Pass(Pass(Pass(Pass(zeroed, EMBANKMENT), COAST), SHALLOW_WATER), MEDIUM_WATER)
  }

  /** Every terrain cell's bitmask is one byte, so it stands for terrain. */
  predicate TerrainSettled(g: Generator)
    requires |g.bitmasks| == |g.cells|
  {
    forall i :: 0 <= i < |g.cells| && g.cells[i] == TERRAIN ==> 0 <= g.bitmasks[i] < 256
  }

  /** A pass never changes a terrain cell: the embankment pass gives it a
      bitmask in the terrain band, and later passes do not write it. */
  lemma PassKeepsTerrain(g: Generator, pass: MapType)
    requires Valid(g) && |g.bitmasks| == |g.cells| && IsPass(pass)
    requires pass == EMBANKMENT || TerrainSettled(g)
    ensures TerrainSettled(Pass(g, pass))
    ensures forall i :: 0 <= i < |g.cells| && g.cells[i] == TERRAIN ==> Pass(g, pass).cells[i] == TERRAIN
  {
    var r := Pass(g, pass);
    forall i | 0 <= i < |g.cells| && g.cells[i] == TERRAIN
      ensures r.cells[i] == TERRAIN && 0 <= r.bitmasks[i] < 256
    {
      PassKeepsTerrainAt(g, pass, i);
    }
  }

  lemma PassKeepsTerrainAt(g: Generator, pass: MapType, i: int)
    requires Valid(g) && |g.bitmasks| == |g.cells| && IsPass(pass)
    requires pass == EMBANKMENT || TerrainSettled(g)
    requires 0 <= i < |g.cells| && g.cells[i] == TERRAIN
    ensures Pass(g, pass).cells[i] == TERRAIN && 0 <= Pass(g, pass).bitmasks[i] < 256
  {
    CellOfIndex(i, g.width, g.height);
    NeighbourSumRange(g, i % g.width, i / g.width);
  }

  /** Bitmasking never creates or removes land: terrain cells stay terrain,
      and every other cell ends as it was or as one of the four pass types. */
  lemma CalcBitmasksKeepsTerrain(g: Generator, i: int)
    requires Valid(g) && 0 <= i < |g.cells|
    ensures CalcBitmasks(g).cells[i] == TERRAIN <==> g.cells[i] == TERRAIN
    ensures CalcBitmasks(g).cells[i] == g.cells[i] || IsPass(CalcBitmasks(g).cells[i])
  {
    var g0 := Generator(g.width, g.height, g.cells, seq(|g.cells|, _ => 0));
    var g1 := Pass(g0, EMBANKMENT);
    var g2 := Pass(g1, COAST);
    var g3 := Pass(g2, SHALLOW_WATER);
    PassKeepsTerrain(g0, EMBANKMENT);
    PassKeepsTerrain(g1, COAST);
    PassKeepsTerrain(g2, SHALLOW_WATER);
    PassKeepsTerrain(g3, MEDIUM_WATER);
  }

  /** The embankment pass on a water cell: the cell becomes embankment
      exactly when some neighbour is land; with water all around, its
      bitmask 511 stands for no type and it stays water. */
  lemma EmbankmentPassOnWater(g: Generator, x: int, y: int, idx: int)
    requires Valid(g) && |g.bitmasks| == |g.cells| && InGrid(g.width, g.height, x, y)
    requires idx == GetIndex(x, y, g.width) && 0 <= idx < |g.cells| && g.cells[idx] == WATER
    ensures var t := Pass(g, EMBANKMENT).cells[idx];
            (t == EMBANKMENT <==> exists d :: !WaterSide(g, x, y, d))
            && (t == WATER <==> forall d :: WaterSide(g, x, y, d))
  {
    NeighbourSumRange(g, x, y);
    PassBitmaskAt(g, EMBANKMENT, idx, x, y, CellBitmask(g, x, y, EMBANKMENT));
  }

  /** `UpdateBySelection`: the selected type is stored at `index`, and the
      bitmask there becomes the type's own flag for water, terrain, medium
      and shallow water. For any other type the bitmask becomes the last
      key, in the iteration order of the type's table of known bitmasks,
      whose tile type is the selected button; with no such key it is kept.
      `table` is that table (None when the type has none, where the source
      throws). An index off the map throws before anything changes. */
  function UpdateBySelection(g: Generator, index: int, sel: MapType, button: int, table: Option<seq<(int, int)>>)
    : (r: Result<Generator, GeneratorError>)
    requires |g.bitmasks| == |g.cells|
    ensures r.Ok? <==> 0 <= index < |g.cells| && (sel in {WATER, TERRAIN, MEDIUM_WATER, SHALLOW_WATER} || table.Some?)
    ensures r.Ok? ==> r.value.width == g.width && r.value.height == g.height
                      && r.value.cells == g.cells[index := sel]
                      && |r.value.bitmasks| == |g.bitmasks|
                      && forall j :: 0 <= j < |g.bitmasks| && j != index ==> r.value.bitmasks[j] == g.bitmasks[j]
    ensures r.Ok? && sel == WATER ==> Bitmask2MapType(r.value.bitmasks[index]) == WATER
    ensures r.Ok? && sel == TERRAIN ==> Bitmask2MapType(r.value.bitmasks[index]) == TERRAIN
    ensures r.Ok? && (sel == MEDIUM_WATER || sel == SHALLOW_WATER) ==> Bitmask2MapType(r.value.bitmasks[index]) == sel
    ensures r.Ok? && sel !in {WATER, TERRAIN, MEDIUM_WATER, SHALLOW_WATER}
            ==> r.value.bitmasks[index] == LastKeyOf(table.value, button, g.bitmasks[index])
  {
    if !(0 <= index < |g.cells|) then Err(IndexOutOfRange(index))
    else
      var cells := g.cells[index := sel];
      if sel == WATER then Ok(Generator(g.width, g.height, cells, g.bitmasks[index := WATER_FLAG]))
      else if sel == TERRAIN then Ok(Generator(g.width, g.height, cells, g.bitmasks[index := TERRAIN_FLAG]))
      else if sel == MEDIUM_WATER then Ok(Generator(g.width, g.height, cells, g.bitmasks[index := MEDIUM_FLAG]))
      else if sel == SHALLOW_WATER then Ok(Generator(g.width, g.height, cells, g.bitmasks[index := SHALLOW_FLAG]))
      else if table.None? then Err(NoTileTypes(sel))
      else
        var b := LastKeyOf(table.value, button, g.bitmasks[index]);
        Ok(Generator(g.width, g.height, cells, g.bitmasks[index := b]))
  }

  /** The loop over the table: the key of the last entry whose tile type is
      `button`, or `current` when no entry has it. */
  function LastKeyOf(table: seq<(int, int)>, button: int, current: int): (k: int)
  {
    match LastMatch(table, button, |table|)
    case None => current
    case Some(l) => table[l].0
  }

  /** The position of the last entry before `end` whose tile type is
      `button`. */
  function LastMatch(table: seq<(int, int)>, button: int, end: nat): (l: Option<nat>)
    requires end <= |table|
    ensures l.Some? ==> l.value < end && table[l.value].1 == button
                        && forall m :: l.value < m < end ==> table[m].1 != button
    ensures l.None? ==> forall m :: 0 <= m < end ==> table[m].1 != button
  {
    if end == 0 then None
    else if table[end - 1].1 == button then Some(end - 1)
    else LastMatch(table, button, end - 1)
  }

  /** `Reset`: the map and the bitmasks are emptied; the size is kept. */
  function Reset(g: Generator): (r: Generator)
    ensures |r.cells| == 0 && |r.bitmasks| == 0 && r.width == g.width && r.height == g.height
  {
    Generator(g.width, g.height, [], [])
  }

  /** The first loop of `AddMapType`, over rows and then columns. */
  method WriteBitmasks(g: Generator, pass: MapType) returns (bitmasks: seq<int>)
    requires Valid(g) && |g.bitmasks| == |g.cells|
    ensures |bitmasks| == |g.cells|
    ensures forall j :: 0 <= j < |g.cells| ==> bitmasks[j] == PassBitmask(g, pass, j)
  {
    var n := |g.cells|;
    bitmasks := g.bitmasks;
    var i := 0;
    var y := 0;
    while y < g.height
      invariant 0 <= y <= g.height && |bitmasks| == n
      invariant i == y * g.width && i <= n
      invariant forall j :: 0 <= j < i ==> bitmasks[j] == PassBitmask(g, pass, j)
      invariant forall j :: i <= j < n ==> bitmasks[j] == g.bitmasks[j]
    {
      NextRow(y, g.width, g.height);
      bitmasks := WriteRow(g, pass, bitmasks, y, i, i + g.width);
      i := i + g.width;
      y := y + 1;
    }
    AllRows(y, g.width, g.height, i, n);
  }

  lemma AllRows(y: int, width: int, height: int, i: int, n: int)
    requires y == height && i == y * width && n == width * height
    ensures i == n
  {
  }

  /** The inner loop of `WriteBitmasks`: row y, positions start .. end - 1. */
  method WriteRow(g: Generator, pass: MapType, prev: seq<int>, y: int, start: int, end: int) returns (bitmasks: seq<int>)
    requires Valid(g) && |g.bitmasks| == |g.cells| && |prev| == |g.cells|
    requires 0 <= y < g.height && start == y * g.width && end == start + g.width && end <= |g.cells|
    requires forall j :: 0 <= j < start ==> prev[j] == PassBitmask(g, pass, j)
    requires forall j :: start <= j < |g.cells| ==> prev[j] == g.bitmasks[j]
    ensures |bitmasks| == |g.cells|
    ensures forall j :: 0 <= j < end ==> bitmasks[j] == PassBitmask(g, pass, j)
    ensures forall j :: end <= j < |g.cells| ==> bitmasks[j] == g.bitmasks[j]
  {
    var n := |g.cells|;
    bitmasks := prev;
    var i := start;
    var x := 0;
    while x < g.width
      invariant 0 <= x <= g.width && |bitmasks| == n
      invariant i == start + x && i <= n
      invariant forall j :: 0 <= j < i ==> bitmasks[j] == PassBitmask(g, pass, j)
      invariant forall j :: i <= j < n ==> bitmasks[j] == g.bitmasks[j]
    {
      var idx := GetIndex(x, y, g.width);
      RowMajorInRange(x, y, g.width, g.height);
      var result := CellBitmask(g, x, y, pass);
      PassBitmaskAt(g, pass, idx, x, y, result);
      if Writes(pass, g.cells[idx]) {
        bitmasks := bitmasks[idx := result];
      }
      x := x + 1;
      i := i + 1;
    }
  }

  lemma PassBitmaskAt(g: Generator, pass: MapType, idx: int, x: int, y: int, result: int)
    requires Valid(g) && |g.bitmasks| == |g.cells| && InGrid(g.width, g.height, x, y)
    requires idx == GetIndex(x, y, g.width) && 0 <= idx < |g.cells|
    requires result == CellBitmask(g, x, y, pass)
    ensures PassBitmask(g, pass, idx) == if Writes(pass, g.cells[idx]) then result else g.bitmasks[idx]
  {
    DivModOf(idx, g.width, y, x);
    CDivOfNat(idx, g.width);
  }

  lemma NextRow(y: int, width: int, height: int)
    requires 0 <= y < height && width >= 0
    ensures y * width + width == (y + 1) * width <= width * height
  {
    MulMono(y + 1, height, width);
  }

  /** The second loop of `AddMapType`: cell i takes the pass's type when
      its bitmask stands for it. */
  method Reclassify(cells: seq<MapType>, bitmasks: seq<int>, pass: MapType) returns (r: seq<MapType>)
    requires |bitmasks| == |cells|
    ensures |r| == |cells|
    ensures forall j :: 0 <= j < |cells| ==> r[j] == if Bitmask2MapType(bitmasks[j]) == pass then pass else cells[j]
  {
    r := cells;
    var i := 0;
    while i < |bitmasks|
      invariant 0 <= i <= |bitmasks| && |r| == |cells|
      invariant forall j :: 0 <= j < i ==> r[j] == if Bitmask2MapType(bitmasks[j]) == pass then pass else cells[j]
      invariant forall j :: i <= j < |cells| ==> r[j] == cells[j]
    {
      if Bitmask2MapType(bitmasks[i]) == pass {
        r := r[i := pass];
      }
      i := i + 1;
    }
  }
}

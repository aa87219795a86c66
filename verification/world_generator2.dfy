/** The second world generator (`WorldGenerator2`): a grid of positions, each
    holding the indices of its eight neighbours, a map value (water, terrain,
    embankment or one of the aligned embankment ids) and a neighbour flag.
    Elevations (Perlin noise on doubles) are left out: a position's map value
    is the input of the embankment steps. */
module WorldGenerators {
  import opened CArith

  const MAP_WATER := 0
  const MAP_TERRAIN := 1
  const MAP_BANK := 99

  const MAP_BANK_ROT0 := 2
  const MAP_BANK_ROT1 := 3
  const MAP_BANK_ROT2 := 4
  const MAP_BANK_ROT3 := 5

  const MAP_BANK_CORNER_INSIDE_ROT0 := 6
  const MAP_BANK_CORNER_INSIDE_ROT1 := 7
  const MAP_BANK_CORNER_INSIDE_ROT2 := 8
  const MAP_BANK_CORNER_INSIDE_ROT3 := 9

  const MAP_BANK_CORNER_ROT0 := 10
  const MAP_BANK_CORNER_ROT1 := 11
  const MAP_BANK_CORNER_ROT2 := 12
  const MAP_BANK_CORNER_ROT3 := 13

  /** `NeighborFlag`, a `uint8_t` combined with `|`. */
  const NORTH: bv8 := 1
  const EAST: bv8 := 2
  const SOUTH: bv8 := 4
  const WEST: bv8 := 8

  /** The order of a position's neighbour indices. */
  datatype Direction = N | S | W | E | NE | NW | SW | SE

  /** `magic_enum::enum_integer`. */
  function Slot(d: Direction): (k: nat)
    ensures k < 8
  {
    match d
    case N => 0 case S => 1 case W => 2 case E => 3
    case NE => 4 case NW => 5 case SW => 6 case SE => 7
  }

  function DirectionAt(k: nat): (d: Direction)
    requires k < 8
    ensures Slot(d) == k
  {
    [N, S, W, E, NE, NW, SW, SE][k]
  }

  function Dx(d: Direction): int
  {
    match d
    case W | NW | SW => -1
    case E | NE | SE => 1
    case _ => 0
  }

  function Dy(d: Direction): int
  {
    match d
    case N | NE | NW => -1
    case S | SW | SE => 1
    case _ => 0
  }

  /** The direction pointing back. */
  function Opposite(d: Direction): (o: Direction)
    ensures Dx(o) == -Dx(d) && Dy(o) == -Dy(d)
  {
    match d
    case N => S case S => N case W => E case E => W
    case NE => SW case SW => NE case NW => SE case SE => NW
  }

  datatype Position = Position(x: int, y: int, value: int, flag: bv8, neighbors: seq<int>)

  datatype Map = Map(width: int, height: int, positions: seq<Position>)

  /** A created map: one position per cell, each with eight neighbour slots. */
  predicate Valid(m: Map)
  {
    m.width >= 1 && m.height >= 1 && |m.positions| == m.width * m.height
    && forall i :: 0 <= i < |m.positions| ==> |m.positions[i].neighbors| == 8
  }

  /** Every neighbour slot of every position of `CreateElevations` is -1. */
  predicate Fresh(m: Map)
  {
    forall i, k :: 0 <= i < |m.positions| && 0 <= k < |m.positions[i].neighbors| ==> m.positions[i].neighbors[k] == -1
  }

  /** A neighbour slot is -1 or a position of the map, so `positions.at`
      never throws. */
  predicate LinksInRange(m: Map, nb: seq<int>)
  {
    forall k :: 0 <= k < |nb| ==> nb[k] == -1 || 0 <= nb[k] < |m.positions|
  }

  predicate Linked(m: Map)
  {
    Valid(m) && forall i :: 0 <= i < |m.positions| ==> LinksInRange(m, m.positions[i].neighbors)
  }

  predicate InGrid(width: int, height: int, x: int, y: int)
  {
    0 <= x < width && 0 <= y < height
  }

  /** `GetIndex`: row-major. For a position on a map of width `width`,
      the index gives the column back as its remainder by the width and the
      row as its quotient. */
  function GetIndex(x: int, y: int, width: int): (i: int)
    ensures 0 <= x < width && 0 <= y ==> i >= 0 && i % width == x && i / width == y
  {
    if 0 <= x < width && 0 <= y then
      RowMajorDivMod(x, y, width);
      y * width + x
    else y * width + x
  }

  /** GetIndex numbers the cells of a width x height map 0 .. width * height
      - 1, one number per cell. */
  lemma GetIndexBijective(x1: int, y1: int, x2: int, y2: int, width: int, height: int)
    requires InGrid(width, height, x1, y1) && InGrid(width, height, x2, y2)
    ensures 0 <= GetIndex(x1, y1, width) < width * height
    ensures GetIndex(x1, y1, width) == GetIndex(x2, y2, width) <==> x1 == x2 && y1 == y2
  {
    RowMajorInRange(x1, y1, width, height);
    if GetIndex(x1, y1, width) == GetIndex(x2, y2, width) {
      RowMajorInjective(y1, x1, y2, x2, width);
    }
  }

  /** The cell of index i is column i % width, row i / width. */
  lemma CellOfIndex(i: int, x: int, y: int, width: int)
    requires width >= 1 && 0 <= x < width && y >= 0 && i == GetIndex(x, y, width)
    ensures i % width == x && i / width == y
  {
    DivModOf(i, width, y, x);
    CDivOfNat(i, width);
  }

  lemma IndexInGrid(i: int, width: int, height: int)
    requires width >= 1 && 0 <= i < width * height
    ensures InGrid(width, height, i % width, i / width)
  {
    if i / width >= height {
      MulMono(height, i / width, width);
    }
  }

  // ---------------------------------------------------------------------
  // StoreNeighbors
  // ---------------------------------------------------------------------

  /** The slots of the position at (x, y) once its on-grid neighbours are
      stored: the neighbour's index where it exists, the old slot elsewhere. */
  function LinkedNeighbors(nb: seq<int>, x: int, y: int, width: int, height: int): (r: seq<int>)
    requires |nb| == 8
    ensures |r| == 8
  {
    seq(8, k requires 0 <= k < 8 =>
      var d := DirectionAt(k);
      if InGrid(width, height, x + Dx(d), y + Dy(d)) then GetIndex(x + Dx(d), y + Dy(d), width) else nb[k])
  }

  function StoredPosition(m: Map, i: int): Position
    requires Valid(m) && 0 <= i < |m.positions|
  {
    var p := m.positions[i];
    p.(neighbors := LinkedNeighbors(p.neighbors, i % m.width, i / m.width, m.width, m.height))
  }

  /** The map after `StoreNeighbors`. */
  function Stored(m: Map): (r: Map)
    requires Valid(m)
    ensures Valid(r) && r.width == m.width && r.height == m.height && |r.positions| == |m.positions|
  {
    m.(positions := seq(|m.positions|, i requires 0 <= i < |m.positions| => StoredPosition(m, i)))
  }

  /** The body of `StoreNeighbors` for one position, with the source's eight
      bound tests; a slot whose test fails keeps its old value. */
  method LinkCell(nb: seq<int>, x: int, y: int, width: int, height: int) returns (r: seq<int>)
    requires |nb| == 8 && InGrid(width, height, x, y)
    ensures r == LinkedNeighbors(nb, x, y, width, height)
  {
    var n, s, w, e, ne, nw, sw, se := nb[0], nb[1], nb[2], nb[3], nb[4], nb[5], nb[6], nb[7];
    if y > 0 {
      n := (y - 1) * width + x;
    }
    if y < height - 1 {
      s := (y + 1) * width + x;
    }
    if x > 0 {
      w := y * width + (x - 1);
    }
    if x < width - 1 {
      e := y * width + (x + 1);
    }
    if y > 0 && x < width - 1 {
      ne := (y - 1) * width + (x + 1);
    }
    if y > 0 && x > 0 {
      nw := (y - 1) * width + (x - 1);
    }
    if y < height - 1 && x > 0 {
      sw := (y + 1) * width + (x - 1);
    }
    if y < height - 1 && x < width - 1 {
      se := (y + 1) * width + (x + 1);
    }
    r := [n, s, w, e, ne, nw, sw, se];
    assert forall k :: 0 <= k < 8 ==> r[k] == LinkedNeighbors(nb, x, y, width, height)[k];
  }

  /** `StoreNeighbors`: row by row, every position gets its neighbours'
      indices; nothing else changes. */
  method StoreNeighbors(m: Map) returns (r: Map)
    requires Valid(m)
    ensures r == Stored(m)
  {
    var n := |m.positions|;
    var positions := m.positions;
    var i := 0;
    var y := 0;
    while y < m.height
      invariant 0 <= y <= m.height && |positions| == n
      invariant i == y * m.width && i <= n
      invariant forall j :: 0 <= j < i ==> positions[j] == StoredPosition(m, j)
      invariant forall j :: i <= j < n ==> positions[j] == m.positions[j]
    {
      var end := i + m.width;
      RowEnd(i, y, m.width, m.height, n, end);
      positions := StoreRow(m, positions, y, i, end);
      i := end;
      y := y + 1;
    }
    LastRow(i, y, m.width, m.height, n);
    assert i == n;
    StoredIs(m, positions);
    r := m.(positions := positions);
  }

  lemma RowEnd(i: int, y: int, width: int, height: int, n: int, end: int)
    requires 0 <= y < height && width >= 0 && i == y * width && n == width * height && end == i + width
    ensures end == (y + 1) * width && end <= n
  {
    MulMono(y + 1, height, width);
  }

  lemma LastRow(i: int, y: int, width: int, height: int, n: int)
    requires i == y * width && y == height && n == width * height
    ensures i == n
  {
  }

  lemma StoredIs(m: Map, positions: seq<Position>)
    requires Valid(m) && |positions| == |m.positions|
    requires forall j :: 0 <= j < |m.positions| ==> positions[j] == StoredPosition(m, j)
    ensures m.(positions := positions) == Stored(m)
  {
    assert positions == Stored(m).positions;
  }

  /** One row of `StoreNeighbors`: the positions start .. end - 1 of row y. */
  method StoreRow(m: Map, positions: seq<Position>, y: int, start: int, end: int) returns (r: seq<Position>)
    requires Valid(m) && 0 <= y < m.height && |positions| == |m.positions|
    requires start == y * m.width && end == start + m.width && end <= |m.positions|
    requires forall j :: 0 <= j < start ==> positions[j] == StoredPosition(m, j)
    requires forall j :: start <= j < |m.positions| ==> positions[j] == m.positions[j]
    ensures |r| == |m.positions|
    ensures forall j :: 0 <= j < end ==> r[j] == StoredPosition(m, j)
    ensures forall j :: end <= j < |m.positions| ==> r[j] == m.positions[j]
  {
    var n := |m.positions|;
    r := positions;
    var x := 0;
    while x < m.width
      invariant 0 <= x <= m.width && |r| == n
      invariant forall j :: 0 <= j < start + x ==> r[j] == StoredPosition(m, j)
      invariant forall j :: start + x <= j < n ==> r[j] == m.positions[j]
    {
      var idx := start + x;
      assert idx == GetIndex(x, y, m.width);
      GetIndexBijective(x, y, x, y, m.width, m.height);
      var nb := LinkCell(r[idx].neighbors, x, y, m.width, m.height);
      StoredAt(m, idx, x, y, nb);
      r := r[idx := r[idx].(neighbors := nb)];
      x := x + 1;
    }
  }

  lemma StoredAt(m: Map, idx: int, x: int, y: int, nb: seq<int>)
    requires Valid(m) && InGrid(m.width, m.height, x, y) && idx == GetIndex(x, y, m.width) && 0 <= idx < |m.positions|
    requires nb == LinkedNeighbors(m.positions[idx].neighbors, x, y, m.width, m.height)
    ensures StoredPosition(m, idx) == m.positions[idx].(neighbors := nb)
  {
    CellOfIndex(idx, x, y, m.width);
  }

  /** The slots the position at (x, y) holds after `StoreNeighbors`. */
  lemma StoredNeighbors(m: Map, x: int, y: int, idx: int)
    requires Valid(m) && InGrid(m.width, m.height, x, y) && idx == GetIndex(x, y, m.width)
    ensures 0 <= idx < |m.positions|
    ensures Stored(m).positions[idx].neighbors == LinkedNeighbors(m.positions[idx].neighbors, x, y, m.width, m.height)
  {
    GetIndexBijective(x, y, x, y, m.width, m.height);
    CellOfIndex(idx, x, y, m.width);
  }

  /** A slot that was -1 is -1 after linking exactly when the neighbour
      (nx, ny) is off the grid, and holds its index otherwise. */
  lemma LinkedSlot(nb: seq<int>, x: int, y: int, width: int, height: int, d: Direction, nx: int, ny: int)
    requires |nb| == 8 && nb[Slot(d)] == -1 && InGrid(width, height, x, y)
    requires nx == x + Dx(d) && ny == y + Dy(d)
    ensures var v := LinkedNeighbors(nb, x, y, width, height)[Slot(d)];
            (v == -1 <==> !InGrid(width, height, nx, ny))
            && (v != -1 ==> v == GetIndex(nx, ny, width) && 0 <= v < width * height)
  {
    assert DirectionAt(Slot(d)) == d;
    if InGrid(width, height, nx, ny) {
      GetIndexBijective(nx, ny, nx, ny, width, height);
    }
  }

  /** On a fresh map, slot d of the position at (x, y) is -1 exactly when
      the neighbour (nx, ny) in direction d is off the grid, and that
      neighbour's index otherwise. */
  lemma NeighborTable(m: Map, x: int, y: int, idx: int, d: Direction, nx: int, ny: int)
    requires Valid(m) && Fresh(m) && InGrid(m.width, m.height, x, y) && idx == GetIndex(x, y, m.width)
    requires nx == x + Dx(d) && ny == y + Dy(d)
    ensures 0 <= idx < |m.positions|
    ensures var v := Stored(m).positions[idx].neighbors[Slot(d)];
            (v == -1 <==> !InGrid(m.width, m.height, nx, ny))
            && (v != -1 ==> v == GetIndex(nx, ny, m.width) && 0 <= v < |m.positions|)
  {
    StoredNeighbors(m, x, y, idx);
    LinkedSlot(m.positions[idx].neighbors, x, y, m.width, m.height, d, nx, ny);
  }

  /** Neighbour links are symmetric: if the position at (x, y) names j as
      its neighbour in direction d, then j names (x, y) in the opposite
      direction. */
  lemma NeighborsSymmetric(m: Map, x: int, y: int, idx: int, d: Direction)
    requires Valid(m) && Fresh(m) && InGrid(m.width, m.height, x, y) && idx == GetIndex(x, y, m.width)
    ensures 0 <= idx < |m.positions|
    ensures var j := Stored(m).positions[idx].neighbors[Slot(d)];
            j != -1 ==> 0 <= j < |m.positions| && Stored(m).positions[j].neighbors[Slot(Opposite(d))] == idx
  {
    var nx, ny := x + Dx(d), y + Dy(d);
    NeighborTable(m, x, y, idx, d, nx, ny);
    if InGrid(m.width, m.height, nx, ny) {
      NeighborTable(m, nx, ny, GetIndex(nx, ny, m.width), Opposite(d), x, y);
    }
  }

  /** Storing the neighbours of a fresh map makes every slot -1 or a
      position of the map. */
  lemma StoredIsLinked(m: Map)
    requires Valid(m) && Fresh(m)
    ensures Linked(Stored(m))
  {
    var r := Stored(m);
    forall i | 0 <= i < |r.positions|
      ensures LinksInRange(r, r.positions[i].neighbors)
    {
      forall k | 0 <= k < |r.positions[i].neighbors|
        ensures r.positions[i].neighbors[k] == -1 || 0 <= r.positions[i].neighbors[k] < |r.positions|
      {
        SlotInRange(m, i, k);
      }
    }
  }

  lemma SlotInRange(m: Map, i: int, k: int)
    requires Valid(m) && Fresh(m) && 0 <= i < |m.positions| && 0 <= k < |Stored(m).positions[i].neighbors|
    ensures var v := Stored(m).positions[i].neighbors[k];
            v == -1 || 0 <= v < |m.positions|
  {
    var x, y := i % m.width, i / m.width;
    IndexInGrid(i, m.width, m.height);
    assert i == GetIndex(x, y, m.width);
    var d := DirectionAt(k);
    NeighborTable(m, x, y, i, d, x + Dx(d), y + Dy(d));
  }

  // ---------------------------------------------------------------------
  // Sea side and AddEmbankment
  // ---------------------------------------------------------------------

  /** Slot value `idx` names a position whose map value is `t`. A slot
      outside the map reads as false here, where the source's
      `positions.at` would throw; `StoredIsLinked` shows that no slot of a
      map linked by `StoreNeighbors` is outside it. */
  predicate NeighborIs(m: Map, idx: int, t: int)
  {
    idx != -1 && 0 <= idx < |m.positions| && m.positions[idx].value == t
  }

  /** `std::any_of` over the slots from k on: some slot names a water
      position. */
  function AnyWater(m: Map, nb: seq<int>, k: nat): (b: bool)
    requires k <= |nb|
    decreases |nb| - k
    ensures b <==> exists j :: k <= j < |nb| && NeighborIs(m, nb[j], MAP_WATER)
  {
    if k == |nb| then false
    else NeighborIs(m, nb[k], MAP_WATER) || AnyWater(m, nb, k + 1)
  }

  /** `IsMapTerrainPositionOnSeaSide`: a terrain position with some water
      neighbour. */
  function IsMapTerrainPositionOnSeaSide(m: Map, p: Position): (b: bool)
    ensures b <==> p.value == MAP_TERRAIN && exists j :: 0 <= j < |p.neighbors| && NeighborIs(m, p.neighbors[j], MAP_WATER)
  {
    if p.value != MAP_TERRAIN then false else AnyWater(m, p.neighbors, 0)
  }

  /** On a map whose neighbours were stored from fresh, a position is on the
      sea side exactly when it is terrain and one of its (up to eight)
      on-grid neighbours is water. */
  lemma SeaSideOfStored(m: Map, x: int, y: int, idx: int)
    requires Valid(m) && Fresh(m) && InGrid(m.width, m.height, x, y) && idx == GetIndex(x, y, m.width)
    ensures 0 <= idx < |m.positions|
    ensures var s := Stored(m);
            IsMapTerrainPositionOnSeaSide(s, s.positions[idx])
            <==> s.positions[idx].value == MAP_TERRAIN
                 && exists d :: InGrid(m.width, m.height, x + Dx(d), y + Dy(d))
                                && NeighborIs(s, GetIndex(x + Dx(d), y + Dy(d), m.width), MAP_WATER)
  {
    var s := Stored(m);
    StoredNeighbors(m, x, y, idx);
    var nb := s.positions[idx].neighbors;
    var slots := exists j :: 0 <= j < |nb| && NeighborIs(s, nb[j], MAP_WATER);
    var grid := exists d :: InGrid(m.width, m.height, x + Dx(d), y + Dy(d))
                            && NeighborIs(s, GetIndex(x + Dx(d), y + Dy(d), m.width), MAP_WATER);
    assert slots ==> grid by {
      if j :| 0 <= j < |nb| && NeighborIs(s, nb[j], MAP_WATER) {
        var d := DirectionAt(j);
        SlotOfNeighbor(m, x, y, idx, d, x + Dx(d), y + Dy(d));
      }
    }
    assert grid ==> slots by {
      if d :| InGrid(m.width, m.height, x + Dx(d), y + Dy(d))
              && NeighborIs(s, GetIndex(x + Dx(d), y + Dy(d), m.width), MAP_WATER) {
        SlotOfNeighbor(m, x, y, idx, d, x + Dx(d), y + Dy(d));
      }
    }
    assert IsMapTerrainPositionOnSeaSide(s, s.positions[idx]) <==> s.positions[idx].value == MAP_TERRAIN && slots;
  }

  /** Slot d of a stored fresh map names the neighbour (nx, ny) when it is
      on the grid and nothing otherwise. */
  lemma SlotOfNeighbor(m: Map, x: int, y: int, idx: int, d: Direction, nx: int, ny: int)
    requires Valid(m) && Fresh(m) && InGrid(m.width, m.height, x, y) && idx == GetIndex(x, y, m.width)
    requires nx == x + Dx(d) && ny == y + Dy(d)
    ensures 0 <= idx < |m.positions|
    ensures var s := Stored(m);
            NeighborIs(s, s.positions[idx].neighbors[Slot(d)], MAP_WATER)
            <==> InGrid(m.width, m.height, nx, ny) && NeighborIs(s, GetIndex(nx, ny, m.width), MAP_WATER)
  {
    NeighborTable(m, x, y, idx, d, nx, ny);
  }

  /** One position after `AddEmbankment`. */
  function Embanked(m: Map, i: int): Position
    requires 0 <= i < |m.positions|
  {
    var p := m.positions[i];
    if IsMapTerrainPositionOnSeaSide(m, p) then p.(value := MAP_BANK) else p
  }

  /** `AddEmbankment` changes only terrain positions, only to embankment, and
      exactly those with a water neighbour; nothing but the map value
      changes. */
  lemma EmbankedChanges(m: Map, i: int)
    requires 0 <= i < |m.positions|
    ensures var p, q := m.positions[i], Embanked(m, i);
            q == p.(value := q.value)
            && (q.value != p.value <==> p.value == MAP_TERRAIN && exists j :: 0 <= j < |p.neighbors| && NeighborIs(m, p.neighbors[j], MAP_WATER))
            && (q.value != p.value ==> q.value == MAP_BANK)
  {
  }

  /** `AddEmbankment`: positions are visited in order and updated in place;
      since only terrain becomes embankment, no water position a later test
      reads has changed, and the result is the position-wise one. */
  method AddEmbankment(m: Map) returns (r: Map)
    ensures r.width == m.width && r.height == m.height && |r.positions| == |m.positions|
    ensures forall i :: 0 <= i < |m.positions| ==> r.positions[i] == Embanked(m, i)
  {
    var positions := m.positions;
    var n := |positions|;
    var i := 0;
    while i < n
      invariant 0 <= i <= n && |positions| == n
      invariant forall j :: 0 <= j < i ==> positions[j] == Embanked(m, j)
      invariant forall j :: i <= j < n ==> positions[j] == m.positions[j]
      invariant forall j :: 0 <= j < n ==> (positions[j].value == MAP_WATER <==> m.positions[j].value == MAP_WATER)
    {
      var cur := m.(positions := positions);
      SameWaterSameSeaSide(cur, m, positions[i]);
      if positions[i].value == MAP_TERRAIN && IsMapTerrainPositionOnSeaSide(cur, positions[i]) {
        positions := positions[i := positions[i].(value := MAP_BANK)];
      }
      i := i + 1;
    }
    r := m.(positions := positions);
  }

  /** The sea-side test reads only which positions are water. */
  lemma SameWaterSameSeaSide(a: Map, b: Map, p: Position)
    requires |a.positions| == |b.positions|
    requires forall j :: 0 <= j < |a.positions| ==> (a.positions[j].value == MAP_WATER <==> b.positions[j].value == MAP_WATER)
    ensures IsMapTerrainPositionOnSeaSide(a, p) == IsMapTerrainPositionOnSeaSide(b, p)
  {
    assert forall k :: 0 <= k < |p.neighbors| ==> (NeighborIs(a, p.neighbors[k], MAP_WATER) <==> NeighborIs(b, p.neighbors[k], MAP_WATER));
  }

  // ---------------------------------------------------------------------
  // AlignEmbankment
  // ---------------------------------------------------------------------

  /** The first loop of `AlignEmbankment` on one embankment position's
      flag, given which of its N, E, S, W neighbours are embankment: the
      north bit replaces the old flag, east, south and west are or-ed in. */
  function FlagOf(prev: bv8, north: bool, east: bool, south: bool, west: bool): (f: bv8)
    ensures prev <= 15 ==> f <= 15
    ensures prev == 0 ==>
              (f & NORTH != 0 <==> north) && (f & EAST != 0 <==> east)
              && (f & SOUTH != 0 <==> south) && (f & WEST != 0 <==> west)
              && f & 0xF0 == 0
  {
    var f0 := if north then NORTH else prev;
    var f1 := if east then f0 | EAST else f0;
    var f2 := if south then f1 | SOUTH else f1;
    if west then f2 | WEST else f2
  }

  function NeighborFlag(m: Map, p: Position): bv8
    requires |p.neighbors| == 8
  {
    var nb := p.neighbors;
    FlagOf(p.flag, NeighborIs(m, nb[Slot(N)], MAP_BANK), NeighborIs(m, nb[Slot(E)], MAP_BANK),
           NeighborIs(m, nb[Slot(S)], MAP_BANK), NeighborIs(m, nb[Slot(W)], MAP_BANK))
  }

  /** One position after the first loop: embankment positions get their
      neighbour flag, all others are unchanged. */
  function Flagged(m: Map, i: int): Position
    requires Valid(m) && 0 <= i < |m.positions|
  {
    var p := m.positions[i];
    if p.value == MAP_BANK then p.(flag := NeighborFlag(m, p)) else p
  }

  function FlaggedMap(m: Map): (r: Map)
    requires Valid(m)
    ensures Valid(r) && r.width == m.width && r.height == m.height && |r.positions| == |m.positions|
    ensures forall i :: 0 <= i < |m.positions| ==> r.positions[i].value == m.positions[i].value
  {
    m.(positions := seq(|m.positions|, i requires 0 <= i < |m.positions| => Flagged(m, i)))
  }

  /** The brute-force id table of the second loop, by flag: straight
      embankment (flag 5 or 10) is turned away from the terrain side, an
      L-shaped one (flag 3, 6, 9 or 12) becomes an inside corner when the
      tested side is terrain and an outside corner when it is water. */
  function AlignedValue(m: Map, p: Position): (v: int)
    requires |p.neighbors| == 8
    ensures p.value != MAP_BANK ==> v == p.value
    ensures p.value == MAP_BANK ==> v == MAP_BANK || MAP_BANK_ROT0 <= v <= MAP_BANK_CORNER_ROT3
    ensures MAP_BANK_ROT0 <= v <= MAP_BANK_ROT3 && v != p.value ==> p.flag == 5 || p.flag == 10
    ensures MAP_BANK_CORNER_INSIDE_ROT0 <= v <= MAP_BANK_CORNER_ROT3 && v != p.value ==> p.flag in {3, 6, 9, 12}
  {
    var nb := p.neighbors;
    var f := p.flag;
    if p.value != MAP_BANK then p.value
    else if f == 5 then
      if NeighborIs(m, nb[Slot(W)], MAP_TERRAIN) then MAP_BANK_ROT3
      else if NeighborIs(m, nb[Slot(E)], MAP_TERRAIN) then MAP_BANK_ROT1
      else MAP_BANK
    else if f == 10 then
      if NeighborIs(m, nb[Slot(S)], MAP_TERRAIN) then MAP_BANK_ROT2
      else if NeighborIs(m, nb[Slot(N)], MAP_TERRAIN) then MAP_BANK_ROT0
      else MAP_BANK
    else if f == 6 then
      if NeighborIs(m, nb[Slot(W)], MAP_TERRAIN) then MAP_BANK_CORNER_INSIDE_ROT1
      else if NeighborIs(m, nb[Slot(W)], MAP_WATER) then MAP_BANK_CORNER_ROT1
      else MAP_BANK
    else if f == 9 then
      if NeighborIs(m, nb[Slot(E)], MAP_TERRAIN) then MAP_BANK_CORNER_INSIDE_ROT3
      else if NeighborIs(m, nb[Slot(E)], MAP_WATER) then MAP_BANK_CORNER_ROT3
      else MAP_BANK
    else if f == 3 then
      if NeighborIs(m, nb[Slot(W)], MAP_TERRAIN) then MAP_BANK_CORNER_INSIDE_ROT0
      else if NeighborIs(m, nb[Slot(W)], MAP_WATER) then MAP_BANK_CORNER_ROT0
      else MAP_BANK
    else if f == 12 then
      if NeighborIs(m, nb[Slot(E)], MAP_TERRAIN) then MAP_BANK_CORNER_INSIDE_ROT2
      else if NeighborIs(m, nb[Slot(E)], MAP_WATER) then MAP_BANK_CORNER_ROT2
      else MAP_BANK
    else MAP_BANK
  }

  /** The second loop's body for one position, as the source writes it: ten
      tests in a row, each but the second of a pair re-checking that the
      position is still plain embankment. */
  method AlignPosition(m: Map, p: Position) returns (value: int)
    requires |p.neighbors| == 8
    ensures value == AlignedValue(m, p)
  {
    var nb := p.neighbors;
    var f := p.flag;
    value := p.value;
    if value == MAP_BANK && f == 5 {
      if NeighborIs(m, nb[Slot(E)], MAP_TERRAIN) { value := MAP_BANK_ROT1; }
      if NeighborIs(m, nb[Slot(W)], MAP_TERRAIN) { value := MAP_BANK_ROT3; }
    }
    if value == MAP_BANK && f == 10 {
      if NeighborIs(m, nb[Slot(N)], MAP_TERRAIN) { value := MAP_BANK_ROT0; }
      if NeighborIs(m, nb[Slot(S)], MAP_TERRAIN) { value := MAP_BANK_ROT2; }
    }
    if value == MAP_BANK && f == 6 && NeighborIs(m, nb[Slot(W)], MAP_TERRAIN) { value := MAP_BANK_CORNER_INSIDE_ROT1; }
    if value == MAP_BANK && f == 9 && NeighborIs(m, nb[Slot(E)], MAP_TERRAIN) { value := MAP_BANK_CORNER_INSIDE_ROT3; }
    if value == MAP_BANK && f == 3 && NeighborIs(m, nb[Slot(W)], MAP_TERRAIN) { value := MAP_BANK_CORNER_INSIDE_ROT0; }
    if value == MAP_BANK && f == 12 && NeighborIs(m, nb[Slot(E)], MAP_TERRAIN) { value := MAP_BANK_CORNER_INSIDE_ROT2; }
    if value == MAP_BANK && f == 12 && NeighborIs(m, nb[Slot(E)], MAP_WATER) { value := MAP_BANK_CORNER_ROT2; }
    if value == MAP_BANK && f == 9 && NeighborIs(m, nb[Slot(E)], MAP_WATER) { value := MAP_BANK_CORNER_ROT3; }
    if value == MAP_BANK && f == 3 && NeighborIs(m, nb[Slot(W)], MAP_WATER) { value := MAP_BANK_CORNER_ROT0; }
    if value == MAP_BANK && f == 6 && NeighborIs(m, nb[Slot(W)], MAP_WATER) { value := MAP_BANK_CORNER_ROT1; }
  }

  /** One position after `AlignEmbankment`. */
  function Aligned(m: Map, i: int): Position
    requires Valid(m) && 0 <= i < |m.positions|
  {
    var f := FlaggedMap(m);
    f.positions[i].(value := AlignedValue(f, f.positions[i]))
  }

  /** `AlignEmbankment`: the flag loop, then the id loop, both in place.
      The flag loop changes no map value; the id loop changes no terrain or
      water position; so each loop's tests see what the position-wise
      definitions read. */
  method AlignEmbankment(m: Map) returns (r: Map)
    requires Valid(m)
    ensures r.width == m.width && r.height == m.height && |r.positions| == |m.positions|
    ensures forall i :: 0 <= i < |m.positions| ==> r.positions[i] == Aligned(m, i)
  {
    var flagged := SetFlags(m);
    var positions := SetIds(flagged);
    r := m.(positions := positions);
  }

  /** The first loop of `AlignEmbankment`. */
  method SetFlags(m: Map) returns (r: Map)
    requires Valid(m)
    ensures r == FlaggedMap(m)
  {
    var n := |m.positions|;
    var positions := m.positions;
    var i := 0;
    while i < n
      invariant 0 <= i <= n && |positions| == n
      invariant forall j :: 0 <= j < i ==> positions[j] == Flagged(m, j)
      invariant forall j :: i <= j < n ==> positions[j] == m.positions[j]
    {
      var p := positions[i];
      if p.value == MAP_BANK {
        SameBanksSameFlag(m.(positions := positions), m, p);
        positions := positions[i := p.(flag := NeighborFlag(m.(positions := positions), p))];
      }
      i := i + 1;
    }
    r := m.(positions := positions);
    assert positions == FlaggedMap(m).positions;
  }

  /** The second loop of `AlignEmbankment`, on the flagged map `f`. */
  method SetIds(f: Map) returns (positions: seq<Position>)
    requires Valid(f)
    ensures |positions| == |f.positions|
    ensures forall j :: 0 <= j < |f.positions| ==> positions[j] == f.positions[j].(value := AlignedValue(f, f.positions[j]))
  {
    var n := |f.positions|;
    positions := f.positions;
    var i := 0;
    while i < n
      invariant 0 <= i <= n && |positions| == n
      invariant forall j :: 0 <= j < i ==> positions[j] == f.positions[j].(value := AlignedValue(f, f.positions[j]))
      invariant forall j :: i <= j < n ==> positions[j] == f.positions[j]
      invariant forall j :: 0 <= j < n ==> (positions[j].value == MAP_TERRAIN <==> f.positions[j].value == MAP_TERRAIN)
      invariant forall j :: 0 <= j < n ==> (positions[j].value == MAP_WATER <==> f.positions[j].value == MAP_WATER)
    {
      var cur := f.(positions := positions);
      SameGroundSameAlignment(cur, f, positions[i]);
      var value := AlignPosition(cur, positions[i]);
      positions := positions[i := positions[i].(value := value)];
      i := i + 1;
    }
  }

  /** The flag reads only which positions are embankment. */
  lemma SameBanksSameFlag(a: Map, b: Map, p: Position)
    requires |p.neighbors| == 8 && |a.positions| == |b.positions|
    requires forall j :: 0 <= j < |a.positions| ==> a.positions[j].value == b.positions[j].value
    ensures NeighborFlag(a, p) == NeighborFlag(b, p)
  {
    var nb := p.neighbors;
    assert forall k :: 0 <= k < 8 ==> NeighborIs(a, nb[k], MAP_BANK) == NeighborIs(b, nb[k], MAP_BANK);
  }

  /** The id table reads only which positions are terrain and which water. */
  lemma SameGroundSameAlignment(a: Map, b: Map, p: Position)
    requires |p.neighbors| == 8 && |a.positions| == |b.positions|
    requires forall j :: 0 <= j < |a.positions| ==> (a.positions[j].value == MAP_TERRAIN <==> b.positions[j].value == MAP_TERRAIN)
    requires forall j :: 0 <= j < |a.positions| ==> (a.positions[j].value == MAP_WATER <==> b.positions[j].value == MAP_WATER)
    ensures AlignedValue(a, p) == AlignedValue(b, p)
  {
    assert forall k :: 0 <= k < 8 ==>
      (NeighborIs(a, p.neighbors[k], MAP_TERRAIN) <==> NeighborIs(b, p.neighbors[k], MAP_TERRAIN))
      && (NeighborIs(a, p.neighbors[k], MAP_WATER) <==> NeighborIs(b, p.neighbors[k], MAP_WATER));
  }

  /** `AlignEmbankment` rewrites only embankment positions: every other
      position is unchanged, and an embankment position keeps its
      neighbours and ends plain embankment or one of the ids 2 .. 13, with a
      flag of at most 15 when it started with one. */
  lemma AlignEmbankmentOnlyBanks(m: Map, i: int)
    requires Valid(m) && 0 <= i < |m.positions|
    ensures var p, q := m.positions[i], Aligned(m, i);
            (p.value != MAP_BANK ==> q == p)
            && (p.value == MAP_BANK ==>
                  q.neighbors == p.neighbors && q.x == p.x && q.y == p.y
                  && (q.value == MAP_BANK || MAP_BANK_ROT0 <= q.value <= MAP_BANK_CORNER_ROT3)
                  && (p.flag <= 15 ==> q.flag <= 15))
  {
  }
}

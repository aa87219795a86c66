/** The gfx numbers and animation frame of one terrain tile
    (`TerrainTile`). A tile shows part (x, y) of a building; a rotatable
    building has four consecutive views `rotate` gfx apart, and a big
    building adds the offset of the part inside its w x h picture set. */
module TerrainTiles {
  import opened Results
  import opened Rotations
  import opened CArith

  /** The fields of a `Building` this logic reads. */
  datatype Building = Building(gfx: int, posoffs: int, rotate: int, animAnz: int, animTime: int, width: int, height: int)

  /** A rotatable building: one with a positive `rotate` step. */
  predicate IsRotatable(b: Building) { b.rotate > 0 }

  /** A big building: one wider or higher than a single tile. */
  predicate IsBig(b: Building) { b.width > 1 || b.height > 1 }

  /** `HasBuildingAboveWaterAndCoast`: the tile has a building with a
      positive `posoffs`; a tile without a building never has one. */
  predicate HasBuildingAboveWaterAndCoast(building: Option<Building>)
    ensures building.None? ==> !HasBuildingAboveWaterAndCoast(building)
    ensures building.Some? ==> (HasBuildingAboveWaterAndCoast(building) <==> building.value.posoffs > 0)
  {
    building.Some? && building.value.posoffs > 0
  }

  /** The part of the picture set a tile shows: (x, y) as seen from the
      tile's rotation. DEG270 looks it up rotated by DEG90, DEG90 by DEG270
      and DEG180 by DEG180; every other value keeps (x, y). */
  function PartPosition(b: Building, rotation: int, x: int, y: int): (int, int)
  {
    if rotation == DEG270 as int then RotatePosition(x, y, b.width, b.height, DEG90)
    else if rotation == DEG180 as int then RotatePosition(x, y, b.width, b.height, DEG180)
    else if rotation == DEG90 as int then RotatePosition(x, y, b.width, b.height, DEG270)
    else (x, y)
  }

  /** `AdjustGfxForBigBuildings`: the offset of the part, row by row in a
      picture set `width` parts wide. Every part of the footprint finds a
      picture inside the building's w * h picture set. */
  function BigBuildingOffset(b: Building, rotation: int, x: int, y: int): (offset: int)
    ensures InFootprint(b, rotation, x, y) ==> 0 <= offset < b.width * b.height
  {
    var rp := PartPosition(b, rotation, x, y);
    if InFootprint(b, rotation, x, y) then
      RowMajorInRange(rp.0, rp.1, b.width, b.height);
      rp.1 * b.width + rp.0
    else rp.1 * b.width + rp.0
  }

  /** `CalculateGfx`: the gfx of every rotation of the tile. */
  function CalculateGfx(b: Building, rotation: int, x: int, y: int): (gfxs: seq<int>)
    ensures |gfxs| == if IsRotatable(b) then 4 else 1
    ensures forall k :: 0 <= k < |gfxs| ==>
              gfxs[k] == b.gfx + k * b.rotate + (if IsBig(b) then BigBuildingOffset(b, rotation, x, y) else 0)
  {
    var gfx0 := b.gfx;
    var views := if IsRotatable(b) then [gfx0, gfx0 + 1 * b.rotate, gfx0 + 2 * b.rotate, gfx0 + 3 * b.rotate] else [gfx0];
    if IsBig(b) then
      var offset := BigBuildingOffset(b, rotation, x, y);
      seq(|views|, k requires 0 <= k < |views| => views[k] + offset)
    else views
  }

  /** The parts a tile can show: x across the width and y down the height,
      with the two exchanged for the rotations DEG90 and DEG270. */
  predicate InFootprint(b: Building, rotation: int, x: int, y: int)
  {
    if rotation == DEG90 as int || rotation == DEG270 as int then 0 <= x < b.height && 0 <= y < b.width
    else 0 <= x < b.width && 0 <= y < b.height
  }

  /** With no rotation the offset is y * w + x. */
  lemma BigBuildingOffsetDeg0(b: Building, x: int, y: int)
    ensures BigBuildingOffset(b, DEG0 as int, x, y) == y * b.width + x
  {
  }

  /** Two parts of the same footprint never share a picture. */
  lemma BigBuildingOffsetInjective(b: Building, rotation: int, x1: int, y1: int, x2: int, y2: int)
    requires InFootprint(b, rotation, x1, y1) && InFootprint(b, rotation, x2, y2)
    requires BigBuildingOffset(b, rotation, x1, y1) == BigBuildingOffset(b, rotation, x2, y2)
    ensures x1 == x2 && y1 == y2
  {
    var p1 := PartPosition(b, rotation, x1, y1);
    var p2 := PartPosition(b, rotation, x2, y2);
    RowMajorInjective(p1.1, p1.0, p2.1, p2.0, b.width);
  }

  /** The animation times `UpdateFrame` knows, in the order of the frame
      values it is given. */
  const ANIM_TIMES: seq<int> := [90, 130, 150, 180, 220]

  function AnimTimeIndex(animTime: int): (k: Option<nat>)
    ensures k.Some? <==> animTime in ANIM_TIMES
    ensures k.Some? ==> k.value < |ANIM_TIMES| && ANIM_TIMES[k.value] == animTime
  {
    if animTime == 90 then Some(0)
    else if animTime == 130 then Some(1)
    else if animTime == 150 then Some(2)
    else if animTime == 180 then Some(3)
    else if animTime == 220 then Some(4)
    else None
  }

  /** `UpdateFrame`: for a known animation time, the running frame value of
      that time modulo the building's frame count (C++ `%`); 0 for any other
      time. A known time with a frame count of zero divides by zero in the
      source and yields `None` here. */
  function UpdateFrame(b: Building, frameValues: seq<int>): (frame: Option<int>)
    requires |frameValues| == |ANIM_TIMES|
    ensures frame.None? <==> b.animTime in ANIM_TIMES && b.animAnz == 0
    ensures b.animTime !in ANIM_TIMES ==> frame == Some(0)
    ensures forall k :: 0 <= k < |ANIM_TIMES| && b.animTime == ANIM_TIMES[k] && b.animAnz != 0
              ==> frame == Some(CMod(frameValues[k], b.animAnz))
  {
    match AnimTimeIndex(b.animTime)
    case None => Some(0)
    case Some(k) => if b.animAnz == 0 then None else Some(CMod(frameValues[k], b.animAnz))
  }

  /** With non-negative frame values and a positive frame count, the frame
      of a known animation time is that time's value modulo the count, so
      it always indexes one of the building's frames. */
  lemma UpdateFrameInRange(b: Building, frameValues: seq<int>, k: nat)
    requires |frameValues| == |ANIM_TIMES| && k < |ANIM_TIMES| && b.animTime == ANIM_TIMES[k]
    requires b.animAnz > 0 && frameValues[k] >= 0
    ensures UpdateFrame(b, frameValues) == Some(frameValues[k] % b.animAnz)
    ensures 0 <= UpdateFrame(b, frameValues).value < b.animAnz
  {
    CDivOfNat(frameValues[k], b.animAnz);
  }
}

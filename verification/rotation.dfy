/** The four map rotations of the game (`world/Rotation.h`): saturating
    stepping, conversion from an integer, rotation of a map position and
    rotation arithmetic modulo 4. The enumeration is modelled by its
    underlying value, as the source computes with it. */
module Rotations {
  import opened Results

  newtype Rotation = n: int | 0 <= n < 4

  const DEG0: Rotation := 0
  const DEG90: Rotation := 1
  const DEG180: Rotation := 2
  const DEG270: Rotation := 3

  datatype RotationError = InvalidRotation(value: int)

  /** `int_to_rotation`: the enumerator with that value; any other value
      throws. */
  function IntToRotation(n: int): (r: Result<Rotation, RotationError>)
    ensures r.Ok? <==> 0 <= n < 4
    ensures r.Ok? ==> r.value as int == n
    ensures r.Err? ==> r.error == InvalidRotation(n)
  {
    if 0 <= n < 4 then Ok(n as Rotation) else Err(InvalidRotation(n))
  }

  /** Every rotation converts back from its own value. */
  lemma IntToRotationRoundTrip(r: Rotation)
    ensures IntToRotation(r as int) == Ok(r)
  {
  }

  /** `operator++`: one step clockwise, staying at DEG270. */
  function Next(r: Rotation): (n: Rotation)
    ensures r == DEG270 ==> n == DEG270
    ensures r != DEG270 ==> n as int == r as int + 1
  {
    if r == DEG270 then DEG270 else r + 1
  }

  /** `operator--`: one step back, staying at DEG0. */
  function Prev(r: Rotation): (n: Rotation)
    ensures r == DEG0 ==> n == DEG0
    ensures r != DEG0 ==> n as int + 1 == r as int
  {
    if r == DEG0 then DEG0 else r - 1
  }

  /** Stepping forward and back again returns to the start, except at the
      saturated ends, and stepping never leaves the range. */
  lemma NextPrev(r: Rotation)
    ensures r != DEG0 ==> Next(Prev(r)) == r
    ensures r != DEG270 ==> Prev(Next(r)) == r
    ensures Next(Next(Next(r))) == DEG270 && Prev(Prev(Prev(r))) == DEG0
  {
  }

  /** `rotate_position`: a position of a width x height map as seen after
      rotating the map. DEG0 and DEG180 map the positions of the map onto
      themselves, and so do DEG90 and DEG270 on a square map. */
  function RotatePosition(x: int, y: int, width: int, height: int, r: Rotation): (p: (int, int))
    ensures r == DEG0 || r == DEG180 || width == height ==>
              (0 <= x < width && 0 <= y < height <==> 0 <= p.0 < width && 0 <= p.1 < height)
  {
    if r == DEG0 then (x, y)
    else if r == DEG90 then (width - y - 1, x)
    else if r == DEG180 then (width - x - 1, height - y - 1)
    else (y, height - x - 1)
  }

  /** DEG0 leaves a position where it is; DEG180 is its own inverse; DEG270
      (with width and height exchanged) undoes DEG90, and the reverse. */
  lemma RotatePositionInverses(x: int, y: int, width: int, height: int)
    ensures RotatePosition(x, y, width, height, DEG0) == (x, y)
    ensures var p := RotatePosition(x, y, width, height, DEG180);
            RotatePosition(p.0, p.1, width, height, DEG180) == (x, y)
    ensures var p := RotatePosition(x, y, width, height, DEG90);
            RotatePosition(p.0, p.1, height, width, DEG270) == (x, y)
    ensures var p := RotatePosition(x, y, width, height, DEG270);
            RotatePosition(p.0, p.1, height, width, DEG90) == (x, y)
  {
  }

  /** `operator+`: the sum of the values modulo 4, converted back. */
  function Add(a: Rotation, b: Rotation): (r: Rotation)
    ensures r as int == (a as int + b as int) % 4
  {
    IntToRotation((a as int + b as int) % 4).value
  }

  /** `operator-`: the difference plus 4, modulo 4. The sum is never
      negative, so C++'s `%` and Dafny's agree here. */
  function Sub(a: Rotation, b: Rotation): (r: Rotation)
    ensures r as int == (a as int - b as int + 4) % 4
  {
    IntToRotation((a as int - b as int + 4) % 4).value
  }

  /** `-` undoes `+` and `+` undoes `-`. */
  lemma AddSubInverse(a: Rotation, b: Rotation)
    ensures Sub(Add(a, b), b) == a
    ensures Add(Sub(a, b), b) == a
  {
    var x, y := a as int, b as int;
    Mod4(x + y);
    Mod4(x - y + 4);
    Mod4(Add(a, b) as int - y + 4);
    Mod4(Sub(a, b) as int + y);
  }

  /** DEG0 is neutral, and a rotation minus itself is DEG0. */
  lemma AddNeutral(a: Rotation)
    ensures Add(a, DEG0) == a && Add(DEG0, a) == a && Sub(a, DEG0) == a && Sub(a, a) == DEG0
  {
    Mod4(a as int);
    Mod4(a as int + 4);
    Mod4(4);
  }

  lemma AddCommutative(a: Rotation, b: Rotation)
    ensures Add(a, b) == Add(b, a)
  {
  }

  lemma AddAssociative(a: Rotation, b: Rotation, c: Rotation)
    ensures Add(Add(a, b), c) == Add(a, Add(b, c))
  {
    var x, y, z := a as int, b as int, c as int;
    Mod4(x + y);
    Mod4(y + z);
    Mod4(Add(a, b) as int + z);
    Mod4(x + Add(b, c) as int);
  }

  lemma Mod4(n: int)
    requires 0 <= n < 8
    ensures n % 4 == if n < 4 then n else n - 4
  {
  }
}

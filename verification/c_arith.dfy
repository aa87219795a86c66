/** Integer arithmetic as the C++ and Java sources compute it, and the
    row-major grid facts the models share. C++ and Java `/` truncate toward
    zero and `%` takes the sign of the dividend; Dafny's are Euclidean. */
module CArith {

  /** C++ `a / b`: the quotient truncated toward zero. */
  function CDiv(a: int, b: int): int
    requires b != 0
  {
    var q := Abs(a) / Abs(b);
    if (a >= 0) == (b > 0) then q else -q
  }

  /** C++ `a % b`: the remainder has the sign of `a`. */
  function CMod(a: int, b: int): int
    requires b != 0
  {
    a - b * CDiv(a, b)
  }

  function Abs(a: int): nat { if a < 0 then -a else a }

  lemma CDivOfNat(a: nat, b: nat)
    requires b > 0
    ensures CDiv(a, b) == a / b && CMod(a, b) == a % b
  {
  }

  lemma DivModOf(a: nat, b: nat, q: nat, r: nat)
    requires b > 0 && r < b && a == q * b + r
    ensures CDiv(a, b) == q && CMod(a, b) == r
  {
    var d := q - a / b;
    assert d * b == a % b - r by {
      assert a == (a / b) * b + a % b;
      assert q * b - (a / b) * b == d * b;
    }
    SmallMultiple(d, b);
  }

  /** Row-major index y * width + x of a position: non-negative, and for a
      column inside the width, `%` and `/` give the column and row back. */
  lemma RowMajorDivMod(x: int, y: int, width: int)
    requires x >= 0 && y >= 0 && width > 0
    ensures y * width + x >= 0
    ensures x < width ==> (y * width + x) % width == x && (y * width + x) / width == y
  {
    MulMono(0, y, width);
    if x < width {
      DivModOf(y * width + x, width, y, x);
      CDivOfNat(y * width + x, width);
    }
  }

  lemma SmallMultiple(d: int, b: int)
    requires b > 0 && -b < d * b < b
    ensures d == 0
  {
  }

  lemma MulAssoc(a: int, b: int, c: int)
    ensures a * b * c == a * (b * c)
  {
  }

  lemma DivBound(p: nat, rows: nat)
    requires rows > 0 && p < rows * rows
    ensures p / rows < rows
  {
  }

  lemma MulMono(a: nat, b: nat, w: nat)
    requires a <= b
    ensures a * w <= b * w
  {
  }

  /** Row-major flattening: cell (column, row) of a grid `stride` cells wide
      and `rows` high has index row * stride + column, inside the grid. */
  lemma RowMajorInRange(column: int, row: int, stride: int, rows: int)
    requires 0 <= column < stride && 0 <= row < rows
    ensures 0 <= row * stride + column < stride * rows
  {
    MulMono(row + 1, rows, stride);
  }

  /** Row-major flattening with a stride larger than every column is
      injective. */
  lemma RowMajorInjective(a1: int, b1: int, a2: int, b2: int, stride: int)
    requires 0 <= b1 < stride && 0 <= b2 < stride
    requires a1 * stride + b1 == a2 * stride + b2
    ensures a1 == a2 && b1 == b2
  {
    assert (a1 - a2) * stride == b2 - b1;
    SmallMultiple(a1 - a2, stride);
  }
}

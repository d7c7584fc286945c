/** Integer division as JavaScript's `Math.floor` and `Math.ceil` of a quotient compute it, and the facts about it the grid needs. */
module IntMath {

  /** `Math.floor(a / h)`: Dafny's division floors when the divisor is positive. */
  function FloorDiv(a: int, h: int): int
    requires h > 0
  {
    a / h
  }

  /** `Math.ceil(a / h)` */
  function CeilDiv(a: int, h: int): int
    requires h > 0
  {
    -((-a) / h)
  }

  function Max(a: int, b: int): int {
    if a >= b then a else b
  }

  function Min(a: int, b: int): int {
    if a <= b then a else b
  }

  lemma MulNonNegative(a: int, b: int)
    requires a >= 0 && b >= 0
    ensures a * b >= 0
  {
  }

  lemma MulDistributes(a: int, b: int)
    ensures (a + 1) * b == a * b + b
  {
  }

  lemma MulMonotone(h: int, x: int, y: int)
    requires h >= 0 && x <= y
    ensures h * x <= h * y
  {
    var d := y - x;
    assert h * y == h * x + h * d;
  }

  /** Cancelling a positive factor from a strict inequality. */
  lemma MulCancelStrict(h: int, x: int, y: int)
    requires h > 0 && h * x < h * y
    ensures x < y
  {
    if x >= y {
      MulMonotone(h, y, x);
    }
  }

  lemma FloorDivBounds(a: int, h: int)
    requires h > 0
    ensures h * FloorDiv(a, h) <= a < h * FloorDiv(a, h) + h
  {
    assert a == h * (a / h) + a % h;
  }

  lemma CeilDivBounds(a: int, h: int)
    requires h > 0
    ensures h * CeilDiv(a, h) - h < a <= h * CeilDiv(a, h)
  {
    var q := (-a) / h;
    FloorDivBounds(-a, h);
    assert h * CeilDiv(a, h) == -(h * q);
  }

  lemma FloorDivMonotone(a: int, b: int, h: int)
    requires h > 0 && a <= b
    ensures FloorDiv(a, h) <= FloorDiv(b, h)
  {
    FloorDivBounds(a, h);
    FloorDivBounds(b, h);
    assert h * FloorDiv(a, h) < h * (FloorDiv(b, h) + 1);
    MulCancelStrict(h, FloorDiv(a, h), FloorDiv(b, h) + 1);
  }

  lemma CeilDivMonotone(a: int, b: int, h: int)
    requires h > 0 && a <= b
    ensures CeilDiv(a, h) <= CeilDiv(b, h)
  {
    FloorDivMonotone(-b, -a, h);
  }

  /** Shifting the numerator by less than one divisor moves the ceiling by at most one. */
  lemma CeilDivShift(r: int, c: int, h: int)
    requires h > 0 && 0 <= r < h
    ensures CeilDiv(r + c, h) <= CeilDiv(c, h) + 1
  {
    CeilDivBounds(r + c, h);
    CeilDivBounds(c, h);
    assert h * (CeilDiv(r + c, h) - 1) < h * (CeilDiv(c, h) + 1);
    MulCancelStrict(h, CeilDiv(r + c, h) - 1, CeilDiv(c, h) + 1);
  }

  lemma CeilDivAddMultiple(q: int, c: int, h: int)
    requires h > 0
    ensures CeilDiv(h * q + c, h) == q + CeilDiv(c, h)
  {
    var k := CeilDiv(c, h);
    CeilDivBounds(c, h);
    CeilDivBounds(h * q + c, h);
    var m := CeilDiv(h * q + c, h);
    assert h * (m - q) - h < c <= h * (m - q);
    MulCancelStrict(h, m - q - 1, k);
    MulCancelStrict(h, k - 1, m - q);
  }
}

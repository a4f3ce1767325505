/** Machine arithmetic: int32 and int64 with wrap-around, and division that truncates toward zero. */
module Machine {
  import opened Types

  newtype int64 = x: int | -0x8000_0000_0000_0000 <= x < 0x8000_0000_0000_0000

  function Wrap(n: int): int {
    (n + 0x8000_0000) % 0x1_0000_0000 - 0x8000_0000
  }

  function Plus(a: int32, b: int32): (r: int32)
    ensures r as int == Wrap(a as int + b as int)
  {
    Wrap(a as int + b as int) as int32
  }

  function Minus(a: int32, b: int32): (r: int32)
    ensures r as int == Wrap(a as int - b as int)
  {
    Wrap(a as int - b as int) as int32
  }

  function Half(n: int32): (r: int32)
    ensures r as int == if n >= 0 then n as int / 2 else -(-(n as int) / 2)
  {
    if n >= 0 then n / 2
    else if n == -0x8000_0000 then -0x4000_0000
    else -((-n) / 2)
  }

  predicate Fits(n: int) {
    -0x8000_0000 <= n < 0x8000_0000
  }

  lemma WrapIsIdentity(n: int)
    requires Fits(n)
    ensures Wrap(n) == n
  {}

  /** Wrapped sums have an exact difference whenever the difference itself fits. */
  lemma DifferenceIsExact(a: int32, b: int32, c: int32, d: int32)
    requires Fits(a as int + b as int - (c as int + d as int))
    ensures Minus(Plus(a, b), Plus(c, d)) as int == a as int + b as int - (c as int + d as int)
  {}

  lemma SquareMonotone(d: nat, c: nat)
    requires d <= c
    ensures d * d <= c * c
  {
    assert c * c - d * d == (c - d) * (c + d);
  }

  lemma SquareBound(d: int32)
    ensures 0 <= d as int * d as int <= 0x4000_0000_0000_0000
    ensures d > -0x8000_0000 ==> d as int * d as int < 0x4000_0000_0000_0000
  {
    var size := if d < 0 then -(d as int) else d as int;
    assert d as int * d as int == size * size;
    SquareMonotone(size, 0x8000_0000);
    if d > -0x8000_0000 {
      SquareMonotone(size, 0x7FFF_FFFF);
    }
  }

  /** The sum of two squares, computed in int64. */
  function SquareSum(dx: int32, dy: int32): int64 {
    SquareBound(dx);
    SquareBound(dy);
    var sum := dx as int * dx as int + dy as int * dy as int;
    if sum == 0x8000_0000_0000_0000 then -0x8000_0000_0000_0000 else sum as int64
  }
}

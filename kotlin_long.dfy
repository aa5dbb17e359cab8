/** Kotlin `Long` arithmetic that differs from Dafny's unbounded `int`:
    division and remainder truncate toward zero, and multiplication wraps
    around modulo 2^64. */
module KotlinLong {

  const LongMin: int := -0x8000_0000_0000_0000
  const LongMax: int := 0x7FFF_FFFF_FFFF_FFFF
  const LongModulus: int := 0x1_0000_0000_0000_0000

  predicate IsLong(x: int) {
    LongMin <= x <= LongMax
  }

  /** `a / b` on `Long` for a positive divisor: the quotient truncated toward zero. */
  function Quot(a: int, b: int): int
    requires b > 0
  {
    if a >= 0 then a / b else -((-a) / b)
  }

  /** The quotient is the multiple of `b` nearest to `a` on the side of zero. */
  lemma QuotTruncates(a: int, b: int)
    requires b > 0
    ensures var q := Quot(a, b);
      (a >= 0 ==> 0 <= q * b <= a < q * b + b) &&
      (a < 0 ==> q * b - b < a <= q * b <= 0)
  {
    if a >= 0 {
      FloorBounds(a, b);
    } else {
      FloorBounds(-a, b);
      assert -((-a) / b) * b == -(((-a) / b) * b);
    }
  }

  lemma FloorBounds(x: int, b: int)
    requires x >= 0 && b > 0
    ensures 0 <= (x / b) * b <= x < (x / b) * b + b
  {
    assert x == (x / b) * b + x % b;
    assert x / b >= 0;
  }

  /** `a % b` on `Long` for a positive divisor: the remainder takes the sign of `a`. */
  function Rem(a: int, b: int): (r: int)
    requires b > 0
    ensures Quot(a, b) * b + r == a
    ensures a >= 0 ==> 0 <= r < b
    ensures a < 0 ==> -b < r <= 0
  {
    if a >= 0 then a % b else -((-a) % b)
  }

  /** The two's-complement value a 64-bit register holds after computing `x`. */
  function Wrap(x: int): (r: int)
    ensures IsLong(r)
    ensures (x - r) % LongModulus == 0
    ensures IsLong(x) ==> r == x
  {
    (x - LongMin) % LongModulus + LongMin
  }

  /** Adding `b` to `a` and then subtracting `c`, both wrapping, gives the
      exact `a + b - c` whenever that is a `Long`, however far the sum
      overflowed. */
  lemma WrapCancels(a: int, b: int, c: int)
    requires IsLong(a + b - c)
    ensures Wrap(Wrap(a + b) - c) == a + b - c
  {
  }
}

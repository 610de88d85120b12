/** Java's 32-bit `int` arithmetic, as far as the bucket computation of
    WordHashTable uses it: two's-complement wrap-around, the `%` operator
    (section 15.17.3 of the Java Language Specification) and `Math.abs`. */
module JavaInt {

  const INT32_MIN: int := -0x8000_0000
  const INT32_MAX: int := 0x7fff_ffff
  const TWO_POW_32: int := 0x1_0000_0000

  /** The values of Java's `int`. */
  type Int32 = x: int | INT32_MIN <= x <= INT32_MAX

  /** Mathematical absolute value (no overflow). */
  function Abs(x: int): (r: nat)
    ensures r == x || r == -x
  {
    if x < 0 then -x else x
  }

  /** The `int` that an unbounded result wraps to: the one congruent to `x`
      modulo 2^32 (section 4.2.2 of the Java Language Specification). */
  function Wrap(x: int): (r: Int32)
    ensures (x - r) % TWO_POW_32 == 0
    ensures INT32_MIN <= x <= INT32_MAX ==> r == x
  {
    (x - INT32_MIN) % TWO_POW_32 + INT32_MIN
  }

  /** Adding a multiple of 2^32 does not change the wrapped value. */
  lemma WrapShift(x: int, k: int)
    ensures Wrap(x + k * TWO_POW_32) == Wrap(x)
  {
  }

  /** Two values congruent modulo 2^32 wrap to the same `int`. */
  lemma WrapCongruent(a: int, b: int)
    requires (a - b) % TWO_POW_32 == 0
    ensures Wrap(a) == Wrap(b)
  {
  }

  /** Java's `a / b` on `int` as an unbounded integer: the quotient rounded
      toward zero. */
  function Quot(a: int, b: int): int
    requires b != 0
  {
    var q := Abs(a) / Abs(b);
    if (a < 0) == (b < 0) then q else -q
  }

  /** Java's `a % b` on `int`: the remainder of the division truncated toward
      zero, so it takes the sign of the dividend; `b == 0` throws. */
  function Rem(a: Int32, b: Int32): (r: Int32)
    requires b != 0
    ensures Quot(a, b) * b + r == a
    ensures Abs(r) < Abs(b)
    ensures r == 0 || (r < 0 <==> a < 0)
    ensures Abs(r) == Abs(a) % Abs(b)
  {
    var m := Abs(a) % Abs(b);
    assert Abs(a) / Abs(b) * Abs(b) + m == Abs(a);
    if a < 0 then -m else m
  }

  /** Java's `Math.abs(int)`: `-x` wraps, so `Math.abs(Integer.MIN_VALUE)` is
      `Integer.MIN_VALUE` itself. */
  function MathAbs(x: Int32): (r: Int32)
    ensures x != INT32_MIN ==> r == Abs(x)
    ensures x == INT32_MIN ==> r == INT32_MIN
  {
    if x < 0 then Wrap(0 - x as int) else x
  }
}

/** Java's 32-bit `int`: its range, the `Integer.MAX_VALUE` constant that the
    program also uses as the "infinite distance" sentinel, and the wrap-around
    and truncating division that `int` arithmetic performs. */
module JavaInt {

  /** `Integer.MAX_VALUE`. */
  const INT_MAX: int := 0x7fff_ffff

  /** `Integer.MIN_VALUE`. */
  const INT_MIN: int := -0x8000_0000

  /** Values a Java `int` can hold; `Integer.parseInt` only ever yields these. */
  type Int32 = x: int | INT_MIN <= x <= INT_MAX

  const MODULUS: int := 0x1_0000_0000

  /** The `int` a Java arithmetic expression produces for the mathematical
      value `x`: the unique value in range congruent to `x` modulo 2^32. */
  function Wrap(x: int): (r: Int32)
    ensures (x - r) % MODULUS == 0
    ensures INT_MIN <= x <= INT_MAX ==> r == x
  {
    (x - INT_MIN) % MODULUS + INT_MIN
  }

  /** Java's `a / b` on `int`, which rounds toward zero (Dafny's `/` is Euclidean). */
  function JavaDiv(a: int, b: int): (r: int)
    requires b > 0
    ensures a >= 0 ==> r == a / b
    ensures a < 0 ==> r <= 0 && r * b >= a && (r - 1) * b < a
  {
    if a >= 0 then a / b else -((-a) / b)
  }
}

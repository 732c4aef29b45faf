/** Java's 32-bit `int`: its range and two's-complement wrap-around. */
module JavaInt {

  const MIN: int := -0x8000_0000
  const MAX: int := 0x7FFF_FFFF
  const MODULUS: int := 0x1_0000_0000

  predicate InRange(x: int) {
    MIN <= x <= MAX
  }

  /** The `int` that Java arithmetic yields for the mathematical value `x`:
      the unique value in range that is congruent to `x` modulo 2^32. */
  function Wrap(x: int): (r: int)
    ensures InRange(r)
    ensures (r - x) % MODULUS == 0
    ensures InRange(x) ==> r == x
  {
    var m := x % MODULUS;
    if m > MAX then m - MODULUS else m
  }
}

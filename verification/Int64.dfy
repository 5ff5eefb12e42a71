/** The signed 64-bit arithmetic of the original: `int64` counters, the saturating addition the
    quota uses, and the wrap-around of a plain atomic add. */
module Int64 {

  const MAX_INT64: int := 0x7FFF_FFFF_FFFF_FFFF
  const MIN_INT64: int := -0x8000_0000_0000_0000
  const TWO_TO_64: int := 0x1_0000_0000_0000_0000

  /** Expressions of this type are proved not to leave the range, operation by operation. */
  newtype int64 = x: int | -0x8000_0000_0000_0000 <= x <= 0x7FFF_FFFF_FFFF_FFFF

  function Min(x: int, y: int): int {
    if x <= y then x else y
  }

  function Max(x: int, y: int): int {
    if x <= y then y else x
  }

  /** The value a non-negative 64-bit counter can hold that is nearest to `x`. */
  function Clamp(x: int): int {
    Max(0, Min(x, MAX_INT64))
  }

  /** Two's complement wrap-around to 64 bits. */
  function Wrap(x: int): (w: int)
    ensures MIN_INT64 <= w <= MAX_INT64
    ensures (w - x) % TWO_TO_64 == 0
    ensures MIN_INT64 <= x <= MAX_INT64 ==> w == x
  {
    (x - MIN_INT64) % TWO_TO_64 + MIN_INT64
  }

  /** The `-` of the original on two int64 values. */
  function Minus(a: int64, b: int64): int64 {
    var x := a as int - b as int;
    (if x > MAX_INT64 then x - TWO_TO_64 else if x < MIN_INT64 then x + TWO_TO_64 else x) as int64
  }

  /** Wrapping each partial sum is the same as wrapping the whole sum once. */
  lemma WrapAbsorbs(x: int, y: int)
    ensures Wrap(Wrap(x) + y) == Wrap(x + y)
  {
    var k := (Wrap(x) - x) / TWO_TO_64;
    assert Wrap(x) - x == k * TWO_TO_64;
    ModShift(x + y - MIN_INT64, k);
  }

  lemma ModShift(a: int, k: int)
    ensures (a + k * TWO_TO_64) % TWO_TO_64 == a % TWO_TO_64
  {
    var q, r := a / TWO_TO_64, a % TWO_TO_64;
    assert a + k * TWO_TO_64 == (q + k) * TWO_TO_64 + r;
  }
}

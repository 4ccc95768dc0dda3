/** Java's 64-bit `long` and its two's-complement wrap-around. */
module JavaLong {

  const Modulus: int := 0x1_0000_0000_0000_0000
  const LongMin: int := -0x8000_0000_0000_0000
  const LongMax: int := 0x7fff_ffff_ffff_ffff

  type Long = x: int | -0x8000_0000_0000_0000 <= x <= 0x7fff_ffff_ffff_ffff

  /** The `long` that a Java multiplication or addition yields for the mathematical value `x`. */
  function Wrap(x: int): (r: Long)
    ensures (r - x) % Modulus == 0
    ensures LongMin <= x <= LongMax ==> r == x
  {
    var m := x % Modulus;
    if m > LongMax then m - Modulus else m
  }
}

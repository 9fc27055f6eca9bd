/** Go's fixed-width signed 64-bit integers, as used for Unix seconds and expiry instants. */
module GoInt {
  const Min: int := -0x8000_0000_0000_0000
  const Max: int := 0x7fff_ffff_ffff_ffff
  const Modulus: int := 0x1_0000_0000_0000_0000

  newtype int64 = x: int | -0x8000_0000_0000_0000 <= x < 0x8000_0000_0000_0000

  /** Go's `a + b` on int64: two's-complement wrap-around, never a panic. The result is the one
      int64 congruent to the mathematical sum modulo 2^64; when the sum fits, it is the sum. */
  function Add(a: int64, b: int64): (r: int64)
    ensures (r as int - (a as int + b as int)) % Modulus == 0
    ensures Min <= a as int + b as int <= Max ==> r as int == a as int + b as int
    ensures a as int + b as int > Max ==> r as int < a as int && r as int < b as int
  {
    var s := a as int + b as int;
    if s > Max then (s - Modulus) as int64
    else if s < Min then (s + Modulus) as int64
    else s as int64
  }
}

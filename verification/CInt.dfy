/** The parts of C integer arithmetic whose results differ from Dafny's. */
module CInt {

  const TWO31: int := 0x8000_0000
  const TWO32: int := 0x1_0000_0000

  predicate IsInt32(x: int) {
    -TWO31 <= x < TWO31
  }

  predicate IsUint32(x: int) {
    0 <= x < TWO32
  }

  /** Conversion to a signed 32-bit integer: keep the value modulo 2^32. */
  function ToInt32(x: int): (r: int)
    ensures IsInt32(r)
    ensures (x - r) % TWO32 == 0
  {
    var u := x % TWO32;
    if u < TWO31 then u else u - TWO32
  }

  /** C's `/`, which truncates toward zero. */
  function Quot(a: int, b: int): int
    requires b > 0
  {
    if a >= 0 then a / b else -((-a) / b)
  }

  /** C's `%`, whose sign is that of the dividend. */
  function Rem(a: int, b: int): int
    requires b > 0
  {
    if a >= 0 then a % b else -((-a) % b)
  }
}

/** Java's narrowing casts on integers: keep the low bits, read them as two's complement. */
module JavaInts {
  predicate IsByte(v: int) {
    -128 <= v < 128
  }

  predicate IsShort(v: int) {
    -32768 <= v < 32768
  }

  /** `(byte) v`. */
  function ToByte(v: int): (b: int)
    ensures IsByte(b) && (b - v) % 256 == 0
    ensures IsByte(v) ==> b == v
  {
    (v + 128) % 256 - 128
  }

  /** `(short) v`. */
  function ToShort(v: int): (s: int)
    ensures IsShort(s) && (s - v) % 65536 == 0
    ensures IsShort(v) ==> s == v
  {
    (v + 32768) % 65536 - 32768
  }
}

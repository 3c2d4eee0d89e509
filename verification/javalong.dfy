/**
 * Java's 64-bit `long`: two's-complement values and the wrap-around of its
 * subtraction, written out over Dafny's unbounded integers.
 */
module JavaLong {

  const TWO63: int := 0x8000_0000_0000_0000
  const TWO64: int := 0x1_0000_0000_0000_0000

  newtype int64 = x: int | -0x8000_0000_0000_0000 <= x < 0x8000_0000_0000_0000

  /** The unsigned 64-bit pattern of v: its two's-complement bits read as a natural number. */
  function ToUnsigned(v: int64): (u: nat)
    ensures u < TWO64
    ensures (u - v as int) % TWO64 == 0
    ensures v < 0 <==> u >= TWO63
  {
    if v < 0 then v as int + TWO64 else v as int
  }

  /** The signed value of a 64-bit pattern: the inverse of ToUnsigned. */
  function FromUnsigned(u: nat): (v: int64)
    requires u < TWO64
    ensures (u - v as int) % TWO64 == 0
    ensures v < 0 <==> u >= TWO63
  {
    if u >= TWO63 then (u - TWO64) as int64 else u as int64
  }

  lemma FromToUnsigned(v: int64)
    ensures FromUnsigned(ToUnsigned(v)) == v
  {
  }

  lemma ToFromUnsigned(u: nat)
    requires u < TWO64
    ensures ToUnsigned(FromUnsigned(u)) == u
  {
  }

  /** Narrowing of a mathematical integer to a long: the unique long congruent to it mod 2^64. */
  function Wrap(x: int): (v: int64)
    ensures (v as int - x) % TWO64 == 0
    ensures -TWO63 <= x < TWO63 ==> v as int == x
  {
    FromUnsigned(x % TWO64)
  }

  /** Two longs congruent mod 2^64 are equal: the congruence in Wrap's contract pins its result. */
  lemma CongruentLongsEqual(a: int64, b: int64)
    requires (a as int - b as int) % TWO64 == 0
    ensures a == b
  {
  }

  /** Java `a - b` on longs. */
  function Sub(a: int64, b: int64): (d: int64)
    ensures (d as int - (a as int - b as int)) % TWO64 == 0
    ensures -TWO63 <= a as int - b as int < TWO63 ==> d as int == a as int - b as int
  {
    Wrap(a as int - b as int)
  }
}

/** The widths of the C types, and what a narrowing conversion does. */
module Widths {
  const UINT32: nat := 0x1_0000_0000
  const UINT64: nat := 0x1_0000_0000_0000_0000
  const INT_MAX: nat := 0x7fff_ffff
  const SIZE_MAX: nat := 0xffff_ffff_ffff_ffff
  const SSIZE_MAX: nat := 0x7fff_ffff_ffff_ffff

  /** An unsigned number returned as an `int`: the low 32 bits, with a sign. */
  function AsInt(n: nat): (r: int)
    ensures -0x8000_0000 <= r <= INT_MAX && (n - r) % UINT32 == 0
    ensures r == n <==> n <= INT_MAX
    ensures n < UINT32 ==> (r < 0 <==> n > INT_MAX)
  {
    var m := n % UINT32;
    if m <= INT_MAX then m else m - UINT32
  }
}

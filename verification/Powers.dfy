/** Powers of sixteen, for numbers written in hex digits or nibbles. */
module Powers {
  function Pow16(k: nat): nat {
    if k == 0 then 1 else 16 * Pow16(k - 1)
  }
}

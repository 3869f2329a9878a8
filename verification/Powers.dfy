/** Powers of two, shared by the varint reader and the bit regrouping. */
module Powers {
  function Pow2(n: nat): (r: nat)
    ensures r > 0
  {
    if n == 0 then 1 else 2 * Pow2(n - 1)
  }
}

/** Powers, for the base 10, 128 and 256 numbers of the other modules. */
module Powers {
  function Power(b: nat, k: nat): (p: nat)
    ensures b > 0 ==> p > 0
  {
    if k == 0 then 1 else b * Power(b, k - 1)
  }
}

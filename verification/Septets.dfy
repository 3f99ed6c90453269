/** Numbers in bytes of seven bits. */
module Septets {

  function Power128(k: nat): (r: nat)
    ensures r > 0
  {
    if k == 0 then 1 else 0x80 * Power128(k - 1)
  }

  /** The lowest seven bits and the rest. */
  lemma Recombine(value: nat, q: nat, r: nat, p: nat)
    requires value == 0x80 * q + r
    ensures value * p == r * p + q * (0x80 * p)
  {
    assert (0x80 * q + r) * p == 0x80 * q * p + r * p;
  }
}

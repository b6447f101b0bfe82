/** What the other modules share: optional values, bytes and facts of remainders. */
module Basics {

  datatype Option<+T> = None | Some(value: T)

  type byte = b: int | 0 <= b < 256

  lemma {:induction false} MultipleInside(k: int, d: nat)
    requires 0 - d < d * k < d
    ensures k == 0
  {
    assert k >= 1 ==> d * k >= d;
    assert k <= -1 ==> d * k <= 0 - d;
  }

  /** The remainder of a number is determined by any decomposition of it. */
  lemma Residue(x: int, q: int, r: int, d: nat)
    requires d > 0 && x == d * q + r && 0 <= r < d
    ensures x % d == r
  {
    assert d * (q - x / d) == x % d - r;
    MultipleInside(q - x / d, d);
  }

  /** Whole multiples of the divisor leave the remainder as it is. */
  lemma LapResidue(x: int, k: int, d: nat)
    requires d > 0
    ensures (x + d * k) % d == x % d
  {
    assert x + d * k == d * (x / d + k) + x % d;
    Residue(x + d * k, x / d + k, x % d, d);
  }
}

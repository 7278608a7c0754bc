/** Indices that wrap around at the end of a ring. */
module Rings {

  lemma Wrap(x: nat, n: nat)
    requires n > 0 && x < 2 * n
    ensures x % n == if x < n then x else x - n
  {
    var q, r := x / n, x % n;
    assert x == q * n + r;
    assert q < 2 || q * n >= 2 * n;
  }
}

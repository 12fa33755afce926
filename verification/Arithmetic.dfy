/** Products and quotients, one step at a time. */
module Arithmetic {

  lemma Grow(a: nat, b: nat, n: nat)
    requires a <= b
    ensures a * n <= b * n
  {
  }

  /** A number below the divisor is what is left over. */
  lemma Split(q: nat, n: nat, t: nat)
    requires t < n
    ensures (q * n + t) / n == q && (q * n + t) % n == t
  {
    var y := (q * n + t) / n;
    assert y < q ==> (y + 1) * n <= q * n by {
      if y < q { Grow(y + 1, q, n); }
    }
    assert q < y ==> (q + 1) * n <= y * n by {
      if q < y { Grow(q + 1, y, n); }
    }
  }
}

/** Facts about division by a variable that the solver does not find alone. */
module Arithmetic {
  lemma ModIs(x: nat, p: nat, q: nat, r: nat)
    requires r < p && x == p * q + r
    ensures x % p == r
  {
    QuotientIsUnique(p, q, r, x / p, x % p);
  }

  lemma QuotientIsUnique(p: nat, q: nat, r: nat, q': nat, r': nat)
    requires r < p && r' < p && p * q + r == p * q' + r'
    ensures q == q' && r == r'
  {
    if q > q' {
      MulAtLeast(p, q - q');
    } else if q < q' {
      MulAtLeast(p, q' - q);
    }
  }

  lemma {:induction false} MulAtLeast(p: nat, d: nat)
    requires d > 0
    ensures p * d >= p
  {
    if d > 1 {
      MulAtLeast(p, d - 1);
      assert p * d == p * (d - 1) + p;
    }
  }
}

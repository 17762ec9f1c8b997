/** The few facts about products and remainders that the geometry proofs use. */
module Arithmetic {
  lemma MulMonotone(a: nat, b: nat, m: nat)
    requires a <= b
    ensures a * m <= b * m
  {
  }

  lemma MulAtLeast(k: int, m: nat)
    requires k >= 1
    ensures k * m >= m
  {
    MulMonotone(1, k, m);
  }

  lemma MulCancel(a: nat, b: nat, m: nat)
    requires m > 0 && a * m <= b * m
    ensures a <= b
  {
    if a > b {
      assert (b + 1) * m == b * m + m;
      MulMonotone(b + 1, a, m);
      assert false;
    }
  }

  lemma MulDistributes(a: int, b: int, m: int)
    ensures (a - b) * m == a * m - b * m
  {
  }

  lemma EuclideanIsUnique(a: nat, m: nat, q: int, r: nat)
    requires m > 0 && r < m && a == q * m + r
    ensures a / m == q && a % m == r
  {
    var q', r' := a / m, a % m;
    assert a == q' * m + r';
    MulDistributes(q, q', m);
    assert (q - q') * m == r' - r;
    if q - q' >= 1 {
      MulAtLeast(q - q', m);
      assert false;
    } else if q' - q >= 1 {
      MulDistributes(q', q, m);
      MulAtLeast(q' - q, m);
      assert false;
    }
  }

  lemma MultipleHasNoRemainder(q: nat, m: nat)
    requires m > 0
    ensures (q * m) % m == 0 && (q * m) / m == q
  {
    EuclideanIsUnique(q * m, m, q, 0);
  }
}

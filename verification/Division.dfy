// Integer division by the equation that defines it.
module Division {
  // Quotient and remainder are determined by the division equation.
  lemma DivUnique(x: nat, d: nat, q: nat, r: nat)
    requires d > 0 && x == d * q + r && r < d
    ensures x / d == q && x % d == r
  {
    var k := x / d;
    DivEquation(x, d);
    if q > k {
      MulAtLeast(d, q - k);
      MulMinus(d, q, k);
    } else if q < k {
      MulAtLeast(d, k - q);
      MulMinus(d, k, q);
    }
  }

  lemma DivEquation(x: nat, d: nat)
    requires d > 0
    ensures x == d * (x / d) + x % d && 0 <= x % d < d
  {
  }

  lemma {:induction false} MulAtLeast(d: nat, k: nat)
    requires k >= 1
    ensures d * k >= d
  {
  }

  lemma MulMinus(d: int, a: int, b: int)
    ensures d * (a - b) == d * a - d * b
  {
  }

  lemma MulMonotone(d: nat, a: nat, b: nat)
    requires a <= b
    ensures d * a <= d * b
  {
  }
}

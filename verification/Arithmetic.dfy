/** The few facts about products, division and remainder that the solver does not find alone. */
module Arithmetic {

  lemma MulGrows(d: int, k: nat)
    requires d >= 1
    ensures d * k >= k
  {
    assert d * k == (d - 1) * k + k;
  }

  /** Quotient and remainder are the only way to write `m` with a remainder below `k`. */
  lemma DivModUnique(m: int, q: int, k: nat, s: nat)
    requires m == q * k + s && s < k
    ensures m / k == q && m % k == s
  {
    var d := q - m / k;
    assert d * k == q * k - (m / k) * k;
    assert m == (m / k) * k + m % k;
    if d >= 1 {
      MulGrows(d, k);
    } else if d <= -1 {
      MulGrows(-d, k);
    }
  }

  lemma MulMonotone(x: nat, y: nat, b: nat)
    requires x <= y
    ensures x * b <= y * b
  {
    assert y * b - x * b == (y - x) * b;
  }

  function Power(base: nat, k: nat): nat {
    if k == 0 then 1 else base * Power(base, k - 1)
  }

  lemma {:induction false} PowerMonotone(a: nat, b: nat, k: nat)
    requires a <= b
    ensures Power(a, k) <= Power(b, k)
  {
    if k > 0 {
      PowerMonotone(a, b, k - 1);
      MulMonotone(a, b, Power(a, k - 1));
      MulMonotone(Power(a, k - 1), Power(b, k - 1), b);
    }
  }
}

// Facts about products and quotients that the chunk partitions and the size bounds rest on.
module Arithmetic {

  lemma {:induction false} MulMonotone(k: nat, x: nat, y: nat)
    requires x <= y
    ensures k * x <= k * y
  {
  }

  lemma {:induction false} DivideMonotone(a: nat, b: nat, k: nat)
    requires k > 0 && a <= b
    ensures a / k <= b / k
  {
    if b / k + 1 <= a / k {
      MulMonotone(k, b / k + 1, a / k);
    }
  }

  lemma {:induction false} DivideStep(a: nat, k: nat)
    requires k > 0
    ensures (a + k) / k == a / k + 1
  {
    var q, r := a / k, a % k;
    assert a + k == k * (q + 1) + r;
    DivideUnique(a + k, k, q + 1, r);
  }

  lemma {:induction false} DivideUnique(n: nat, k: nat, q: nat, r: nat)
    requires k > 0 && r < k && n == k * q + r
    ensures n / k == q && n % k == r
  {
    var p := n / k;
    if p + 1 <= q {
      MulMonotone(k, p + 1, q);
    } else if q + 1 <= p {
      MulMonotone(k, q + 1, p);
    }
  }

  /**
   `size_t(float(n) * 1.1f)`. Converting `n`, the constant and the product are rounded to 24
   bits each, which together is less than one part in 2^22; what remains is truncated.
   */
  predicate IsFloatProduct(n: nat, p: nat) {
    && 11 * n * (0x40_0000 - 1) < 10 * 0x40_0000 * (p + 1)
    && 10 * 0x40_0000 * p <= 11 * n * (0x40_0000 + 1)
  }
}

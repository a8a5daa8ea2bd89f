/** Quotients and remainders are determined by the division equation. */
module Division {
  lemma MulGrows(k: int, d: int)
    requires k > 0 && d > 0
    ensures k * d >= k
  {
  }

  lemma ModUnique(n: int, k: int, a: int, b: int)
    requires k > 0 && n == k * a + b && 0 <= b < k
    ensures n % k == b
  {
    var d := n / k - a;
    assert k * d == b - n % k;
    if d > 0 {
      MulGrows(k, d);
    } else if d < 0 {
      MulGrows(k, -d);
    }
  }

  lemma DivUnique(n: nat, k: nat, a: nat, b: nat)
    requires k > 0 && n == k * a + b && b < k
    ensures n / k == a
  {
    ModUnique(n, k, a, b);
    var d := n / k - a;
    assert k * d == k * (n / k) - k * a;
    if d > 0 {
      MulGrows(k, d);
    } else if d < 0 {
      MulGrows(k, -d);
    }
  }

  lemma DivRemainder(n: nat, k: nat)
    requires k > 0
    ensures k * (n / k) <= n < k * (n / k) + k
  {
    assert n == k * (n / k) + n % k;
  }
}

/** Quotients, remainders and powers of symbolic moduli. */
module Numbers {

  const TWO_64: nat := 0x1_0000_0000_0000_0000

  lemma MulMono(d: nat, x: int, y: int)
    requires x <= y
    ensures d * x <= d * y
  {
  }

  /** Quotient and remainder are unique. */
  lemma DivModUnique(n: int, d: nat, q: int, r: int)
    requires d > 0 && 0 <= r < d && n == d * q + r
    ensures n / d == q && n % d == r
  {
    var q', r' := n / d, n % d;
    assert n == d * q' + r';
    if q' < q {
      MulMono(d, q' + 1, q);
    } else if q < q' {
      MulMono(d, q + 1, q');
    }
  }

  lemma DropMultiple(d: nat, n: int, k: int)
    requires d > 0
    ensures (n + d * k) % d == n % d
  {
    var q, r := n / d, n % d;
    assert n + d * k == d * (q + k) + r;
    DivModUnique(n + d * k, d, q + k, r);
  }

  lemma ModSum(d: nat, a: int, b: int)
    requires d > 0
    ensures (a % d + b) % d == (a + b) % d
  {
    assert a + b == a % d + b + d * (a / d);
    DropMultiple(d, a % d + b, a / d);
  }

  lemma DifferentResidue(n: nat, a: int, d: nat)
    requires 0 < d < n
    ensures (a + d) % n != a % n
  {
    var q, r := a / n, a % n;
    if r + d < n {
      DivModUnique(a + d, n, q, r + d);
    } else {
      assert a + d == n * (q + 1) + (r + d - n);
      DivModUnique(a + d, n, q + 1, r + d - n);
    }
  }
}

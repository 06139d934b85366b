/** Small facts of integer arithmetic that the solver does not find on its own. */
module Arith {

  lemma MulStep(j: int, c: int)
    ensures (j + 1) * c == j * c + c
  {
  }

  lemma MulSub(a: int, b: int, c: int)
    ensures (a - b) * c == a * c - b * c
  {
  }

  lemma MulAdd(a: int, b: int, c: int)
    ensures (a + b) * c == a * c + b * c
  {
  }

  lemma MulAtLeast(a: int, c: int)
    requires a >= 1 && c > 0
    ensures a * c >= c
  {
  }

  /** Division and remainder are determined by `n == q * c + r` with `0 <= r < c`. */
  lemma DivUnique(n: int, c: int, q: int, r: int)
    requires 0 <= r < c && n == q * c + r
    ensures n / c == q && n % c == r
  {
    var q', r' := n / c, n % c;
    assert n == q' * c + r';
    assert (q - q') * c == r' - r by { MulSub(q, q', c); }
    if q > q' {
      MulAtLeast(q - q', c);
    } else if q < q' {
      MulSub(q', q, c);
      MulAtLeast(q' - q, c);
    }
  }

  lemma DivStep(n: nat, c: nat)
    requires 0 < c <= n
    ensures n / c == (n - c) / c + 1
    ensures n % c == (n - c) % c
  {
    var q, r := (n - c) / c, (n - c) % c;
    assert n == (q + 1) * c + r by { MulStep(q, c); }
    DivUnique(n, c, q + 1, r);
  }

  lemma ModAdd(a: nat, b: nat, c: nat)
    requires c > 0 && a % c == 0 && b % c == 0
    ensures (a + b) % c == 0
  {
    var qa, qb := a / c, b / c;
    assert a == qa * c && b == qb * c;
    MulAdd(qa, qb, c);
    DivUnique(a + b, c, qa + qb, 0);
  }
}

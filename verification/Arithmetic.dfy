/** Powers of two, and facts about quotients and remainders. */
module Arithmetic {
  function Pow2(n: nat): (r: nat)
    ensures r > 0
  {
    if n == 0 then 1 else 2 * Pow2(n - 1)
  }

  lemma MultipleStep(d: nat, a: int, b: int)
    requires a < b
    ensures d * a + d <= d * b
    decreases b - a
  {
    if a + 1 < b {
      MultipleStep(d, a, b - 1);
    }
    assert d * b == d * (b - 1) + d;
  }

  lemma DivisionUnique(h: nat, d: nat, q: int, r: nat)
    requires d > 0 && r < d && h == d * q + r
    ensures h / d == q && h % d == r
  {
    var q', r' := h / d, h % d;
    assert h == d * q' + r';
    if q < q' {
      MultipleStep(d, q, q');
    } else if q' < q {
      MultipleStep(d, q', q);
    }
  }

  lemma DivideTwice(n: nat, d: nat)
    requires d > 0
    ensures n / (256 * d) == n / d / 256
  {
    var q, r := n / d, n % d;
    var a, b := q / 256, q % 256;
    assert n == d * q + r;
    Regroup(d, a, b);
    MultipleStep(d, b, 256);
    DivisionUnique(n, 256 * d, a, d * b + r);
  }

  lemma Regroup(d: nat, a: int, b: int)
    ensures d * (256 * a + b) == (256 * d) * a + d * b
  {
  }
}

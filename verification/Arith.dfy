/** The few facts about multiplication, division and powers of two that the models share. */
module Arith {
  function Min(a: int, b: int): int { if a <= b then a else b }

  function Max(a: int, b: int): int { if a <= b then b else a }

  function CeilDiv(a: nat, b: nat): nat
    requires b > 0
  {
    (a + b - 1) / b
  }

  function Pow2(n: nat): (p: nat)
    ensures p >= 1
  {
    if n == 0 then 1 else 2 * Pow2(n - 1)
  }

  /** `int(math.log(n, 2))` with the logarithm taken exactly. */
  function Log2Floor(n: nat): (k: nat)
    requires n > 0
    ensures Pow2(k) <= n < 2 * Pow2(k)
  {
    if n == 1 then 0 else 1 + Log2Floor(n / 2)
  }

  predicate PowerOfTwo(n: nat)
    requires n > 0
  {
    Pow2(Log2Floor(n)) == n
  }

  lemma {:induction false} PowerIsPower(k: nat)
    ensures Log2Floor(Pow2(k)) == k && PowerOfTwo(Pow2(k))
  {
    if k > 0 { PowerIsPower(k - 1); }
  }

  lemma MulLe(a: int, b: int, c: nat)
    requires a <= b
    ensures a * c <= b * c
  {
  }

  lemma DivModUnique(n: int, q: int, a: int, r: int)
    requires q > 0 && 0 <= r < q && n == a * q + r
    ensures n / q == a && n % q == r
  {
    var d := n / q;
    assert n == d * q + n % q;
    if d < a {
      MulLe(d + 1, a, q);
    } else if d > a {
      MulLe(a + 1, d, q);
    }
  }

  lemma DivExact(n: int, q: int)
    requires q > 0
    ensures n * q / q == n && n * q % q == 0
  {
    DivModUnique(n * q, q, n, 0);
  }

  lemma CeilDivBounds(a: nat, b: nat)
    requires b > 0
    ensures CeilDiv(a, b) * b >= a
    ensures CeilDiv(a, b) * b < a + b
    ensures a > 0 ==> CeilDiv(a, b) >= 1
  {
    var q := CeilDiv(a, b);
    assert a + b - 1 == q * b + (a + b - 1) % b;
    if a > 0 && q <= 0 {
      MulLe(q, 0, b);
    }
  }

  lemma CeilDivUnique(a: nat, b: nat, q: nat)
    requires b > 0
    requires q * b >= a && q * b < a + b
    ensures CeilDiv(a, b) == q
  {
    DivModUnique(a + b - 1, b, q, a + b - 1 - q * b);
  }

  lemma MulCancelLe(a: int, b: int, c: int)
    requires c > 0 && a * c <= b * c
    ensures a <= b
  {
    if a > b {
      MulLe(b + 1, a, c);
    }
  }

  lemma DivNonnegative(a: int, b: int)
    requires a >= 0 && b > 0
    ensures a / b >= 0
  {
  }

  lemma ExactDivision(a: nat, b: nat)
    requires b > 0 && a % b == 0
    ensures a / b * b == a
    ensures a > 0 ==> a / b >= 1
  {
    assert a == a / b * b + a % b;
  }

  lemma DivLt(n: nat, q: nat, m: nat)
    requires q > 0 && n < m * q
    ensures 0 <= n / q < m && 0 <= n % q < q && n == n / q * q + n % q
  {
    var d := n / q;
    assert n == d * q + n % q;
    if d >= m { MulLe(m, d, q); }
    if d < 0 { MulLe(d, -1, q); }
  }

  lemma OneMore(n: nat, width: nat)
    requires n >= 1
    ensures n * width == width + (n - 1) * width
  {
  }

  lemma DivModNested(v: nat, p: nat)
    requires p >= 1
    ensures v / 256 / p == v / (256 * p)
    ensures v % (256 * p) % 256 == v % 256 && v % (256 * p) / 256 == v / 256 % p
  {
    var q, r := v / 256 / p, v / 256 % p;
    assert v / 256 == q * p + r;
    assert v == q * (256 * p) + (256 * r + v % 256);
    DivModUnique(v, 256 * p, q, 256 * r + v % 256);
    DivModUnique(256 * r + v % 256, 256, r, v % 256);
  }
}

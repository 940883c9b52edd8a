/** The few nonlinear facts the proofs use, each in isolation. */
module Arith {

  lemma MulMono(a: int, b: int, c: int)
    requires a <= b && 0 <= c
    ensures a * c <= b * c
  {}

  lemma MulMonoBoth(a: int, b: int, c: int, d: int)
    requires 0 <= a <= b && 0 <= c <= d
    ensures 0 <= a * c <= b * d
  {
    MulMono(a, b, c);
    MulMono(c, d, b);
    MulMono(0, a, c);
    assert b * c == c * b && b * d == d * b;
  }

  /** A multiple of `d` strictly between `-d` and `d` is zero. */
  lemma SmallMultiple(z: int, d: int)
    requires d > 0 && -d < z * d < d
    ensures z == 0
  {
    if z > 0 {
      MulMono(1, z, d);
    } else if z < 0 {
      MulMono(z, -1, d);
    }
  }

  lemma DivMod(n: int, d: int)
    requires d > 0
    ensures n == n / d * d + n % d && 0 <= n % d < d
  {}

  /** Uniqueness of quotient and remainder. */
  lemma QuotientIs(n: int, q: int, d: int, r: int)
    requires 0 <= r < d && n == q * d + r
    ensures n / d == q && n % d == r
  {
    DivMod(n, d);
    Distribute(n / d, q, d);
    SmallMultiple(n / d - q, d);
  }

  lemma Distribute(a: int, b: int, c: int)
    ensures (a - b) * c == a * c - b * c
    ensures (a + b) * c == a * c + b * c
  {}

  /** `q * d <= n` exactly when `q` is at most the quotient. */
  lemma DivBound(n: int, d: int, q: int)
    requires d > 0
    ensures q * d <= n <==> q <= n / d
  {
    DivMod(n, d);
    if q <= n / d {
      MulMono(q, n / d, d);
    } else {
      MulMono(n / d + 1, q, d);
      Distribute(n / d, 1, d);
    }
  }

  lemma DivMono(a: int, b: int, d: int)
    requires a <= b && d > 0
    ensures a / d <= b / d
  {
    DivMod(a, d);
    DivBound(b, d, a / d);
  }

  /** A larger divisor gives a smaller quotient. */
  lemma DivAnti(n: int, d: int, e: int)
    requires 0 <= n && 0 < d <= e
    ensures 0 <= n / e <= n / d
  {
    DivMod(n, e);
    DivBound(n, e, 0);
    MulMono(d, e, n / e);
    assert n / e * d == d * (n / e) && n / e * e == e * (n / e);
    DivBound(n, d, n / e);
  }

  lemma MulAssoc(a: int, b: int, c: int)
    ensures a * b * c == a * (b * c)
  {}

  /** Dividing by a product is dividing twice. */
  lemma DivDiv(n: int, a: int, b: int)
    requires 0 <= n && a > 0 && b > 0
    ensures a * b > 0 && n / a / b == n / (a * b)
  {
    DivMod(n, a);
    DivMod(n / a, b);
    var q, r := n / a / b, n / a % b;
    assert n / a == q * b + r;
    Distribute(q * b, r, a);
    MulAssoc(q, b, a);
    assert b * a == a * b;
    assert n == q * (a * b) + (r * a + n % a);
    MulMono(r + 1, b, a);
    Distribute(r, 1, a);
    MulMono(0, r, a);
    MulMono(1, a, b);
    QuotientIs(n, q, a * b, r * a + n % a);
  }
}

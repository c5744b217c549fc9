/** Integer facts used by several modules, each small enough to be proved on its own. */
module Arithmetic {

  lemma MulMonotone(a: nat, b: nat, c: nat, d: nat)
    requires a <= c && b <= d
    ensures a * b <= c * d
  {
    assert a * b <= c * b;
    assert c * b <= c * d;
  }

  lemma MulAssociates(a: int, b: int, c: int)
    ensures a * b * c == a * (b * c)
  {
  }

  lemma MulExchanges(a: int, b: int, c: int, d: int)
    ensures a * b * (c * d) == a * c * (b * d)
  {
  }

  lemma ProductNonNegative(a: int, b: int)
    requires a >= 0 && b >= 0
    ensures a * b >= 0
  {
  }

  lemma ProductBelowFactor(gap: int, d: int)
    requires d > 0 && gap * d < d
    ensures gap <= 0
  {
  }

  lemma DivAtLeast(n: int, d: int, q: int)
    requires d > 0 && q * d <= n
    ensures q <= n / d
  {
    var quotient := n / d;
    assert (q - quotient) * d < d;
    ProductBelowFactor(q - quotient, d);
  }

  lemma DivAtMost(n: int, d: int, q: int)
    requires d > 0 && q <= n / d
    ensures q * d <= n
  {
    assert q * d <= n / d * d;
  }

  lemma CancelAtMost(c: nat, a: int, b: int)
    requires c > 0 && c * a <= b * c
    ensures a <= b
  {
    assert (b - a) * c >= 0;
    NonNegativeFactor(b - a, c);
  }

  lemma NonNegativeFactor(a: int, c: int)
    requires c > 0 && a * c >= 0
    ensures a >= 0
  {
  }

  lemma CancelLess(c: nat, a: int, b: int)
    requires c > 0 && a * c < c * b
    ensures a < b
  {
  }

  lemma ScaleLess(c: nat, a: nat, b: nat)
    requires c > 0 && a < b
    ensures c * a < c * b
  {
  }

  lemma StrictProduct(a: nat, b: nat, c: nat, d: nat)
    requires a < c && b < d
    ensures a * b < c * d
  {
    MulMonotone(a, b, a, d);
    assert a * d < c * d;
  }

  lemma ExpandSuccessors(a: int, b: int)
    ensures (a + 1) * (b + 1) == a * b + a + b + 1
  {
  }

  lemma HalveDouble(x: nat)
    ensures 2 * x / 2 == x
  {
  }

  lemma BelowFactor(gap: int, d: int)
    requires d > 0 && -d < gap * d < d
    ensures gap == 0
  {
  }

  lemma DivisionBounds(n: int, d: int)
    requires d > 0
    ensures n / d * d <= n < (n / d + 1) * d && n == n / d * d + n % d && 0 <= n % d < d
    ensures n >= 0 ==> n / d >= 0
  {
    var q := n / d;
    assert n == d * q + n % d;
    if n >= 0 && q < 0 { NonNegativeFactor(-1 - q, d); }
  }

  /** A quotient and a remainder in range are those of the division. */
  lemma DivisionIs(n: int, d: int, q: int, r: int)
    requires d > 0 && n == q * d + r && 0 <= r < d
    ensures n / d == q && n % d == r
  {
    var q', r' := n / d, n % d;
    assert n == q' * d + r';
    assert (q' - q) * d == r - r';
    BelowFactor(q' - q, d);
  }
}

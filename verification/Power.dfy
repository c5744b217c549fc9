/** Powers of natural numbers and the inequalities the fixed-point tables and the codecs rest on. */
module Power {
  import opened Arithmetic

  function Pow(b: nat, e: nat): nat
    decreases e
  {
    if e == 0 then 1 else b * Pow(b, e - 1)
  }

  lemma PowStep(b: nat, e: nat)
    requires e > 0
    ensures Pow(b, e) == b * Pow(b, e - 1)
  {
  }

  lemma {:induction false} PowPositive(b: nat, e: nat)
    requires b > 0
    ensures Pow(b, e) > 0
  {
    if e > 0 { PowPositive(b, e - 1); }
  }

  lemma PowZero(b: nat)
    ensures Pow(b, 0) == 1
  {
  }

  lemma {:induction false} PowAdd(b: nat, x: nat, y: nat)
    ensures Pow(b, x + y) == Pow(b, x) * Pow(b, y)
  {
    hide Pow;
    if x == 0 {
      PowZero(b);
    } else {
      PowAdd(b, x - 1, y);
      PowStep(b, x);
      PowStep(b, x + y);
      MulAssociates(b, Pow(b, x - 1), Pow(b, y));
    }
  }

  lemma {:induction false} PowMul(a: nat, b: nat, e: nat)
    ensures Pow(a * b, e) == Pow(a, e) * Pow(b, e)
  {
    hide Pow;
    if e == 0 {
      PowZero(a);
      PowZero(b);
      PowZero(a * b);
    } else {
      PowMul(a, b, e - 1);
      PowStep(a, e);
      PowStep(b, e);
      PowStep(a * b, e);
      MulExchanges(a, b, Pow(a, e - 1), Pow(b, e - 1));
    }
  }

  lemma {:induction false} PowPow(a: nat, x: nat, y: nat)
    ensures Pow(Pow(a, x), y) == Pow(a, x * y)
  {
    hide Pow;
    if y == 0 {
      PowZero(Pow(a, x));
      PowZero(a);
    } else {
      PowPow(a, x, y - 1);
      PowStep(Pow(a, x), y);
      OneMoreFactor(x, y);
      PowAdd(a, x, x * (y - 1));
    }
  }

  lemma OneMoreFactor(x: nat, y: nat)
    requires y > 0
    ensures x * y == x + x * (y - 1)
  {
  }

  lemma SwapExponents(b: nat, x: nat, y: nat)
    ensures Pow(Pow(b, x), y) == Pow(Pow(b, y), x)
  {
    hide Pow;
    PowPow(b, x, y);
    PowPow(b, y, x);
    assert x * y == y * x;
  }

  lemma {:induction false} PowMonotone(a: nat, b: nat, e: nat)
    requires a <= b
    ensures Pow(a, e) <= Pow(b, e)
  {
    hide Pow;
    if e == 0 {
      PowZero(a);
      PowZero(b);
    } else {
      PowMonotone(a, b, e - 1);
      PowStep(a, e);
      PowStep(b, e);
      MulMonotone(a, Pow(a, e - 1), b, Pow(b, e - 1));
    }
  }

  lemma PowStrictlyMonotone(a: nat, b: nat, e: nat)
    requires a < b && e > 0
    ensures Pow(a, e) < Pow(b, e)
  {
    hide Pow;
    PowMonotone(a, b, e - 1);
    PowPositive(b, e - 1);
    PowStep(a, e);
    PowStep(b, e);
    MulMonotone(a, Pow(a, e - 1), a, Pow(b, e - 1));
    ScaleLess(Pow(b, e - 1), a, b);
  }

  /** Comparing k-th powers compares the bases. */
  lemma PowLessInverse(a: nat, b: nat, e: nat)
    requires Pow(a, e) < Pow(b, e)
    ensures a < b
  {
    if b <= a { PowMonotone(b, a, e); }
  }

  lemma PowAtMostInverse(a: nat, b: nat, e: nat)
    requires e > 0 && Pow(a, e) <= Pow(b, e)
    ensures a <= b
  {
    if b < a { PowStrictlyMonotone(b, a, e); }
  }

  lemma PowExponentMonotone(b: nat, x: nat, y: nat)
    requires b > 0 && x <= y
    ensures Pow(b, x) <= Pow(b, y)
  {
    hide Pow;
    PowAdd(b, x, y - x);
    PowPositive(b, y - x);
    MulMonotone(Pow(b, x), 1, Pow(b, x), Pow(b, y - x));
  }

  lemma PowAtLeastBase(b: nat, e: nat)
    requires e > 0
    ensures b <= Pow(b, e)
  {
    hide Pow;
    PowStep(b, e);
    if b > 0 {
      PowPositive(b, e - 1);
      MulMonotone(b, 1, b, Pow(b, e - 1));
    }
  }

  lemma {:induction false} OnePow(e: nat)
    ensures Pow(1, e) == 1
  {
    if e > 0 { OnePow(e - 1); }
  }

  /** One step of TangentLine, with p = r^(k-1) and s = x^(k-2). */
  lemma TangentStep(k: int, r: int, x: int, p: int, s: int)
    requires k >= 2 && r >= 0 && s >= 0
    requires p + (k - 2) * (x * s) >= (k - 1) * r * s
    ensures r * p + (k - 1) * (x * (x * s)) >= k * r * (x * s)
  {
    var hypothesis := p + (k - 2) * (x * s) - (k - 1) * r * s;
    var square := (x - r) * (x - r);
    ProductNonNegative(r, hypothesis);
    ProductNonNegative(k - 1, s);
    ProductNonNegative((k - 1) * s, square);
    TangentIdentity(k, r, x, p, s);
  }

  lemma TangentIdentity(k: int, r: int, x: int, p: int, s: int)
    ensures r * p + (k - 1) * (x * (x * s)) - k * r * (x * s) ==
            r * (p + (k - 2) * (x * s) - (k - 1) * r * s) + (k - 1) * s * ((x - r) * (x - r))
  {
  }

  /**
   * Tangent line of x^k at x, in integers: r^k >= k*r*x^(k-1) - (k-1)*x^k.
   * This is what keeps integer Newton iterates at or above the root.
   */
  lemma {:induction false} TangentLine(r: nat, x: nat, k: nat)
    requires k >= 1
    ensures Pow(r, k) + (k - 1) * Pow(x, k) >= k * r * Pow(x, k - 1)
  {
    if k >= 2 {
      TangentLine(r, x, k - 1);
      assert Pow(x, k - 1) == x * Pow(x, k - 2);
      TangentStep(k, r, x, Pow(r, k - 1), Pow(x, k - 2));
    }
  }

  /** One step of GrowthBound, with p = (x+1)^(k-1) and q = x^k. */
  lemma GrowthStep(x: int, k: int, p: int, q: int)
    requires 1 <= k <= x && p >= 0
    requires p * (x - (k - 1)) <= q
    ensures (x + 1) * p * (x - k) <= x * q
  {
    var slack := q - p * (x - (k - 1));
    ProductNonNegative(x, slack);
    ProductNonNegative(p, k);
    GrowthIdentity(x, k, p, q);
  }

  lemma GrowthIdentity(x: int, k: int, p: int, q: int)
    ensures x * q - (x + 1) * p * (x - k) == x * (q - p * (x - (k - 1))) + p * k
  {
  }

  /** (x+1)^k * (x-k) <= x^(k+1): Bernoulli's inequality without division. */
  lemma {:induction false} GrowthBound(x: nat, k: nat)
    requires k <= x
    ensures Pow(x + 1, k) * (x - k) <= Pow(x, k + 1)
  {
    if k == 0 {
      assert Pow(x, 1) == x * Pow(x, 0);
    } else {
      GrowthBound(x, k - 1);
      GrowthStep(x, k, Pow(x + 1, k - 1), Pow(x, k));
    }
  }

  /** One step of BernoulliDown, with p = (b-1)^(k-1) and s = b^(k-2). */
  lemma BernoulliStep(b: int, k: int, p: int, s: int)
    requires b >= 1 && p <= b * s && p + (k - 1) * s >= b * s
    ensures (b - 1) * p + k * (b * s) >= b * (b * s)
  {
    var slack := p + (k - 1) * s - b * s;
    ProductNonNegative(b, slack);
    BernoulliIdentity(b, k, p, s);
  }

  lemma BernoulliIdentity(b: int, k: int, p: int, s: int)
    ensures (b - 1) * p + k * (b * s) - b * (b * s) == b * (p + (k - 1) * s - b * s) + (b * s - p)
  {
  }

  /** Bernoulli downwards: (b-1)^k >= b^k - k*b^(k-1). */
  lemma {:induction false} BernoulliDown(b: nat, k: nat)
    requires b >= 1 && k >= 1
    ensures Pow(b - 1, k) + k * Pow(b, k - 1) >= Pow(b, k)
  {
    if k >= 2 {
      BernoulliDown(b, k - 1);
      PowMonotone(b - 1, b, k - 1);
      assert Pow(b, k - 1) == b * Pow(b, k - 2);
      BernoulliStep(b, k, Pow(b - 1, k - 1), Pow(b, k - 2));
    }
  }
}

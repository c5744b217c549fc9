/**
 * The v0 table of proto/refimpl/mrr_ref.py: one per-step base found by binary search, then iterated
 * truncating multiplication. Its drift is what the canonical tables remove.
 */
module IteratedTable {
  import opened Arithmetic
  import opened Power
  import opened IntegerRoot
  import opened DecayTable

  /** The search ends on the least x with x^hl >= 2*ONE^hl. */
  ghost predicate IsStepBase(x: nat, g: Geometry) {
    x > One(g) && Pow(x - 1, g.halfLife) < 2 * Pow(One(g), g.halfLife) <= Pow(x, g.halfLife)
  }

  /** (x * base) >> FRAC_BITS. */
  function StepUp(x: nat, base: nat, one: nat): nat
    requires one > 0
  {
    ProductNonNegative(x, base);
    x * base / one
  }

  /** (ONE * ONE) // x. */
  function Inverted(one: nat, x: nat): nat
    requires x > 0
  {
    ProductNonNegative(one, one);
    one * one / x
  }

  lemma InvertedOne(one: nat)
    requires one > 0
    ensures Inverted(one, one) == one
  {
    DivisionIs(one * one, one, one, 0);
  }

  ghost predicate IsIterated(g: Geometry, base: nat, t: Tables) {
    && |t.invD| == |t.decay| == g.epoch + 1
    && t.invD[0] == One(g)
    && (forall j :: 0 < j <= g.epoch ==> t.invD[j] == StepUp(t.invD[j - 1], base, One(g)))
    && (forall d :: 0 <= d <= g.epoch ==> t.invD[d] > 0 && t.decay[d] == Inverted(One(g), t.invD[d]))
  }

  lemma SearchRange(g: Geometry)
    requires g.halfLife >= 1
    ensures Pow(One(g), g.halfLife) < 2 * Pow(One(g), g.halfLife) <= Pow(2 * One(g), g.halfLife)
  {
    PowPositive(One(g), g.halfLife);
    PowMul(2, One(g), g.halfLife);
    PowAtLeastBase(2, g.halfLife);
    MulMonotone(2, Pow(One(g), g.halfLife), Pow(2, g.halfLife), Pow(One(g), g.halfLife));
  }

  method FindStepBase(g: Geometry) returns (base: nat)
    requires g.halfLife >= 1
    ensures IsStepBase(base, g)
  {
    var one, hl := One(g), g.halfLife;
    var target := 2 * Pow(one, hl);
    SearchRange(g);
    var lo, hi := one, one * 2;
    while lo < hi
      invariant one <= lo <= hi
      invariant target <= Pow(hi, hl)
      invariant lo > one ==> Pow(lo - 1, hl) < target
    {
      var mid := (lo + hi) / 2;
      if Pow(mid, hl) < target {
        lo := mid + 1;
      } else {
        hi := mid;
      }
    }
    base := lo;
  }

  // ---------- the base is a floor only for half-life one ----------

  lemma {:induction false} PowParity(x: nat, k: nat)
    requires k >= 1
    ensures Pow(x, k) % 2 == 0 <==> x % 2 == 0
  {
    if k == 1 {
      assert Pow(x, 1) == x * Pow(x, 0);
    } else {
      PowParity(x, k - 1);
      ProductParity(x, Pow(x, k - 1));
    }
  }

  lemma ProductParity(a: nat, b: nat)
    ensures a * b % 2 == 0 <==> a % 2 == 0 || b % 2 == 0
  {
    if a % 2 == 0 {
      EvenProduct(a / 2, b);
    } else if b % 2 == 0 {
      EvenProduct(b / 2, a);
    } else {
      OddProduct(a / 2, b / 2);
    }
  }

  lemma EvenProduct(p: nat, b: nat)
    ensures 2 * p * b % 2 == 0 && b * (2 * p) % 2 == 0
  {
    var n := p * b;
    assert 2 * p * b == 2 * n && b * (2 * p) == 2 * n;
  }

  lemma OddProduct(p: nat, q: nat)
    ensures (2 * p + 1) * (2 * q + 1) % 2 == 1
  {
    var n := 2 * (p * q) + p + q;
    assert (2 * p + 1) * (2 * q + 1) == 2 * n + 1;
  }

  /** No k-th power is twice another for k >= 2, by descent: both bases would be even again and again. */
  lemma {:induction false} NoDoubledPower(x: nat, y: nat, k: nat)
    requires k >= 2 && y >= 1
    ensures Pow(x, k) != 2 * Pow(y, k)
    decreases y
  {
    hide Pow;
    if Pow(x, k) == 2 * Pow(y, k) {
      HalvedBases(x, y, k);
      NoDoubledPower(x / 2, y / 2, k);
    }
  }

  /** If one k-th power is twice another, both bases are even and their halves are such a pair again. */
  lemma HalvedBases(x: nat, y: nat, k: nat)
    requires k >= 2 && y >= 1 && Pow(x, k) == 2 * Pow(y, k)
    ensures 1 <= y / 2 < y && Pow(x / 2, k) == 2 * Pow(y / 2, k)
  {
    hide Pow;
    HalvedOnce(x, y, k);
    PowStep(2, k - 1);
    MulAssociates(2, Pow(2, k - 2), Pow(x / 2, k));
    PowParity(y, k);
    EvenPower(y, k);
    PowStep(2, k);
    PowPositive(2, k - 1);
    MulAssociates(2, Pow(2, k - 1), Pow(y / 2, k));
    CancelFactor(Pow(2, k - 1), Pow(x / 2, k), 2 * Pow(y / 2, k));
  }

  lemma HalvedOnce(x: nat, y: nat, k: nat)
    requires k >= 1 && Pow(x, k) == 2 * Pow(y, k)
    ensures Pow(2, k - 1) * Pow(x / 2, k) == Pow(y, k)
  {
    hide Pow;
    PowParity(x, k);
    EvenPower(x, k);
    PowStep(2, k);
    MulAssociates(2, Pow(2, k - 1), Pow(x / 2, k));
  }

  lemma EvenPower(x: nat, k: nat)
    requires x % 2 == 0
    ensures Pow(x, k) == Pow(2, k) * Pow(x / 2, k)
  {
    hide Pow;
    PowMul(2, x / 2, k);
  }

  lemma CancelFactor(c: nat, a: nat, b: nat)
    requires c > 0 && c * a == c * b
    ensures a == b
  {
    CancelAtMost(c, a, b);
    CancelAtMost(c, b, a);
  }

  /** The base is the floor of the root its comment speaks of if and only if the half-life is one. */
  lemma BaseIsFloorExactly(g: Geometry, base: nat)
    requires g.halfLife >= 1 && IsStepBase(base, g)
    ensures IsFloorRoot(base, 2 * Pow(One(g), g.halfLife), g.halfLife) <==> g.halfLife == 1
  {
    hide Pow;
    var hl, target := g.halfLife, 2 * Pow(One(g), g.halfLife);
    PowStrictlyMonotone(base, base + 1, hl);
    if hl == 1 {
      PowOne(base);
      PowOne(base - 1);
    } else {
      NoDoubledPower(base, One(g), hl);
    }
  }

  lemma PowOne(x: nat)
    ensures Pow(x, 1) == x
  {
    assert Pow(x, 1) == x * Pow(x, 0);
  }

  /** So the base is one unit above the canonical first entry for every half-life of at least two. */
  lemma BaseAgainstCanonical(g: Geometry, base: nat, t: Tables)
    requires Canonical(g, t) && g.epoch >= 1 && IsStepBase(base, g)
    ensures base == t.invD[1] + if g.halfLife == 1 then 0 else 1
  {
    hide Pow, IsFloorRoot;
    var hl, target := g.halfLife, 2 * Pow(One(g), g.halfLife);
    OneIsRoot(g);
    InversePowerDoubles(g);
    BaseIsFloorExactly(g, base);
    if hl == 1 {
      FloorRootUnique(base, t.invD[1], target, hl);
    } else {
      NoDoubledPower(base, One(g), hl);
      PredecessorIsFloor(base, target, hl);
      FloorRootUnique(base - 1, t.invD[1], target, hl);
    }
  }

  lemma PredecessorIsFloor(base: nat, n: nat, k: nat)
    requires k >= 1 && base >= 1 && Pow(base - 1, k) < n < Pow(base, k)
    ensures IsFloorRoot(base - 1, n, k)
  {
  }

  lemma InversePowerDoubles(g: Geometry)
    ensures InversePower(g, 1) == 2 * InversePower(g, 0)
  {
  }

  // ---------- the tables ----------

  lemma StepGrows(x: nat, base: nat, one: nat)
    requires 0 < one <= base
    ensures x <= StepUp(x, base, one)
  {
    MulMonotone(x, one, x, base);
    DivAtLeast(x * base, one, x);
  }

  /** build_tables of mrr_ref.py. */
  method BuildIterated(g: Geometry) returns (t: Tables, base: nat)
    requires g.halfLife >= 1
    ensures IsStepBase(base, g)
    ensures IsIterated(g, base, t)
    ensures |t.invD| == |t.decay| == g.epoch + 1 && t.invD[0] == t.decay[0] == One(g)
  {
    InvertedOne(One(g));
    hide StepUp, Inverted;
    var one := One(g);
    base := FindStepBase(g);
    var invD := [one];
    for j := 1 to g.epoch + 1
      invariant |invD| == j
      invariant invD[0] == one
      invariant forall i :: 0 < i < j ==> invD[i] == StepUp(invD[i - 1], base, one)
      invariant forall i :: 0 <= i < j ==> invD[i] >= one
    {
      StepGrows(invD[|invD| - 1], base, one);
      invD := invD + [StepUp(invD[|invD| - 1], base, one)];
    }
    var decay: seq<nat> := [];
    for d := 0 to g.epoch + 1
      invariant |decay| == d
      invariant forall i :: 0 <= i < d ==> decay[i] == Inverted(one, invD[i])
    {
      decay := decay + [Inverted(one, invD[d])];
    }
    t := Tables(invD, decay);
  }

  /** One truncation: with the new entry x' = floor(x*base/one), u = one^(j-1), p = base^j. */
  lemma DriftStep(x: int, x': int, base: int, one: int, u: int, p: int, q: int, j: int)
    requires 0 < one <= base && 0 < u && 1 <= j
    requires 0 <= x * base - x' * one < one
    requires 0 <= p - x * u <= (j - 1) * q && base * q == p && one * u <= p
    ensures 0 <= base * p - x' * (one * u) <= j * p
  {
    var rest := x * base - x' * one;
    var gap := p - x * u;
    DriftIdentities(x, x', base, one, u, p, q, j);
    ProductNonNegative(base, gap);
    ProductNonNegative(rest, u);
    MulMonotone(rest, u, one, u);
    MulMonotone(base, gap, base, (j - 1) * q);
  }

  lemma DriftIdentities(x: int, x': int, base: int, one: int, u: int, p: int, q: int, j: int)
    ensures base * p - x' * (one * u) == base * (p - x * u) + (x * base - x' * one) * u
    ensures base * ((j - 1) * q) == (j - 1) * (base * q)
  {
  }

  /**
   * Truncations only ever lose value, and entry j has lost at most j-1 steps' worth:
   * 0 <= base^j - InvD[j]*ONE^(j-1) <= (j-1)*base^(j-1).
   */
  lemma {:induction false} BoundedDrift(g: Geometry, base: nat, t: Tables, j: nat)
    requires IsIterated(g, base, t) && base >= One(g) && 1 <= j <= g.epoch
    ensures 0 <= Pow(base, j) - t.invD[j] * Pow(One(g), j - 1) <= (j - 1) * Pow(base, j - 1)
  {
    var one := One(g);
    if j == 1 {
      assert t.invD[1] == StepUp(t.invD[0], base, one) == one * base / one;
      DivisionIs(one * base, one, base, 0);
      assert Pow(base, 1) == base * Pow(base, 0);
    } else {
      BoundedDrift(g, base, t, j - 1);
      PowPositive(one, j - 2);
      PowMonotone(one, base, j - 1);
      assert Pow(one, j - 1) == one * Pow(one, j - 2) && Pow(base, j - 1) == base * Pow(base, j - 2);
      var x := t.invD[j - 1];
      DivisionBounds(x * base, one);
      DriftStep(x, t.invD[j], base, one, Pow(one, j - 2), Pow(base, j - 1), Pow(base, j - 2), j - 1);
    }
  }

  /** 2^(frac*hl+j) * (one^(j-1))^hl is the j-th power of 2*one^hl. */
  lemma CommonPower(g: Geometry, j: nat)
    requires g.halfLife >= 1 && j >= 1
    ensures InversePower(g, j) * Pow(Pow(One(g), j - 1), g.halfLife) == Pow(2 * Pow(One(g), g.halfLife), j)
  {
    var o := Pow(One(g), g.halfLife);
    PowStep(o, j);
    hide Pow;
    OneIsRoot(g);
    SwapExponents(One(g), j - 1, g.halfLife);
    PowAdd(2, g.fracBits * g.halfLife, j);
    PowMul(2, o, j);
    Regroup(o, Pow(2, j), Pow(o, j - 1));
  }

  lemma Regroup(a: int, b: int, c: int)
    ensures a * b * c == b * (a * c)
  {
  }

  /** Entry j of a canonical table, compared at the scale where base^j lives. */
  lemma CanonicalAgainstBase(g: Geometry, t: Tables, base: nat, j: nat)
    requires Canonical(g, t) && IsStepBase(base, g) && 1 <= j <= g.epoch
    ensures t.invD[j] * Pow(One(g), j - 1) <= Pow(base, j)
    ensures Pow(base - 1, j) <= (t.invD[j] + 1) * Pow(One(g), j - 1)
  {
    var hl, u, c := g.halfLife, Pow(One(g), j - 1), t.invD[j];
    var target := 2 * Pow(One(g), hl);
    CommonPower(g, j);
    assert Pow(c * u, hl) <= Pow(Pow(base, j), hl) by {
      PowMul(c, u, hl);
      MulMonotone(Pow(c, hl), Pow(u, hl), InversePower(g, j), Pow(u, hl));
      PowMonotone(target, Pow(base, hl), j);
      SwapExponents(base, hl, j);
    }
    PowAtMostInverse(c * u, Pow(base, j), hl);
    assert Pow(Pow(base - 1, j), hl) <= Pow((c + 1) * u, hl) by {
      PowMul(c + 1, u, hl);
      MulMonotone(InversePower(g, j), Pow(u, hl), Pow(c + 1, hl), Pow(u, hl));
      PowMonotone(Pow(base - 1, hl), target, j);
      SwapExponents(base - 1, hl, j);
    }
    PowAtMostInverse(Pow(base - 1, j), (c + 1) * u, hl);
  }

  /** The v0 entry j and the canonical entry j differ by O(j) steps of size (base/ONE)^(j-1), in either direction. */
  lemma DriftFromCanonical(g: Geometry, v0: Tables, base: nat, t: Tables, j: nat)
    requires Canonical(g, t) && IsStepBase(base, g) && IsIterated(g, base, v0) && 1 <= j <= g.epoch
    ensures (t.invD[j] - v0.invD[j]) * Pow(One(g), j - 1) <= (j - 1) * Pow(base, j - 1)
    ensures (v0.invD[j] - t.invD[j] - 1) * Pow(One(g), j - 1) <= j * Pow(base, j - 1)
  {
    BoundedDrift(g, base, v0, j);
    CanonicalAgainstBase(g, t, base, j);
    BernoulliDown(base, j);
    SplitDifference(t.invD[j], v0.invD[j], Pow(One(g), j - 1));
  }

  lemma SplitDifference(a: int, b: int, u: int)
    ensures (a - b) * u == a * u - b * u
    ensures (b - a - 1) * u == b * u - (a + 1) * u
  {
  }

  /** What the truncated inverses of two scales lose against each other. */
  lemma InvertedGap(one: nat, a: nat, x: nat, b: nat, y: nat)
    requires x > 0 && a == Inverted(one, x) && 0 <= one * one - b * y <= b + y
    ensures (a - b) * x <= b * (y - x) + b + y
    ensures (b - a) * x < b * (x - y) + x
  {
    DivisionBounds(one * one, x);
    assert (a - b) * x == a * x - b * x && b * (y - x) == b * y - b * x && (b - a) * x == b * x - a * x;
    assert b * (x - y) == b * x - b * y;
  }

  /**
   * The decay lists differ by the drift of the inverses, seen through the reciprocal, plus the two truncations:
   * with x and y the iterated and the canonical inverse entry j, and u = ONE^(j-1).
   */
  lemma DecayDrift(g: Geometry, v0: Tables, base: nat, t: Tables, j: nat)
    requires Canonical(g, t) && IsStepBase(base, g) && IsIterated(g, base, v0) && 1 <= j <= g.epoch
    ensures var x, y, a, b, u := v0.invD[j], t.invD[j], v0.decay[j], t.decay[j], Pow(One(g), j - 1);
            && (a - b) * x * u <= b * ((j - 1) * Pow(base, j - 1)) + (b + y) * u
            && (b - a) * x * u <= b * (j * Pow(base, j - 1)) + (b + x) * u
  {
    hide Pow, Inverted, StepUp;
    var x: int, y: int, a: int, b, u := v0.invD[j], t.invD[j], v0.decay[j], t.decay[j], Pow(One(g), j - 1);
    Reciprocal(g, t, j);
    InvertedGap(One(g), a, x, b, y);
    DriftFromCanonical(g, v0, base, t, j);
    ScaledGap((a - b) * x, b, y - x, b + y, (j - 1) * Pow(base, j - 1), u);
    ScaledGap((b - a) * x, b, x - y - 1, b + x, j * Pow(base, j - 1), u);
  }

  lemma ScaledGap(gap: int, b: nat, drift: int, rest: int, most: int, u: nat)
    requires gap <= b * drift + rest && drift * u <= most
    ensures gap * u <= b * most + rest * u
  {
    var slack, room := b * drift + rest - gap, most - drift * u;
    ProductNonNegative(slack, u);
    ProductNonNegative(b, room);
    assert slack * u == b * (drift * u) + rest * u - gap * u;
    assert b * room == b * most - b * (drift * u);
  }
}

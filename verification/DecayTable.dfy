/**
 * The canonical decay tables of proto/refimpl/decay_table.py: every entry is the exact floored
 * half_life-th root of a power of two, so decay[d] = floor(2^frac * 2^(-d/hl)) and
 * InvD[j] = floor(2^frac * 2^(j/hl)).
 */
module DecayTable {
  import opened Basics
  import opened Arithmetic
  import opened Power
  import opened IntegerRoot

  datatype Geometry = Geometry(halfLife: nat, epoch: nat, fracBits: nat)

  datatype Tables = Tables(invD: seq<nat>, decay: seq<nat>)

  /** Fixed-point 1.0. */
  function One(g: Geometry): (one: nat)
    ensures one > 0
  {
    PowPositive(2, g.fracBits);
    Pow(2, g.fracBits)
  }

  /** The hl-th power of 2^frac * 2^(-d/hl). */
  ghost function DecayPower(g: Geometry, d: nat): nat
    requires d <= g.fracBits * g.halfLife
  {
    Pow(2, g.fracBits * g.halfLife - d)
  }

  /** The hl-th power of 2^frac * 2^(j/hl). */
  ghost function InversePower(g: Geometry, j: nat): nat {
    Pow(2, g.fracBits * g.halfLife + j)
  }

  /** What the table construction promises (C3 at every index, not a sample). */
  ghost predicate Canonical(g: Geometry, t: Tables) {
    && g.halfLife >= 1
    && g.epoch <= g.fracBits * g.halfLife
    && |t.invD| == |t.decay| == g.epoch + 1
    && (forall d: nat :: d <= g.epoch ==> IsFloorRoot(t.decay[d], DecayPower(g, d), g.halfLife))
    && (forall j: nat :: j <= g.epoch ==> IsFloorRoot(t.invD[j], InversePower(g, j), g.halfLife))
  }

  /**
   * build_tables. A geometry whose epoch exceeds frac*hl asks for a negative shift, which the
   * original raises on; that is the only failure.
   */
  method BuildTables(g: Geometry) returns (r: Option<Tables>)
    requires g.halfLife >= 1
    ensures r.Some? <==> g.epoch <= g.fracBits * g.halfLife
    ensures r.Some? ==> Canonical(g, r.value)
  {
    var hl := g.halfLife;
    var basePow := g.fracBits * hl;
    var first, _ := IRootFloor(Pow(2, basePow), hl, None);
    var decay, invD := [first], [first];
    for d := 1 to g.epoch + 1
      invariant g.epoch >= 1 && d > 1 ==> d - 1 <= basePow
      invariant |decay| == |invD| == d
      invariant forall i: nat :: i < d ==> i <= basePow && IsFloorRoot(decay[i], DecayPower(g, i), hl)
      invariant forall i: nat :: i < d ==> IsFloorRoot(invD[i], InversePower(g, i), hl)
    {
      if basePow < d {
        return None;
      }
      var down, _ := IRootFloor(Pow(2, basePow - d), hl, Some(decay[|decay| - 1]));
      var up, _ := IRootFloor(Pow(2, basePow + d), hl, Some(invD[|invD| - 1]));
      decay, invD := decay + [down], invD + [up];
    }
    return Some(Tables(invD, decay));
  }

  /** Canonical tables are unique: two conforming implementations agree entry by entry. */
  lemma CanonicalUnique(g: Geometry, t: Tables, u: Tables)
    requires Canonical(g, t) && Canonical(g, u)
    ensures t == u
  {
    forall d: nat | d <= g.epoch
      ensures t.decay[d] == u.decay[d] && t.invD[d] == u.invD[d]
    {
      FloorRootUnique(t.decay[d], u.decay[d], DecayPower(g, d), g.halfLife);
      FloorRootUnique(t.invD[d], u.invD[d], InversePower(g, d), g.halfLife);
    }
    assert t.decay == u.decay && t.invD == u.invD;
  }

  // ---------- shape ----------

  lemma OneIsRoot(g: Geometry)
    requires g.halfLife >= 1
    ensures Pow(One(g), g.halfLife) == InversePower(g, 0)
    ensures IsFloorRoot(One(g), InversePower(g, 0), g.halfLife)
  {
    PowPow(2, g.fracBits, g.halfLife);
    PowStrictlyMonotone(One(g), One(g) + 1, g.halfLife);
  }

  /** C1: both tables start at exactly 1.0. */
  lemma StartsAtOne(g: Geometry, t: Tables)
    requires Canonical(g, t)
    ensures t.decay[0] == t.invD[0] == One(g)
  {
    OneIsRoot(g);
    FloorRootUnique(t.decay[0], One(g), InversePower(g, 0), g.halfLife);
    FloorRootUnique(t.invD[0], One(g), InversePower(g, 0), g.halfLife);
  }

  /** Multiplying the radicand by 2^k doubles the root up to its floored bit. */
  lemma HalvedRoot(x: nat, n: nat, k: nat)
    requires k >= 1 && IsFloorRoot(x, n * Pow(2, k), k)
    ensures IsFloorRoot(x / 2, n, k)
  {
    var y, c := x / 2, Pow(2, k);
    PowPositive(2, k);
    PowMonotone(2 * y, x, k);
    PowMonotone(x + 1, 2 * (y + 1), k);
    PowMul(2, y, k);
    PowMul(2, y + 1, k);
    CancelAtMost(c, Pow(y, k), n);
    CancelLess(c, n, Pow(y + 1, k));
  }

  /** One half-life halves decay exactly (with floor) and doubles InvD up to the floored bit. */
  lemma HalfLifeShift(g: Geometry, t: Tables, d: nat)
    requires Canonical(g, t) && d + g.halfLife <= g.epoch
    ensures t.decay[d + g.halfLife] == t.decay[d] / 2
    ensures t.invD[d + g.halfLife] == 2 * t.invD[d] || t.invD[d + g.halfLife] == 2 * t.invD[d] + 1
  {
    var hl, base := g.halfLife, g.fracBits * g.halfLife;
    PowAdd(2, base - d - hl, hl);
    PowAdd(2, base + d, hl);
    assert DecayPower(g, d) == DecayPower(g, d + hl) * Pow(2, hl);
    assert InversePower(g, d + hl) == InversePower(g, d) * Pow(2, hl);
    HalvedRoot(t.decay[d], DecayPower(g, d + hl), hl);
    HalvedRoot(t.invD[d + hl], InversePower(g, d), hl);
    FloorRootUnique(t.decay[d] / 2, t.decay[d + hl], DecayPower(g, d + hl), hl);
    FloorRootUnique(t.invD[d + hl] / 2, t.invD[d], InversePower(g, d), hl);
  }

  lemma FracPositive(g: Geometry)
    requires 1 <= g.halfLife <= g.fracBits * g.halfLife
    ensures g.fracBits >= 1
  {
  }

  /** C2: the half-life entry is exactly one half. */
  lemma ExactHalf(g: Geometry, t: Tables)
    requires Canonical(g, t) && g.halfLife <= g.epoch
    ensures g.fracBits >= 1 && t.decay[g.halfLife] == Pow(2, g.fracBits - 1)
  {
    HalfLifeShift(g, t, 0);
    StartsAtOne(g, t);
    FracPositive(g);
    HalveDouble(Pow(2, g.fracBits - 1));
  }

  lemma Monotone(g: Geometry, t: Tables, i: nat, j: nat)
    requires Canonical(g, t) && i <= j <= g.epoch
    ensures t.decay[j] <= t.decay[i] && t.invD[i] <= t.invD[j]
  {
    var base := g.fracBits * g.halfLife;
    PowExponentMonotone(2, base - j, base - i);
    PowExponentMonotone(2, base + i, base + j);
    FloorRootMonotone(t.decay[j], DecayPower(g, j), t.decay[i], DecayPower(g, i), g.halfLife);
    FloorRootMonotone(t.invD[i], InversePower(g, i), t.invD[j], InversePower(g, j), g.halfLife);
  }

  // ---------- strictness (C4) ----------

  /** x has room for a new integer before its k-th power doubles. */
  ghost predicate Roomy(x: nat, k: nat) {
    Pow(x + 1, k) <= 2 * Pow(x, k)
  }

  lemma RoomyFromTwice(x: nat, k: nat)
    requires k >= 1 && x >= 2 * k
    ensures Roomy(x, k)
  {
    GrowthBound(x, k);
    RoomyCancel(x, k, Pow(x + 1, k), Pow(x, k));
  }

  lemma RoomyCancel(x: int, k: int, p: int, q: int)
    requires k >= 1 && x >= 2 * k && p >= 0 && p * (x - k) <= x * q
    ensures p <= 2 * q
  {
    ProductNonNegative(p, x - 2 * k);
    assert 2 * (p * (x - k)) - p * x == p * (x - 2 * k);
    assert p * x <= 2 * q * x;
    CancelAtMost(x, p, 2 * q);
  }

  lemma RoomyMonotone(x: nat, y: nat, k: nat)
    requires 1 <= x <= y && Roomy(x, k)
    ensures Roomy(y, k)
  {
    // ((y+1)*x)^k <= (y*(x+1))^k <= 2*(y*x)^k
    assert (y + 1) * x <= y * (x + 1);
    PowMonotone((y + 1) * x, y * (x + 1), k);
    PowMul(y + 1, x, k);
    PowMul(y, x + 1, k);
    PowPositive(x, k);
    RoomyScale(Pow(x, k), Pow(y, k), Pow(x + 1, k), Pow(y + 1, k));
  }

  lemma RoomyScale(xk: nat, yk: nat, xk1: nat, yk1: nat)
    requires xk > 0 && yk1 * xk <= yk * xk1 && xk1 <= 2 * xk
    ensures yk1 <= 2 * yk
  {
    assert yk * xk1 <= yk * (2 * xk);
    CancelAtMost(xk, yk1, 2 * yk);
  }

  lemma StrictNeighbours(x: nat, n: nat, y: nat, k: nat)
    requires k >= 1 && IsFloorRoot(x, n, k) && IsFloorRoot(y, 2 * n, k) && Roomy(x, k)
    ensures x < y
  {
    PowLessInverse(x + 1, y + 1, k);
  }

  /** Neighbouring entries differ as soon as the smaller one is at least 2*hl. */
  lemma StrictStep(g: Geometry, t: Tables, d: nat)
    requires Canonical(g, t) && d < g.epoch
    ensures Roomy(t.decay[d + 1], g.halfLife) ==> t.decay[d + 1] < t.decay[d]
    ensures Roomy(t.invD[d], g.halfLife) ==> t.invD[d] < t.invD[d + 1]
    ensures t.decay[d + 1] >= 2 * g.halfLife ==> t.decay[d + 1] < t.decay[d]
    ensures t.invD[d] >= 2 * g.halfLife ==> t.invD[d] < t.invD[d + 1]
  {
    assert DecayPower(g, d) == 2 * DecayPower(g, d + 1);
    assert InversePower(g, d + 1) == 2 * InversePower(g, d);
    if t.decay[d + 1] >= 2 * g.halfLife { RoomyFromTwice(t.decay[d + 1], g.halfLife); }
    if t.invD[d] >= 2 * g.halfLife { RoomyFromTwice(t.invD[d], g.halfLife); }
    if Roomy(t.decay[d + 1], g.halfLife) {
      StrictNeighbours(t.decay[d + 1], DecayPower(g, d + 1), t.decay[d], g.halfLife);
    }
    if Roomy(t.invD[d], g.halfLife) {
      StrictNeighbours(t.invD[d], InversePower(g, d), t.invD[d + 1], g.halfLife);
    }
  }

  ghost predicate StrictlyIncreasing(s: seq<nat>) {
    forall i :: 0 < i < |s| ==> s[i - 1] < s[i]
  }

  ghost predicate StrictlyDecreasing(s: seq<nat>) {
    forall i :: 0 < i < |s| ==> s[i] < s[i - 1]
  }

  /**
   * C4 for InvD, exactly: the table is strictly increasing if and only if 2^frac has room for one more
   * integer before its hl-th power doubles, a test on the geometry alone.
   */
  lemma InverseStrictExactly(g: Geometry, t: Tables)
    requires Canonical(g, t) && g.epoch >= 1
    ensures StrictlyIncreasing(t.invD) <==> Roomy(One(g), g.halfLife)
  {
    StartsAtOne(g, t);
    OneIsRoot(g);
    if Roomy(One(g), g.halfLife) {
      forall i | 0 < i < |t.invD| ensures t.invD[i - 1] < t.invD[i] {
        Monotone(g, t, 0, i - 1);
        RoomyMonotone(One(g), t.invD[i - 1], g.halfLife);
        StrictStep(g, t, i - 1);
      }
    }
    if StrictlyIncreasing(t.invD) {
      assert t.invD[0] < t.invD[1];
      PowMonotone(One(g) + 1, t.invD[1], g.halfLife);
      assert InversePower(g, 1) == 2 * InversePower(g, 0);
    }
  }

  /** C4 for decay: enough that the last entry is roomy, in particular that it is at least 2*hl. */
  lemma DecayStrict(g: Geometry, t: Tables)
    requires Canonical(g, t)
    requires t.decay[g.epoch] >= 2 * g.halfLife || (t.decay[g.epoch] >= 1 && Roomy(t.decay[g.epoch], g.halfLife))
    ensures StrictlyDecreasing(t.decay)
  {
    if t.decay[g.epoch] >= 2 * g.halfLife { RoomyFromTwice(t.decay[g.epoch], g.halfLife); }
    forall i | 0 < i < |t.decay| ensures t.decay[i] < t.decay[i - 1] {
      Monotone(g, t, i, g.epoch);
      RoomyMonotone(t.decay[g.epoch], t.decay[i], g.halfLife);
      StrictStep(g, t, i - 1);
    }
  }

  /** Entries at most m half-lives out are at least 2^(frac-m), and the one exactly m half-lives out is 2^(frac-m). */
  lemma HalfLifeAnchor(g: Geometry, t: Tables, d: nat, m: nat)
    requires Canonical(g, t) && d <= g.epoch && d <= m * g.halfLife && m <= g.fracBits
    ensures Pow(2, g.fracBits - m) <= t.decay[d]
    ensures d == m * g.halfLife ==>
              t.decay[d] == Pow(2, g.fracBits - m) && Pow(t.decay[d], g.halfLife) == DecayPower(g, d)
  {
    hide Pow;
    var hl, x := g.halfLife, Pow(2, g.fracBits - m);
    PowPow(2, g.fracBits - m, hl);
    ShiftedExponent(g.fracBits, m, hl);
    PowExponentMonotone(2, (g.fracBits - m) * hl, g.fracBits * hl - d);
    PowLessInverse(x, t.decay[d] + 1, hl);
    if d == m * hl { PowAtMostInverse(t.decay[d], x, hl); }
  }

  lemma ShiftedExponent(frac: nat, m: nat, hl: nat)
    requires m <= frac
    ensures (frac - m) * hl == frac * hl - m * hl
  {
  }

  lemma WithinFrac(frac: nat, m: nat, hl: nat, d: nat)
    requires hl >= 1 && d <= frac * hl
    ensures m * hl <= d ==> m <= frac
    ensures d > 0 && (m - 1) * hl < d ==> m <= frac
    ensures d == 0 && m == 0 ==> m <= frac
  {
    if m * hl <= d { CancelAtMost(hl, m, frac); }
    if (m - 1) * hl < d { CancelLess(hl, m - 1, frac); }
  }

  /** C4 for decay holds once 2^(frac-m) is roomy, for any number m of half-lives that covers the epoch. */
  lemma DecayStrictSuffices(g: Geometry, t: Tables, m: nat)
    requires Canonical(g, t) && g.epoch <= m * g.halfLife && m <= g.fracBits
    requires Roomy(Pow(2, g.fracBits - m), g.halfLife)
    ensures StrictlyDecreasing(t.decay)
  {
    hide Pow, Roomy;
    HalfLifeAnchor(g, t, g.epoch, m);
    PowPositive(2, g.fracBits - m);
    RoomyMonotone(Pow(2, g.fracBits - m), t.decay[g.epoch], g.halfLife);
    DecayStrict(g, t);
  }

  /** C4 for decay over at least m half-lives needs 2^(frac-m) to be roomy. */
  lemma DecayStrictNecessary(g: Geometry, t: Tables, m: nat)
    requires Canonical(g, t) && 1 <= m && m * g.halfLife <= g.epoch && StrictlyDecreasing(t.decay)
    ensures m <= g.fracBits && Roomy(Pow(2, g.fracBits - m), g.halfLife)
  {
    hide Pow;
    var hl, d := g.halfLife, m * g.halfLife;
    WithinFrac(g.fracBits, m, hl, d);
    MulMonotone(1, hl, m, hl);
    HalfLifeAnchor(g, t, d, m);
    var x := t.decay[d];
    assert x < t.decay[d - 1];
    PowMonotone(x + 1, t.decay[d - 1], hl);
    DecayPowerDoubles(g, d);
  }

  lemma DecayPowerDoubles(g: Geometry, d: nat)
    requires 1 <= d <= g.fracBits * g.halfLife
    ensures DecayPower(g, d - 1) == 2 * DecayPower(g, d)
  {
  }

  /**
   * C4 for decay, exactly, on the geometry alone: over m whole half-lives the table is strictly decreasing if and only
   * if 2^(frac-m) has room for one more integer before its hl-th power doubles.
   */
  lemma DecayStrictExactly(g: Geometry, t: Tables, m: nat)
    requires Canonical(g, t) && g.epoch == m * g.halfLife && m >= 1
    ensures m <= g.fracBits
    ensures StrictlyDecreasing(t.decay) <==> Roomy(Pow(2, g.fracBits - m), g.halfLife)
  {
    hide Pow, Roomy, StrictlyDecreasing;
    WithinFrac(g.fracBits, m, g.halfLife, g.epoch);
    if StrictlyDecreasing(t.decay) { DecayStrictNecessary(g, t, m); }
    if Roomy(Pow(2, g.fracBits - m), g.halfLife) { DecayStrictSuffices(g, t, m); }
  }

  /** Half-lives completed by the epoch, and half-lives needed to cover it. */
  function WholeHalfLives(g: Geometry): nat
    requires g.halfLife >= 1
  {
    g.epoch / g.halfLife
  }

  function CoveringHalfLives(g: Geometry): nat
    requires g.halfLife >= 1
  {
    (g.epoch + g.halfLife - 1) / g.halfLife
  }

  lemma HalfLifeCounts(epoch: nat, hl: nat)
    requires hl >= 1
    ensures epoch / hl >= 0 && epoch / hl * hl <= epoch
    ensures var m := (epoch + hl - 1) / hl; m >= 0 && (m - 1) * hl < epoch <= m * hl
    ensures epoch == 0 ==> (epoch + hl - 1) / hl == 0
  {
    DivisionBounds(epoch, hl);
    DivisionBounds(epoch + hl - 1, hl);
    var m := (epoch + hl - 1) / hl;
    assert (m - 1) * hl == m * hl - hl && (m + 1) * hl == m * hl + hl;
  }

  /** For every epoch the condition lies between its whole and its covering number of half-lives. */
  lemma DecayStrictBounds(g: Geometry, t: Tables)
    requires Canonical(g, t)
    ensures WholeHalfLives(g) <= CoveringHalfLives(g) <= g.fracBits
    ensures Roomy(Pow(2, g.fracBits - CoveringHalfLives(g)), g.halfLife) ==> StrictlyDecreasing(t.decay)
    ensures StrictlyDecreasing(t.decay) && WholeHalfLives(g) >= 1 ==>
              Roomy(Pow(2, g.fracBits - WholeHalfLives(g)), g.halfLife)
  {
    hide Pow, Roomy, StrictlyDecreasing;
    var low, high := WholeHalfLives(g), CoveringHalfLives(g);
    HalfLifeCounts(g.epoch, g.halfLife);
    WithinFrac(g.fracBits, high, g.halfLife, g.epoch);
    CancelAtMost(g.halfLife, low, high);
    if Roomy(Pow(2, g.fracBits - high), g.halfLife) { DecayStrictSuffices(g, t, high); }
    if StrictlyDecreasing(t.decay) && low >= 1 { DecayStrictNecessary(g, t, low); }
  }

  /** C4 of the ratified geometry, both tables. */
  lemma RatifiedStrict(t: Tables)
    requires Canonical(Geometry(2160, 4096, 62), t)
    ensures StrictlyDecreasing(t.decay) && StrictlyIncreasing(t.invD)
  {
    assert Pow(2, 13) == 8192;
    hide Pow, Roomy;
    var g := Geometry(2160, 4096, 62);
    PowExponentMonotone(2, 13, 60);
    PowExponentMonotone(2, 13, 62);
    RoomyFromTwice(Pow(2, 60), 2160);
    RoomyFromTwice(One(g), 2160);
    DecayStrictSuffices(g, t, 2);
    InverseStrictExactly(g, t);
  }

  /** C4 for decay cannot hold much further: a strict run over one half-life needs 2*hl - 1 at its start. */
  lemma DecayStrictNeeds(g: Geometry, t: Tables, d: nat)
    requires Canonical(g, t) && d + g.halfLife <= g.epoch && StrictlyDecreasing(t.decay)
    ensures t.decay[d] >= 2 * g.halfLife - 1
  {
    StrictRunDrops(t.decay, d, g.halfLife);
    HalfLifeShift(g, t, d);
  }

  lemma {:induction false} StrictRunDrops(s: seq<nat>, from: nat, n: nat)
    requires StrictlyDecreasing(s) && from + n < |s|
    ensures s[from + n] + n <= s[from]
  {
    if n > 0 { StrictRunDrops(s, from, n - 1); }
  }

  /** A geometry on which C4 fails: half-life 4 with one fractional bit repeats an entry in both tables. */
  lemma StrictnessCanFail(t: Tables)
    requires Canonical(Geometry(4, 2, 1), t)
    ensures !StrictlyIncreasing(t.invD) && !StrictlyDecreasing(t.decay)
  {
    PowersUpToThree();
    FloorRootUnique(t.invD[0], 2, 16, 4);
    FloorRootUnique(t.invD[1], 2, 32, 4);
    FloorRootUnique(t.decay[1], 1, 8, 4);
    FloorRootUnique(t.decay[2], 1, 4, 4);
  }

  lemma PowersUpToThree()
    ensures Pow(1, 4) == 1 && Pow(2, 4) == 16 && Pow(3, 4) == 81
    ensures Pow(2, 5) == 32 && Pow(2, 3) == 8 && Pow(2, 2) == 4
  {
  }

  // ---------- the two tables compose ----------

  /** If a, b, c are floored roots of na, nb, nc and na*nb = one^k * nc, then a*b and one*c agree up to flooring. */
  lemma RootsCompose(a: nat, na: nat, b: nat, nb: nat, c: nat, nc: nat, one: nat, k: nat)
    requires IsFloorRoot(a, na, k) && IsFloorRoot(b, nb, k) && IsFloorRoot(c, nc, k)
    requires one > 0 && na * nb == Pow(one, k) * nc
    ensures a * b < one * (c + 1)
    ensures one * c < (a + 1) * (b + 1)
  {
    RootsBelow(a, na, b, nb, c, nc, one, k);
    RootsAbove(a, na, b, nb, c, nc, one, k);
  }

  lemma RootsBelow(a: nat, na: nat, b: nat, nb: nat, c: nat, nc: nat, one: nat, k: nat)
    requires Pow(a, k) <= na && Pow(b, k) <= nb && nc < Pow(c + 1, k)
    requires one > 0 && na * nb == Pow(one, k) * nc
    ensures a * b < one * (c + 1)
  {
    hide Pow;
    PowPositive(one, k);
    PowMul(a, b, k);
    PowMul(one, c + 1, k);
    ChainBelow(Pow(a, k), na, Pow(b, k), nb, Pow(one, k), nc, Pow(c + 1, k));
    PowLessInverse(a * b, one * (c + 1), k);
  }

  lemma RootsAbove(a: nat, na: nat, b: nat, nb: nat, c: nat, nc: nat, one: nat, k: nat)
    requires na < Pow(a + 1, k) && nb < Pow(b + 1, k) && Pow(c, k) <= nc && na * nb == Pow(one, k) * nc
    ensures one * c < (a + 1) * (b + 1)
  {
    hide Pow;
    PowMul(one, c, k);
    PowMul(a + 1, b + 1, k);
    ChainAbove(Pow(a + 1, k), na, Pow(b + 1, k), nb, Pow(one, k), nc, Pow(c, k));
    PowLessInverse(one * c, (a + 1) * (b + 1), k);
  }

  lemma ChainBelow(ak: nat, na: nat, bk: nat, nb: nat, o: nat, nc: nat, ck: nat)
    requires ak <= na && bk <= nb && na * nb == o * nc && nc < ck && o > 0
    ensures ak * bk < o * ck
  {
    MulMonotone(ak, bk, na, nb);
    ScaleLess(o, nc, ck);
  }

  lemma ChainAbove(ak: nat, na: nat, bk: nat, nb: nat, o: nat, nc: nat, ck: nat)
    requires na < ak && nb < bk && na * nb == o * nc && ck <= nc
    ensures o * ck < ak * bk
  {
    MulMonotone(o, ck, o, nc);
    StrictProduct(na, nb, ak, bk);
  }

  /** Scaling by InvD[j] and decaying by d lands on decay[d-j], within the flooring of the entries. */
  lemma TablesCompose(g: Geometry, t: Tables, j: nat, d: nat)
    requires Canonical(g, t) && j <= d <= g.epoch
    ensures t.invD[j] * t.decay[d] < One(g) * (t.decay[d - j] + 1)
    ensures One(g) * t.decay[d - j] < (t.invD[j] + 1) * (t.decay[d] + 1)
  {
    var base := g.fracBits * g.halfLife;
    OneIsRoot(g);
    PowAdd(2, base + j, base - d);
    PowAdd(2, base, base - (d - j));
    RootsCompose(t.invD[j], InversePower(g, j), t.decay[d], DecayPower(g, d),
                 t.decay[d - j], DecayPower(g, d - j), One(g), g.halfLife);
  }

  /** C5: the product of matching entries never exceeds 1.0 and misses it by at most the two entries. */
  lemma Reciprocal(g: Geometry, t: Tables, d: nat)
    requires Canonical(g, t) && d <= g.epoch
    ensures 0 <= One(g) * One(g) - t.decay[d] * t.invD[d] <= t.decay[d] + t.invD[d]
  {
    var base := g.fracBits * g.halfLife;
    StartsAtOne(g, t);
    TablesCompose(g, t, d, d);
    OneIsRoot(g);
    PowAdd(2, base + d, base - d);
    PowAdd(2, base, base);
    ProductOfRoots(t.invD[d], InversePower(g, d), t.decay[d], DecayPower(g, d), One(g), g.halfLife);
    ExpandSuccessors(t.invD[d], t.decay[d]);
  }

  lemma ProductOfRoots(a: nat, na: nat, b: nat, nb: nat, one: nat, k: nat)
    requires k >= 1 && Pow(a, k) <= na && Pow(b, k) <= nb && na * nb == Pow(one, k) * Pow(one, k)
    ensures a * b <= one * one
  {
    hide Pow;
    PowerOfProduct(a, na, b, nb, k);
    PowMul(one, one, k);
    PowAtMostInverse(a * b, one * one, k);
  }

  lemma PowerOfProduct(a: nat, na: nat, b: nat, nb: nat, k: nat)
    requires Pow(a, k) <= na && Pow(b, k) <= nb
    ensures Pow(a * b, k) <= na * nb
  {
    hide Pow;
    PowMul(a, b, k);
    MulMonotone(Pow(a, k), Pow(b, k), na, nb);
  }

  /** Over at most m half-lives InvD grows at most 2^m-fold. */
  lemma InverseCeiling(g: Geometry, t: Tables, j: nat, m: nat)
    requires Canonical(g, t) && j <= g.epoch && j <= m * g.halfLife
    ensures t.invD[j] <= Pow(2, m) * One(g)
  {
    hide Pow;
    var hl, base := g.halfLife, g.fracBits * g.halfLife;
    OneIsRoot(g);
    PowMul(Pow(2, m), One(g), hl);
    PowPow(2, m, hl);
    PowAdd(2, m * hl, base);
    PowExponentMonotone(2, base + j, m * hl + base);
    PowAtMostInverse(t.invD[j], Pow(2, m) * One(g), hl);
  }

  // ---------- the C5 check of validate() ----------

  lemma RatioPowers()
    ensures Pow(100, 29) * Pow(2, 55) <= Pow(373, 29)
  {
    hide Pow;
    PowersOf100();
    PowersOf373();
    PowersOf2();
    PowAdd(100, 14, 15);
    PowAdd(373, 14, 15);
  }

  lemma PowersOf100()
    ensures Pow(100, 14) == 10000000000000000000000000000
    ensures Pow(100, 15) == 1000000000000000000000000000000
  {
    assert Pow(100, 7) == 100000000000000;
    PowAdd(100, 7, 7);
    PowStep(100, 15);
  }

  lemma PowersOf373()
    ensures Pow(373, 14) == 1009075461750708410420050723039024009
    ensures Pow(373, 15) == 373 * 1009075461750708410420050723039024009
  {
    assert Pow(373, 7) == 1004527481829495997;
    PowAdd(373, 7, 7);
    PowStep(373, 15);
  }

  lemma PowersOf2()
    ensures Pow(2, 55) == 36028797018963968
  {
    assert Pow(2, 11) == 2048;
    PowPow(2, 11, 5);
    assert Pow(2048, 5) == 36028797018963968;
  }

  lemma RatioAtHalfLife(hl: nat, d: nat)
    requires 29 * d <= 55 * hl
    ensures Pow(100, hl) * Pow(2, d) <= Pow(373, hl)
  {
    hide Pow;
    PowMul(Pow(100, hl), Pow(2, d), 29);
    SwapExponents(100, hl, 29);
    SwapExponents(373, hl, 29);
    PowPow(2, d, 29);
    PowPow(2, 55, hl);
    PowExponentMonotone(2, d * 29, 55 * hl);
    RatioPowers();
    PowMul(Pow(100, 29), Pow(2, 55), hl);
    PowMonotone(Pow(100, 29) * Pow(2, 55), Pow(373, 29), hl);
    MulMonotone(Pow(Pow(100, 29), hl), Pow(2, d * 29), Pow(Pow(100, 29), hl), Pow(2, 55 * hl));
    PowAtMostInverse(Pow(100, hl) * Pow(2, d), Pow(373, hl), 29);
  }

  /** Two neighbours of RootSum. */
  function RootSums(n: nat): (r: (nat, nat))
    ensures 2 <= r.0 <= r.1
  {
    if n == 0 then (2, 4) else
      var before := RootSums(n - 1);
      (before.1, 4 * before.1 - before.0)
  }

  /** (2 + sqrt 3)^n + (2 - sqrt 3)^n, an integer. For n >= 1 it is (2 + sqrt 3)^n rounded up. */
  function RootSum(n: nat): nat {
    RootSums(n).0
  }

  lemma RootSumSteps(n: nat)
    ensures RootSum(0) == 2 && RootSum(1) == 4 && RootSum(n + 2) == 4 * RootSum(n + 1) - RootSum(n)
  {
  }

  /** How far x^n + y^n is above RootSum(n)*one^n. */
  ghost function Excess(x: nat, y: nat, one: nat, n: nat): int {
    Pow(x, n) + Pow(y, n) - RootSum(n) * Pow(one, n)
  }

  /** If x + y >= 4*one and x*y <= one^2, the excess grows at least one-fold with every power. */
  lemma {:induction false} ExcessGrows(x: nat, y: nat, one: nat, n: nat)
    requires x + y >= 4 * one && x * y <= one * one
    ensures 0 <= one * Excess(x, y, one, n) <= Excess(x, y, one, n + 1) && Excess(x, y, one, n) >= 0
    decreases n
  {
    hide Pow, RootSum;
    if n == 0 {
      ExcessStarts(x, y, one);
    } else {
      ExcessGrows(x, y, one, n - 1);
      ExcessSteps(x, y, one, n - 1);
      ExcessCarries(one, Excess(x, y, one, n - 1), Excess(x, y, one, n), Excess(x, y, one, n + 1));
    }
  }

  lemma ExcessStarts(x: nat, y: nat, one: nat)
    ensures Excess(x, y, one, 0) == 0 && Excess(x, y, one, 1) == x + y - 4 * one
  {
    RootSumSteps(0);
    assert Pow(x, 1) == x * Pow(x, 0) && Pow(y, 1) == y * Pow(y, 0) && Pow(one, 1) == one * Pow(one, 0);
  }

  lemma ExcessCarries(one: nat, a: int, b: int, c: int)
    requires a >= 0 && one * a <= b && c >= 4 * one * b - one * one * a
    ensures b >= 0 && 0 <= one * b <= c
  {
    ProductNonNegative(one, a);
    ProductNonNegative(one, b);
    ProductNonNegative(one, b - one * a);
    assert one * (b - one * a) == one * b - one * one * a;
  }

  lemma ExcessSteps(x: nat, y: nat, one: nat, n: nat)
    requires x + y >= 4 * one && x * y <= one * one
    ensures Excess(x, y, one, n + 2) >= 4 * one * Excess(x, y, one, n + 1) - one * one * Excess(x, y, one, n)
  {
    hide Pow, RootSum;
    RootSumSteps(n);
    TwoPowers(x, n);
    TwoPowers(y, n);
    TwoPowers(one, n);
    ExcessArithmetic(x, y, one, Pow(x, n), Pow(y, n), Pow(one, n), RootSum(n), RootSum(n + 1));
  }

  lemma TwoPowers(x: nat, n: nat)
    ensures Pow(x, n + 1) == x * Pow(x, n) && Pow(x, n + 2) == x * (x * Pow(x, n))
  {
  }

  lemma ExcessArithmetic(x: nat, y: nat, one: nat, xn: nat, yn: nat, on: nat, v: int, w: int)
    requires x + y >= 4 * one && x * y <= one * one
    ensures x * (x * xn) + y * (y * yn) - (4 * w - v) * (one * (one * on)) >=
            4 * one * (x * xn + y * yn - w * (one * on)) - one * one * (xn + yn - v * on)
  {
    var s, p := x + y - 4 * one, one * one - x * y;
    ProductNonNegative(x, xn);
    ProductNonNegative(y, yn);
    ProductNonNegative(s, x * xn + y * yn);
    ProductNonNegative(p, xn + yn);
    ExcessIdentity(x, y, one, xn, yn, on, v, w);
  }

  lemma ExcessIdentity(x: int, y: int, one: int, xn: int, yn: int, on: int, v: int, w: int)
    ensures x * (x * xn) + y * (y * yn) - (4 * w - v) * (one * (one * on)) ==
            4 * one * (x * xn + y * yn - w * (one * on)) - one * one * (xn + yn - v * on)
            + (x + y - 4 * one) * (x * xn + y * yn) + (one * one - x * y) * (xn + yn)
  {
    PowerSums(x, y, one, xn, yn);
    RootTerms(one, on, v, w);
  }

  lemma PowerSums(x: int, y: int, one: int, xn: int, yn: int)
    ensures x * (x * xn) + y * (y * yn) ==
            4 * one * (x * xn + y * yn) - one * one * (xn + yn)
            + (x + y - 4 * one) * (x * xn + y * yn) + (one * one - x * y) * (xn + yn)
  {
  }

  lemma RootTerms(one: int, on: int, v: int, w: int)
    ensures (4 * w - v) * (one * (one * on)) == 4 * one * (w * (one * on)) - one * one * (v * on)
  {
  }

  /** If both entries together reach 4.0, then 2^d has reached RootSum(hl). */
  lemma FarApart(g: Geometry, t: Tables, d: nat)
    requires Canonical(g, t) && 1 <= d <= g.epoch && t.invD[d] + t.decay[d] >= 4 * One(g)
    ensures RootSum(g.halfLife) <= Pow(2, d)
  {
    hide Pow, RootSum;
    var hl, x, y, one := g.halfLife, t.invD[d], t.decay[d], One(g);
    Reciprocal(g, t, d);
    ExcessGrows(x, y, one, hl);
    OneIsRoot(g);
    var o := Pow(one, hl);
    PowPositive(one, hl);
    PowAdd(2, g.fracBits * hl, d);
    PowAdd(2, g.fracBits * hl - d, d);
    PowAtLeastBase(2, d);
    Outgrown(Pow(x, hl), Pow(y, hl), o, Pow(2, d), DecayPower(g, d), RootSum(hl));
  }

  lemma Outgrown(xk: nat, yk: nat, o: nat, p: nat, nd: nat, v: nat)
    requires o > 0 && p >= 2 && xk <= o * p && yk <= nd && nd * p == o && xk + yk >= v * o
    ensures v <= p
  {
    assert nd < o by { if nd >= o { MulMonotone(o, 2, nd, p); } }
    assert v * o < o * (p + 1);
    CancelLess(o, v, p + 1);
  }

  /** The epoch stays below log2(2 + sqrt 3) half-lives, as an integer test on the geometry. */
  ghost predicate InReciprocalRange(g: Geometry) {
    Pow(2, g.epoch) < RootSum(g.halfLife)
  }

  /** What validate() measures at one index: by how much the product of the entries misses 1.0 squared. */
  ghost function ReciprocalError(g: Geometry, t: Tables, d: nat): int
    requires d < |t.decay| && d < |t.invD|
  {
    One(g) * One(g) - t.decay[d] * t.invD[d]
  }

  /** In that range C5 as validate() tests it passes: the error stays below 2^(frac+2) either way. */
  lemma ReciprocalCheckPasses(g: Geometry, t: Tables, d: nat)
    requires Canonical(g, t) && d <= g.epoch && InReciprocalRange(g)
    ensures d < |t.decay| && d < |t.invD|
    ensures ReciprocalError(g, t, d) < Pow(2, g.fracBits + 2)
    ensures 0 < ReciprocalError(g, t, d) + Pow(2, g.fracBits + 2)
  {
    hide Pow, RootSum, Canonical, InReciprocalRange;
    EntriesBelowFour(g, t, d);
    Reciprocal(g, t, d);
    LimitIsFour(g);
  }

  lemma EntriesBelowFour(g: Geometry, t: Tables, d: nat)
    requires Canonical(g, t) && d <= g.epoch && InReciprocalRange(g)
    ensures d < |t.decay| && d < |t.invD| && t.invD[d] + t.decay[d] < 4 * One(g)
  {
    hide Pow, RootSum;
    if d == 0 {
      StartsAtOne(g, t);
    } else if t.invD[d] + t.decay[d] >= 4 * One(g) {
      PowExponentMonotone(2, d, g.epoch);
      FarApart(g, t, d);
    }
  }

  lemma LimitIsFour(g: Geometry)
    ensures Pow(2, g.fracBits + 2) == 4 * One(g)
  {
    TwoPowers(2, g.fracBits);
  }

  /** The same the other way round: x + y <= 4*one and x*y >= one^2 leave nothing above RootSum(n)*one^n. */
  lemma {:induction false} ExcessFalls(x: nat, y: nat, one: nat, n: nat)
    requires x + y <= 4 * one && x * y >= one * one
    ensures Excess(x, y, one, n + 1) <= one * Excess(x, y, one, n) && Excess(x, y, one, n) <= 0
    decreases n
  {
    hide Pow, RootSum;
    if n == 0 {
      ExcessStarts(x, y, one);
    } else {
      ExcessFalls(x, y, one, n - 1);
      ExcessStepsDown(x, y, one, n - 1);
      ExcessCarries(one, -Excess(x, y, one, n - 1), -Excess(x, y, one, n), -Excess(x, y, one, n + 1));
    }
  }

  lemma ExcessStepsDown(x: nat, y: nat, one: nat, n: nat)
    requires x + y <= 4 * one && x * y >= one * one
    ensures Excess(x, y, one, n + 2) <= 4 * one * Excess(x, y, one, n + 1) - one * one * Excess(x, y, one, n)
  {
    hide Pow, RootSum;
    RootSumSteps(n);
    TwoPowers(x, n);
    TwoPowers(y, n);
    TwoPowers(one, n);
    var xn, yn := Pow(x, n), Pow(y, n);
    ProductNonNegative(x, xn);
    ProductNonNegative(y, yn);
    BothShrink(x + y - 4 * one, x * xn + y * yn, one * one - x * y, xn + yn);
    ExcessIdentity(x, y, one, xn, yn, Pow(one, n), RootSum(n), RootSum(n + 1));
  }

  lemma BothShrink(s: int, a: int, p: int, b: int)
    requires s <= 0 && p <= 0 && a >= 0 && b >= 0
    ensures s * a + p * b <= 0
  {
    ProductNonNegative(-s, a);
    ProductNonNegative(-p, b);
  }

  /**
   * The range is the right one: as soon as 2^d reaches RootSum(hl), the two entries reach 4.0 up to their flooring, so
   * that the error bound of C5 no longer stays below the limit of the test.
   */
  lemma ReciprocalRangeSharp(g: Geometry, t: Tables, d: nat)
    requires Canonical(g, t) && d <= g.epoch && RootSum(g.halfLife) <= Pow(2, d)
    ensures t.invD[d] + t.decay[d] + 2 > 4 * One(g)
  {
    hide Pow, RootSum;
    var hl, x, y, one := g.halfLife, t.invD[d] + 1, t.decay[d] + 1, One(g);
    if x + y <= 4 * one {
      StartsAtOne(g, t);
      TablesCompose(g, t, d, d);
      OneIsRoot(g);
      PowPositive(one, hl);
      PowAdd(2, g.fracBits * hl, d);
      ExcessFalls(x, y, one, hl);
      Undergrown(Pow(x, hl), Pow(y, hl), Pow(one, hl), Pow(2, d), RootSum(hl));
    }
  }

  lemma Undergrown(xk: nat, yk: nat, o: nat, p: nat, v: nat)
    requires o > 0 && o * p < xk && xk + yk <= v * o
    ensures p < v
  {
    CancelLess(o, p, v);
  }

  lemma {:induction false} RootSumRatio(n: nat)
    requires n >= 3
    ensures 100 * RootSum(n + 1) >= 373 * RootSum(n)
  {
    hide RootSum;
    RootSumSteps(0);
    RootSumSteps(1);
    RootSumSteps(2);
    if n > 3 {
      RootSumRatio(n - 1);
      RootSumSteps(n - 1);
    }
  }

  lemma {:induction false} RootSumAbove(n: nat)
    requires n >= 3
    ensures Pow(373, n) < Pow(100, n) * RootSum(n)
  {
    if n == 3 {
      assert Pow(373, 3) == 51895117 && Pow(100, 3) == 1000000;
      RootSumSteps(0);
      RootSumSteps(1);
    } else {
      hide Pow, RootSum;
      RootSumAbove(n - 1);
      RootSumRatio(n - 1);
      PowStep(373, n);
      PowStep(100, n);
      AboveStep(Pow(373, n - 1), Pow(100, n - 1), RootSum(n - 1), RootSum(n));
    }
  }

  lemma AboveStep(p: nat, q: nat, v: nat, w: nat)
    requires p < q * v && 100 * w >= 373 * v
    ensures 373 * p < 100 * q * w
  {
    MulMonotone(q, 373 * v, q, 100 * w);
    assert q * (373 * v) == 373 * (q * v) && q * (100 * w) == 100 * q * w;
  }

  /** A part of the range that is easy to check and contains the ratified geometry: up to 55/29 half-lives. */
  lemma ReciprocalRange(g: Geometry)
    requires g.halfLife >= 1 && 29 * g.epoch <= 55 * g.halfLife
    ensures InReciprocalRange(g)
  {
    hide Pow, RootSum;
    var hl := g.halfLife;
    if hl <= 2 {
      SmallRange(hl, g.epoch);
    } else {
      RatioAtHalfLife(hl, g.epoch);
      RootSumAbove(hl);
      CancelLess(Pow(100, hl), Pow(2, g.epoch), RootSum(hl));
    }
  }

  lemma SmallRange(hl: nat, e: nat)
    requires 1 <= hl <= 2 && e <= 2 * hl - 1
    ensures Pow(2, e) < RootSum(hl)
  {
    RootSumSteps(0);
    assert Pow(2, 0) == 1 && Pow(2, 1) == 2 && Pow(2, 2) == 4 && Pow(2, 3) == 8;
  }

  /** Beyond it the test can fail: half-life 2, epoch 7 and four fractional bits miss 256 by 75, not below 64. */
  lemma ReciprocalCheckCanFail(t: Tables)
    requires Canonical(Geometry(2, 7, 4), t)
    ensures ReciprocalError(Geometry(2, 7, 4), t, 7) == 75 >= Pow(2, 6)
  {
    SquaresNearby();
    FloorRootUnique(t.decay[7], 1, 2, 2);
    FloorRootUnique(t.invD[7], 181, 32768, 2);
  }

  lemma SquaresNearby()
    ensures Pow(1, 2) == 1 && Pow(2, 2) == 4 && Pow(181, 2) == 32761 && Pow(182, 2) == 33124
    ensures Pow(2, 1) == 2 && Pow(2, 4) == 16 && Pow(2, 6) == 64 && Pow(2, 15) == 32768
  {
    PowAdd(2, 8, 7);
    assert Pow(2, 8) == 256 && Pow(2, 7) == 128;
  }
}

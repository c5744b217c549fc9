/** The exact floored k-th root of proto/refimpl/decay_table.py: seed pre-bump, integer Newton, closing corrections. */
module IntegerRoot {
  import opened Basics
  import opened Arithmetic
  import opened Power

  /** x is floor(n^(1/k)). */
  ghost predicate IsFloorRoot(x: nat, n: nat, k: nat) {
    Pow(x, k) <= n < Pow(x + 1, k)
  }

  /** The specification has at most one solution, so no seed can change the answer. */
  lemma FloorRootUnique(x: nat, y: nat, n: nat, k: nat)
    requires k >= 1
    requires IsFloorRoot(x, n, k) && IsFloorRoot(y, n, k)
    ensures x == y
  {
    PowLessInverse(x, y + 1, k);
    PowLessInverse(y, x + 1, k);
  }

  lemma {:induction false} FloorRootExists(n: nat, k: nat) returns (x: nat)
    requires k >= 1
    ensures IsFloorRoot(x, n, k)
    decreases n
  {
    if n == 0 {
      OnePow(k);
      x := 0;
    } else {
      x := FloorRootExists(n - 1, k);
      if Pow(x + 1, k) <= n {
        PowStrictlyMonotone(x + 1, x + 2, k);
        x := x + 1;
      }
    }
  }

  lemma FloorRootMonotone(x: nat, n: nat, y: nat, m: nat, k: nat)
    requires k >= 1 && n <= m
    requires IsFloorRoot(x, n, k) && IsFloorRoot(y, m, k)
    ensures x <= y
  {
    PowLessInverse(x, y + 1, k);
  }

  /** Bit length as Python defines it: 0 for 0, otherwise the index of the leading bit plus one. */
  function BitLength(n: nat): (bl: nat)
    ensures n < Pow(2, bl)
    ensures n > 0 ==> bl > 0 && Pow(2, bl - 1) <= n
  {
    if n == 0 then 0 else 1 + BitLength(n / 2)
  }

  /** One Newton iterate, with both of its truncating divisions; `power` is x^(k-1). */
  function NewtonIterate(n: nat, k: nat, x: nat, power: nat): nat
    requires k >= 1 && power >= 1
  {
    ProductNonNegative(k - 1, x);
    ((k - 1) * x + n / power) / k
  }

  /** From any point at or above the root, Newton never drops below the root. */
  lemma NewtonStaysAbove(n: nat, k: nat, x: nat, r: nat)
    requires k >= 1 && x >= 1
    requires Pow(r, k) <= n
    ensures Pow(x, k - 1) >= 1 && NewtonIterate(n, k, x, Pow(x, k - 1)) >= r
  {
    PowPositive(x, k - 1);
    TangentLine(r, x, k);
    IterateAtLeast(n, k, x, r, Pow(x, k - 1));
  }

  lemma IterateAtLeast(n: nat, k: nat, x: nat, r: nat, power: nat)
    requires k >= 1 && power >= 1
    requires n + (k - 1) * (x * power) >= k * r * power
    ensures NewtonIterate(n, k, x, power) >= r
  {
    var t := k * r - (k - 1) * x;
    assert t * power == k * r * power - (k - 1) * (x * power);
    DivAtLeast(n, power, t);
    assert r * k == t + (k - 1) * x;
    DivAtLeast((k - 1) * x + n / power, k, r);
  }

  /** The stopping test nx >= x certifies that x^k has come down to n. */
  lemma NewtonStopIsLow(n: nat, k: nat, x: nat)
    requires k >= 1 && x >= 1
    requires Pow(x, k - 1) >= 1 && NewtonIterate(n, k, x, Pow(x, k - 1)) >= x
    ensures Pow(x, k) <= n
  {
    StopMeansLow(n, k, x, Pow(x, k - 1));
  }

  lemma StopMeansLow(n: nat, k: nat, x: nat, power: nat)
    requires k >= 1 && power >= 1 && NewtonIterate(n, k, x, power) >= x
    ensures x * power <= n
  {
    DivAtMost((k - 1) * x + n / power, k, x);
    assert x * k == (k - 1) * x + x;
    DivAtMost(n, power, x);
  }

  /**
   * The two closing loops. They move x to the floor root from either side, one unit at a time;
   * `down` and `up` count their iterations.
   */
  method CorrectToFloor(n: nat, k: nat, x0: nat) returns (x: nat, ghost down: nat, ghost up: nat)
    requires k >= 1
    ensures IsFloorRoot(x, n, k)
    ensures x == x0 + up - down
    ensures down > 0 ==> up == 0
  {
    x, down, up := x0, 0, 0;
    while Pow(x, k) > n
      invariant x + down == x0
      invariant down > 0 ==> n < Pow(x + 1, k)
      decreases x
    {
      assert x > 0;
      x, down := x - 1, down + 1;
    }
    while Pow(x + 1, k) <= n
      invariant Pow(x, k) <= n
      invariant x + down == x0 + up
      invariant down > 0 ==> up == 0 && n < Pow(x + 1, k)
      decreases n - x
    {
      PowAtLeastBase(x + 1, k);
      x, up := x + 1, up + 1;
    }
  }

  /** The seed bump: raise a positive seed until its k-th power reaches n. */
  method PreBump(n: nat, k: nat, seed: nat) returns (x: nat)
    requires k >= 1 && seed >= 1
    ensures x >= seed && Pow(x, k) >= n
    ensures Pow(seed, k) >= n ==> x == seed
  {
    x := seed;
    while Pow(x, k) < n
      invariant x >= seed
      invariant Pow(seed, k) >= n ==> x == seed
      decreases n - x
    {
      PowAtLeastBase(x, k);
      x := x + x / k + 1;
    }
  }

  /**
   * iroot_floor. For every n, every k >= 1 and every seed the result is the floored root; the closing
   * corrections never run an iteration.
   */
  method IRootFloor(n: nat, k: nat, seed: Option<int>) returns (x: nat, ghost corrections: nat)
    requires k >= 1
    ensures IsFloorRoot(x, n, k)
    ensures corrections == 0
  {
    corrections := 0;
    if k == 1 {
      return n, 0;
    }
    if n < 2 {
      SmallRoot(n, k);
      return n, 0;
    }
    if seed.Some? && seed.value > 0 {
      x := PreBump(n, k, seed.value);
    } else {
      var bl := BitLength(n);
      x := Pow(2, (bl + k - 1) / k);
      ColdStartAbove(n, k, bl);
    }
    ghost var r := FloorRootExists(n, k);
    assert x >= r && x >= 1 by { StartAbove(n, k, x, r); }
    while true
      invariant x >= r && x >= 1
      decreases x
    {
      NewtonStaysAbove(n, k, x, r);
      RootPositive(n, k, r);
      var nx := NewtonIterate(n, k, x, Pow(x, k - 1));
      if nx >= x { break; }
      x := nx;
    }
    NewtonStopIsLow(n, k, x);
    PowMonotone(r + 1, x + 1, k);
    var newton := x;
    ghost var down, up;
    x, down, up := CorrectToFloor(n, k, newton);
    FloorRootUnique(x, newton, n, k);
    corrections := down + up;
  }

  lemma SmallRoot(n: nat, k: nat)
    requires k >= 1 && n < 2
    ensures IsFloorRoot(n, n, k)
  {
    OnePow(k);
    PowStrictlyMonotone(1, 2, k);
  }

  lemma StartAbove(n: nat, k: nat, x: nat, r: nat)
    requires k >= 1 && n >= 2 && Pow(x, k) >= n && IsFloorRoot(r, n, k)
    ensures x >= r && x >= 1
  {
    PowAtMostInverse(r, x, k);
    RootPositive(n, k, r);
  }

  lemma RootPositive(n: nat, k: nat, r: nat)
    requires k >= 1 && n >= 1 && IsFloorRoot(r, n, k)
    ensures r >= 1
  {
    OnePow(k);
  }

  lemma RoundUp(x: nat, k: nat)
    requires k >= 1
    ensures x <= (x + k - 1) / k * k
  {
    var n, q := x + k - 1, (x + k - 1) / k;
    assert n - q * k < k;
  }

  /** The seedless start 2^ceil(bitlength/k) is already above the root. */
  lemma ColdStartAbove(n: nat, k: nat, bl: nat)
    requires k >= 1 && n < Pow(2, bl)
    ensures Pow(Pow(2, (bl + k - 1) / k), k) >= n
  {
    var e := (bl + k - 1) / k;
    PowPow(2, e, k);
    RoundUp(bl, k);
    PowExponentMonotone(2, bl, e * k);
  }
}

/**
 * convertbits of src/btclibs/bech32.h: regroup a sequence of `from`-bit values into `to`-bit values through
 * a wrapping 32-bit accumulator.
 */
module BitRegroup {
  import opened Basics
  import opened Arithmetic
  import opened Power
  import opened Numerals

  const TWO32 := 0x1_0000_0000

  /** Two's complement: the int that has the low 32 bits of x. */
  function Wrap32(x: int): int {
    (x + TWO32 / 2) % TWO32 - TWO32 / 2
  }

  /** The big-endian numeral of v with exactly len digits. */
  ghost function FixedDigits(v: nat, base: nat, len: nat): (s: seq<nat>)
    requires base >= 2
    ensures |s| == len && Digits(s, base)
  {
    if len == 0 then [] else FixedDigits(v / base, base, len - 1) + [v % base]
  }

  lemma {:induction false} FixedValue(v: nat, base: nat, len: nat)
    requires base >= 2 && v < Pow(base, len)
    ensures Value(FixedDigits(v, base, len), base) == v
    decreases len
  {
    if len > 0 {
      DigitFacts(v, base);
      QuotientBelow(v, base, Pow(base, len - 1));
      FixedValue(v / base, base, len - 1);
      ValueAppend(FixedDigits(v / base, base, len - 1), v % base, base);
    }
  }

  lemma QuotientBelow(v: nat, base: nat, p: nat)
    requires base >= 1 && v < base * p
    ensures v / base < p
  {
    DivAtMost(v, base, v / base);
    CancelLess(base, v / base, p);
  }

  lemma FixedUnique(s: seq<nat>, v: nat, base: nat)
    requires base >= 2 && Digits(s, base) && Value(s, base) == v
    ensures s == FixedDigits(v, base, |s|)
  {
    ValueBound(s, base);
    FixedValue(v, base, |s|);
    ValueInjective(s, FixedDigits(v, base, |s|), base);
  }

  /** How many bits are left over after all full groups. */
  function Leftover(n: nat, from: nat, to: nat): (bits: nat)
    requires to >= 1
    ensures bits < to
  {
    ProductNonNegative(n, from);
    DivisionBounds(n * from, to);
    n * from % to
  }

  /** Padding appends zero bits up to the next full group; without padding the leftover must be short and zero. */
  ghost function Regrouped(input: seq<nat>, from: nat, to: nat, pad: bool): Option<seq<nat>>
    requires from >= 1 && to >= 1
  {
    hide Pow, Value, FixedDigits, Digits;
    PowAtLeastBase(2, to);
    var v, bits := Value(input, Pow(2, from)), Leftover(|input|, from, to);
    DivisionBounds(|input| * from, to);
    PowPositive(2, bits);
    DivisionBounds(v, Pow(2, bits));
    ProductNonNegative(v, Pow(2, to - bits));
    if !Digits(input, Pow(2, from)) then None
    else if pad then
      if bits == 0 then Some(FixedDigits(v, Pow(2, to), |input| * from / to))
      else Some(FixedDigits(v * Pow(2, to - bits), Pow(2, to), |input| * from / to + 1))
    else if bits >= from || v % Pow(2, bits) != 0 then None
    else Some(FixedDigits(v / Pow(2, bits), Pow(2, to), |input| * from / to))
  }

  // ---------- division facts ----------

  lemma AddMultiple(a: int, m: int, d: int)
    requires d > 0
    ensures (a + m * d) / d == a / d + m && (a + m * d) % d == a % d
  {
    var q, r := a / d, a % d;
    assert a == q * d + r;
    assert a + m * d == (q + m) * d + r;
    DivisionIs(a + m * d, d, q + m, r);
  }

  /** Appending a digit below f and dividing by f*p is dividing by p. */
  lemma Absorb(a: nat, v: nat, f: nat, p: nat)
    requires f > 0 && p > 0 && v < f
    ensures f * p > 0 && (a * f + v) / (f * p) == a / p
  {
    var q, r := a / p, a % p;
    assert a == q * p + r;
    MulMonotone(r + 1, f, p, f);
    AbsorbRearrange(q, p, r, f, v);
    DivisionIs(a * f + v, f * p, q, r * f + v);
  }

  lemma AbsorbRearrange(q: nat, p: nat, r: nat, f: nat, v: nat)
    requires (r + 1) * f <= p * f && f > 0 && p > 0 && v < f
    ensures f * p > 0 && (q * p + r) * f + v == q * (f * p) + (r * f + v)
    ensures 0 <= r * f + v < f * p
  {
  }

  /** Dividing by p*t, times t, plus the next digit, is dividing by p. */
  lemma Emit(a: nat, p: nat, t: nat)
    requires p > 0 && t > 0
    ensures t * p > 0 && a / (t * p) * t + a / p % t == a / p
  {
    Absorbed(a, p, t);
    var x := a / p;
    assert x == x / t * t + x % t;
  }

  /** a / (t*p) == (a / p) / t. */
  lemma Absorbed(a: nat, p: nat, t: nat)
    requires p > 0 && t > 0
    ensures t * p > 0 && a / (t * p) == a / p / t
  {
    DigitRest(a, p);
    Absorb(a / p, a % p, p, t);
    Commute(p, t);
  }

  lemma DigitRest(a: nat, p: nat)
    requires p > 0
    ensures a == a / p * p + a % p
  {
  }

  lemma Commute(a: int, b: int)
    ensures a * b == b * a
  {
  }

  // ---------- the accumulator ----------

  lemma Powers32()
    ensures Pow(2, 32) == TWO32
  {
    hide Pow;
    Powers16();
    PowAdd(2, 16, 16);
  }

  lemma Powers16()
    ensures Pow(2, 16) == 0x1_0000
  {
    assert Pow(2, 8) == 256;
    PowAdd(2, 8, 8);
  }

  lemma WrapCongruent(x: int) returns (j: int)
    ensures Wrap32(x) == x + j * TWO32
  {
    j := -((x + TWO32 / 2) / TWO32);
  }

  /** A group read from the wrapped accumulator is the group of the unbounded one. */
  lemma GroupUnwrapped(acc: int, a: nat, k: int, bits: nat, to: nat)
    requires acc == a + k * TWO32 && bits + to <= 32
    ensures Pow(2, bits) > 0 && Pow(2, to) > 0
    ensures acc / Pow(2, bits) % Pow(2, to) == a / Pow(2, bits) % Pow(2, to)
  {
    hide Pow;
    PowPositive(2, bits);
    PowPositive(2, to);
    var p, t, r := Pow(2, bits), Pow(2, to), Pow(2, 32 - bits - to);
    Powers32();
    PowAdd(2, bits, 32 - bits);
    PowAdd(2, to, 32 - bits - to);
    assert k * TWO32 == k * (t * r) * p by { Spread(k, p, t, r); }
    AddMultiple(a, k * (t * r), p);
    assert k * (t * r) == k * r * t by { Spread(k, 1, t, r); }
    AddMultiple(a / p, k * r, t);
  }

  lemma Spread(k: int, p: int, t: int, r: int)
    ensures k * (p * (t * r)) == k * (t * r) * p
    ensures k * (t * r) == k * r * t
  {
  }

  /** The bits shifted up for padding: the leftover bits, followed by zeros. */
  lemma PadUnwrapped(x: int, a: nat, k: int, bits: nat, to: nat)
    requires bits <= to <= 32 && x == a * Pow(2, to - bits) + k * TWO32
    ensures Pow(2, to) > 0 && Pow(2, bits) > 0
    ensures x % Pow(2, to) == a % Pow(2, bits) * Pow(2, to - bits)
    ensures a / Pow(2, bits) * Pow(2, to) + a % Pow(2, bits) * Pow(2, to - bits) == a * Pow(2, to - bits)
    ensures a % Pow(2, bits) * Pow(2, to - bits) < Pow(2, to)
  {
    hide Pow;
    PowPositive(2, bits);
    PowPositive(2, to);
    PowPositive(2, to - bits);
    Powers32();
    PowAdd(2, to, 32 - to);
    PowAdd(2, bits, to - bits);
    PadArithmetic(x, a, k, Pow(2, bits), Pow(2, to - bits), Pow(2, to), Pow(2, 32 - to));
  }

  lemma PadArithmetic(x: int, a: nat, k: int, p: nat, s: nat, t: nat, r: nat)
    requires p > 0 && s > 0 && t == p * s && TWO32 == t * r && x == a * s + k * TWO32
    ensures t > 0 && x % t == a % p * s
    ensures a / p * t + a % p * s == a * s && a % p * s < t
  {
    var q, y := a / p, a % p;
    assert a == q * p + y;
    PadRearrange(q, p, y, s, k, r);
    MulMonotone(y + 1, s, p, s);
    assert y * s < t;
    DivisionIs(x, t, q + k * r, y * s);
  }

  lemma PadRearrange(q: int, p: int, y: int, s: int, k: int, r: int)
    ensures q * (p * s) + y * s == (q * p + y) * s
    ensures (q + k * r) * (p * s) + y * s == (q * p + y) * s + k * (p * s * r)
    ensures (y + 1) * s == y * s + s
  {
  }

  // ---------- the loop ----------

  /** out holds all full groups of the number a, of which `bits` low bits are still waiting; n bits were read. */
  ghost predicate Grouped(out: seq<nat>, a: nat, n: nat, bits: nat, to: nat) {
    && Pow(2, bits) > 0 && Digits(out, Pow(2, to))
    && Value(out, Pow(2, to)) == a / Pow(2, bits)
    && |out| * to + bits == n
  }

  lemma GroupedStart(to: nat)
    ensures Grouped([], 0, 0, 0, to)
  {
  }

  lemma GroupedRead(out: seq<nat>, a: nat, n: nat, bits: nat, to: nat, v: nat, from: nat)
    requires Grouped(out, a, n, bits, to) && v < Pow(2, from)
    ensures a * Pow(2, from) + v >= 0 && Grouped(out, a * Pow(2, from) + v, n + from, bits + from, to)
  {
    hide Pow, Value;
    AbsorbBits(a, v, from, bits);
  }

  lemma AbsorbBits(a: nat, v: nat, from: nat, bits: nat)
    requires v < Pow(2, from)
    ensures Pow(2, bits) > 0 && Pow(2, bits + from) > 0 && a * Pow(2, from) + v >= 0
    ensures (a * Pow(2, from) + v) / Pow(2, bits + from) == a / Pow(2, bits)
  {
    hide Pow;
    PowPositive(2, bits);
    PowPositive(2, from);
    PowPositive(2, bits + from);
    PowAdd(2, from, bits);
    ProductNonNegative(a, Pow(2, from));
    Absorb(a, v, Pow(2, from), Pow(2, bits));
  }

  lemma GroupedEmit(out: seq<nat>, a: nat, n: nat, bits: nat, to: nat)
    requires to >= 1 && to <= bits && Grouped(out, a, n, bits, to)
    ensures Pow(2, bits - to) > 0 && Pow(2, to) > 0
    ensures Grouped(out + [a / Pow(2, bits - to) % Pow(2, to)], a, n, bits - to, to)
  {
    hide Pow, Value;
    PowPositive(2, bits - to);
    PowPositive(2, to);
    var p, t := Pow(2, bits - to), Pow(2, to);
    DivisionBounds(a, p);
    DivisionBounds(a / p, t);
    var digit := a / p % t;
    PowAdd(2, to, bits - to);
    Emit(a, p, t);
    ValueAppend(out, digit, t);
    assert (|out| + 1) * to == |out| * to + to;
  }

  lemma ValueStep(input: seq<nat>, i: nat, base: nat)
    requires i < |input|
    ensures Value(input[..i + 1], base) == Value(input[..i], base) * base + input[i]
  {
    assert input[..i + 1][..i] == input[..i];
  }

  lemma LeftoverIs(n: nat, from: nat, to: nat, groups: nat, bits: nat)
    requires to >= 1 && bits < to && groups * to + bits == n * from
    ensures Leftover(n, from, to) == bits && n * from / to == groups
  {
    DivisionIs(n * from, to, groups, bits);
  }

  method ConvertBits(input: seq<nat>, from: nat, to: nat, pad: bool) returns (r: Option<seq<nat>>)
    requires 1 <= from <= 8 && 1 <= to <= 8
    ensures r == Regrouped(input, from, to, pad)
  {
    hide Value, Pow, Regrouped, Grouped, Wrap32;
    var acc, bits: nat := 0, 0;
    var out: seq<nat> := [];
    ghost var k := 0;
    var f, t := Pow(2, from), Pow(2, to);
    GroupedStart(to);
    EmptyValue(f);
    assert input[..0] == [];
    for i := 0 to |input|
      invariant bits < to
      invariant Digits(input[..i], f)
      invariant acc == Value(input[..i], f) + k * TWO32
      invariant Grouped(out, Value(input[..i], f), i * from, bits, to)
    {
      var v := input[i];
      if v >= f {
        BadSymbol(input, i, from, to, pad);
        return None;
      }
      ghost var a := Value(input[..i], f);
      ValueStep(input, i, f);
      GroupedRead(out, a, i * from, bits, to, v, from);
      assert (i + 1) * from == i * from + from;
      acc, k := Shift(acc, f, v, a, k);
      a := a * f + v;
      bits := bits + from;
      out, bits := EmitGroups(out, bits, to, acc, a, k, (i + 1) * from);
    }
    assert input[..|input|] == input;
    r := Finish(input, out, acc, bits, from, to, pad, k);
  }

  /** acc = (acc << from) | v in 32 bits: the shift leaves the low bits zero, so or-ing is adding. */
  method Shift(acc: int, f: nat, v: nat, ghost a: nat, ghost k: int) returns (acc': int, ghost k': int)
    requires acc == a + k * TWO32
    ensures acc' == Wrap32(acc * f) + v
    ensures acc' == a * f + v + k' * TWO32
  {
    ghost var j := WrapCongruent(acc * f);
    acc' := Wrap32(acc * f) + v;
    k' := k * f + j;
    ShiftRearrange(a, k, f, j);
  }

  lemma ShiftRearrange(a: int, k: int, f: int, j: int)
    ensures (a + k * TWO32) * f + j * TWO32 == a * f + (k * f + j) * TWO32
  {
  }

  /** The inner loop: emit every full group. */
  method EmitGroups(out0: seq<nat>, bits0: nat, to: nat, acc: int, ghost a: nat, ghost k: int, ghost n: nat)
    returns (out: seq<nat>, bits: nat)
    requires 1 <= to <= 8 && bits0 < to + 8 && acc == a + k * TWO32 && Grouped(out0, a, n, bits0, to)
    ensures bits < to && Grouped(out, a, n, bits, to)
  {
    hide Value, Pow;
    out, bits := out0, bits0;
    while bits >= to
      invariant bits < to + 8 && Grouped(out, a, n, bits, to)
      decreases bits
    {
      GroupedEmit(out, a, n, bits, to);
      bits := bits - to;
      GroupUnwrapped(acc, a, k, bits, to);
      out := out + [acc / Pow(2, bits) % Pow(2, to)];
    }
  }

  lemma BadSymbol(input: seq<nat>, i: nat, from: nat, to: nat, pad: bool)
    requires from >= 1 && to >= 1 && i < |input| && input[i] >= Pow(2, from)
    ensures Regrouped(input, from, to, pad) == None
  {
  }

  /** The end of the loop: pad the waiting bits, or require that they are few and zero. */
  method Finish(input: seq<nat>, out: seq<nat>, acc: int, bits: nat, from: nat, to: nat, pad: bool, ghost k: int)
    returns (r: Option<seq<nat>>)
    requires 1 <= from <= 8 && 1 <= to <= 8 && bits < to && Digits(input, Pow(2, from))
    requires acc == Value(input, Pow(2, from)) + k * TWO32
    requires Grouped(out, Value(input, Pow(2, from)), |input| * from, bits, to)
    ensures r == Regrouped(input, from, to, pad)
  {
    hide Value, Pow, FixedDigits, Grouped;
    PowPositive(2, to);
    ghost var a := Value(input, Pow(2, from));
    var shifted := Wrap32(acc * Pow(2, to - bits));
    var waiting := shifted % Pow(2, to);
    ghost var k' := ShiftedCongruent(acc, a, k, Pow(2, to - bits));
    PadUnwrapped(shifted, a, k', bits, to);
    FinishMeans(input, out, a, bits, from, to, pad);
    if pad {
      r := Some(if bits != 0 then out + [waiting] else out);
    } else if bits >= from || waiting != 0 {
      r := None;
    } else {
      r := Some(out);
    }
  }

  lemma ShiftedCongruent(acc: int, a: nat, k: int, s: nat) returns (k': int)
    requires acc == a + k * TWO32
    ensures Wrap32(acc * s) == a * s + k' * TWO32
  {
    var j := WrapCongruent(acc * s);
    k' := k * s + j;
    ShiftRearrange(a, k, s, j);
  }

  lemma FinishMeans(input: seq<nat>, out: seq<nat>, a: nat, bits: nat, from: nat, to: nat, pad: bool)
    requires from >= 1 && to >= 1 && bits < to && Digits(input, Pow(2, from)) && a == Value(input, Pow(2, from))
    requires Grouped(out, a, |input| * from, bits, to)
    requires Pow(2, bits) > 0 && a % Pow(2, bits) * Pow(2, to - bits) < Pow(2, to)
    requires a / Pow(2, bits) * Pow(2, to) + a % Pow(2, bits) * Pow(2, to - bits) == a * Pow(2, to - bits)
    ensures a % Pow(2, bits) * Pow(2, to - bits) >= 0
    ensures pad ==> Regrouped(input, from, to, pad) ==
                    Some(if bits != 0 then out + [a % Pow(2, bits) * Pow(2, to - bits)] else out)
    ensures !pad ==> Regrouped(input, from, to, pad) ==
                     if bits >= from || a % Pow(2, bits) * Pow(2, to - bits) != 0 then None else Some(out)
  {
    hide Value;
    PowPositive(2, to - bits);
    PowAtLeastBase(2, to);
    LeftoverIs(|input|, from, to, |out|, bits);
    FixedUnique(out, a / Pow(2, bits), Pow(2, to));
    var waiting := a % Pow(2, bits) * Pow(2, to - bits);
    ZeroProduct(a % Pow(2, bits), Pow(2, to - bits));
    if pad && bits != 0 {
      ValueStep(out + [waiting], |out|, Pow(2, to));
      assert (out + [waiting])[..|out|] == out && (out + [waiting])[..|out| + 1] == out + [waiting];
      FixedUnique(out + [waiting], a * Pow(2, to - bits), Pow(2, to));
    }
  }

  lemma ZeroProduct(a: nat, b: nat)
    requires b > 0
    ensures a * b >= 0 && (a * b == 0 <==> a == 0)
  {
  }

  // ---------- regrouping is lossless ----------

  /** Zero bits needed to fill the last group. */
  function PadBits(n: nat, from: nat, to: nat): (p: nat)
    requires to >= 1
    ensures p < to
  {
    var bits := Leftover(n, from, to);
    if bits == 0 then 0 else to - bits
  }

  lemma BitCount(s: seq<nat>, from: nat, to: nat, len: nat, pad: nat)
    requires Digits(s, Pow(2, from)) && len * to == |s| * from + pad
    ensures Value(s, Pow(2, from)) * Pow(2, pad) < Pow(Pow(2, to), len)
  {
    hide Pow, Value;
    TotalBits(s, from);
    PowPow(2, to, len);
    Commute(to, len);
    PowAdd(2, |s| * from, pad);
    PowPositive(2, pad);
    ScaleLess(Pow(2, pad), Value(s, Pow(2, from)), Pow(2, |s| * from));
    Commute(Pow(2, pad), Value(s, Pow(2, from)));
    Commute(Pow(2, pad), Pow(2, |s| * from));
  }

  /** The number of groups that hold n input groups and their padding. */
  ghost function PaddedLength(n: nat, from: nat, to: nat): (len: nat)
    requires to >= 1
    ensures len * to == n * from + PadBits(n, from, to)
  {
    ProductNonNegative(n, from);
    DivisionBounds(n * from, to);
    var full := n * from / to;
    assert (full + 1) * to == full * to + to;
    if Leftover(n, from, to) == 0 then full else full + 1
  }

  /** The number written by the groups, shifted left by the padding. */
  ghost function Padded(v: nat, pad: nat): (n: nat)
    ensures n == v * Pow(2, pad)
  {
    ProductNonNegative(v, Pow(2, pad));
    v * Pow(2, pad)
  }

  lemma RegroupedPadded(s: seq<nat>, from: nat, to: nat) returns (len: nat)
    requires from >= 1 && to >= 1 && Digits(s, Pow(2, from))
    ensures Pow(2, to) >= 2 && len * to == |s| * from + PadBits(|s|, from, to)
    ensures Regrouped(s, from, to, true) ==
            Some(FixedDigits(Padded(Value(s, Pow(2, from)), PadBits(|s|, from, to)), Pow(2, to), len))
  {
    hide Value, FixedDigits, Pow, Leftover;
    PowZero(2);
    PowAtLeastBase(2, to);
    len := PaddedLength(|s|, from, to);
  }

  /** What padding gives: the fewest groups that hold all bits, writing the same number shifted left by what is free. */
  lemma PaddedMeans(s: seq<nat>, from: nat, to: nat)
    requires from >= 1 && to >= 1 && Digits(s, Pow(2, from))
    ensures Regrouped(s, from, to, true).Some?
    ensures var g := Regrouped(s, from, to, true).value;
            var free: int := |g| * to - |s| * from;
            && Digits(g, Pow(2, to)) && 0 <= free < to
            && Value(g, Pow(2, to)) == Value(s, Pow(2, from)) * Pow(2, free)
  {
    hide Value, FixedDigits, Pow, Regrouped;
    var pad := PadBits(|s|, from, to);
    var len := RegroupedPadded(s, from, to);
    BitCount(s, from, to, len, pad);
    FixedValue(Padded(Value(s, Pow(2, from)), pad), Pow(2, to), len);
  }

  /** Packing into smaller groups with padding and unpacking again without is the identity. */
  lemma PadThenStrict(s: seq<nat>, from: nat, to: nat)
    requires 1 <= to <= from && Digits(s, Pow(2, from))
    ensures var g := Regrouped(s, from, to, true);
            g.Some? && Digits(g.value, Pow(2, to)) && Regrouped(g.value, to, from, false) == Some(s)
  {
    hide Value, FixedDigits, Pow, Regrouped;
    var pad := PadBits(|s|, from, to);
    var len := RegroupedPadded(s, from, to);
    BitCount(s, from, to, len, pad);
    var v := Value(s, Pow(2, from));
    PowPositive(2, pad);
    var g := FixedDigits(Padded(v, pad), Pow(2, to), len);
    FixedValue(Padded(v, pad), Pow(2, to), len);
    LeftoverIs(len, to, from, |s|, pad);
    DivisionIs(v * Pow(2, pad), Pow(2, pad), v, 0);
    PowAtLeastBase(2, from);
    FixedUnique(s, v, Pow(2, from));
    StrictMeans(g, to, from, v * Pow(2, pad), pad, |s|);
  }

  lemma StrictMeans(g: seq<nat>, from: nat, to: nat, v: nat, bits: nat, len: nat)
    requires from >= 1 && to >= 1 && Pow(2, to) >= 2 && Pow(2, bits) > 0
    requires Digits(g, Pow(2, from)) && v == Value(g, Pow(2, from))
    requires Leftover(|g|, from, to) == bits && |g| * from / to == len
    ensures Regrouped(g, from, to, false) ==
            if bits >= from || v % Pow(2, bits) != 0 then None else Some(FixedDigits(v / Pow(2, bits), Pow(2, to), len))
  {
    hide Value, FixedDigits, Pow;
  }

  /** Whatever is accepted without padding is exactly what padding produces: the regrouping is one-to-one. */
  lemma StrictThenPad(s: seq<nat>, from: nat, to: nat)
    requires 1 <= from <= to && Regrouped(s, from, to, false).Some?
    ensures var b := Regrouped(s, from, to, false).value;
            Digits(b, Pow(2, to)) && Regrouped(b, to, from, true) == Some(s)
  {
    hide Value, FixedDigits, Pow, Regrouped, Leftover, PadBits;
    var bits, n, q := StrictParts(s, from, to);
    PowAtLeastBase(2, to);
    PowAtLeastBase(2, from);
    StrictFits(s, from, to, bits, n, q);
    FixedValue(q, Pow(2, to), n);
    var b := FixedDigits(q, Pow(2, to), n);
    var len := RegroupedPadded(b, to, from);
    SamePadding(n, from, to, |s|, bits);
    CancelLength(len, |s|, from);
    FixedUnique(s, Padded(q, bits), Pow(2, from));
  }

  /** What is accepted without padding: whole groups of the number, and fewer than a group of zero bits left over. */
  lemma StrictParts(s: seq<nat>, from: nat, to: nat) returns (bits: nat, n: nat, q: nat)
    requires from >= 1 && to >= 1 && Regrouped(s, from, to, false).Some?
    ensures Pow(2, to) >= 2 && Digits(s, Pow(2, from)) && bits < from && |s| * from == n * to + bits
    ensures Value(s, Pow(2, from)) == q * Pow(2, bits)
    ensures Regrouped(s, from, to, false) == Some(FixedDigits(q, Pow(2, to), n))
  {
    hide Value, FixedDigits, Pow;
    PowAtLeastBase(2, to);
    bits := Leftover(|s|, from, to);
    DivisionBounds(|s| * from, to);
    n := |s| * from / to;
    PowPositive(2, bits);
    DivisionBounds(Value(s, Pow(2, from)), Pow(2, bits));
    q := Value(s, Pow(2, from)) / Pow(2, bits);
  }

  lemma SamePadding(n: nat, from: nat, to: nat, m: nat, bits: nat)
    requires from >= 1 && m * from == n * to + bits && bits < from
    ensures PadBits(n, to, from) == bits
  {
    if bits == 0 {
      DivisionIs(n * to, from, m, 0);
    } else {
      assert (m - 1) * from == m * from - from;
      DivisionIs(n * to, from, m - 1, from - bits);
    }
  }

  lemma CancelLength(a: nat, b: nat, c: nat)
    requires c >= 1 && a * c == b * c
    ensures a == b
  {
    assert (a - b) * c == 0;
    BelowFactor(a - b, c);
  }

  lemma StrictFits(s: seq<nat>, from: nat, to: nat, bits: nat, n: nat, q: nat)
    requires Digits(s, Pow(2, from)) && |s| * from == n * to + bits
    requires q * Pow(2, bits) == Value(s, Pow(2, from))
    ensures q < Pow(Pow(2, to), n)
  {
    hide Pow, Value;
    TotalBits(s, from);
    PowPow(2, to, n);
    Commute(to, n);
    PowAdd(2, n * to, bits);
    PowPositive(2, bits);
    BelowQuotient(q, Pow(2, bits), Pow(2, n * to));
  }

  lemma BelowQuotient(q: nat, p: nat, r: nat)
    requires p > 0 && q * p < r * p
    ensures q < r
  {
    Commute(r, p);
    CancelLess(p, q, r);
  }

  lemma TotalBits(s: seq<nat>, from: nat)
    requires Digits(s, Pow(2, from))
    ensures Value(s, Pow(2, from)) < Pow(2, |s| * from)
  {
    hide Pow, Value;
    ValueBound(s, Pow(2, from));
    PowPow(2, from, |s|);
    Commute(from, |s|);
  }
}

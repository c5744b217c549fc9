/** Big-endian positional numerals in any base, and the in-place multiply-and-add that converts between bases. */
module Numerals {
  import opened Arithmetic
  import opened Power

  ghost predicate Digits(s: seq<nat>, base: nat) {
    forall i :: 0 <= i < |s| ==> s[i] < base
  }

  ghost function Value(s: seq<nat>, base: nat): nat {
    if s == [] then 0 else Value(s[..|s| - 1], base) * base + s[|s| - 1]
  }

  lemma ValueAppend(s: seq<nat>, d: nat, base: nat)
    ensures Value(s + [d], base) == Value(s, base) * base + d
  {
    assert (s + [d])[..|s|] == s;
  }

  lemma {:induction false} ValuePrepend(d: nat, s: seq<nat>, base: nat)
    ensures Value([d] + s, base) == d * Pow(base, |s|) + Value(s, base)
    decreases |s|
  {
    var all := [d] + s;
    if s == [] {
      assert all[..|all| - 1] == [];
    } else {
      var front, last := s[..|s| - 1], s[|s| - 1];
      assert all[..|all| - 1] == [d] + front;
      ValuePrepend(d, front, base);
      PrependStep(d, Pow(base, |front|), Value(front, base), base, last);
    }
  }

  lemma PrependStep(d: nat, p: nat, v: nat, base: nat, last: nat)
    ensures (d * p + v) * base + last == d * (base * p) + (v * base + last)
  {
  }

  lemma {:induction false} ValueBound(s: seq<nat>, base: nat)
    requires Digits(s, base)
    ensures Value(s, base) < Pow(base, |s|)
    decreases |s|
  {
    if s != [] {
      ValueBound(s[..|s| - 1], base);
      MulMonotone(Value(s[..|s| - 1], base) + 1, base, Pow(base, |s| - 1), base);
    }
  }

  lemma {:induction false} LeadingZeros(z: nat, s: seq<nat>, base: nat)
    ensures Value(seq(z, _ => 0) + s, base) == Value(s, base)
    decreases z
  {
    if z == 0 {
      assert seq(z, _ => 0) + s == s;
    } else {
      LeadingZeros(z - 1, s, base);
      assert seq(z, _ => 0) + s == [0] + (seq(z - 1, _ => 0) + s);
      ValuePrepend(0, seq(z - 1, _ => 0) + s, base);
    }
  }

  /** Numerals without a leading zero. */
  ghost predicate Canonical(s: seq<nat>, base: nat) {
    Digits(s, base) && (s == [] || s[0] > 0)
  }

  lemma DigitFacts(v: nat, base: nat)
    requires base >= 2
    ensures v == v / base * base + v % base && v % base < base
    ensures v > 0 ==> v / base < v && (v / base == 0 ==> v % base > 0)
  {
  }

  lemma AppendDigit(s: seq<nat>, q: nat, r: nat, base: nat, v: nat)
    requires Canonical(s, base) && Value(s, base) == q && (s == [] ==> r > 0)
    requires r < base && v == q * base + r
    ensures Canonical(s + [r], base) && Value(s + [r], base) == v
  {
    assert (s + [r])[..|s|] == s;
  }

  function ToDigits(v: nat, base: nat): (s: seq<nat>)
    requires base >= 2
    ensures Canonical(s, base) && Value(s, base) == v
    ensures s == [] <==> v == 0
  {
    hide Value;
    if v == 0 then EmptyValue(base); [] else
      DigitFacts(v, base);
      AppendDigit(ToDigits(v / base, base), v / base, v % base, base, v);
      ToDigits(v / base, base) + [v % base]
  }

  lemma EmptyValue(base: nat)
    ensures Value([], base) == 0
  {
  }

  /** A numeral of given length is determined by its value. */
  lemma {:induction false} ValueInjective(s: seq<nat>, t: seq<nat>, base: nat)
    requires Digits(s, base) && Digits(t, base) && |s| == |t| && Value(s, base) == Value(t, base)
    ensures s == t
    decreases |s|
  {
    if s != [] {
      var n := |s| - 1;
      SameDivision(Value(s[..n], base), s[n], Value(t[..n], base), t[n], base);
      ValueInjective(s[..n], t[..n], base);
      assert s == s[..n] + [s[n]] && t == t[..n] + [t[n]];
    }
  }

  lemma SameDivision(a: nat, x: nat, b: nat, y: nat, base: nat)
    requires x < base && y < base && a * base + x == b * base + y
    ensures a == b && x == y
  {
    assert (a - b) * base == y - x;
    BelowFactor(a - b, base);
  }

  /** ... and so is a canonical one of any length: conversion back and forth is the identity. */
  lemma {:induction false} CanonicalRoundTrip(s: seq<nat>, base: nat)
    requires base >= 2 && Canonical(s, base)
    ensures ToDigits(Value(s, base), base) == s
    decreases |s|
  {
    if s != [] {
      var front, last := s[..|s| - 1], s[|s| - 1];
      CanonicalRoundTrip(front, base);
      CanonicalPositive(s, base);
      DivisionIs(Value(front, base) * base + last, base, Value(front, base), last);
      assert s == front + [last];
    }
  }

  lemma {:induction false} CanonicalPositive(s: seq<nat>, base: nat)
    requires s != [] && Canonical(s, base)
    ensures Value(s, base) >= 1
    decreases |s|
  {
    if |s| > 1 {
      CanonicalPositive(s[..|s| - 1], base);
      MulMonotone(1, 1, Value(s[..|s| - 1], base), base);
    }
  }

  // ---------- in-place multiply and add ----------

  /** The last `len` cells of the buffer hold a canonical numeral; the cells before them are zero. */
  ghost predicate Tail(s: seq<nat>, len: nat, base: nat) {
    && len <= |s| && Digits(s, base)
    && (forall i :: 0 <= i < |s| - len ==> s[i] == 0)
    && (len == 0 || s[|s| - len] > 0)
  }

  lemma TailValue(s: seq<nat>, len: nat, base: nat)
    requires Tail(s, len, base)
    ensures Value(s, base) == Value(s[|s| - len..], base) && Canonical(s[|s| - len..], base)
  {
    var z := |s| - len;
    assert s == seq(z, _ => 0) + s[z..];
    LeadingZeros(z, s[z..], base);
  }

  /** The arithmetic of one cell: digit d becomes t % base and t / base is carried on. */
  lemma CellStep(low: nat, low0: nat, p: nat, carry: nat, mult: nat, d: nat, ch: nat, base: nat, t: nat)
    requires base > 0 && t == carry + mult * d
    requires Balance(low, carry, p, mult, low0, ch)
    ensures t / base >= 0 && t % base >= 0
    ensures Balance((t % base) * p + low, t / base, base * p, mult, d * p + low0, ch)
  {
    var q, r := t / base, t % base;
    assert t == q * base + r;
    assert r * p + q * (base * p) == t * p by { Distribute(q, base, r, p); }
    assert t * p == carry * p + mult * (d * p) by { Distribute(mult, d, carry, p); }
    assert mult * (d * p + low0) == mult * (d * p) + mult * low0;
  }

  lemma Distribute(q: int, b: int, r: int, p: int)
    ensures (q * b + r) * p == r * p + q * (b * p)
    ensures (r + q * b) * p == r * p + q * (b * p)
  {
  }

  function CellTotal(carry: nat, mult: nat, d: nat): nat {
    ProductNonNegative(mult, d);
    carry + mult * d
  }

  /** The cells done so far and the carry into the cell of weight p account for mult times the old cells, plus ch. */
  ghost predicate Balance(low: nat, carry: nat, p: nat, mult: nat, low0: nat, ch: nat) {
    low + carry * p == mult * low0 + ch
  }

  lemma NothingCarried(low: nat, p: nat, q: nat, mult: nat, low0: nat, ch: nat)
    requires Balance(low, 0, p, mult, low0, ch)
    ensures Balance(low, 0, q, mult, low0, ch)
  {
  }

  /** The loop invariant: the last i cells of s carry mult times the last i cells of s0, plus ch. */
  ghost predicate Carried(s: seq<nat>, s0: seq<nat>, i: nat, carry: nat, mult: nat, ch: nat, base: nat) {
    && i <= |s| == |s0| && Digits(s, base)
    && s[..|s| - i] == s0[..|s| - i]
    && Balance(Value(s[|s| - i..], base), carry, Pow(base, i), mult, Value(s0[|s| - i..], base), ch)
  }

  lemma CarriedStep(s: seq<nat>, s0: seq<nat>, i: nat, carry: nat, mult: nat, ch: nat, base: nat)
    requires base >= 2 && Carried(s, s0, i, carry, mult, ch, base) && i < |s|
    ensures var k := |s| - 1 - i;
            var t := CellTotal(carry, mult, s[k]);
            s[k] == s0[k] && Carried(s[k := t % base], s0, i + 1, t / base, mult, ch, base)
  {
    hide Value, Pow, Balance;
    var k := |s| - 1 - i;
    var t := CellTotal(carry, mult, s[k]);
    var low, low0, s' := s[k + 1..], s0[k + 1..], s[k := t % base];
    assert s[k] == s[..|s| - i][k] == s0[k];
    assert s'[k..] == [t % base] + low && s0[k..] == [s0[k]] + low0;
    assert s'[..k] == s[..|s| - i][..k] == s0[..k];
    ValuePrepend(t % base, low, base);
    ValuePrepend(s0[k], low0, base);
    PowStep(base, i + 1);
    CellStep(Value(low, base), Value(low0, base), Pow(base, i), carry, mult, s[k], ch, base, t);
  }

  lemma CarriedWhole(s: seq<nat>, s0: seq<nat>, i: nat, carry: nat, mult: nat, ch: nat, base: nat)
    requires Carried(s, s0, i, carry, mult, ch, base)
    requires i == |s| || (carry == 0 && forall j :: 0 <= j < |s| - i ==> s0[j] == 0)
    ensures Balance(Value(s, base), carry, Pow(base, |s|), mult, Value(s0, base), ch)
  {
    hide Value, Pow, Balance;
    if i == |s| {
      assert s[0..] == s && s0[0..] == s0;
    } else {
      assert forall j :: 0 <= j < |s| - i ==> s[j] == s[..|s| - i][j] == s0[j];
      ZeroPrefix(s, i, base);
      ZeroPrefix(s0, i, base);
      NothingCarried(Value(s, base), Pow(base, i), Pow(base, |s|), mult, Value(s0, base), ch);
    }
  }

  /**
   * The inner loop shared by both directions of Base58: buf := buf * mult + ch, working from the last cell
   * towards the first and stopping once the old length is passed and nothing is carried. The carry that is
   * left over is zero exactly when the result fits.
   */
  method MultiplyAdd(buf: array<nat>, length: nat, mult: nat, ch: nat, base: nat) returns (i: nat, carry: nat)
    requires base >= 2 && mult >= 1 && Tail(buf[..], length, base)
    modifies buf
    ensures Balance(Value(buf[..], base), carry, Pow(base, buf.Length), mult, old(Value(buf[..], base)), ch)
    ensures length <= i <= buf.Length
    ensures carry == 0 ==> Tail(buf[..], i, base)
  {
    hide Value, Pow, CellTotal, Balance, Carried;
    var n := buf.Length;
    ghost var s0 := buf[..];
    CarriedStart(s0, mult, ch, base);
    i, carry := 0, ch;
    while (carry != 0 || i < length) && i != n
      invariant 0 <= i <= n
      invariant Carried(buf[..], s0, i, carry, mult, ch, base)
      invariant i > 0 && i >= length ==> carry > 0 || buf[n - i] > 0
      decreases n - i
    {
      var k := n - 1 - i;
      ghost var s := buf[..];
      CarriedStep(s, s0, i, carry, mult, ch, base);
      var total := CellTotal(carry, mult, buf[k]);
      PositiveTotal(carry, mult, buf[k], base);
      buf[k] := total % base;
      carry := total / base;
      assert buf[..] == s[k := buf[k]];
      i := i + 1;
    }
    CarriedWhole(buf[..], s0, i, carry, mult, ch, base);
    if carry == 0 { CarriedTail(buf[..], s0, i, mult, ch, base); }
  }

  /** With nothing carried out, the cells before the last i are still the zeros they were. */
  lemma CarriedTail(s: seq<nat>, s0: seq<nat>, i: nat, mult: nat, ch: nat, base: nat)
    requires Carried(s, s0, i, 0, mult, ch, base) && (i > 0 ==> s[|s| - i] > 0)
    requires forall j :: 0 <= j < |s| - i ==> s0[j] == 0
    ensures Tail(s, i, base)
  {
    hide Value, Pow, Balance;
    assert forall j :: 0 <= j < |s| - i ==> s[j] == s[..|s| - i][j] == s0[j];
  }

  lemma CarriedStart(s: seq<nat>, mult: nat, ch: nat, base: nat)
    requires Digits(s, base)
    ensures Carried(s, s, 0, ch, mult, ch, base)
  {
    assert s[|s|..] == [];
  }

  /** A cell that ends the numeral keeps a positive digit when nothing is carried out of it. */
  lemma PositiveTotal(carry: nat, mult: nat, d: nat, base: nat)
    requires base >= 2 && mult >= 1
    ensures var t := CellTotal(carry, mult, d);
            t / base >= 0 && t % base >= 0 && (carry > 0 || d > 0 ==> t / base > 0 || t % base > 0)
  {
    MulMonotone(1, d, mult, d);
    SmallTotal(CellTotal(carry, mult, d), base);
  }

  lemma SmallTotal(t: nat, base: nat)
    requires base >= 2
    ensures t / base == 0 ==> t % base == t
  {
  }

  lemma ZeroPrefix(s: seq<nat>, i: nat, base: nat)
    requires i <= |s| && forall j :: 0 <= j < |s| - i ==> s[j] == 0
    ensures Value(s[|s| - i..], base) == Value(s, base)
  {
    var z := |s| - i;
    assert s == seq(z, _ => 0) + s[z..];
    LeadingZeros(z, s[z..], base);
  }
}

/**
 * The Bech32 checksum of src/btclibs/bech32.h: a GF(2)-linear shift register over 30-bit states. The word
 * operations have names so that the proofs about whole strings can treat them algebraically.
 */
module Bech32Checksum {
  import opened Power

  const GEN: seq<bv32> := [0x3b6a57b2, 0x26508e6d, 0x1ea119fa, 0x3d4233dd, 0x2a1462b3]

  const BECH32: bv32 := 1
  const BECH32M: bv32 := 0x2bc830a3

  // ---------- words ----------

  function Xor(a: bv32, b: bv32): bv32 { a ^ b }

  function Top(c: bv32): bv32 { c >> 25 }

  function Up(x: bv32): bv32 { x << 5 }

  function Low25(c: bv32): bv32 { c & 0x1ffffff }

  /** x fits in n groups of five bits. */
  predicate Fits(x: bv32, n: nat)
    requires n <= 6
  {
    match n
    case 0 => x == 0
    case 1 => x < 0x20
    case 2 => x < 0x400
    case 3 => x < 0x8000
    case 4 => x < 0x10_0000
    case 5 => x < 0x200_0000
    case 6 => x < 0x4000_0000
  }

  function Double(x: bv32): bv32 { x << 1 }

  function Half(x: bv32): bv32 { x >> 1 }

  function BitOf(b: bool): bv32 { if b then 1 else 0 }

  predicate Odd(x: bv32) { x & 1 == 1 }

  /** The low n bits of a number as a word. */
  function Word(p: nat, n: nat): bv32
    decreases n
  {
    if n == 0 then 0 else Xor(Double(Word(p / 2, n - 1)), BitOf(p % 2 == 1))
  }

  /** The low n bits of a word as a number. */
  function Number(w: bv32, n: nat): nat
    decreases n
  {
    if n == 0 then 0 else 2 * Number(Half(w), n - 1) + if Odd(w) then 1 else 0
  }

  /** A symbol as it enters the register: the source stores it in one byte. */
  function Sym(p: nat): bv32 {
    Word(p, 8)
  }

  lemma XorLaws(a: bv32, b: bv32, c: bv32)
    ensures Xor(Xor(a, b), c) == Xor(a, Xor(b, c))
    ensures Xor(a, b) == Xor(b, a)
    ensures Xor(a, 0) == a && Xor(0, a) == a && Xor(a, a) == 0
  {
  }

  lemma XorCancels(a: bv32, b: bv32, c: bv32)
    requires Xor(a, b) == Xor(a, c)
    ensures b == c
  {
  }

  lemma XorCancelsRight(a: bv32, b: bv32, c: bv32)
    requires Xor(b, a) == Xor(c, a)
    ensures b == c
  {
  }

  lemma XorFits(a: bv32, b: bv32)
    requires Fits(a, 6) && Fits(b, 6)
    ensures Fits(Xor(a, b), 6)
  {
  }

  lemma SymZero()
    ensures Sym(0) == 0
  {
    ZeroWord(8);
  }

  lemma ZeroDoubled()
    ensures Xor(Double(0), BitOf(false)) == 0
  {
  }

  lemma {:induction false} ZeroWord(n: nat)
    ensures Word(0, n) == 0
    decreases n
  {
    if n > 0 {
      ZeroWord(n - 1);
      ZeroDoubled();
    }
  }

  /** x has at most n bits. */
  predicate Narrow(x: bv32, n: nat)
    requires n <= 8
  {
    match n
    case 0 => x == 0
    case 1 => x < 2
    case 2 => x < 4
    case 3 => x < 8
    case 4 => x < 16
    case 5 => x < 32
    case 6 => x < 64
    case 7 => x < 128
    case 8 => x < 256
  }

  lemma NarrowStep(x: bv32, b: bool, n: nat)
    requires n < 8 && Narrow(x, n)
    ensures Narrow(Xor(Double(x), BitOf(b)), n + 1)
  {
  }

  lemma NarrowFits(x: bv32)
    ensures Narrow(x, 8) ==> Fits(x, 2)
    ensures Narrow(x, 5) <==> Fits(x, 1)
  {
  }

  lemma {:induction false} WordNarrow(p: nat, n: nat, k: nat)
    requires k <= 8 && (n <= k || p < Pow(2, k))
    ensures Narrow(Word(p, n), k)
    decreases n
  {
    hide Xor, Double, BitOf;
    if n == 0 {
    } else if k == 0 {
      ZeroWord(n);
    } else {
      hide Narrow;
      WordNarrow(p / 2, n - 1, k - 1);
      NarrowStep(Word(p / 2, n - 1), p % 2 == 1, k - 1);
    }
  }

  lemma SymFits(p: nat)
    ensures Fits(Sym(p), 2) && (p < 32 ==> Fits(Sym(p), 1))
  {
    hide Word, Fits, Narrow;
    WordNarrow(p, 8, 8);
    assert Pow(2, 5) == 32;
    if p < 32 { WordNarrow(p, 8, 5); }
    NarrowFits(Sym(p));
  }

  lemma DoubleInjective(x: bv32, a: bool, y: bv32, b: bool)
    requires Narrow(x, 7) && Narrow(y, 7) && Xor(Double(x), BitOf(a)) == Xor(Double(y), BitOf(b))
    ensures x == y && a == b
  {
  }

  lemma NarrowUp(x: bv32, n: nat)
    requires n <= 7 && Narrow(x, n)
    ensures Narrow(x, 7)
  {
  }

  lemma {:induction false} WordInjective(p: nat, q: nat, n: nat)
    requires n <= 8 && p < Pow(2, n) && q < Pow(2, n) && Word(p, n) == Word(q, n)
    ensures p == q
    decreases n
  {
    hide Word, Pow;
    PowZero(2);
    if n > 0 {
      HalvesAgree(p, q, n);
      WordInjective(p / 2, q / 2, n - 1);
    }
  }

  /** Equal words have equal halves and equal last bits. */
  lemma HalvesAgree(p: nat, q: nat, n: nat)
    requires 0 < n <= 8 && p < Pow(2, n) && q < Pow(2, n) && Word(p, n) == Word(q, n)
    ensures p / 2 < Pow(2, n - 1) && q / 2 < Pow(2, n - 1) && Word(p / 2, n - 1) == Word(q / 2, n - 1) && p % 2 == q % 2
  {
    hide Xor, Double, BitOf, Narrow, Pow;
    PowStep(2, n);
    WordNarrow(p / 2, n - 1, n - 1);
    WordNarrow(q / 2, n - 1, n - 1);
    NarrowUp(Word(p / 2, n - 1), n - 1);
    NarrowUp(Word(q / 2, n - 1), n - 1);
    DoubleInjective(Word(p / 2, n - 1), p % 2 == 1, Word(q / 2, n - 1), q % 2 == 1);
  }

  lemma SymInjective(p: nat, q: nat)
    requires p < 256 && q < 256 && Sym(p) == Sym(q)
    ensures p == q
  {
    hide Word;
    assert Pow(2, 4) == 16 && Pow(2, 8) == 256;
    WordInjective(p, q, 8);
  }

  lemma HalfNarrow(w: bv32, n: nat)
    requires 0 < n <= 8 && Narrow(w, n)
    ensures Narrow(Half(w), n - 1)
  {
  }

  lemma HalfDoubled(w: bv32)
    ensures Xor(Double(Half(w)), BitOf(Odd(w))) == w
  {
  }

  /** A word of at most k bits survives the way to a number and back. */
  lemma {:induction false} WordOfNumber(w: bv32, n: nat, k: nat)
    requires k <= n && k <= 8 && Narrow(w, k)
    ensures Number(w, k) < Pow(2, k) && Word(Number(w, k), n) == w
    decreases n
  {
    hide Xor, Double, Half, BitOf, Odd, Narrow;
    if k == 0 {
      NarrowZero(w);
      ZeroWord(n);
    } else {
      hide Word, Number;
      HalfNarrow(w, k);
      WordOfNumber(Half(w), n - 1, k - 1);
      WordStep(w, n, k);
      HalfDoubled(w);
    }
  }

  lemma WordStep(w: bv32, n: nat, k: nat)
    requires 0 < k <= n
    ensures Word(Number(w, k), n) == Xor(Double(Word(Number(Half(w), k - 1), n - 1)), BitOf(Odd(w)))
    ensures Number(w, k) <= 2 * Number(Half(w), k - 1) + 1
  {
    hide Xor, Double, Half, BitOf, Odd;
    HalfNumber(Number(Half(w), k - 1), Odd(w));
  }

  lemma NarrowZero(w: bv32)
    ensures Narrow(w, 0) ==> w == 0
  {
  }

  lemma HalfNumber(h: nat, odd: bool)
    ensures var v := 2 * h + if odd then 1 else 0; v / 2 == h && (v % 2 == 1) == odd
  {
  }

  // ---------- the register ----------

  predicate Bit(top: bv32, i: nat)
    requires i < 32
  {
    (top >> i) & 1 == 1
  }

  /** The generators selected by the low n bits of top. */
  function Selected(top: bv32, n: nat): bv32
    requires n <= 5
  {
    if n == 0 then 0 else Xor(Selected(top, n - 1), if Bit(top, n - 1) then GEN[n - 1] else 0)
  }

  /** The part of a step that does not depend on the bits shifted out. */
  function Shifted(c: bv32, p: bv32): bv32 {
    Xor(Up(Low25(c)), p)
  }

  function Step(c: bv32, p: bv32): bv32 {
    Xor(Shifted(c, p), Selected(Top(c), 5))
  }

  ghost function PolymodFrom(c: bv32, v: seq<nat>): bv32 {
    if v == [] then c else Step(PolymodFrom(c, v[..|v| - 1]), Sym(v[|v| - 1]))
  }

  ghost function Polymod(v: seq<nat>): bv32 {
    PolymodFrom(1, v)
  }

  method ComputePolymod(v: seq<nat>) returns (chk: bv32)
    ensures chk == Polymod(v)
  {
    hide Shifted, Selected, Sym, Xor, Top;
    chk := 1;
    for k := 0 to |v|
      invariant chk == PolymodFrom(1, v[..k])
    {
      assert v[..k + 1][..k] == v[..k];
      var top := Top(chk);
      chk := Shifted(chk, Sym(v[k]));
      chk := AddGenerators(chk, top);
    }
    assert v[..|v|] == v;
  }

  /** The inner loop: xor in the generator of every bit that was shifted out. */
  method AddGenerators(start: bv32, top: bv32) returns (chk: bv32)
    ensures chk == Xor(start, Selected(top, 5))
  {
    hide Bit, Xor;
    chk := start;
    XorLaws(chk, 0, 0);
    for i := 0 to 5
      invariant chk == Xor(start, Selected(top, i))
    {
      XorLaws(start, Selected(top, i), GEN[i]);
      XorLaws(Selected(top, i), 0, 0);
      if Bit(top, i) {
        chk := Xor(chk, GEN[i]);
      }
    }
  }

  lemma {:induction false} PolymodJoin(c: bv32, a: seq<nat>, b: seq<nat>)
    ensures PolymodFrom(c, a + b) == PolymodFrom(PolymodFrom(c, a), b)
    decreases |b|
  {
    hide Step, Sym;
    if b == [] {
      assert a + b == a;
    } else {
      PolymodJoin(c, a, b[..|b| - 1]);
      assert (a + b)[..|a + b| - 1] == a + b[..|b| - 1];
    }
  }

  // ---------- every step is a bijection on 30-bit states ----------

  function Mask(b: bool, g: bv32): bv32 {
    if b then g else 0
  }

  /** Selected, with its five choices written out. */
  lemma SelectedUnfolds(top: bv32)
    ensures Selected(top, 5) ==
            Xor(Xor(Xor(Xor(Mask(Bit(top, 0), 0x3b6a57b2), Mask(Bit(top, 1), 0x26508e6d)),
                        Mask(Bit(top, 2), 0x1ea119fa)), Mask(Bit(top, 3), 0x3d4233dd)), Mask(Bit(top, 4), 0x2a1462b3))
  {
    hide Bit;
    XorLaws(Mask(Bit(top, 0), GEN[0]), 0, 0);
    hide Xor, Mask;
    assert Selected(top, 0) == 0;
    assert Selected(top, 1) == Xor(0, Mask(Bit(top, 0), GEN[0]));
    assert Selected(top, 2) == Xor(Selected(top, 1), Mask(Bit(top, 1), GEN[1]));
    assert Selected(top, 3) == Xor(Selected(top, 2), Mask(Bit(top, 2), GEN[2]));
    assert Selected(top, 4) == Xor(Selected(top, 3), Mask(Bit(top, 3), GEN[3]));
  }

  /** The low five bits of the selected generators determine which were selected. */
  lemma SelectionVisible(t: bv32, u: bv32)
    requires Fits(t, 1) && Fits(u, 1) && Selected(t, 5) & 31 == Selected(u, 5) & 31
    ensures t == u
  {
    hide Selected;
    SelectedUnfolds(t);
    SelectedUnfolds(u);
  }

  /** The shifted part leaves the low five bits to the symbol. */
  lemma LowBits(x: bv32, p: bv32, y: bv32, s: bv32, t: bv32)
    requires Xor(Xor(Up(x), p), s) == Xor(Xor(Up(y), p), t)
    ensures s & 31 == t & 31
  {
  }

  lemma TopFits(c: bv32)
    requires Fits(c, 6)
    ensures Fits(Top(c), 1)
  {
  }

  lemma Reassemble(c: bv32, d: bv32)
    requires Fits(c, 6) && Fits(d, 6) && Top(c) == Top(d) && Up(Low25(c)) == Up(Low25(d))
    ensures c == d
  {
  }

  /** Each step is injective in the state ... */
  lemma StepInjective(c: bv32, d: bv32, p: bv32)
    requires Fits(c, 6) && Fits(d, 6) && Step(c, p) == Step(d, p)
    ensures c == d
  {
    hide Selected, Xor, Up, Low25, Top, Fits;
    LowBits(Low25(c), p, Low25(d), Selected(Top(c), 5), Selected(Top(d), 5));
    TopFits(c);
    TopFits(d);
    SelectionVisible(Top(c), Top(d));
    XorCancelsRight(Selected(Top(c), 5), Shifted(c, p), Shifted(d, p));
    XorCancelsRight(p, Up(Low25(c)), Up(Low25(d)));
    Reassemble(c, d);
  }

  lemma {:induction false} SelectedFits(top: bv32, n: nat)
    requires n <= 5
    ensures Fits(Selected(top, n), 6)
    decreases n
  {
    hide Bit, Xor, Fits;
    ZeroFits();
    if n > 0 {
      SelectedFits(top, n - 1);
      GeneratorFits(n - 1);
      XorFits(Selected(top, n - 1), if Bit(top, n - 1) then GEN[n - 1] else 0);
    }
  }

  lemma ZeroFits()
    ensures Fits(0, 6)
  {
  }

  lemma GeneratorFits(i: nat)
    requires i < 5
    ensures Fits(GEN[i], 6)
  {
  }

  lemma ShiftedFits(c: bv32, p: bv32)
    requires Fits(p, 2)
    ensures Fits(Shifted(c, p), 6)
  {
  }

  /** ... and states stay within 30 bits. */
  lemma {:induction false} PolymodFits(c: bv32, v: seq<nat>)
    requires Fits(c, 6)
    ensures Fits(PolymodFrom(c, v), 6)
    decreases |v|
  {
    hide Selected, Shifted, Fits, Xor, Sym, Top;
    if v != [] {
      var s, p := PolymodFrom(c, v[..|v| - 1]), Sym(v[|v| - 1]);
      PolymodFits(c, v[..|v| - 1]);
      SymFits(v[|v| - 1]);
      SelectedFits(Top(s), 5);
      ShiftedFits(s, p);
      XorFits(Shifted(s, p), Selected(Top(s), 5));
    }
  }

  /** Two different states never meet again on the same symbols. */
  lemma {:induction false} PolymodInjective(c: bv32, d: bv32, v: seq<nat>)
    requires Fits(c, 6) && Fits(d, 6) && PolymodFrom(c, v) == PolymodFrom(d, v)
    ensures c == d
    decreases |v|
  {
    hide Step, Sym, Fits;
    if v != [] {
      var front := v[..|v| - 1];
      PolymodFits(c, front);
      PolymodFits(d, front);
      StepInjective(PolymodFrom(c, front), PolymodFrom(d, front), Sym(v[|v| - 1]));
      PolymodInjective(c, d, front);
    }
  }

  // ---------- linearity over the last symbols ----------

  lemma TopUnchanged(c: bv32, x: bv32)
    requires Fits(x, 5)
    ensures Top(Xor(c, x)) == Top(c)
  {
  }

  lemma ShiftedLinear(c: bv32, x: bv32, q: bv32)
    requires Fits(x, 5)
    ensures Shifted(Xor(c, x), q) == Xor(Shifted(c, 0), Xor(Up(x), q))
  {
  }

  lemma XorSwap(a: bv32, b: bv32, c: bv32)
    ensures Xor(Xor(a, b), c) == Xor(Xor(a, c), b)
  {
    hide Xor;
    XorLaws(a, b, c);
    XorLaws(a, c, b);
    XorLaws(b, c, 0);
  }

  /** Changing the state below bit 25 and the symbol changes the next state by the shifted difference. */
  lemma StepLinear(c: bv32, x: bv32, q: bv32)
    requires Fits(x, 5)
    ensures Step(Xor(c, x), q) == Xor(Step(c, 0), Xor(Up(x), q))
  {
    hide Selected, Shifted, Xor, Up, Top, Fits;
    TopUnchanged(c, x);
    ShiftedLinear(c, x, q);
    XorSwap(Shifted(c, 0), Xor(Up(x), q), Selected(Top(c), 5));
  }

  /** Up to six 5-bit symbols packed into one word, most significant first. */
  ghost function Packed(s: seq<nat>): bv32 {
    if s == [] then 0 else Xor(Up(Packed(s[..|s| - 1])), Sym(s[|s| - 1]))
  }

  ghost predicate FiveBit(s: seq<nat>) {
    forall i :: 0 <= i < |s| ==> s[i] < 32
  }

  lemma FitsStep(n: nat, x: bv32, p: bv32)
    requires n < 6 && Fits(x, n) && Fits(p, 1)
    ensures Fits(Xor(Up(x), p), n + 1) && Fits(x, 5)
  {
  }

  lemma {:induction false} PackedFits(s: seq<nat>)
    requires FiveBit(s) && |s| <= 6
    ensures Fits(Packed(s), |s|)
    decreases |s|
  {
    if s != [] {
      hide Sym, Fits, Xor, Up;
      PackedFits(s[..|s| - 1]);
      SymFits(s[|s| - 1]);
      FitsStep(|s| - 1, Packed(s[..|s| - 1]), Sym(s[|s| - 1]));
    }
  }

  ghost function Zeros(n: nat): (s: seq<nat>)
    ensures |s| == n
  {
    seq(n, _ => 0)
  }

  /** Up to six appended symbols change the register by exactly their packed value. */
  lemma {:induction false} LastSymbolsLinear(c: bv32, s: seq<nat>)
    requires FiveBit(s) && |s| <= 6
    ensures PolymodFrom(c, s) == Xor(PolymodFrom(c, Zeros(|s|)), Packed(s))
    decreases |s|
  {
    hide Step, Fits, Xor, Up, Sym;
    var z := Zeros(|s|);
    if s == [] {
      assert z == [];
      XorLaws(c, 0, 0);
    } else {
      var front, last := s[..|s| - 1], s[|s| - 1];
      LastSymbolsLinear(c, front);
      PackedFits(front);
      SymFits(last);
      FitsStep(|s| - 1, Packed(front), Sym(last));
      assert z[..|z| - 1] == Zeros(|s| - 1);
      SymZero();
      StepLinear(PolymodFrom(c, Zeros(|s| - 1)), Packed(front), Sym(last));
    }
  }

  lemma UnpackStep(x: bv32, p: bv32, y: bv32, q: bv32)
    requires Fits(x, 5) && Fits(y, 5) && Fits(p, 1) && Fits(q, 1) && Xor(Up(x), p) == Xor(Up(y), q)
    ensures x == y && p == q
  {
  }

  lemma PackedSplit(s: seq<nat>, t: seq<nat>)
    requires FiveBit(s) && FiveBit(t) && 0 < |s| == |t| <= 6 && Packed(s) == Packed(t)
    ensures Packed(s[..|s| - 1]) == Packed(t[..|t| - 1]) && Sym(s[|s| - 1]) == Sym(t[|t| - 1])
  {
    hide Sym, Fits, Xor, Up;
    var n := |s| - 1;
    var x, y := Packed(s[..n]), Packed(t[..n]);
    PackedFits(s[..n]);
    PackedFits(t[..n]);
    SymFits(s[n]);
    SymFits(t[n]);
    FitsStep(n, x, Sym(s[n]));
    FitsStep(n, y, Sym(t[n]));
    UnpackStep(x, Sym(s[n]), y, Sym(t[n]));
  }

  lemma {:induction false} PackedInjective(s: seq<nat>, t: seq<nat>)
    requires FiveBit(s) && FiveBit(t) && |s| == |t| <= 6 && Packed(s) == Packed(t)
    ensures s == t
    decreases |s|
  {
    if s != [] {
      hide Sym, Packed;
      var n := |s| - 1;
      PackedSplit(s, t);
      PackedInjective(s[..n], t[..n]);
      SymInjective(s[n], t[n]);
      SameEnds(s, t);
    }
  }

  lemma SameEnds(s: seq<nat>, t: seq<nat>)
    requires 0 < |s| == |t| && s[..|s| - 1] == t[..|t| - 1] && s[|s| - 1] == t[|t| - 1]
    ensures s == t
  {
    assert s == s[..|s| - 1] + [s[|s| - 1]] && t == t[..|t| - 1] + [t[|t| - 1]];
  }

  /**
   * Sensitivity at any length: changing any symbols inside a window of at most six changes the checksum, with
   * arbitrary text before and after the window.
   */
  lemma BurstDetected(before: seq<nat>, s: seq<nat>, t: seq<nat>, after: seq<nat>)
    requires FiveBit(s) && FiveBit(t) && |s| == |t| <= 6 && s != t
    ensures Polymod(before + s + after) != Polymod(before + t + after)
  {
    hide Packed, Xor, Fits, PolymodFrom;
    var c := Polymod(before);
    PolymodJoin(1, before + s, after);
    PolymodJoin(1, before, s);
    PolymodJoin(1, before + t, after);
    PolymodJoin(1, before, t);
    StartFits();
    PolymodFits(1, before + s);
    PolymodFits(1, before + t);
    LastSymbolsLinear(c, s);
    LastSymbolsLinear(c, t);
    if Polymod(before + s + after) == Polymod(before + t + after) {
      PolymodInjective(PolymodFrom(c, s), PolymodFrom(c, t), after);
      XorCancels(PolymodFrom(c, Zeros(|s|)), Packed(s), Packed(t));
      PackedInjective(s, t);
    }
  }

  lemma StartFits()
    ensures Fits(1, 6)
  {
  }

  /** In particular two strings of 5-bit symbols that differ in exactly one place have different polymods. */
  lemma OneSymbolDetected(v: seq<nat>, w: seq<nat>, i: nat)
    requires FiveBit(v) && FiveBit(w) && |v| == |w| && i < |v| && v[i] != w[i]
    requires forall j :: 0 <= j < |v| && j != i ==> v[j] == w[j]
    ensures Polymod(v) != Polymod(w)
  {
    hide Polymod;
    assert v == v[..i] + [v[i]] + v[i + 1..];
    assert w == v[..i] + [w[i]] + v[i + 1..];
    BurstDetected(v[..i], [v[i]], [w[i]], v[i + 1..]);
  }

  // ---------- the checksum symbols ----------

  /** The top n of the six 5-bit groups of a 30-bit word. */
  function High(mod: bv32, n: nat): bv32
    requires n <= 6
  {
    match n
    case 0 => mod >> 30
    case 1 => mod >> 25
    case 2 => mod >> 20
    case 3 => mod >> 15
    case 4 => mod >> 10
    case 5 => mod >> 5
    case 6 => mod
  }

  function Low5(w: bv32): bv32 { w & 31 }

  /** (mod >> 5*(5-i)) & 31. */
  function Group(mod: bv32, i: nat): nat
    requires i < 6
  {
    Number(Low5(High(mod, i + 1)), 5)
  }

  lemma HighStep(mod: bv32, n: nat)
    requires n < 6
    ensures Xor(Up(High(mod, n)), Low5(High(mod, n + 1))) == High(mod, n + 1)
  {
    hide High, Xor, Up, Low5, Down;
    HighShift(mod, n);
    RebuildWord(High(mod, n + 1));
  }

  lemma HighShift(mod: bv32, n: nat)
    requires n < 6
    ensures High(mod, n) == Down(High(mod, n + 1))
  {
    hide High, Down;
    if n == 0 {
      HighZero(mod);
    } else if n == 1 {
      HighOne(mod);
    } else if n == 2 {
      HighTwo(mod);
    } else if n == 3 {
      HighThree(mod);
    } else if n == 4 {
      HighFour(mod);
    } else {
      HighFive(mod);
    }
  }

  lemma HighZero(mod: bv32)
    ensures High(mod, 0) == Down(High(mod, 1))
  {
  }

  lemma HighOne(mod: bv32)
    ensures High(mod, 1) == Down(High(mod, 2))
  {
  }

  lemma HighTwo(mod: bv32)
    ensures High(mod, 2) == Down(High(mod, 3))
  {
  }

  lemma HighThree(mod: bv32)
    ensures High(mod, 3) == Down(High(mod, 4))
  {
  }

  lemma HighFour(mod: bv32)
    ensures High(mod, 4) == Down(High(mod, 5))
  {
  }

  lemma HighFive(mod: bv32)
    ensures High(mod, 5) == Down(High(mod, 6))
  {
  }

  function Down(w: bv32): bv32 { w >> 5 }

  lemma RebuildWord(w: bv32)
    ensures Xor(Up(Down(w)), Low5(w)) == w
  {
  }

  lemma HighEnds(mod: bv32)
    requires Fits(mod, 6)
    ensures High(mod, 0) == 0 && High(mod, 6) == mod
  {
  }

  lemma GroupWord(w: bv32)
    ensures Number(Low5(w), 5) < 32 && Sym(Number(Low5(w), 5)) == Low5(w)
  {
    hide Word, Number;
    Low5Fits(w);
    NarrowFits(Low5(w));
    assert Pow(2, 5) == 32;
    WordOfNumber(Low5(w), 8, 5);
  }

  lemma Low5Fits(w: bv32)
    ensures Fits(Low5(w), 1)
  {
  }

  /** The first n symbols of a word. */
  function UnpackTo(mod: bv32, n: nat): (s: seq<nat>)
    requires n <= 6
    ensures |s| == n
  {
    if n == 0 then [] else UnpackTo(mod, n - 1) + [Group(mod, n - 1)]
  }

  lemma {:induction false} PackUnpackedTo(mod: bv32, n: nat)
    requires n <= 6 && Fits(mod, 6)
    ensures FiveBit(UnpackTo(mod, n)) && Packed(UnpackTo(mod, n)) == High(mod, n)
    decreases n
  {
    hide Sym, Xor, Up, Low5, High, Fits;
    HighEnds(mod);
    if n > 0 {
      PackUnpackedTo(mod, n - 1);
      GroupWord(High(mod, n));
      HighStep(mod, n - 1);
      var s := UnpackTo(mod, n);
      assert s[..|s| - 1] == UnpackTo(mod, n - 1);
    }
  }

  /** The six checksum symbols that bring the register to `target` after v. */
  ghost function ChecksumFor(v: seq<nat>, target: bv32): seq<nat> {
    UnpackTo(Xor(Polymod(v + Zeros(6)), target), 6)
  }

  /** They do so, and no other six symbols do. */
  lemma ChecksumExactly(v: seq<nat>, s: seq<nat>, target: bv32)
    requires FiveBit(s) && |s| == 6 && Fits(target, 6)
    ensures FiveBit(ChecksumFor(v, target)) && |ChecksumFor(v, target)| == 6
    ensures Polymod(v + s) == target <==> s == ChecksumFor(v, target)
  {
    hide Xor, Fits, PolymodFrom, Packed, UnpackTo, High;
    var zero, sum := Polymod(v + Zeros(6)), ChecksumFor(v, target);
    StartFits();
    PolymodFits(1, v + Zeros(6));
    XorFits(zero, target);
    PackUnpackedTo(Xor(zero, target), 6);
    HighEnds(Xor(zero, target));
    PolymodJoin(1, v, Zeros(6));
    PolymodJoin(1, v, s);
    LastSymbolsLinear(Polymod(v), s);
    assert Polymod(v + s) == Xor(zero, Packed(s));
    assert Packed(sum) == Xor(zero, target);
    XorLaws(zero, zero, target);
    XorLaws(target, 0, 0);
    if Polymod(v + s) == target {
      XorLaws(zero, zero, Packed(s));
      XorLaws(Packed(s), 0, 0);
      PackedInjective(s, sum);
    }
  }

  method CreateChecksum(v: seq<nat>) returns (s: seq<nat>)
    ensures s == ChecksumFor(v, BECH32)
  {
    hide High, Xor, PolymodFrom;
    var zeros: seq<nat> := [0, 0, 0, 0, 0, 0];
    assert zeros == Zeros(6);
    var mod := ComputePolymod(v + zeros);
    mod := Xor(mod, BECH32);
    s := [];
    for i := 0 to 6
      invariant s == UnpackTo(mod, i)
    {
      s := s + [Group(mod, i)];
    }
  }
}

/** The v36 coinbase output assembly of scripts/gen_g2_oracle.py. */
module Coinbase {
  import opened Basics
  import opened Arithmetic
  import opened Sums

  type Script = seq<Byte>

  datatype Payout = Payout(script: Script, amount: nat)

  const MAX_OUTPUTS := 4000

  /** Byte strings compare lexicographically. */
  predicate LexLess(a: Script, b: Script) {
    b != [] && (a == [] || a[0] < b[0] || (a[0] == b[0] && LexLess(a[1..], b[1..])))
  }

  lemma {:induction false} LexTotal(a: Script, b: Script)
    ensures LexLess(a, b) || LexLess(b, a) || a == b
    ensures !(LexLess(a, b) && LexLess(b, a)) && !LexLess(a, a)
    decreases |a|
  {
    if a != [] {
      LexTotal(a[1..], a[1..]);
      if b != [] {
        LexTotal(a[1..], b[1..]);
        if a[0] == b[0] && a[1..] == b[1..] { assert a == [a[0]] + a[1..] && b == [b[0]] + b[1..]; }
      }
    }
  }

  lemma {:induction false} LexTransitive(a: Script, b: Script, c: Script)
    requires LexLess(a, b) && LexLess(b, c)
    ensures LexLess(a, c)
    decreases |a|
  {
    if a != [] && a[0] == b[0] && b[0] == c[0] { LexTransitive(a[1..], b[1..], c[1..]); }
  }

  /** a and b agree before position k, and a has the smaller byte there. */
  ghost predicate LessAt(a: Script, b: Script, k: nat) {
    k < |a| && k < |b| && (forall i :: 0 <= i < k ==> a[i] == b[i]) && a[k] < b[k]
  }

  /** a comes before b by the first byte in which they differ, or as a proper beginning of b. */
  ghost predicate ComesBefore(a: Script, b: Script) {
    || (|a| < |b| && forall i :: 0 <= i < |a| ==> a[i] == b[i])
    || exists k: nat :: LessAt(a, b, k)
  }

  /** LexLess is that order, the comparison of Python's byte strings. */
  lemma {:induction false} LexIsFirstDifference(a: Script, b: Script)
    ensures LexLess(a, b) <==> ComesBefore(a, b)
    decreases |a|
  {
    if a != [] && b != [] {
      if a[0] == b[0] {
        hide ComesBefore;
        LexIsFirstDifference(a[1..], b[1..]);
        ShiftedOrder(a, b);
      } else {
        assert a[0] < b[0] ==> LessAt(a, b, 0);
      }
    }
  }

  lemma ShiftedOrder(a: Script, b: Script)
    requires a != [] && b != [] && a[0] == b[0]
    ensures ComesBefore(a, b) <==> ComesBefore(a[1..], b[1..])
  {
    hide LessAt;
    var x, y := a[1..], b[1..];
    if k: nat :| LessAt(a, b, k) {
      ShiftedDifference(a, b, k);
      assert LessAt(x, y, k - 1);
    }
    if k: nat :| LessAt(x, y, k) {
      ShiftedDifference(a, b, k + 1);
      assert LessAt(a, b, k + 1);
    }
    ShiftedPrefix(a, b);
  }

  lemma ShiftedDifference(a: Script, b: Script, k: nat)
    requires a != [] && b != [] && a[0] == b[0]
    ensures LessAt(a, b, k) <==> k > 0 && LessAt(a[1..], b[1..], k - 1)
  {
    if k > 0 { SameBeginning(a, b, k); }
  }

  lemma ShiftedPrefix(a: Script, b: Script)
    requires a != [] && b != [] && a[0] == b[0]
    ensures (|a| < |b| && forall i :: 0 <= i < |a| ==> a[i] == b[i]) <==>
            (|a| < |b| && forall i :: 0 <= i < |a| - 1 ==> a[1..][i] == b[1..][i])
  {
    if |a| < |b| { SameBeginning(a, b, |a|); }
  }

  lemma SameBeginning(a: Script, b: Script, n: nat)
    requires a != [] && b != [] && a[0] == b[0] && n >= 1
    ensures n <= |a| && n <= |b| ==>
              ((forall i :: 0 <= i < n ==> a[i] == b[i]) <==> forall i :: 0 <= i < n - 1 ==> a[1..][i] == b[1..][i])
  {
    if n <= |a| && n <= |b| && forall i :: 0 <= i < n - 1 ==> a[1..][i] == b[1..][i] {
      forall i | 0 <= i < n ensures a[i] == b[i] { if i > 0 { assert a[1..][i - 1] == b[1..][i - 1]; } }
    }
  }

  /** The sort key (amount, script). */
  predicate KeyLess(amounts: map<Script, nat>, a: Script, b: Script)
    requires a in amounts && b in amounts
  {
    amounts[a] < amounts[b] || (amounts[a] == amounts[b] && LexLess(a, b))
  }

  lemma KeyOrder(amounts: map<Script, nat>, a: Script, b: Script, c: Script)
    requires a in amounts && b in amounts && c in amounts
    ensures KeyLess(amounts, a, b) || KeyLess(amounts, b, a) || a == b
    ensures !(KeyLess(amounts, a, b) && KeyLess(amounts, b, a)) && !KeyLess(amounts, a, a)
    ensures KeyLess(amounts, a, b) && KeyLess(amounts, b, c) ==> KeyLess(amounts, a, c)
  {
    LexTotal(a, b);
    if LexLess(a, b) && LexLess(b, c) { LexTransitive(a, b, c); }
  }

  // ---------- amounts ----------

  ghost function TotalWeight(weights: map<Script, nat>, donationWeight: nat): nat {
    Sum(weights) + donationWeight
  }

  /** Floored shares. */
  function Shares(weights: map<Script, nat>, total: nat, subsidy: nat): (m: map<Script, nat>)
    requires total > 0
    ensures m.Keys == weights.Keys
  {
    map s | s in weights :: Share(subsidy, weights[s], total)
  }

  function Share(subsidy: nat, w: nat, total: nat): (a: nat)
    requires total > 0
    ensures a * total <= subsidy * w < (a + 1) * total
  {
    var weighted := Product(subsidy, w);
    DivisionBounds(weighted, total);
    weighted / total
  }

  function Product(a: nat, b: nat): (p: nat)
    ensures p == a * b
  {
    ProductNonNegative(a, b);
    a * b
  }

  lemma SharesRemove(weights: map<Script, nat>, total: nat, subsidy: nat, s: Script)
    requires total > 0 && s in weights
    ensures Shares(weights, total, subsidy)[s] == Share(subsidy, weights[s], total)
    ensures Shares(weights, total, subsidy) - {s} == Shares(weights - {s}, total, subsidy)
  {
    hide Share;
  }

  lemma NoShares(total: nat, subsidy: nat)
    requires total > 0
    ensures Shares(map[], total, subsidy) == map[] && Sum<Script>(map[]) == 0
  {
  }

  lemma {:induction false} SharesSum(weights: map<Script, nat>, total: nat, subsidy: nat)
    requires total > 0
    ensures total * Sum(Shares(weights, total, subsidy)) <= subsidy * Sum(weights)
    decreases |weights|
  {
    hide Share, Shares, Sum;
    var m := Shares(weights, total, subsidy);
    NoShares(total, subsidy);
    if weights != map[] {
      var s :| s in weights;
      SharesSum(weights - {s}, total, subsidy);
      SumRemove(weights, s);
      SumRemove(m, s);
      SharesRemove(weights, total, subsidy, s);
      SplitProducts(total, m[s], Sum(m - {s}), subsidy, weights[s], Sum(weights - {s}));
    }
  }

  lemma SplitProducts(t: nat, a: nat, x: nat, u: nat, w: nat, y: nat)
    ensures t * (a + x) == a * t + t * x && u * (w + y) == u * w + u * y
  {
  }

  /** Flooring never hands out more than the subsidy. */
  lemma SharesWithinSubsidy(weights: map<Script, nat>, donationWeight: nat, subsidy: nat)
    requires TotalWeight(weights, donationWeight) > 0
    ensures Sum(Shares(weights, TotalWeight(weights, donationWeight), subsidy)) <= subsidy
  {
    hide Shares, Sum;
    var total := TotalWeight(weights, donationWeight);
    SharesSum(weights, total, subsidy);
    MulMonotone(subsidy, Sum(weights), subsidy, total);
    CancelAtMost(total, Sum(Shares(weights, total, subsidy)), subsidy);
  }

  ghost predicate IsLargest(m: map<Script, nat>, s: Script) {
    s in m && forall x :: x in m && x != s ==> KeyLess(m, x, s)
  }

  lemma LargestUnique(m: map<Script, nat>, s: Script, t: Script)
    requires IsLargest(m, s) && IsLargest(m, t)
    ensures s == t
  {
    KeyOrder(m, s, t, s);
  }

  lemma {:induction false} LargestExists(m: map<Script, nat>)
    requires m != map[]
    ensures exists s :: IsLargest(m, s)
    decreases |m|
  {
    var x :| x in m;
    var rest := m - {x};
    if rest == map[] {
      assert forall y :: y in m && y != x ==> y in rest;
      assert IsLargest(m, x);
    } else {
      LargestExists(rest);
      var s :| IsLargest(rest, s);
      KeyOrder(m, x, s, x);
      var top := if KeyLess(m, x, s) then s else x;
      forall y | y in m && y != top ensures KeyLess(m, y, top) {
        if y != x {
          assert y in rest && (y == s || KeyLess(rest, y, s));
          KeyOrder(m, y, s, x);
        }
      }
      assert IsLargest(m, top);
    }
  }

  /** max(amounts, key=(amount, script)). */
  ghost function Largest(m: map<Script, nat>): (s: Script)
    requires m != map[]
    ensures IsLargest(m, s)
  {
    LargestExists(m);
    var s :| IsLargest(m, s);
    s
  }

  lemma LargestPositive(m: map<Script, nat>)
    requires Sum(m) > 0
    ensures m != map[] && m[Largest(m)] > 0
  {
    if forall x :: x in m ==> m[x] == 0 { SumOfZeros(m); }
    var x :| x in m && m[x] > 0;
    var s := Largest(m);
    assert x == s || KeyLess(m, x, s);
  }

  /** If nothing is left for the donation, the largest amount gives up one unit. */
  ghost function Adjust(m: map<Script, nat>, subsidy: nat): map<Script, nat> {
    if Sum(m) < subsidy || subsidy == 0 then m else
      LargestPositive(m);
      m[Largest(m) := m[Largest(m)] - 1]
  }

  lemma AdjustSum(m: map<Script, nat>, subsidy: nat)
    requires Sum(m) <= subsidy
    ensures var m' := Adjust(m, subsidy);
            && m'.Keys == m.Keys && Sum(m') <= subsidy && (subsidy > 0 ==> Sum(m') < subsidy)
            && forall x :: x in m ==> m'[x] <= m[x] <= m'[x] + 1
  {
    if !(Sum(m) < subsidy || subsidy == 0) {
      LargestPositive(m);
      SumUpdate(m, Largest(m), m[Largest(m)] - 1);
    }
  }

  /** The amounts after adding the donation's part. */
  ghost function Final(m: map<Script, nat>, don: Script, subsidy: nat): map<Script, nat>
    requires Sum(m) <= subsidy
  {
    AdjustSum(m, subsidy);
    var m' := Adjust(m, subsidy);
    m'[don := At(m', don) + (subsidy - Sum(m'))]
  }

  /** The final amounts add up to the subsidy and leave the donation at least one unit. */
  lemma FinalFacts(m: map<Script, nat>, don: Script, subsidy: nat)
    requires Sum(m) <= subsidy
    ensures var amounts := Final(m, don, subsidy);
            && amounts.Keys == m.Keys + {don} && Sum(amounts) == subsidy
            && (subsidy > 0 ==> amounts[don] >= 1)
            && forall x :: x in m && x != don ==> amounts[x] <= m[x] <= amounts[x] + 1
  {
    hide Sum, Adjust;
    AdjustSum(m, subsidy);
    var m' := Adjust(m, subsidy);
    SumUpdate(m', don, At(m', don) + (subsidy - Sum(m')));
  }

  // ---------- the output list ----------

  ghost predicate Ascending(s: seq<Script>, amounts: map<Script, nat>) {
    && (forall i :: 0 <= i < |s| ==> s[i] in amounts)
    && (forall i, j :: 0 <= i < j < |s| ==> KeyLess(amounts, s[i], s[j]))
  }

  /** s lists exactly the given scripts in ascending (amount, script) order. */
  ghost predicate IsListing(s: seq<Script>, scripts: set<Script>, amounts: map<Script, nat>) {
    Ascending(s, amounts) && (forall x :: x in s <==> x in scripts)
  }

  /** [(s, amounts[s]) for s in dests if amounts[s]]. */
  function NonZero(dests: seq<Script>, amounts: map<Script, nat>): seq<Payout>
    requires forall i :: 0 <= i < |dests| ==> dests[i] in amounts
  {
    if dests == [] then [] else
      var s := dests[|dests| - 1];
      NonZero(dests[..|dests| - 1], amounts) + if amounts[s] > 0 then [Payout(s, amounts[s])] else []
  }

  function LastOf(s: seq<Script>, n: nat): seq<Script> {
    if |s| <= n then s else s[|s| - n..]
  }

  ghost predicate IsAssembly(amounts: map<Script, nat>, don: Script, payouts: seq<Payout>)
    requires don in amounts
  {
    exists s :: IsListing(s, amounts.Keys - {don}, amounts) &&
                payouts == NonZero(LastOf(s, MAX_OUTPUTS), amounts) + [Payout(don, amounts[don])]
  }

  ghost function Paid(payouts: seq<Payout>): nat {
    if payouts == [] then 0 else Paid(payouts[..|payouts| - 1]) + payouts[|payouts| - 1].amount
  }

  ghost function SumOver(s: seq<Script>, amounts: map<Script, nat>): nat
    requires forall i :: 0 <= i < |s| ==> s[i] in amounts
  {
    if s == [] then 0 else SumOver(s[..|s| - 1], amounts) + amounts[s[|s| - 1]]
  }

  lemma {:induction false} NonZeroPays(dests: seq<Script>, amounts: map<Script, nat>)
    requires forall i :: 0 <= i < |dests| ==> dests[i] in amounts
    ensures Paid(NonZero(dests, amounts)) == SumOver(dests, amounts)
    decreases |dests|
  {
    if dests != [] {
      var front, s := dests[..|dests| - 1], dests[|dests| - 1];
      NonZeroPays(front, amounts);
      var list := NonZero(front, amounts);
      assert (list + [Payout(s, amounts[s])])[..|list|] == list;
      assert list + [] == list;
    }
  }

  lemma {:induction false} SumOverJoin(a: seq<Script>, b: seq<Script>, amounts: map<Script, nat>)
    requires forall i :: 0 <= i < |a| ==> a[i] in amounts
    requires forall i :: 0 <= i < |b| ==> b[i] in amounts
    ensures SumOver(a + b, amounts) == SumOver(a, amounts) + SumOver(b, amounts)
    decreases |b|
  {
    if b == [] {
      assert a + b == a;
    } else {
      assert (a + b)[..|a + b| - 1] == a + b[..|b| - 1];
      SumOverJoin(a, b[..|b| - 1], amounts);
    }
  }

  lemma {:induction false} SumOverKeys(s: seq<Script>, m: map<Script, nat>, amounts: map<Script, nat>)
    requires Distinct(s)
    requires forall x :: x in s <==> x in m
    requires forall x :: x in m ==> x in amounts && amounts[x] == m[x]
    ensures SumOver(s, amounts) == Sum(m)
    decreases |s|
  {
    hide Sum;
    if s == [] {
      assert m.Keys == {};
      assert m == map[];
      EmptySum();
    } else {
      var front, last := s[..|s| - 1], s[|s| - 1];
      assert s == front + [last];
      assert last in s && last !in front;
      SumRemove(m, last);
      assert forall x :: x in s <==> x in front || x == last;
      SumOverKeys(front, m - {last}, amounts);
    }
  }

  lemma AscendingDistinct(s: seq<Script>, amounts: map<Script, nat>)
    requires Ascending(s, amounts)
    ensures Distinct(s)
  {
    forall i, j | 0 <= i < j < |s| ensures s[i] != s[j] { KeyOrder(amounts, s[i], s[i], s[i]); }
  }

  lemma {:induction false} ZeroSum(s: seq<Script>, amounts: map<Script, nat>)
    requires forall i :: 0 <= i < |s| ==> s[i] in amounts
    ensures SumOver(s, amounts) == 0 <==> forall i :: 0 <= i < |s| ==> amounts[s[i]] == 0
    decreases |s|
  {
    if s != [] {
      var front, last := s[..|s| - 1], s[|s| - 1];
      ZeroSum(front, amounts);
      assert forall i :: 0 <= i < |front| ==> front[i] == s[i];
      assert forall i :: 0 <= i < |s| ==> s[i] == if i < |front| then front[i] else last;
    }
  }

  // ---------- what the assembly guarantees ----------

  /** The outputs that a payout list competes for. */
  ghost function Earners(amounts: map<Script, nat>, don: Script): set<Script> {
    set s | s in amounts && s != don && amounts[s] > 0
  }

  lemma {:induction false} DistinctSize(s: seq<Script>)
    requires Distinct(s)
    ensures |Members(s)| == |s|
    decreases |s|
  {
    if s == [] {
      assert Members(s) == {};
    } else {
      var front, last := s[..|s| - 1], s[|s| - 1];
      assert s == front + [last];
      DistinctSize(front);
      MembersAppend(front, last);
    }
  }

  /** In ascending order the positive amounts are those from the first one on. */
  lemma CountPositive(s: seq<Script>, amounts: map<Script, nat>, k: nat)
    requires Ascending(s, amounts) && k <= |s|
    requires forall i :: 0 <= i < k ==> amounts[s[i]] == 0
    requires k < |s| ==> amounts[s[k]] > 0
    ensures |set x | x in s && amounts[x] > 0| == |s| - k
  {
    var rest := s[k..];
    AscendingDistinct(s, amounts);
    DistinctSize(rest);
    forall x ensures x in s && x in amounts && amounts[x] > 0 <==> x in rest {
      if x in s && x in amounts && amounts[x] > 0 {
        var i :| 0 <= i < |s| && s[i] == x;
        assert rest[i - k] == x;
      }
      if x in rest {
        var i :| 0 <= i < |rest| && rest[i] == x;
        assert x == s[k + i];
        assert i > 0 ==> KeyLess(amounts, s[k], s[k + i]);
      }
    }
    assert (set x | x in s && amounts[x] > 0) == Members(rest);
  }

  lemma {:induction false} FirstPositive(s: seq<Script>, amounts: map<Script, nat>) returns (k: nat)
    requires forall i :: 0 <= i < |s| ==> s[i] in amounts
    ensures k <= |s| && (forall i :: 0 <= i < k ==> amounts[s[i]] == 0) && (k < |s| ==> amounts[s[k]] > 0)
  {
    k := 0;
    while k < |s| && amounts[s[k]] == 0
      invariant k <= |s| && forall i :: 0 <= i < k ==> amounts[s[i]] == 0
    {
      k := k + 1;
    }
  }

  /** The outputs cut off by the limit are all empty exactly when at most MAX_OUTPUTS scripts earn anything. */
  lemma DroppedNothing(s: seq<Script>, amounts: map<Script, nat>, don: Script)
    requires don in amounts && IsListing(s, amounts.Keys - {don}, amounts)
    ensures SumOver(LastOf(s, MAX_OUTPUTS), amounts) <= SumOver(s, amounts)
    ensures SumOver(LastOf(s, MAX_OUTPUTS), amounts) == SumOver(s, amounts) <==> |Earners(amounts, don)| <= MAX_OUTPUTS
  {
    hide SumOver, KeyLess;
    var k := FirstPositive(s, amounts);
    CountPositive(s, amounts, k);
    assert Earners(amounts, don) == set x | x in s && amounts[x] > 0;
    if |s| > MAX_OUTPUTS { CutOff(s, amounts, |s| - MAX_OUTPUTS, k); }
  }

  /** Cutting off the front of the list loses something exactly when the first positive amount is cut off. */
  lemma CutOff(s: seq<Script>, amounts: map<Script, nat>, cut: nat, k: nat)
    requires cut <= |s| && k <= |s| && forall i :: 0 <= i < |s| ==> s[i] in amounts
    requires (forall i :: 0 <= i < k ==> amounts[s[i]] == 0) && (k < |s| ==> amounts[s[k]] > 0)
    ensures SumOver(s[cut..], amounts) <= SumOver(s, amounts)
    ensures SumOver(s[cut..], amounts) == SumOver(s, amounts) <==> cut <= k
  {
    hide SumOver;
    assert s == s[..cut] + s[cut..];
    SumOverJoin(s[..cut], s[cut..], amounts);
    ZeroSum(s[..cut], amounts);
    if k < cut { assert amounts[s[..cut][k]] > 0; }
  }

  /** Conservation: the outputs never exceed the subsidy, and spend it exactly when nobody who earns is cut off. */
  lemma PaysSubsidy(m: map<Script, nat>, don: Script, subsidy: nat, payouts: seq<Payout>)
    requires Sum(m) <= subsidy && don in Final(m, don, subsidy)
    requires IsAssembly(Final(m, don, subsidy), don, payouts)
    ensures Paid(payouts) <= subsidy
    ensures Paid(payouts) == subsidy <==> |Earners(Final(m, don, subsidy), don)| <= MAX_OUTPUTS
  {
    hide Sum, SumOver, NonZero, Final;
    var amounts := Final(m, don, subsidy);
    FinalFacts(m, don, subsidy);
    var s :| IsListing(s, amounts.Keys - {don}, amounts) &&
             payouts == NonZero(LastOf(s, MAX_OUTPUTS), amounts) + [Payout(don, amounts[don])];
    var kept := LastOf(s, MAX_OUTPUTS);
    NonZeroPays(kept, amounts);
    assert payouts[..|payouts| - 1] == NonZero(kept, amounts);
    AscendingDistinct(s, amounts);
    SumOverKeys(s, amounts - {don}, amounts);
    SumRemove(amounts, don);
    DroppedNothing(s, amounts, don);
  }

  // ---------- the same on the inputs ----------

  /** The shares before the donation; an empty table is never divided by anything. */
  ghost function Allotted(weights: map<Script, nat>, donationWeight: nat, subsidy: nat): (m: map<Script, nat>)
    requires weights == map[] || TotalWeight(weights, donationWeight) > 0
    ensures m.Keys == weights.Keys && Sum(m) <= subsidy
  {
    if weights == map[] then map[] else
      SharesWithinSubsidy(weights, donationWeight, subsidy);
      Shares(weights, TotalWeight(weights, donationWeight), subsidy)
  }

  /** The scripts whose exact share is at least one unit: a test on the inputs. */
  ghost function Competitors(weights: map<Script, nat>, donationWeight: nat, subsidy: nat, don: Script): set<Script> {
    set s | s in weights && s != don && Product(subsidy, weights[s]) >= TotalWeight(weights, donationWeight)
  }

  lemma ShareOfOne(a: nat, total: nat, x: nat)
    requires total > 0 && a * total <= x < (a + 1) * total
    ensures a > 0 <==> x >= total
    ensures a == 1 && a * total == x <==> x == total
    ensures a == 0 && a * total == x <==> x == 0
  {
    if a > 0 { MulMonotone(1, total, a, total); }
    if a > 1 { MulMonotone(2, total, a, total); }
  }

  lemma EarnersBeforeDonation(weights: map<Script, nat>, donationWeight: nat, subsidy: nat, don: Script)
    requires weights == map[] || TotalWeight(weights, donationWeight) > 0
    ensures Earners(Allotted(weights, donationWeight, subsidy), don) ==
            Competitors(weights, donationWeight, subsidy, don)
  {
    hide Share, Sum, TotalWeight;
    var m, total := Allotted(weights, donationWeight, subsidy), TotalWeight(weights, donationWeight);
    forall s | s in weights ensures m[s] > 0 <==> Product(subsidy, weights[s]) >= total {
      ShareOfOne(m[s], total, Product(subsidy, weights[s]));
    }
  }

  /** The adjustment takes the last unit from a script other than the donation. */
  ghost predicate TakesLastUnit(m: map<Script, nat>, don: Script, subsidy: nat) {
    Sum(m) == subsidy > 0 && m != map[] && Largest(m) != don && m[Largest(m)] == 1
  }

  lemma FinalEarners(m: map<Script, nat>, don: Script, subsidy: nat)
    requires Sum(m) <= subsidy
    ensures Earners(Final(m, don, subsidy), don) ==
            Earners(m, don) - if TakesLastUnit(m, don, subsidy) then {Largest(m)} else {}
    ensures TakesLastUnit(m, don, subsidy) ==> Largest(m) in Earners(m, don)
  {
    hide Sum, Largest;
    AdjustSum(m, subsidy);
    if !(Sum(m) < subsidy || subsidy == 0) { LargestPositive(m); }
  }

  /** Every share is exact: nothing is lost to flooring. */
  ghost predicate ExactShares(weights: map<Script, nat>, total: nat, subsidy: nat)
    requires total > 0
  {
    forall s :: s in weights ==> Product(Share(subsidy, weights[s], total), total) == Product(subsidy, weights[s])
  }

  lemma {:induction false} ExactSum(weights: map<Script, nat>, total: nat, subsidy: nat)
    requires total > 0
    ensures total * Sum(Shares(weights, total, subsidy)) == subsidy * Sum(weights) <==>
            ExactShares(weights, total, subsidy)
    decreases |weights|
  {
    hide Share, Shares, Sum, ExactShares;
    var m := Shares(weights, total, subsidy);
    NoShares(total, subsidy);
    if weights == map[] {
      NoExactShares(total, subsidy);
    } else {
      var s :| s in weights;
      var rest := weights - {s};
      ExactSum(rest, total, subsidy);
      SharesSum(rest, total, subsidy);
      SumRemove(weights, s);
      SumRemove(m, s);
      SharesRemove(weights, total, subsidy, s);
      ExactSplit(total, m[s], Sum(m - {s}), subsidy, weights[s], Sum(rest));
      ExactRemove(weights, total, subsidy, s);
    }
  }

  lemma NoExactShares(total: nat, subsidy: nat)
    requires total > 0
    ensures ExactShares(map[], total, subsidy)
  {
  }

  lemma ExactRemove(weights: map<Script, nat>, total: nat, subsidy: nat, s: Script)
    requires total > 0 && s in weights
    ensures ExactShares(weights, total, subsidy) <==>
            ExactShares(weights - {s}, total, subsidy) &&
            Product(Share(subsidy, weights[s], total), total) == Product(subsidy, weights[s])
  {
    hide Share, Product;
    var rest := weights - {s};
    assert forall x :: x in weights ==> x == s || (x in rest && rest[x] == weights[x]);
  }

  lemma ExactSplit(t: nat, a: nat, x: nat, u: nat, w: nat, y: nat)
    requires a * t <= u * w && t * x <= u * y
    ensures t * (a + x) == u * (w + y) <==> a * t == u * w && t * x == u * y
  {
    SplitProducts(t, a, x, u, w, y);
  }

  /** The shares use up the subsidy exactly when the donation has no weight and no share is floored. */
  lemma SpentExactly(weights: map<Script, nat>, donationWeight: nat, subsidy: nat)
    requires TotalWeight(weights, donationWeight) > 0 && subsidy > 0
    ensures var total := TotalWeight(weights, donationWeight);
            Sum(Shares(weights, total, subsidy)) == subsidy <==>
            donationWeight == 0 && ExactShares(weights, total, subsidy)
  {
    hide Shares, Sum, ExactShares;
    var total := TotalWeight(weights, donationWeight);
    ExactSum(weights, total, subsidy);
    SharesSum(weights, total, subsidy);
    SpentArithmetic(total, Sum(Shares(weights, total, subsidy)), subsidy, Sum(weights), donationWeight);
  }

  lemma SpentArithmetic(total: nat, shared: nat, subsidy: nat, w: nat, d: nat)
    requires total > 0 && subsidy > 0 && total == w + d && total * shared <= subsidy * w
    ensures shared == subsidy <==> d == 0 && total * shared == subsidy * w
  {
    assert subsidy * total == subsidy * w + subsidy * d;
    if d > 0 { ScaleLess(subsidy, 0, d); }
    if total * shared == subsidy * total {
      CancelAtMost(total, shared, subsidy);
      CancelAtMost(total, subsidy, shared);
    }
  }

  /**
   * On the inputs: the donation has no weight, every script weighs nothing or exactly one unit's worth, and a
   * weighing script other than the donation is the last in script order.
   */
  ghost predicate Rescued(weights: map<Script, nat>, donationWeight: nat, subsidy: nat, don: Script) {
    var total := TotalWeight(weights, donationWeight);
    && donationWeight == 0
    && (forall s :: s in weights ==> Product(subsidy, weights[s]) in {0, total})
    && (exists s :: s in weights && s != don && weights[s] > 0 && (At(weights, don) > 0 ==> LexLess(don, s)))
  }

  lemma PositiveProduct(a: nat, b: nat)
    ensures Product(a, b) > 0 <==> a > 0 && b > 0
  {
    if a > 0 && b > 0 { MulMonotone(1, 1, a, b); }
  }

  lemma RescuedExactly(weights: map<Script, nat>, donationWeight: nat, subsidy: nat, don: Script)
    requires TotalWeight(weights, donationWeight) > 0 && subsidy > 0
    ensures TakesLastUnit(Allotted(weights, donationWeight, subsidy), don, subsidy) <==>
            Rescued(weights, donationWeight, subsidy, don)
  {
    hide Sum, Share, TotalWeight, Largest;
    var m, total := Allotted(weights, donationWeight, subsidy), TotalWeight(weights, donationWeight);
    EmptySum();
    SpentExactly(weights, donationWeight, subsidy);
    if TakesLastUnit(m, don, subsidy) { TakenIsRescued(weights, donationWeight, subsidy, don); }
    if Rescued(weights, donationWeight, subsidy, don) { RescuedIsTaken(weights, donationWeight, subsidy, don); }
  }

  lemma TakenIsRescued(weights: map<Script, nat>, donationWeight: nat, subsidy: nat, don: Script)
    requires TotalWeight(weights, donationWeight) > 0 && subsidy > 0 && weights != map[]
    requires TakesLastUnit(Allotted(weights, donationWeight, subsidy), don, subsidy)
    requires donationWeight == 0 && ExactShares(weights, TotalWeight(weights, donationWeight), subsidy)
    ensures Rescued(weights, donationWeight, subsidy, don)
  {
    hide Sum, Share, TotalWeight, Largest, Product;
    var m, total := Allotted(weights, donationWeight, subsidy), TotalWeight(weights, donationWeight);
    var top := Largest(m);
    forall s | s in weights
      ensures Product(subsidy, weights[s]) in {0, total} && (weights[s] > 0 ==> m[s] == 1)
    {
      assert s == top || KeyLess(m, s, top);
      PositiveProduct(subsidy, weights[s]);
      ShareOfOne(m[s], total, Product(subsidy, weights[s]));
    }
    PositiveProduct(subsidy, weights[top]);
    ShareOfOne(m[top], total, Product(subsidy, weights[top]));
    if At(weights, don) > 0 { assert KeyLess(m, don, top); }
  }

  lemma RescuedIsTaken(weights: map<Script, nat>, donationWeight: nat, subsidy: nat, don: Script)
    requires TotalWeight(weights, donationWeight) > 0 && subsidy > 0 && Rescued(weights, donationWeight, subsidy, don)
    requires ExactShares(weights, TotalWeight(weights, donationWeight), subsidy) ==>
               Sum(Shares(weights, TotalWeight(weights, donationWeight), subsidy)) == subsidy
    ensures TakesLastUnit(Allotted(weights, donationWeight, subsidy), don, subsidy)
  {
    hide Sum, Share, TotalWeight, Largest, Product;
    var m, total := Allotted(weights, donationWeight, subsidy), TotalWeight(weights, donationWeight);
    forall s | s in weights
      ensures m[s] == (if weights[s] > 0 then 1 else 0) && Product(m[s], total) == Product(subsidy, weights[s])
    {
      PositiveProduct(subsidy, weights[s]);
      ShareOfOne(m[s], total, Product(subsidy, weights[s]));
    }
    var s :| s in weights && s != don && weights[s] > 0 && (At(weights, don) > 0 ==> LexLess(don, s));
    assert m != map[];
    var top := Largest(m);
    assert s == top || KeyLess(m, s, top);
    if top == don { KeyOrder(m, s, don, s); }
  }

  /**
   * Conservation on the inputs: with E the scripts whose exact share is at least one unit, the outputs spend the
   * subsidy if and only if |E| <= MAX_OUTPUTS, or |E| is one more and the adjustment takes one of them its last unit.
   */
  lemma PaysSubsidyExactly(weights: map<Script, nat>, donationWeight: nat, subsidy: nat, don: Script,
                           payouts: seq<Payout>)
    requires weights == map[] || TotalWeight(weights, donationWeight) > 0
    requires don in Final(Allotted(weights, donationWeight, subsidy), don, subsidy)
    requires IsAssembly(Final(Allotted(weights, donationWeight, subsidy), don, subsidy), don, payouts)
    ensures Paid(payouts) <= subsidy
    ensures var e := |Competitors(weights, donationWeight, subsidy, don)|;
            Paid(payouts) == subsidy <==>
            e <= MAX_OUTPUTS || (e == MAX_OUTPUTS + 1 && Rescued(weights, donationWeight, subsidy, don))
  {
    hide Sum, Final, IsAssembly, Allotted, Competitors, Rescued, TotalWeight, TakesLastUnit, Paid;
    var m := Allotted(weights, donationWeight, subsidy);
    PaysSubsidy(m, don, subsidy, payouts);
    EarnersBeforeDonation(weights, donationWeight, subsidy, don);
    FinalEarners(m, don, subsidy);
    if Competitors(weights, donationWeight, subsidy, don) != {} {
      CompetitorsNeedSubsidy(weights, donationWeight, subsidy, don);
      RescuedExactly(weights, donationWeight, subsidy, don);
    }
  }

  lemma CompetitorsNeedSubsidy(weights: map<Script, nat>, donationWeight: nat, subsidy: nat, don: Script)
    requires Competitors(weights, donationWeight, subsidy, don) != {}
    requires weights == map[] || TotalWeight(weights, donationWeight) > 0
    ensures subsidy > 0 && TotalWeight(weights, donationWeight) > 0
  {
    var s :| s in Competitors(weights, donationWeight, subsidy, don);
    PositiveProduct(subsidy, weights[s]);
  }

  /** At most MAX_OUTPUTS scripts besides the donation: the subsidy is spent, whatever the weights. */
  lemma FewScriptsPaySubsidy(weights: map<Script, nat>, donationWeight: nat, subsidy: nat, don: Script,
                             payouts: seq<Payout>)
    requires weights == map[] || TotalWeight(weights, donationWeight) > 0
    requires don in Final(Allotted(weights, donationWeight, subsidy), don, subsidy)
    requires IsAssembly(Final(Allotted(weights, donationWeight, subsidy), don, subsidy), don, payouts)
    requires |weights.Keys - {don}| <= MAX_OUTPUTS
    ensures Paid(payouts) == subsidy
  {
    hide Sum, Final, IsAssembly, Allotted, Rescued, TotalWeight, Paid;
    PaysSubsidyExactly(weights, donationWeight, subsidy, don, payouts);
    SubsetSize(Competitors(weights, donationWeight, subsidy, don), weights.Keys - {don});
  }

  function Zeros(n: nat): (s: Script)
    ensures |s| == n
  {
    seq(n, _ => 0)
  }

  /** n scripts of weight one: one zero byte, two zero bytes, and so on. */
  function EqualWeights(n: nat): map<Script, nat> {
    if n == 0 then map[] else EqualWeights(n - 1)[Zeros(n) := 1]
  }

  lemma {:induction false} EqualWeightsAre(n: nat)
    ensures |EqualWeights(n)| == n && forall s :: s in EqualWeights(n) ==> EqualWeights(n)[s] == 1
    ensures forall s :: s in EqualWeights(n) ==> 1 <= |s| <= n
  {
    if n > 0 {
      EqualWeightsAre(n - 1);
      assert Zeros(n) !in EqualWeights(n - 1);
    }
  }

  lemma {:induction false} EqualWeightsSum(n: nat)
    ensures Sum(EqualWeights(n)) == n
  {
    hide Sum;
    if n == 0 {
      EmptySum();
    } else {
      EqualWeightsSum(n - 1);
      EqualWeightsAre(n - 1);
      SumUpdate(EqualWeights(n - 1), Zeros(n), 1);
    }
  }

  lemma {:induction false} SumOverOnes(s: seq<Script>, amounts: map<Script, nat>)
    requires forall i :: 0 <= i < |s| ==> s[i] in amounts && amounts[s[i]] == 1
    ensures SumOver(s, amounts) == |s|
    decreases |s|
  {
    if s != [] { SumOverOnes(s[..|s| - 1], amounts); }
  }

  lemma ListingSize(s: seq<Script>, scripts: set<Script>, amounts: map<Script, nat>)
    requires IsListing(s, scripts, amounts)
    ensures |s| == |scripts|
  {
    AscendingDistinct(s, amounts);
    DistinctSize(s);
    assert Members(s) == scripts;
  }

  /** Weights and donation all one: every script is allotted one unit and the donation is left one. */
  lemma EqualFinal(n: nat, don: Script)
    requires don !in EqualWeights(n)
    ensures TotalWeight(EqualWeights(n), 1) == n + 1
    ensures Final(Allotted(EqualWeights(n), 1, n + 1), don, n + 1) == EqualWeights(n)[don := 1]
  {
    hide Sum, EqualWeights, Share;
    var weights := EqualWeights(n);
    EqualWeightsSum(n);
    EqualWeightsAre(n);
    var m := Allotted(weights, 1, n + 1);
    forall s | s in weights ensures m[s] == 1 { ShareOfOne(m[s], n + 1, Product(n + 1, 1)); }
    assert m == weights;
  }

  /**
   * Where the outputs fall short: n scripts of weight one and a donation of weight one share n + 1 units, one each.
   * Beyond the output limit every further script's unit is lost, whatever n is and wherever the donation goes.
   */
  lemma EqualWeightsUnderpay(n: nat, don: Script, payouts: seq<Payout>)
    requires n > MAX_OUTPUTS && don !in EqualWeights(n)
    requires IsAssembly(Final(Allotted(EqualWeights(n), 1, n + 1), don, n + 1), don, payouts)
    ensures Paid(payouts) == MAX_OUTPUTS + 1 < n + 1
  {
    EqualFinal(n, don);
    EqualWeightsAre(n);
    hide NonZero, SumOver, EqualWeights, Final, Allotted, KeyLess;
    var amounts := EqualWeights(n)[don := 1];
    assert amounts.Keys - {don} == EqualWeights(n).Keys;
    var s :| IsListing(s, amounts.Keys - {don}, amounts) &&
             payouts == NonZero(LastOf(s, MAX_OUTPUTS), amounts) + [Payout(don, amounts[don])];
    OnesKept(s, EqualWeights(n), amounts, n);
    assert payouts[..|payouts| - 1] == NonZero(LastOf(s, MAX_OUTPUTS), amounts);
  }

  /** COMBINED_DONATION_SCRIPT. */
  const DONATION_SCRIPT: Script :=
    [0xa9, 0x14, 0x8c, 0x62, 0x72, 0x62, 0x1d, 0x89, 0xe8, 0xfa, 0x52, 0x6d,
     0xd8, 0x6a, 0xcf, 0xf6, 0x0c, 0x71, 0x36, 0xbe, 0x8e, 0x85, 0x87]

  lemma {:induction false} OnlyZeros(n: nat, s: Script)
    requires s in EqualWeights(n)
    ensures s != [] && s[0] == 0
  {
    if n > 0 && s in EqualWeights(n - 1) { OnlyZeros(n - 1, s); }
  }

  /** The fixed donation script is none of those scripts, so they fall short with it. */
  lemma DonationApart(n: nat)
    ensures DONATION_SCRIPT !in EqualWeights(n)
  {
    if DONATION_SCRIPT in EqualWeights(n) { OnlyZeros(n, DONATION_SCRIPT); }
  }

  /** What is kept of a listing of single units. */
  lemma OnesKept(s: seq<Script>, ones: map<Script, nat>, amounts: map<Script, nat>, n: nat)
    requires IsListing(s, ones.Keys, amounts) && |ones| == n > MAX_OUTPUTS
    requires forall x :: x in ones ==> x in amounts && amounts[x] == 1
    ensures forall i :: 0 <= i < |LastOf(s, MAX_OUTPUTS)| ==> LastOf(s, MAX_OUTPUTS)[i] in amounts
    ensures Paid(NonZero(LastOf(s, MAX_OUTPUTS), amounts)) == MAX_OUTPUTS
  {
    hide NonZero, SumOver, KeyLess;
    ListingSize(s, ones.Keys, amounts);
    var kept := LastOf(s, MAX_OUTPUTS);
    assert |ones.Keys| == |ones|;
    assert forall i :: 0 <= i < |kept| ==> kept[i] in s;
    NonZeroPays(kept, amounts);
    SumOverOnes(kept, amounts);
  }

  /** At the limit plus one the adjustment can rescue the sum: the largest of 4001 single units gives its own up. */
  lemma AdjustmentRescues(don: Script, payouts: seq<Payout>)
    requires don !in EqualWeights(MAX_OUTPUTS + 1) && TotalWeight(EqualWeights(MAX_OUTPUTS + 1), 0) > 0
    requires var amounts := Final(Allotted(EqualWeights(MAX_OUTPUTS + 1), 0, MAX_OUTPUTS + 1), don, MAX_OUTPUTS + 1);
             don in amounts && IsAssembly(amounts, don, payouts)
    ensures |Competitors(EqualWeights(MAX_OUTPUTS + 1), 0, MAX_OUTPUTS + 1, don)| == MAX_OUTPUTS + 1
    ensures Paid(payouts) == MAX_OUTPUTS + 1
  {
    hide Sum, EqualWeights, Final, Allotted, IsAssembly, Paid;
    var n, weights := MAX_OUTPUTS + 1, EqualWeights(MAX_OUTPUTS + 1);
    EqualWeightsSum(n);
    EqualWeightsAre(n);
    assert Competitors(weights, 0, n, don) == weights.Keys;
    var some :| some in weights;
    PaysSubsidyExactly(weights, 0, n, don, payouts);
  }

  predicate PayoutLess(p: Payout, q: Payout) {
    p.amount < q.amount || (p.amount == q.amount && LexLess(p.script, q.script))
  }

  /** A payout list drawn from dests, in strictly ascending order. */
  ghost predicate OrderedFrom(r: seq<Payout>, dests: seq<Script>, amounts: map<Script, nat>) {
    && (forall i :: 0 <= i < |r| ==> r[i].script in dests && r[i].script in amounts)
    && (forall i :: 0 <= i < |r| ==> r[i].amount == amounts[r[i].script] > 0)
    && (forall i, j :: 0 <= i < j < |r| ==> PayoutLess(r[i], r[j]))
  }

  lemma {:induction false} NonZeroOrdered(dests: seq<Script>, amounts: map<Script, nat>)
    requires Ascending(dests, amounts)
    ensures OrderedFrom(NonZero(dests, amounts), dests, amounts)
    decreases |dests|
  {
    if dests != [] {
      hide KeyLess, PayoutLess;
      var front, s := dests[..|dests| - 1], dests[|dests| - 1];
      NonZeroOrdered(front, amounts);
      AppendOrdered(NonZero(front, amounts), front, s, dests, amounts);
    }
  }

  lemma AppendOrdered(list: seq<Payout>, front: seq<Script>, s: Script, dests: seq<Script>, amounts: map<Script, nat>)
    requires Ascending(dests, amounts) && dests == front + [s] && s in amounts && OrderedFrom(list, front, amounts)
    ensures OrderedFrom(list, dests, amounts)
    ensures amounts[s] > 0 ==> OrderedFrom(list + [Payout(s, amounts[s])], dests, amounts)
  {
    forall i | 0 <= i < |list| ensures list[i].script in dests && PayoutLess(list[i], Payout(s, amounts[s])) {
      var k :| 0 <= k < |front| && front[k] == list[i].script;
      assert dests[k] == front[k] && dests[|front|] == s;
      assert KeyLess(amounts, dests[k], dests[|front|]);
    }
  }

  lemma LastAscending(s: seq<Script>, n: nat, amounts: map<Script, nat>)
    requires Ascending(s, amounts)
    ensures Ascending(LastOf(s, n), amounts)
  {
  }

  /** The output order, written out: by amount, and on a tie by the first byte in which the scripts differ. */
  ghost predicate Ranked(p: Payout, q: Payout) {
    p.amount < q.amount || (p.amount == q.amount && ComesBefore(p.script, q.script))
  }

  lemma RankedIsLess(p: Payout, q: Payout)
    ensures PayoutLess(p, q) <==> Ranked(p, q)
  {
    LexIsFirstDifference(p.script, q.script);
  }

  /**
   * Shape: the donation comes last and is at least one; the others are distinct earners in strictly ascending order,
   * each paid its final amount. Whoever earns something and is not listed ranks below all of a full list.
   */
  lemma OutputShape(m: map<Script, nat>, don: Script, subsidy: nat, payouts: seq<Payout>)
    requires Sum(m) <= subsidy && don in Final(m, don, subsidy)
    requires IsAssembly(Final(m, don, subsidy), don, payouts)
    ensures payouts != [] && payouts[|payouts| - 1] == Payout(don, Final(m, don, subsidy)[don])
    ensures subsidy > 0 ==> payouts[|payouts| - 1].amount >= 1
    ensures var front := payouts[..|payouts| - 1];
            && (forall i, j :: 0 <= i < j < |front| ==> Ranked(front[i], front[j]))
            && (forall i :: 0 <= i < |front| ==> front[i].script in Earners(Final(m, don, subsidy), don))
            && (forall i :: 0 <= i < |front| ==> front[i].amount == Final(m, don, subsidy)[front[i].script])
    ensures var amounts, front := Final(m, don, subsidy), payouts[..|payouts| - 1];
            forall x :: x in Earners(amounts, don) && Payout(x, amounts[x]) !in front ==>
              |front| == 4000 && forall i :: 0 <= i < |front| ==> Ranked(Payout(x, amounts[x]), front[i])
  {
    hide Sum, NonZero, Final, KeyLess, PayoutLess, Ranked;
    var amounts := Final(m, don, subsidy);
    FinalFacts(m, don, subsidy);
    var s :| IsListing(s, amounts.Keys - {don}, amounts) &&
             payouts == NonZero(LastOf(s, MAX_OUTPUTS), amounts) + [Payout(don, amounts[don])];
    var dests := LastOf(s, MAX_OUTPUTS);
    LastAscending(s, MAX_OUTPUTS, amounts);
    NonZeroOrdered(dests, amounts);
    var front := payouts[..|payouts| - 1];
    assert front == NonZero(dests, amounts);
    assert forall x :: x in dests ==> x in s;
    forall i, j | 0 <= i < j < |front| ensures Ranked(front[i], front[j]) { RankedIsLess(front[i], front[j]); }
    forall x | x in Earners(amounts, don) && Payout(x, amounts[x]) !in front
      ensures |front| == 4000 && forall i :: 0 <= i < |front| ==> Ranked(Payout(x, amounts[x]), front[i])
    {
      LeftOutRanksBelow(s, amounts, x);
    }
  }

  lemma {:induction false} NonZeroHas(dests: seq<Script>, amounts: map<Script, nat>, x: Script)
    requires forall i :: 0 <= i < |dests| ==> dests[i] in amounts
    requires x in dests && amounts[x] > 0
    ensures Payout(x, amounts[x]) in NonZero(dests, amounts)
    decreases |dests|
  {
    var front, s := dests[..|dests| - 1], dests[|dests| - 1];
    assert dests == front + [s];
    if x != s { NonZeroHas(front, amounts, x); }
  }

  lemma {:induction false} NonZeroAll(dests: seq<Script>, amounts: map<Script, nat>)
    requires forall i :: 0 <= i < |dests| ==> dests[i] in amounts && amounts[dests[i]] > 0
    ensures |NonZero(dests, amounts)| == |dests|
    ensures forall i :: 0 <= i < |dests| ==> NonZero(dests, amounts)[i] == Payout(dests[i], amounts[dests[i]])
    decreases |dests|
  {
    if dests != [] { NonZeroAll(dests[..|dests| - 1], amounts); }
  }

  lemma KeptFrom(s: seq<Script>, k: nat)
    requires k < |s|
    ensures |s| <= 4000 || k >= |s| - 4000 ==> s[k] in LastOf(s, MAX_OUTPUTS)
  {
    if |s| > 4000 && k >= |s| - 4000 { assert LastOf(s, MAX_OUTPUTS)[k - (|s| - 4000)] == s[k]; }
  }

  /** An earner cut off by the limit stands before everything that is kept, and all of that earns something. */
  lemma LeftOutRanksBelow(s: seq<Script>, amounts: map<Script, nat>, x: Script)
    requires Ascending(s, amounts) && x in s && amounts[x] > 0
    requires forall i :: 0 <= i < |LastOf(s, MAX_OUTPUTS)| ==> LastOf(s, MAX_OUTPUTS)[i] in amounts
    requires Payout(x, amounts[x]) !in NonZero(LastOf(s, MAX_OUTPUTS), amounts)
    ensures var front := NonZero(LastOf(s, MAX_OUTPUTS), amounts);
            |front| == 4000 && forall i :: 0 <= i < |front| ==> Ranked(Payout(x, amounts[x]), front[i])
  {
    hide NonZero, Ranked;
    var kept := LastOf(s, MAX_OUTPUTS);
    if x in kept { NonZeroHas(kept, amounts, x); }
    var cut := |s| - 4000;
    var k :| 0 <= k < |s| && s[k] == x;
    KeptFrom(s, k);
    assert |s| > 4000 && k < cut;
    forall i | 0 <= i < |kept| ensures KeyLess(amounts, x, kept[i]) { assert kept[i] == s[cut + i]; }
    NonZeroAll(kept, amounts);
    forall i | 0 <= i < |kept| ensures Ranked(Payout(x, amounts[x]), Payout(kept[i], amounts[kept[i]])) {
      RankedIsLess(Payout(x, amounts[x]), Payout(kept[i], amounts[kept[i]]));
    }
  }

  /** x has the largest (amount, script) of all, in the written-out order. */
  ghost predicate RanksLast(m: map<Script, nat>, x: Script) {
    x in m && forall y :: y in m && y != x ==> Ranked(Payout(y, m[y]), Payout(x, m[x]))
  }

  /**
   * The final amounts, exactly: a script keeps its floored share, except that the one ranked last gives up a unit when
   * the shares use up a positive subsidy. The donation gets the rest.
   */
  lemma FinalExactly(m: map<Script, nat>, don: Script, subsidy: nat, x: Script)
    requires Sum(m) <= subsidy && x in m && x != don
    ensures x in Final(m, don, subsidy)
    ensures Final(m, don, subsidy)[x] + (if Sum(m) == subsidy > 0 && RanksLast(m, x) then 1 else 0) == m[x]
  {
    hide Sum, Largest, Ranked;
    AdjustSum(m, subsidy);
    if Sum(m) == subsidy > 0 {
      LargestPositive(m);
      LastIsLargest(m, x);
    }
  }

  lemma LastIsLargest(m: map<Script, nat>, x: Script)
    requires m != map[] && x in m
    ensures RanksLast(m, x) <==> x == Largest(m)
  {
    hide Largest, Ranked;
    forall y, z | y in m && z in m ensures KeyLess(m, y, z) <==> Ranked(Payout(y, m[y]), Payout(z, m[z])) {
      RankedIsLess(Payout(y, m[y]), Payout(z, m[z]));
    }
    if RanksLast(m, x) { LargestUnique(m, x, Largest(m)); }
  }

  /** Every script's final amount is at most its exact share and less than two units below it. */
  lemma FairShares(weights: map<Script, nat>, donationWeight: nat, subsidy: nat, don: Script, s: Script)
    requires TotalWeight(weights, donationWeight) > 0 && s in weights && s != don
    ensures var total := TotalWeight(weights, donationWeight);
            var amounts := Final(Allotted(weights, donationWeight, subsidy), don, subsidy);
            s in amounts && amounts[s] * total <= subsidy * weights[s] < (amounts[s] + 2) * total
  {
    hide Sum, Final, TotalWeight, Allotted;
    var m := Allotted(weights, donationWeight, subsidy);
    FinalFacts(m, don, subsidy);
    AllottedShare(weights, donationWeight, subsidy, s);
    ShareRange(Final(m, don, subsidy)[s], m[s], TotalWeight(weights, donationWeight), subsidy * weights[s]);
  }

  lemma AllottedShare(weights: map<Script, nat>, donationWeight: nat, subsidy: nat, s: Script)
    requires TotalWeight(weights, donationWeight) > 0 && s in weights
    ensures var a, total := Allotted(weights, donationWeight, subsidy)[s], TotalWeight(weights, donationWeight);
            a * total <= subsidy * weights[s] < (a + 1) * total
  {
    hide Sum, TotalWeight, Share;
  }

  lemma ShareRange(a: nat, b: nat, total: nat, x: nat)
    requires a <= b <= a + 1 && b * total <= x < (b + 1) * total
    ensures a * total <= x < (a + 2) * total
  {
    MulMonotone(a, total, b, total);
    MulMonotone(b + 1, total, a + 2, total);
  }

  // ---------- the operation ----------

  method SumValues(m: map<Script, nat>) returns (n: nat)
    ensures n == Sum(m)
  {
    n := 0;
    var rest := m;
    while rest != map[]
      invariant n + Sum(rest) == Sum(m)
      decreases |rest|
    {
      assert rest.Keys != {};
      var s :| s in rest.Keys;
      SumRemove(rest, s);
      n := n + rest[s];
      rest := rest - {s};
    }
  }

  method FindLargest(m: map<Script, nat>) returns (best: Script)
    requires m != map[]
    ensures best == Largest(m)
  {
    assert m.Keys != {};
    best :| best in m.Keys;
    var rest := m.Keys - {best};
    while rest != {}
      invariant best in m && rest <= m.Keys && best !in rest
      invariant forall x :: x in m && x !in rest && x != best ==> KeyLess(m, x, best)
      decreases |rest|
    {
      var s :| s in rest;
      KeyOrder(m, best, s, best);
      forall x | x in m ensures KeyLess(m, x, best) && KeyLess(m, best, s) ==> KeyLess(m, x, s) {
        KeyOrder(m, x, best, s);
      }
      if KeyLess(m, best, s) { best := s; }
      rest := rest - {s};
    }
    LargestUnique(m, best, Largest(m));
  }

  method SortScripts(scripts: set<Script>, amounts: map<Script, nat>) returns (s: seq<Script>)
    requires scripts <= amounts.Keys
    ensures IsListing(s, scripts, amounts)
  {
    s := [];
    var rest := scripts;
    while rest != {}
      invariant rest <= scripts && IsListing(s, scripts - rest, amounts)
      decreases |rest|
    {
      var x :| x in rest;
      rest := rest - {x};
      assert scripts - rest == (scripts - (rest + {x})) + {x};
      s := InsertScript(s, scripts - (rest + {x}), x, amounts);
    }
    assert scripts - rest == scripts;
  }

  method InsertScript(s: seq<Script>, scripts: set<Script>, x: Script, amounts: map<Script, nat>)
    returns (r: seq<Script>)
    requires IsListing(s, scripts, amounts) && x in amounts && x !in scripts
    ensures IsListing(r, scripts + {x}, amounts)
  {
    var i := 0;
    while i < |s| && KeyLess(amounts, s[i], x)
      invariant 0 <= i <= |s| && forall k :: 0 <= k < i ==> KeyLess(amounts, s[k], x)
    {
      i := i + 1;
    }
    r := s[..i] + [x] + s[i..];
    forall k | i <= k < |s| ensures KeyLess(amounts, x, s[k]) {
      assert s[i] in s && s[i] != x;
      KeyOrder(amounts, s[i], x, x);
      KeyOrder(amounts, x, s[i], s[k]);
    }
    InsertedAscending(s, i, x, amounts, r);
    assert s == s[..i] + s[i..];
    assert forall y :: y in r <==> y in s || y == x;
  }

  lemma InsertedAscending(s: seq<Script>, i: nat, x: Script, amounts: map<Script, nat>, r: seq<Script>)
    requires i <= |s| && Ascending(s, amounts) && x in amounts && r == s[..i] + [x] + s[i..]
    requires forall k :: 0 <= k < i ==> KeyLess(amounts, s[k], x)
    requires forall k :: i <= k < |s| ==> KeyLess(amounts, x, s[k])
    ensures Ascending(r, amounts)
  {
    hide KeyLess;
    assert forall k :: 0 <= k < |r| ==> r[k] == if k < i then s[k] else if k == i then x else s[k - 1];
  }

  /** assemble_v36. None is the division by zero of a non-empty weight table that weighs nothing. */
  method AssembleV36(weights: map<Script, nat>, donationWeight: nat, subsidy: nat, don: Script)
    returns (r: Option<seq<Payout>>)
    ensures r.None? <==> weights != map[] && TotalWeight(weights, donationWeight) == 0
    ensures r.Some? ==> var amounts := Final(Allotted(weights, donationWeight, subsidy), don, subsidy);
              don in amounts && IsAssembly(amounts, don, r.value)
  {
    hide Sum, Final, KeyLess, NonZero;
    var sum := SumValues(weights);
    var total := sum + donationWeight;
    if weights != map[] && total == 0 {
      return None;
    }
    var m := if weights == map[] then map[] else Shares(weights, total, subsidy);
    assert m == Allotted(weights, donationWeight, subsidy);
    var amounts := AddDonation(m, subsidy, don);
    FinalFacts(m, don, subsidy);
    var s := SortScripts(amounts.Keys - {don}, amounts);
    var dests := LastOf(s, MAX_OUTPUTS);
    LastAscending(s, MAX_OUTPUTS, amounts);
    return Some(NonZero(dests, amounts) + [Payout(don, amounts[don])]);
  }

  /** What flooring left over, or one unit of the largest amount, goes to the donation. */
  method AddDonation(m: map<Script, nat>, subsidy: nat, don: Script) returns (amounts: map<Script, nat>)
    requires Sum(m) <= subsidy
    ensures amounts == Final(m, don, subsidy)
  {
    hide Sum, Largest;
    amounts := m;
    AdjustSum(m, subsidy);
    var shared := SumValues(amounts);
    var donation := subsidy - shared;
    if donation < 1 && subsidy > 0 {
      LargestPositive(m);
      var largest := FindLargest(amounts);
      amounts := amounts[largest := amounts[largest] - 1];
      shared := SumValues(amounts);
      donation := subsidy - shared;
    }
    amounts := amounts[don := At(amounts, don) + donation];
  }

  lemma EmptySum()
    ensures Sum<Script>(map[]) == 0
  {
  }
}

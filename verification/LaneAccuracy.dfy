/** The incremental accumulator against its slow meaning: error bounds for canonical tables. */
module LaneAccuracy {
  import opened Arithmetic
  import opened DecayTable
  import opened Lane

  /**
   * How far n records of total weight w can drift: a is their scaled and c their closed-form sum, inv and dec are the
   * largest InvD and the decay applied at the head. Overpaid by at most n units and w, ...
   */
  ghost predicate BoundedAbove(a: nat, c: nat, n: nat, w: nat, dec: nat, one: nat) {
    a * dec <= c * one + n * one + w
  }

  /** ... underpaid by at most n units of the scaled frame and w times the table entries. */
  ghost predicate BoundedBelow(a: nat, c: nat, n: nat, w: nat, inv: nat, dec: nat, one: nat) {
    c * one * one <= a * one * dec + n * one * dec + w * (inv + dec + 1)
  }

  /**
   * One record: s is its scaled, truncated contribution and c its truncated closed-form value; inv, dec
   * and rem stand for InvD[j], decay[d] and decay[d-j], composed as TablesCompose says.
   */
  lemma RecordError(w: nat, inv: nat, dec: nat, rem: nat, one: nat, s: nat, c: nat)
    requires one > 0 && s == MulQ(w, inv, one) && c == MulQ(w, rem, one)
    requires inv * dec <= one * (rem + 1)
    requires one * rem <= (inv + 1) * (dec + 1)
    ensures BoundedAbove(s, c, 1, w, dec, one) && BoundedBelow(s, c, 1, w, inv, dec, one)
  {
    hide MulQ;
    MulQBounds(w, inv, one);
    MulQBounds(w, rem, one);
    ScaledUp(w, inv, dec, rem, one, s, c);
    ScaledDown(w, inv, dec, rem, one, s, c);
  }

  lemma ScaledUp(w: nat, inv: nat, dec: nat, rem: nat, one: nat, s: nat, c: nat)
    requires one > 0 && s * one <= w * inv && inv * dec <= one * (rem + 1) && w * rem < c * one + one
    ensures s * dec <= c * one + one + w
  {
    MulMonotone(s * one, dec, w * inv, dec);
    MulMonotone(w, inv * dec, w, one * (rem + 1));
    UpIdentities(w, inv, dec, rem, one, s);
    CancelAtMost(one, s * dec, w * rem + w);
  }

  lemma UpIdentities(w: int, inv: int, dec: int, rem: int, one: int, s: int)
    ensures s * one * dec == one * (s * dec) && w * inv * dec == w * (inv * dec)
    ensures w * (one * (rem + 1)) == (w * rem + w) * one
  {
  }

  lemma ScaledDown(w: nat, inv: nat, dec: nat, rem: nat, one: nat, s: nat, c: nat)
    requires c * one <= w * rem && one * rem <= (inv + 1) * (dec + 1) && w * inv < s * one + one
    ensures c * one * one <= s * one * dec + one * dec + w * (inv + dec + 1)
  {
    MulMonotone(c * one, one, w * rem, one);
    MulMonotone(w, one * rem, w, (inv + 1) * (dec + 1));
    MulMonotone(w * inv, dec, s * one + one, dec);
    DownIdentities(w, inv, dec, rem, one, s);
  }

  lemma DownIdentities(w: int, inv: int, dec: int, rem: int, one: int, s: int)
    ensures w * rem * one == w * (one * rem)
    ensures w * ((inv + 1) * (dec + 1)) == w * inv * dec + w * (inv + dec + 1)
    ensures (s * one + one) * dec == s * one * dec + one * dec
  {
  }

  /** Adding one record's error to the running totals a, c, n, w. */
  lemma AddErrors(a: nat, c: nat, n: nat, w: nat, s: nat, k: nat, v: nat, inv: nat, top: nat, dec: nat, one: nat)
    requires BoundedAbove(a, c, n, w, dec, one) && BoundedBelow(a, c, n, w, top, dec, one)
    requires BoundedAbove(s, k, 1, v, dec, one) && BoundedBelow(s, k, 1, v, inv, dec, one) && inv <= top
    ensures BoundedAbove(a + s, c + k, n + 1, w + v, dec, one)
    ensures BoundedBelow(a + s, c + k, n + 1, w + v, top, dec, one)
  {
    AddUpper(a, c, n, s, k, dec, one);
    AddLower(a, c, n, w, s, k, v, inv, top, dec, one);
  }

  lemma AddUpper(a: int, c: int, n: int, s: int, k: int, dec: int, one: int)
    ensures (a + s) * dec == a * dec + s * dec
    ensures (c + k) * one + (n + 1) * one == c * one + n * one + (k * one + one)
  {
  }

  lemma AddLower(a: nat, c: nat, n: nat, w: nat, s: nat, k: nat, v: nat, inv: nat, top: nat, dec: nat, one: nat)
    requires inv <= top
    ensures (c + k) * one * one == c * one * one + k * one * one
    ensures (a + s) * one * dec + (n + 1) * one * dec ==
            (a * one * dec + n * one * dec) + (s * one * dec + one * dec)
    ensures w * (top + dec + 1) + v * (inv + dec + 1) <= (w + v) * (top + dec + 1)
  {
    var t, i := top + dec + 1, inv + dec + 1;
    MulMonotone(v, i, v, t);
    assert (w + v) * t == w * t + v * t;
  }

  lemma TableSizes(g: Geometry, t: Tables)
    requires Canonical(g, t)
    ensures |t.invD| == |t.decay| == g.epoch + 1
  {
  }

  /** Totals over any list of records of one frame. */
  lemma {:induction false} SumErrors(g: Geometry, t: Tables, l0: seq<Record>, m: Miner, base: nat, head: nat)
    requires Canonical(g, t) && base <= head <= base + g.epoch
    requires forall i :: 0 <= i < |l0| ==> base <= l0[i].pos <= head
    ensures InFrame(l0, base, |t.invD|) && BehindHead(l0, head, |t.decay|)
    ensures var a, c := ScaledSum(l0, m, base, t.invD, One(g)), ClosedSum(l0, m, head, 0, t.decay, One(g));
            var dec := t.decay[head - base];
            && BoundedAbove(a, c, Count(l0, m), Weight(l0, m), dec, One(g))
            && BoundedBelow(a, c, Count(l0, m), Weight(l0, m), t.invD[head - base], dec, One(g))
  {
    hide MulQ, Canonical, BoundedAbove, BoundedBelow;
    TableSizes(g, t);
    if l0 == [] {
      NoRecords(t.invD[head - base], t.decay[head - base], One(g));
    } else {
      var front, r := l0[..|l0| - 1], l0[|l0| - 1];
      SumErrors(g, t, front, m, base, head);
      if r.miner == m {
        var j, d := r.pos - base, head - base;
        TablesCompose(g, t, j, d);
        Monotone(g, t, j, d);
        var s, k := MulQ(r.weight, t.invD[j], One(g)), MulQ(r.weight, t.decay[d - j], One(g));
        RecordError(r.weight, t.invD[j], t.decay[d], t.decay[d - j], One(g), s, k);
        AddErrors(ScaledSum(front, m, base, t.invD, One(g)), ClosedSum(front, m, head, 0, t.decay, One(g)),
                  Count(front, m), Weight(front, m), s, k, r.weight, t.invD[j], t.invD[d], t.decay[d], One(g));
      }
    }
  }

  lemma NoRecords(inv: nat, dec: nat, one: nat)
    ensures BoundedAbove(0, 0, 0, 0, dec, one) && BoundedBelow(0, 0, 0, 0, inv, dec, one)
  {
  }

  // ---------- from the totals to the truncated payout ----------

  lemma UpperPayout(a: nat, c: nat, n: nat, w: nat, dec: nat, one: nat)
    requires one > 0 && w < one && BoundedAbove(a, c, n, w, dec, one)
    ensures MulQ(a, dec, one) <= c + n
  {
    hide MulQ;
    MulQBounds(a, dec, one);
    UpperCancel(MulQ(a, dec, one), c, n, w, one);
  }

  lemma UpperCancel(p: nat, c: nat, n: nat, w: nat, one: nat)
    requires one > 0 && w < one && p * one <= c * one + n * one + w
    ensures p <= c + n
  {
    assert one * (c + n + 1) == c * one + n * one + one;
    CancelLess(one, p, c + n + 1);
  }

  lemma LowerPayout(a: nat, c: nat, n: nat, w: nat, inv: nat, dec: nat, one: nat)
    requires one > 0 && dec <= one && w * (inv + dec + 1) <= one * one && BoundedBelow(a, c, n, w, inv, dec, one)
    ensures c <= MulQ(a, dec, one) + n + 1
  {
    hide MulQ;
    MulQBounds(a, dec, one);
    LowerTotal(a, n, dec, one, MulQ(a, dec, one));
    LowerCancel(c, a * one * dec + n * one * dec, w * (inv + dec + 1), MulQ(a, dec, one), n, one);
  }

  lemma LowerCancel(c: nat, x: int, extra: int, p: nat, n: nat, one: nat)
    requires one > 0 && c * one * one <= x + extra && extra <= one * one
    requires x < p * (one * one) + one * one + n * (one * one)
    ensures c <= p + n + 1
  {
    Square(c, p, n, one);
    CancelLess(one * one, c, p + n + 2);
  }

  lemma Square(c: nat, p: nat, n: nat, one: nat)
    requires one > 0
    ensures one * one > 0 && c * one * one == c * (one * one)
    ensures one * one * (p + n + 2) == p * (one * one) + one * one + n * (one * one) + one * one
  {
  }

  lemma LowerTotal(a: nat, n: nat, dec: nat, one: nat, p: nat)
    requires one > 0 && dec <= one && a * dec < p * one + one
    ensures a * one * dec + n * one * dec < p * (one * one) + one * one + n * (one * one)
  {
    MulMonotone(n * one, dec, n * one, one);
    ScaleLess(one, a * dec, p * one + one);
    LowerIdentities(a, n, dec, one, p);
  }

  lemma LowerIdentities(a: int, n: int, dec: int, one: int, p: int)
    ensures n * one * one == n * (one * one) && a * one * dec == one * (a * dec)
    ensures one * (p * one + one) == p * (one * one) + one * one
  {
  }

  /**
   * Fast form against slow form, after any push history and for any geometry: a miner with n records of
   * total weight W in the frame is never overpaid by more than n while W is below 1.0, and never
   * underpaid by more than n+1 while W*(InvD[d]+decay[d]+1) stays within 1.0 squared.
   */
  lemma PayoutNearClosedForm(g: Geometry, lane: Lane, m: Miner)
    requires lane.Valid() && Canonical(g, lane.tables) && lane.epoch == g.epoch && lane.one == One(g)
    ensures var w, n := Weight(lane.l0, m), Count(lane.l0, m);
            var d := if lane.H < 0 then 0 else lane.H - lane.B;
            && BehindHead(lane.l0, lane.H, |lane.tables.decay|)
            && 0 <= d <= lane.epoch
            && var closed := ClosedSum(lane.l0, m, lane.H, 0, lane.tables.decay, lane.one);
               && (w < One(g) ==> lane.DecayedPayout(m) <= closed + n)
               && (w * (lane.tables.invD[d] + lane.tables.decay[d] + 1) <= One(g) * One(g) ==>
                     closed <= lane.DecayedPayout(m) + n + 1)
  {
    hide MulQ, ScaledSum, ClosedSum, Frame, FrameBase, Canonical, BoundedAbove, BoundedBelow;
    TableSizes(g, lane.tables);
    if lane.H < 0 {
      NothingPushed(lane, m);
    } else {
      var t, l0, d := lane.tables, lane.l0, lane.H - lane.B;
      SumErrors(g, t, l0, m, lane.B, lane.H);
      if m !in lane.acc { AbsentMinerSumsToZero(l0, m, lane.B, t.invD, lane.one); }
      FirstIsLargest(g, t, d);
      var a, c := ScaledSum(l0, m, lane.B, t.invD, lane.one), ClosedSum(l0, m, lane.H, 0, t.decay, lane.one);
      var n, w := Count(l0, m), Weight(l0, m);
      if w < lane.one { UpperPayout(a, c, n, w, t.decay[d], lane.one); }
      if w * (t.invD[d] + t.decay[d] + 1) <= lane.one * lane.one {
        LowerPayout(a, c, n, w, t.invD[d], t.decay[d], lane.one);
      }
    }
  }

  /** An empty lane pays nothing and owes nothing. */
  lemma NothingPushed(lane: Lane, m: Miner)
    requires lane.Valid() && lane.H < 0
    ensures lane.l0 == [] && lane.DecayedPayout(m) == 0
    ensures ClosedSum(lane.l0, m, lane.H, 0, lane.tables.decay, lane.one) == 0
  {
    var dec := PyIndex(lane.tables.decay, lane.H - lane.B);
    MulQBounds(0, dec, lane.one);
    assert m !in lane.acc;
  }

  lemma FirstIsLargest(g: Geometry, t: Tables, d: nat)
    requires Canonical(g, t) && d <= g.epoch
    ensures t.decay[d] <= One(g)
  {
    StartsAtOne(g, t);
    Monotone(g, t, 0, d);
  }

  /** For epochs of at most two half-lives the condition is just a bound on the weight: within n+1 both ways. */
  lemma PayoutWithinCount(g: Geometry, lane: Lane, m: Miner)
    requires lane.Valid() && Canonical(g, lane.tables) && lane.epoch == g.epoch && lane.one == One(g)
    requires g.epoch <= 2 * g.halfLife && 6 * Weight(lane.l0, m) <= One(g)
    ensures BehindHead(lane.l0, lane.H, |lane.tables.decay|)
    ensures var closed := ClosedSum(lane.l0, m, lane.H, 0, lane.tables.decay, lane.one);
            lane.DecayedPayout(m) - Count(lane.l0, m) <= closed <= lane.DecayedPayout(m) + Count(lane.l0, m) + 1
  {
    PayoutNearClosedForm(g, lane, m);
    var d := if lane.H < 0 then 0 else lane.H - lane.B;
    InverseCeiling(g, lane.tables, d, 2);
    StartsAtOne(g, lane.tables);
    Monotone(g, lane.tables, 0, d);
    WeightFits(Weight(lane.l0, m), lane.tables.invD[d], lane.tables.decay[d], One(g));
  }

  lemma WeightFits(w: nat, inv: nat, dec: nat, one: nat)
    requires one >= 1 && inv <= 4 * one && dec <= one && 6 * w <= one
    ensures w * (inv + dec + 1) <= one * one
  {
    MulMonotone(w, inv + dec + 1, w, 6 * one);
    MulMonotone(6 * w, one, one, one);
    assert w * (6 * one) == 6 * w * one;
  }
}

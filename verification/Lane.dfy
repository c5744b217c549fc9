/**
 * The scaled-frame accumulator of proto/refimpl/mrr_ref.py. A lane keeps, per miner, the sum of
 * w*InvD[p-B] over the records of the current epoch; multiplying by decay[H-B] gives the decayed
 * weight at the head H. At each epoch boundary the frame base B advances and the sums are rebuilt
 * from the durable records.
 */
module Lane {
  import opened Basics
  import opened Arithmetic
  import opened Power
  import opened DecayTable

  type Miner = nat

  datatype Record = Record(pos: nat, miner: Miner, weight: nat)

  /** Truncating fixed-point product. */
  function MulQ(a: nat, b: nat, one: nat): nat
    requires one > 0
  {
    ProductNonNegative(a, b);
    a * b / one
  }

  lemma MulQBounds(a: nat, b: nat, one: nat)
    requires one > 0
    ensures MulQ(a, b, one) * one <= a * b < MulQ(a, b, one) * one + one
  {
    DivisionBounds(a * b, one);
  }

  /** Every record lies in the frame that starts at `base` and every index stays below `len`. */
  ghost predicate InFrame(l0: seq<Record>, base: nat, len: nat) {
    forall i :: 0 <= i < |l0| ==> base <= l0[i].pos < base + len
  }

  /** Every record is at most `len` - 1 positions behind the head. */
  ghost predicate BehindHead(l0: seq<Record>, head: int, len: nat) {
    forall i :: 0 <= i < |l0| ==> l0[i].pos <= head < l0[i].pos + len
  }

  // ---------- specification sums over the durable records ----------

  ghost function ScaledSum(l0: seq<Record>, m: Miner, base: nat, invD: seq<nat>, one: nat): nat
    requires one > 0 && InFrame(l0, base, |invD|)
  {
    if l0 == [] then 0 else
      var r := l0[|l0| - 1];
      ScaledSum(l0[..|l0| - 1], m, base, invD, one) +
      if r.miner == m then MulQ(r.weight, invD[r.pos - base], one) else 0
  }

  /** Sum of w*decay[head-p], truncated per record, over the records of m at positions from `start` on. */
  ghost function ClosedSum(l0: seq<Record>, m: Miner, head: int, start: int, decay: seq<nat>, one: nat): nat
    requires one > 0 && BehindHead(l0, head, |decay|)
  {
    if l0 == [] then 0 else
      var r := l0[|l0| - 1];
      ClosedSum(l0[..|l0| - 1], m, head, start, decay, one) +
      if r.miner == m && start <= r.pos then MulQ(r.weight, decay[head - r.pos], one) else 0
  }

  ghost function Count(l0: seq<Record>, m: Miner): nat {
    if l0 == [] then 0 else Count(l0[..|l0| - 1], m) + if l0[|l0| - 1].miner == m then 1 else 0
  }

  ghost function Weight(l0: seq<Record>, m: Miner): nat {
    if l0 == [] then 0 else
      Weight(l0[..|l0| - 1], m) + if l0[|l0| - 1].miner == m then l0[|l0| - 1].weight else 0
  }

  ghost function Miners(l0: seq<Record>): set<Miner> {
    set i | 0 <= i < |l0| :: l0[i].miner
  }

  /** acc holds exactly the miners of l0, each with its scaled sum. */
  ghost predicate Accumulates(acc: map<Miner, nat>, l0: seq<Record>, base: nat, invD: seq<nat>, one: nat)
    requires one > 0 && InFrame(l0, base, |invD|)
  {
    acc.Keys == Miners(l0) && forall m :: m in acc ==> acc[m] == ScaledSum(l0, m, base, invD, one)
  }

  lemma {:induction false} AbsentMinerSumsToZero(l0: seq<Record>, m: Miner, base: nat, invD: seq<nat>, one: nat)
    requires one > 0 && InFrame(l0, base, |invD|) && m !in Miners(l0)
    ensures ScaledSum(l0, m, base, invD, one) == 0
  {
    if l0 != [] {
      assert l0[|l0| - 1].miner in Miners(l0);
      var front := l0[..|l0| - 1];
      assert forall i :: 0 <= i < |front| ==> front[i] == l0[i] && l0[i].miner in Miners(l0);
      AbsentMinerSumsToZero(front, m, base, invD, one);
    }
  }

  /** Folding one more record into the dictionary keeps it the fold of the extended list. */
  lemma AccumulateOne(acc: map<Miner, nat>, l0: seq<Record>, r: Record, base: nat, invD: seq<nat>, one: nat)
    requires one > 0 && InFrame(l0, base, |invD|) && base <= r.pos < base + |invD|
    requires Accumulates(acc, l0, base, invD, one)
    ensures InFrame(l0 + [r], base, |invD|)
    ensures Accumulates(Credit(acc, r.miner, MulQ(r.weight, invD[r.pos - base], one)), l0 + [r], base, invD, one)
  {
    hide MulQ;
    var all, share := l0 + [r], MulQ(r.weight, invD[r.pos - base], one);
    assert all[..|all| - 1] == l0;
    MinersAppend(l0, r);
    if r.miner !in Miners(l0) { AbsentMinerSumsToZero(l0, r.miner, base, invD, one); }
    forall m | m in Miners(all)
      ensures ScaledSum(all, m, base, invD, one) == (if m in acc then acc[m] else 0) + if m == r.miner then share else 0
    {
      assert ScaledSum(all, m, base, invD, one) ==
             ScaledSum(l0, m, base, invD, one) + if m == r.miner then share else 0;
    }
  }

  lemma MinersAppend(l0: seq<Record>, r: Record)
    ensures Miners(l0 + [r]) == Miners(l0) + {r.miner}
  {
    var all := l0 + [r];
    assert all[|all| - 1] == r;
    forall x | x in Miners(l0) ensures x in Miners(all) {
      var i :| 0 <= i < |l0| && l0[i].miner == x;
      assert all[i].miner == x;
    }
  }

  /** acc[m] = acc.get(m, 0) + amount. */
  function Credit(acc: map<Miner, nat>, m: Miner, amount: nat): map<Miner, nat> {
    acc[m := (if m in acc then acc[m] else 0) + amount]
  }

  // ---------- the frame reached after a push history ----------

  /** Frame base after n pushes: it moves up by one epoch when the head would leave the frame. */
  ghost function FrameBase(n: nat, epoch: nat): (base: nat)
    requires epoch > 0
    ensures base <= n <= base + epoch && (n > 0 ==> base < n)
  {
    if n == 0 then 0 else
      var before := FrameBase(n - 1, epoch);
      if n - 1 == before + epoch then before + epoch else before
  }

  lemma NextMultiple(n: nat, epoch: nat, base: nat)
    requires n > 0 && epoch > 0 && base == epoch * ((n - 1) / epoch)
    requires base <= n <= base + epoch
    ensures epoch * (n / epoch) == if n == base + epoch then base + epoch else base
  {
    var q := (n - 1) / epoch;
    assert (q + 1) * epoch == epoch * q + epoch;
    if n == base + epoch { DivisionIs(n, epoch, q + 1, 0); } else { DivisionIs(n, epoch, q, n - base); }
  }

  /** The base is the last multiple of the epoch at or before the head. */
  lemma {:induction false} FrameBaseIsMultiple(n: nat, epoch: nat)
    requires epoch > 0 && n > 0
    ensures FrameBase(n, epoch) == epoch * ((n - 1) / epoch)
  {
    if n == 1 {
      assert FrameBase(0, epoch) == 0;
      DivisionIs(0, epoch, 0, 0);
    } else {
      FrameBaseIsMultiple(n - 1, epoch);
      NextMultiple(n - 1, epoch, FrameBase(n - 1, epoch));
    }
  }

  /** The pushes at positions base..head, as records. */
  ghost function Records(pushes: seq<(Miner, nat)>, base: nat): (l0: seq<Record>)
    requires base <= |pushes|
    ensures |l0| == |pushes| - base
    ensures forall i :: 0 <= i < |l0| ==> l0[i] == Record(base + i, pushes[base + i].0, pushes[base + i].1)
  {
    seq(|pushes| - base, i requires 0 <= i < |pushes| - base =>
          Record(base + i, pushes[base + i].0, pushes[base + i].1))
  }

  /** The durable records after a push history: exactly the pushes from the frame base on. */
  ghost function Frame(pushes: seq<(Miner, nat)>, epoch: nat): (l0: seq<Record>)
    requires epoch > 0
    ensures InFrame(l0, FrameBase(|pushes|, epoch), epoch) && BehindHead(l0, |pushes| - 1, epoch)
  {
    Records(pushes, FrameBase(|pushes|, epoch))
  }

  /** The records at or after `base`, in order. */
  ghost function Survivors(l0: seq<Record>, base: nat): seq<Record> {
    if l0 == [] then [] else
      Survivors(l0[..|l0| - 1], base) + if l0[|l0| - 1].pos < base then [] else [l0[|l0| - 1]]
  }

  lemma {:induction false} NoneSurvive(l0: seq<Record>, base: nat)
    requires forall i :: 0 <= i < |l0| ==> l0[i].pos < base
    ensures Survivors(l0, base) == []
  {
    if l0 != [] { NoneSurvive(l0[..|l0| - 1], base); }
  }

  ghost predicate InOrder(l0: seq<Record>) {
    forall i, j :: 0 <= i < j < |l0| ==> l0[i].pos < l0[j].pos
  }

  /** What survives: exactly the records whose position is not before the new base, in the order they had. */
  lemma {:induction false} SurvivorsExactly(l0: seq<Record>, base: nat)
    ensures forall r :: r in Survivors(l0, base) <==> r in l0 && base <= r.pos
    ensures InOrder(l0) ==> InOrder(Survivors(l0, base))
    decreases |l0|
  {
    if l0 != [] {
      var front, last := l0[..|l0| - 1], l0[|l0| - 1];
      SurvivorsExactly(front, base);
      assert l0 == front + [last];
      var kept := Survivors(front, base);
      assert forall i :: 0 <= i < |kept| ==> kept[i] in front;
    }
  }

  lemma RecordsAppend(pushes: seq<(Miner, nat)>, base: nat, m: Miner, w: nat)
    requires base <= |pushes|
    ensures Records(pushes + [(m, w)], base) == Records(pushes, base) + [Record(|pushes|, m, w)]
  {
    hide FrameBase;
    var a, b := Records(pushes + [(m, w)], base), Records(pushes, base) + [Record(|pushes|, m, w)];
    assert forall i :: 0 <= i < |a| ==> a[i] == b[i];
  }

  /** One push appends its record to the frame, or starts a new frame with it. */
  lemma FrameAfterPush(pushes: seq<(Miner, nat)>, epoch: nat, m: Miner, w: nat)
    requires epoch > 0
    ensures var n, base := |pushes|, FrameBase(|pushes|, epoch);
            && FrameBase(n + 1, epoch) == (if n == base + epoch then base + epoch else base)
            && Frame(pushes + [(m, w)], epoch) ==
               (if n == base + epoch then [] else Frame(pushes, epoch)) + [Record(n, m, w)]
  {
    var base := FrameBase(|pushes| + 1, epoch);
    RecordsAppend(pushes, base, m, w);
    assert |pushes + [(m, w)]| == |pushes| + 1;
    assert |pushes| == base ==> Records(pushes, base) == [];
  }

  /** Python indexing: -1 is the last entry. */
  function PyIndex(s: seq<nat>, i: int): nat
    requires -1 <= i < |s| && s != []
  {
    if i == -1 then s[|s| - 1] else s[i]
  }

  class Lane {
    const tables: Tables
    const epoch: nat
    const one: nat
    var B: nat
    var H: int
    var acc: map<Miner, nat>
    var l0: seq<Record>
    /** Every push since construction. */
    ghost var pushes: seq<(Miner, nat)>

    ghost predicate Valid()
      reads this
    {
      && epoch > 0 && one > 0
      && epoch < |tables.invD| && epoch < |tables.decay|
      && H == |pushes| - 1
      && B == FrameBase(|pushes|, epoch)
      && l0 == Frame(pushes, epoch)
      && InFrame(l0, B, |tables.invD|)
      && Accumulates(acc, l0, B, tables.invD, one)
    }

    constructor (tables: Tables, epoch: nat, fracBits: nat)
      requires 0 < epoch < |tables.invD| && epoch < |tables.decay|
      ensures Valid() && pushes == []
      ensures this.tables == tables && this.epoch == epoch && one == Pow(2, fracBits)
    {
      PowPositive(2, fracBits);
      this.tables, this.epoch, this.one := tables, epoch, Pow(2, fracBits);
      B, H, acc, l0, pushes := 0, -1, map[], [], [];
    }

    method Push(miner: Miner, w: nat)
      requires Valid()
      modifies this
      ensures Valid()
      ensures pushes == old(pushes) + [(miner, w)]
    {
      hide MulQ, ScaledSum, Records, Frame, FrameBase, Survivors, Miners;
      FrameAfterPush(pushes, epoch, miner, w);
      H := H + 1;
      var p := H;
      if p - B == epoch {
        NoneSurvive(l0, B + epoch);
        EpochRebuild();
      }
      var j := p - B;
      var wScaled := MulQ(w, tables.invD[j], one);
      var r := Record(p, miner, w);
      AccumulateOne(acc, l0, r, B, tables.invD, one);
      acc := Credit(acc, miner, wScaled);
      l0 := l0 + [r];
      pushes := pushes + [(miner, w)];
      assert l0 == Frame(pushes, epoch);
      assert Accumulates(acc, l0, B, tables.invD, one);
    }

    /** _epoch_rebuild: advance the base and re-derive acc from the records that survive in the new frame. */
    method EpochRebuild()
      requires epoch > 0 && one > 0 && InFrame(l0, B, epoch + |tables.invD|)
      modifies `B, `acc, `l0
      ensures B == old(B) + epoch
      ensures l0 == Survivors(old(l0), B)
      ensures InFrame(l0, B, |tables.invD|) && Accumulates(acc, l0, B, tables.invD, one)
    {
      hide MulQ, ScaledSum;
      B := B + epoch;
      var records, base := l0, B;
      var rebuilt: map<Miner, nat> := map[];
      var kept: seq<Record> := [];
      for i := 0 to |records|
        invariant B == base && B == old(B) + epoch
        invariant kept == Survivors(records[..i], base)
        invariant InFrame(kept, base, |tables.invD|) && Accumulates(rebuilt, kept, base, tables.invD, one)
      {
        var r := records[i];
        assert records[..i + 1][..i] == records[..i];
        if r.pos < base {
          continue;
        }
        AccumulateOne(rebuilt, kept, r, base, tables.invD, one);
        rebuilt := Credit(rebuilt, r.miner, MulQ(r.weight, tables.invD[r.pos - base], one));
        kept := kept + [r];
      }
      assert records[..|records|] == records;
      acc := rebuilt;
      l0 := kept;
    }

    /** Decayed weight of a miner at the head. */
    function DecayedPayout(m: Miner): nat
      requires Valid()
      reads this
    {
      MulQ(if m in acc then acc[m] else 0, PyIndex(tables.decay, H - B), one)
    }

    /** The slow reference: a truncated sum over the durable records, from `start` on when given. */
    method ClosedForm(m: Miner, start: Option<int>) returns (tot: nat)
      requires Valid()
      ensures BehindHead(l0, H, |tables.decay|)
      ensures tot == ClosedSum(l0, m, H, if start.Some? then start.value else 0, tables.decay, one)
    {
      hide MulQ;
      tot := 0;
      for i := 0 to |l0|
        invariant tot == ClosedSum(l0[..i], m, H, if start.Some? then start.value else 0, tables.decay, one)
      {
        var r := l0[i];
        assert l0[..i + 1][..i] == l0[..i];
        if r.miner == m && !(start.Some? && r.pos < start.value) {
          var d := H - r.pos;
          tot := tot + MulQ(r.weight, tables.decay[d], one);
        }
      }
      assert l0[..|l0|] == l0;
    }
  }

  /** push() computes the scaled weight in two ways; the first, overwritten, value is the same. */
  lemma TwoScalings(w: nat, x: nat, one: nat)
    requires one > 0
    ensures MulQ(w * one, x, one) / one == MulQ(w, x, one)
  {
    assert w * one * x == w * x * one;
    DivisionIs(w * x * one, one, w * x, 0);
  }
}

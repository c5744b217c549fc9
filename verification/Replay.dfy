/** run_accumulator of proto/refimpl/gen_golden_decaytable.py: two replays and the rebuild check at every boundary. */
module Replay {
  import opened Power
  import opened DecayTable
  import opened Lane

  /** decayed_payout as a function of the push history alone. */
  ghost function PayoutAfter(t: Tables, epoch: nat, one: nat, pushes: seq<(Miner, nat)>, m: Miner): nat
    requires 0 < epoch < |t.invD| && epoch < |t.decay| && one > 0 && pushes != []
  {
    var base := FrameBase(|pushes|, epoch);
    MulQ(ScaledSum(Frame(pushes, epoch), m, base, t.invD, one), t.decay[|pushes| - 1 - base], one)
  }

  ghost function PayoutRow(t: Tables, epoch: nat, one: nat, pushes: seq<(Miner, nat)>, miners: nat): map<Miner, nat>
    requires 0 < epoch < |t.invD| && epoch < |t.decay| && one > 0 && pushes != []
  {
    map m: nat | m < miners :: PayoutAfter(t, epoch, one, pushes, m)
  }

  /** The rebuild loop over the durable records of one frame. */
  method Rebuild(l0: seq<Record>, base: nat, epoch: nat, invD: seq<nat>, one: nat) returns (rebuilt: map<Miner, nat>)
    requires one > 0 && epoch <= |invD| && InFrame(l0, base, epoch)
    ensures InFrame(l0, base, |invD|) && Accumulates(rebuilt, l0, base, invD, one)
  {
    hide MulQ, ScaledSum;
    rebuilt := map[];
    ghost var kept: seq<Record> := [];
    for i := 0 to |l0|
      invariant kept == l0[..i] && InFrame(kept, base, |invD|) && Accumulates(rebuilt, kept, base, invD, one)
    {
      var r := l0[i];
      if r.pos < base || r.pos - base >= epoch {
        continue;
      }
      AccumulateOne(rebuilt, kept, r, base, invD, one);
      rebuilt := Credit(rebuilt, r.miner, MulQ(r.weight, invD[r.pos - base], one));
      kept := kept + [r];
    }
    assert kept == l0;
  }

  /** P2: rebuild acc independently from the durable records of the current frame. */
  method RebuildFromRecords(lane: Lane) returns (rebuilt: map<Miner, nat>)
    requires lane.Valid()
    ensures Accumulates(rebuilt, lane.l0, lane.B, lane.tables.invD, lane.one)
    ensures rebuilt == lane.acc
  {
    hide ScaledSum, FrameBase, Records, Miners;
    rebuilt := Rebuild(lane.l0, lane.B, lane.epoch, lane.tables.invD, lane.one);
    assert forall m :: m in rebuilt ==> m in lane.acc && rebuilt[m] == lane.acc[m];
  }

  lemma PayoutIsHistory(lane: Lane, m: Miner)
    requires lane.Valid() && lane.pushes != []
    ensures lane.DecayedPayout(m) == PayoutAfter(lane.tables, lane.epoch, lane.one, lane.pushes, m)
  {
    if m !in lane.acc { AbsentMinerSumsToZero(lane.l0, m, lane.B, lane.tables.invD, lane.one); }
  }

  method SamplePayouts(lane: Lane, miners: nat) returns (row: map<Miner, nat>)
    requires lane.Valid() && lane.pushes != []
    ensures row == PayoutRow(lane.tables, lane.epoch, lane.one, lane.pushes, miners)
  {
    row := map[];
    for m := 0 to miners
      invariant row == PayoutRow(lane.tables, lane.epoch, lane.one, lane.pushes, m)
    {
      PayoutIsHistory(lane, m);
      row := row[m := lane.DecayedPayout(m)];
    }
  }

  method ReplayOnce(t: Tables, epoch: nat, fracBits: nat, miners: nat, shares: seq<(Miner, nat)>)
    returns (sampled: map<nat, map<Miner, nat>>, rebuildsMatch: bool)
    requires 0 < epoch < |t.invD| && epoch < |t.decay|
    ensures rebuildsMatch
    ensures forall h: nat :: h in sampled <==> h < |shares| && (h % epoch == 0 || h == |shares| - 1)
    ensures Pow(2, fracBits) > 0
    ensures forall h: nat :: h in sampled ==>
              && h < |shares| && sampled[h] == PayoutRow(t, epoch, Pow(2, fracBits), shares[..h + 1], miners)
              && forall m: nat :: m in sampled[h] <==> m < miners
  {
    hide PayoutAfter, Frame, FrameBase, ScaledSum;
    var lane := new Lane(t, epoch, fracBits);
    sampled, rebuildsMatch := map[], true;
    for i := 0 to |shares|
      invariant lane.Valid() && fresh(lane)
      invariant lane.tables == t && lane.epoch == epoch && lane.one == Pow(2, fracBits)
      invariant lane.pushes == shares[..i]
      invariant rebuildsMatch
      invariant forall h: nat :: h in sampled <==> h < i && (h % epoch == 0 || h == |shares| - 1)
      invariant forall h: nat :: h in sampled ==>
                  h < |shares| && sampled[h] == PayoutRow(t, epoch, lane.one, shares[..h + 1], miners)
    {
      var (miner, w) := shares[i];
      var boundary := lane.H + 1 - lane.B == epoch;
      lane.Push(miner, w);
      assert lane.pushes == shares[..i + 1];
      if boundary {
        var rebuilt := RebuildFromRecords(lane);
        rebuildsMatch := rebuildsMatch && rebuilt == lane.acc;
      }
      if lane.H % epoch == 0 || i == |shares| - 1 {
        var row := SamplePayouts(lane, miners);
        sampled := sampled[i := row];
      }
    }
  }

  /** P1 and P2 hold for every share sequence, not only the generated one. */
  method RunAccumulator(t: Tables, epoch: nat, fracBits: nat, miners: nat, shares: seq<(Miner, nat)>)
    returns (p1: bool, p2: bool)
    requires 0 < epoch < |t.invD| && epoch < |t.decay|
    ensures p1 && p2
  {
    var a, ok := ReplayOnce(t, epoch, fracBits, miners, shares);
    var b, _ := ReplayOnce(t, epoch, fracBits, miners, shares);
    p1, p2 := a == b, ok;
  }
}

/** What holds over whole settlement runs: conservation, arming heights, the fairness order, draining. */
module SettlementRuns {
  import opened Basics
  import opened Sums
  import opened KFair
  import opened Settlement

  lemma ReachStart(cfg: Config, credits: seq<Credit>)
    requires cfg.depth >= 1
    ensures Reach(cfg, credits, 0) == EmptyState
  {
  }

  lemma ReachStep(cfg: Config, credits: seq<Credit>, h: nat)
    requires cfg.depth >= 1
    ensures Reach(cfg, credits, h + 1) == BlockStep(cfg, Reach(cfg, credits, h), h, FoundAt(credits, h))
  {
    hide BlockStep;
  }

  /** Heights are kept exactly for the miners with something owed, and pending payouts fall due within depth blocks. */
  lemma ReachShape(cfg: Config, credits: seq<Credit>, h: nat)
    requires cfg.depth >= 1
    ensures Reach(cfg, credits, h).books.first.Keys == Eligible(Reach(cfg, credits, h).books.owed)
    ensures forall k :: k in Reach(cfg, credits, h).payouts ==> h <= k < h + cfg.depth
  {
    hide Reach;
  }

  // ---------- conservation ----------

  ghost function TotalCredited(credits: seq<Credit>): nat {
    if credits == [] then 0 else TotalCredited(credits[..|credits| - 1]) + credits[|credits| - 1].amount
  }

  /** The credits found before block h. */
  function FoundBefore(credits: seq<Credit>, h: nat): seq<Credit> {
    if h < |credits| then credits[..h] else credits
  }

  ghost function PendingAmounts(pending: map<nat, Credit>): map<nat, nat> {
    map k | k in pending :: pending[k].amount
  }

  lemma PendingRemove(pending: map<nat, Credit>, k: nat)
    ensures Sum(PendingAmounts(pending)) ==
            Sum(PendingAmounts(pending - {k})) + if k in pending then pending[k].amount else 0
  {
    assert PendingAmounts(pending) - {k} == PendingAmounts(pending - {k});
    if k in pending {
      SumRemove(PendingAmounts(pending), k);
    } else {
      assert pending - {k} == pending;
    }
  }

  lemma PendingAdd(pending: map<nat, Credit>, k: nat, c: Credit)
    requires k !in pending
    ensures Sum(PendingAmounts(pending[k := c])) == Sum(PendingAmounts(pending)) + c.amount
  {
    PendingRemove(pending[k := c], k);
    assert pending[k := c] - {k} == pending;
  }

  ghost function CreditDue(st: State, h: nat): nat {
    if h in st.credits then st.credits[h].amount else 0
  }

  ghost function PayoutDue(st: State, h: nat): nat {
    if h in st.payouts then TotalAmount(st.payouts[h]) else 0
  }

  lemma OwedConserved(cfg: Config, st: State, h: nat)
    requires Inv(cfg, st, h)
    ensures Sum(AfterPayouts(cfg, st, h).owed) + PayoutDue(st, h) == Sum(st.books.owed) + CreditDue(st, h)
  {
    hide Sum, InFlight, Positive;
    CreditFinalized(cfg, st, h);
    if h in st.credits { CreditKeeps(st.books, st.credits[h].miner, st.credits[h].amount, h); }
    if h in st.payouts { PayAllEffect(AfterCredit(st, h), st.payouts[h], h + 1); }
  }

  lemma PendingConserved(depth: nat, pending: map<nat, Credit>, h: nat, found: Option<Credit>)
    requires depth >= 1 && forall k :: k in pending ==> k < h + depth
    ensures var next := if found.Some? then (pending - {h})[h + depth := found.value] else pending - {h};
            Sum(PendingAmounts(next)) + (if h in pending then pending[h].amount else 0) ==
            Sum(PendingAmounts(pending)) + if found.Some? then found.value.amount else 0
  {
    hide Sum, PendingAmounts;
    PendingRemove(pending, h);
    if found.Some? { PendingAdd(pending - {h}, h + depth, found.value); }
  }

  /** One block moves value between the four places but neither mints nor loses any. */
  lemma StepConserves(cfg: Config, st: State, h: nat, found: Option<Credit>)
    requires cfg.depth >= 1 && Inv(cfg, st, h)
    ensures var st' := BlockStep(cfg, st, h, found);
            Sum(PendingAmounts(st'.credits)) + Sum(st'.books.owed) + st'.paid ==
            Sum(PendingAmounts(st.credits)) + Sum(st.books.owed) + st.paid +
            if found.Some? then found.value.amount else 0
  {
    hide Sum, PendingAmounts, AfterPayouts, NewPayouts, Armed, InFlight;
    OwedConserved(cfg, st, h);
    PendingConserved(cfg.depth, st.credits, h, found);
  }

  /** In every reachable state: credits found = pending credits + owed + paid. */
  lemma {:induction false} Conservation(cfg: Config, credits: seq<Credit>, h: nat)
    requires cfg.depth >= 1
    ensures var st := Reach(cfg, credits, h);
            TotalCredited(FoundBefore(credits, h)) == Sum(PendingAmounts(st.credits)) + Sum(st.books.owed) + st.paid
    decreases h
  {
    hide BlockStep, Reach, Inv;
    if h == 0 {
      ReachStart(cfg, credits);
      assert PendingAmounts(EmptyState.credits) == map[];
    } else {
      ReachStep(cfg, credits, h - 1);
      Conservation(cfg, credits, h - 1);
      StepConserves(cfg, Reach(cfg, credits, h - 1), h - 1, FoundAt(credits, h - 1));
      if h - 1 < |credits| {
        var all := FoundBefore(credits, h);
        assert all[..|all| - 1] == FoundBefore(credits, h - 1);
      }
    }
  }

  /** The overlays before and after a block. */
  lemma OverlaysStep(cfg: Config, st: State, h: nat, found: Option<Credit>)
    requires cfg.depth >= 1 && Inv(cfg, st, h)
    ensures var st' := BlockStep(cfg, st, h, found);
            && st'.credits ==
               (if found.Some? then (st.credits - {h})[h + cfg.depth := found.value] else st.credits - {h})
            && forall k :: k in st.payouts && k != h ==> k in st'.payouts && st'.payouts[k] == st.payouts[k]
  {
  }

  /** The credit overlay holds exactly the credits found in the last depth blocks. */
  lemma {:induction false} PendingExactly(cfg: Config, credits: seq<Credit>, h: nat)
    requires cfg.depth >= 1
    ensures forall k: nat :: k in Reach(cfg, credits, h).credits <==>
              h <= k < h + cfg.depth && cfg.depth <= k < |credits| + cfg.depth
    ensures forall k :: k in Reach(cfg, credits, h).credits ==>
              0 <= k - cfg.depth < |credits| && Reach(cfg, credits, h).credits[k] == credits[k - cfg.depth]
    decreases h
  {
    hide BlockStep, Reach, Inv;
    ReachStart(cfg, credits);
    if h > 0 {
      ReachStep(cfg, credits, h - 1);
      PendingExactly(cfg, credits, h - 1);
      OverlaysStep(cfg, Reach(cfg, credits, h - 1), h - 1, FoundAt(credits, h - 1));
      var before, after := Reach(cfg, credits, h - 1).credits, Reach(cfg, credits, h).credits;
      forall k: nat ensures k in after <==> h <= k < h + cfg.depth && cfg.depth <= k < |credits| + cfg.depth {
        assert k in before <==> h - 1 <= k < h - 1 + cfg.depth && cfg.depth <= k < |credits| + cfg.depth;
        assert k in after <==> (k in before && k != h - 1) || (k == h - 1 + cfg.depth && h - 1 < |credits|);
      }
    }
  }

  /**
   * The conservation check at the end of a run of nblocks + depth blocks, for positive credits: credited
   * equals still owed plus paid if and only if the stream is no longer than nblocks.
   */
  lemma FinalConservationExactly(cfg: Config, credits: seq<Credit>, nblocks: nat)
    requires cfg.depth >= 1
    requires forall i :: 0 <= i < |credits| ==> credits[i].amount > 0
    ensures var st := Reach(cfg, credits, nblocks + cfg.depth);
            TotalCredited(credits) == Sum(st.books.owed) + st.paid <==> |credits| <= nblocks
  {
    hide BlockStep, Reach, Inv;
    var end := nblocks + cfg.depth;
    var st := Reach(cfg, credits, end);
    Conservation(cfg, credits, end);
    PendingExactly(cfg, credits, end);
    if |credits| <= nblocks {
      assert PendingAmounts(st.credits) == map[];
    } else {
      assert end in st.credits;
      SumAtLeast(PendingAmounts(st.credits), end);
      PrefixCredited(credits, FoundBefore(credits, end));
    }
  }

  lemma {:induction false} PrefixCredited(credits: seq<Credit>, prefix: seq<Credit>)
    requires prefix <= credits
    ensures TotalCredited(prefix) <= TotalCredited(credits)
    decreases |credits|
  {
    if |prefix| < |credits| {
      PrefixCredited(credits[..|credits| - 1], prefix);
    } else {
      assert prefix == credits;
    }
  }

  // ---------- arming heights and the fairness order ----------

  ghost predicate IsEligible(cfg: Config, credits: seq<Credit>, h: nat, m: Miner)
    requires cfg.depth >= 1
  {
    Owed(Reach(cfg, credits, h).books, m) > 0
  }

  /** A miner eligible before and after a block keeps its height; a newly eligible one gets this block's. */
  lemma StepArms(cfg: Config, st: State, h: nat, found: Option<Credit>, m: Miner)
    requires cfg.depth >= 1 && Inv(cfg, st, h)
    requires Owed(BlockStep(cfg, st, h, found).books, m) > 0
    ensures var st' := BlockStep(cfg, st, h, found);
            m in st'.books.first && st'.books.first[m] == if m in st.books.first then st.books.first[m] else h
    ensures m !in st.books.first ==> h in st.credits && st.credits[h].miner == m
  {
    CreditFinalized(cfg, st, h);
    if h in st.payouts { PayAllEffect(AfterCredit(st, h), st.payouts[h], h + 1); }
    assert m in Eligible(AfterPayouts(cfg, st, h).owed);
    if m !in st.books.first { assert Owed(st.books, m) == 0 by { assert m !in Eligible(st.books.owed); } }
  }

  /**
   * In every reachable ledger first_eligible[m] is the height of m's last 0-to-positive transition:
   * nothing was owed before that block and something has been owed ever since.
   */
  lemma {:induction false} FirstEligibleIsLastArming(cfg: Config, credits: seq<Credit>, h: nat, m: Miner)
    requires cfg.depth >= 1 && IsEligible(cfg, credits, h, m)
    ensures m in Reach(cfg, credits, h).books.first
    ensures var armed := Reach(cfg, credits, h).books.first[m];
            && armed < h
            && !IsEligible(cfg, credits, armed, m)
            && forall i :: armed < i <= h ==> IsEligible(cfg, credits, i, m)
    decreases h
  {
    hide BlockStep, Reach, Inv;
    var st := Reach(cfg, credits, h);
    ReachShape(cfg, credits, h);
    assert m in Eligible(st.books.owed);
    ReachStart(cfg, credits);
    if h > 0 {
      ReachShape(cfg, credits, h - 1);
      ReachStep(cfg, credits, h - 1);
      StepArms(cfg, Reach(cfg, credits, h - 1), h - 1, FoundAt(credits, h - 1), m);
      if IsEligible(cfg, credits, h - 1, m) {
        assert m in Eligible(Reach(cfg, credits, h - 1).books.owed);
        FirstEligibleIsLastArming(cfg, credits, h - 1, m);
      } else {
        assert m !in Eligible(Reach(cfg, credits, h - 1).books.owed);
      }
    }
  }

  /** The eligible miners that K_fair ranks before m. */
  ghost function Ahead(b: Books, m: Miner): set<Miner>
    requires b.first.Keys == Eligible(b.owed)
  {
    set u | u in b.first && m in b.first && Before(b.first, u, m)
  }

  lemma StepKeepsAhead(cfg: Config, st: State, h: nat, found: Option<Credit>, m: Miner)
    requires cfg.depth >= 1 && Inv(cfg, st, h)
    requires Owed(st.books, m) > 0 && Owed(BlockStep(cfg, st, h, found).books, m) > 0
    ensures Ahead(BlockStep(cfg, st, h, found).books, m) <= Ahead(st.books, m)
  {
    var st' := BlockStep(cfg, st, h, found);
    assert m in Eligible(st.books.owed);
    StepArms(cfg, st, h, found, m);
    forall u | u in Ahead(st'.books, m) ensures u in Ahead(st.books, m) {
      assert u in Eligible(st'.books.owed);
      StepArms(cfg, st, h, found, u);
    }
  }

  /** While a miner stays eligible nobody ever moves ahead of it, whatever credits arrive. */
  lemma {:induction false} NobodyJumpsAhead(cfg: Config, credits: seq<Credit>, h: nat, later: nat, m: Miner)
    requires cfg.depth >= 1 && h <= later
    requires forall i :: h <= i <= later ==> IsEligible(cfg, credits, i, m)
    ensures Ahead(Reach(cfg, credits, later).books, m) <= Ahead(Reach(cfg, credits, h).books, m)
    ensures |Ahead(Reach(cfg, credits, later).books, m)| <= |Ahead(Reach(cfg, credits, h).books, m)|
    decreases later
  {
    hide BlockStep, Reach, Inv, Ahead;
    ReachShape(cfg, credits, h);
    ReachShape(cfg, credits, later);
    if h < later {
      ReachShape(cfg, credits, later - 1);
      NobodyJumpsAhead(cfg, credits, h, later - 1, m);
      assert IsEligible(cfg, credits, later - 1, m) && IsEligible(cfg, credits, later, m);
      ReachStep(cfg, credits, later - 1);
      StepKeepsAhead(cfg, Reach(cfg, credits, later - 1), later - 1, FoundAt(credits, later - 1), m);
    }
    SubsetSize(Ahead(Reach(cfg, credits, later).books, m), Ahead(Reach(cfg, credits, h).books, m));
  }

  // ---------- progress ----------

  /** Something in flight to m means some pending block pays m. */
  lemma {:induction false} InFlightWitness(payouts: map<nat, seq<Payout>>, m: Miner) returns (k: nat)
    requires InFlight(payouts, m) > 0
    ensures k in payouts && AmountTo(payouts[k], m) > 0
  {
    if forall i :: i in payouts ==> AmountTo(payouts[i], m) == 0 {
      SumOfZeros(PerHeight(payouts, m));
      assert false;
    }
    k :| k in payouts && AmountTo(payouts[k], m) > 0;
  }

  /** A block adds its finalized credit to what m is owed and takes off its due payouts. */
  lemma LedgerStep(cfg: Config, st: State, h: nat, found: Option<Credit>, m: Miner)
    requires cfg.depth >= 1 && Inv(cfg, st, h)
    ensures Owed(BlockStep(cfg, st, h, found).books, m) + (if h in st.payouts then AmountTo(st.payouts[h], m) else 0) ==
            Owed(st.books, m) + if h in st.credits && st.credits[h].miner == m then st.credits[h].amount else 0
  {
    CreditFinalized(cfg, st, h);
    if h in st.credits { CreditKeeps(st.books, st.credits[h].miner, st.credits[h].amount, h); }
  }

  lemma First(cfg: Config, b: Books) returns (leader: Miner)
    requires cfg.slots >= 1 && b.first.Keys == Eligible(b.owed) && Eligible(b.owed) != {}
    ensures leader in Selected(cfg, b)
    ensures forall u :: u in Eligible(b.owed) && u != leader ==> Before(b.first, leader, u)
  {
    var ranking := Ranking(b.owed, b.first);
    NoMembers(ranking);
    assert forall u :: u in Eligible(b.owed) ==> u in Members(ranking);
    leader := ranking[0];
    assert leader == Selected(cfg, b)[0];
  }

  lemma EligibleSum(owed: map<Miner, nat>)
    ensures Sum(owed) > 0 <==> Eligible(owed) != {}
  {
    if Eligible(owed) == {} {
      assert forall m :: m in owed ==> owed[m] == 0 by {
        assert forall m :: m in owed && owed[m] > 0 ==> m in Eligible(owed);
      }
      SumOfZeros(owed);
    } else {
      var m :| m in Eligible(owed);
      SumAtLeast(owed, m);
    }
  }
}

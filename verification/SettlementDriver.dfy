/** The mutable ledger and the block-by-block driver, proved against the block function of Settlement. */
module SettlementDriver {
  import opened Basics
  import opened Sums
  import opened KFair
  import opened Settlement
  import opened SettlementRuns

  class OwedLedger {
    var owed: map<Miner, nat>
    var first: map<Miner, nat>

    ghost function Value(): Books
      reads this
    {
      Books(owed, first)
    }

    constructor ()
      ensures Value() == Books(map[], map[])
    {
      owed, first := map[], map[];
    }

    method Credit(miner: Miner, amount: nat, height: nat)
      modifies this
      ensures Value() == CreditBooks(old(Value()), miner, amount, height)
    {
      var prev := if miner in owed then owed[miner] else 0;
      owed := owed[miner := prev + amount];
      if prev == 0 && owed[miner] > 0 {
        first := first[miner := height];
      }
    }

    /** ok is false where the source raises: an overpayment, or a miner the ledger does not know. */
    method Pay(miner: Miner, amount: nat) returns (ok: bool)
      modifies this
      ensures ok <==> miner in old(owed) && amount <= old(owed)[miner]
      ensures ok ==> Value() == PayBooks(old(Value()), miner, amount)
      ensures !ok ==> Value() == old(Value())
    {
      if !(amount <= (if miner in owed then owed[miner] else 0)) || miner !in owed {
        return false;
      }
      owed := owed[miner := owed[miner] - amount];
      if owed[miner] == 0 {
        first := first - {miner};
      }
      ok := true;
    }

    method EligibleCount() returns (n: nat)
      ensures n == |Eligible(owed)|
    {
      hide OwedAmong, At;
      OwedAmongEnds(owed);
      var rest, done := owed.Keys, {};
      n := 0;
      while rest != {}
        invariant done + rest == owed.Keys && done !! rest
        invariant n == |OwedAmong(done, owed)|
        decreases |rest|
      {
        var m :| m in rest;
        OwedAmongOne(done, m, owed);
        rest, done := rest - {m}, done + {m};
        if owed[m] > 0 { n := n + 1; }
      }
      assert done == owed.Keys;
    }
  }

  ghost function OwedAmong(miners: set<Miner>, owed: map<Miner, nat>): set<Miner> {
    set m | m in miners && At(owed, m) > 0
  }

  lemma OwedAmongEnds(owed: map<Miner, nat>)
    ensures OwedAmong({}, owed) == {} && OwedAmong(owed.Keys, owed) == Eligible(owed)
  {
  }

  lemma OwedAmongOne(miners: set<Miner>, m: Miner, owed: map<Miner, nat>)
    requires m !in miners && m in owed
    ensures |OwedAmong(miners + {m}, owed)| == |OwedAmong(miners, owed)| + if owed[m] > 0 then 1 else 0
  {
    var before, after := OwedAmong(miners, owed), OwedAmong(miners + {m}, owed);
    assert after == if owed[m] > 0 then before + {m} else before;
  }

  /** The keys of a dictionary in some iteration order. */
  method IterationOrder(keys: set<Miner>) returns (order: seq<Miner>)
    ensures Lists(order, keys)
  {
    hide Lists;
    order := [];
    var rest := keys;
    EmptyLists();
    assert keys - rest == {};
    while rest != {}
      invariant rest <= keys && Lists(order, keys - rest)
      decreases |rest|
    {
      var m :| m in rest;
      ListsAppend(order, keys - rest, m);
      assert keys - (rest - {m}) == keys - rest + {m};
      order, rest := order + [m], rest - {m};
    }
    assert keys - rest == keys;
  }

  lemma EmptyLists()
    ensures Lists([], {})
  {
  }

  lemma ListsAppend(order: seq<Miner>, all: set<Miner>, m: Miner)
    requires Lists(order, all) && m !in all
    ensures Lists(order + [m], all + {m})
  {
    MembersAppend(order, m);
    assert forall i :: 0 <= i < |order| ==> order[i] in Members(order);
  }

  /** in_flight.get(m, 0) after the two nested loops, in whatever order the overlay is iterated. */
  method SumInFlight(payouts: map<nat, seq<Payout>>) returns (inFlight: map<Miner, nat>)
    ensures forall m :: At(inFlight, m) == InFlight(payouts, m)
  {
    inFlight := map[];
    var rest := payouts.Keys;
    assert forall m :: PerHeight(payouts - rest, m) == map[];
    while rest != {}
      invariant rest <= payouts.Keys
      invariant forall m :: At(inFlight, m) == InFlight(payouts - rest, m)
      decreases |rest|
    {
      var k :| k in rest;
      var next := AddAmounts(inFlight, payouts[k]);
      ghost var longer := payouts - (rest - {k});
      assert longer - {k} == payouts - rest;
      forall m ensures At(next, m) == InFlight(longer, m) { InFlightRemove(longer, k, m); }
      inFlight, rest := next, rest - {k};
    }
    assert payouts - rest == payouts;
  }

  method AddAmounts(start: map<Miner, nat>, list: seq<Payout>) returns (sums: map<Miner, nat>)
    ensures forall m :: At(sums, m) == At(start, m) + AmountTo(list, m)
  {
    sums := start;
    for i := 0 to |list|
      invariant forall m :: At(sums, m) == At(start, m) + AmountTo(list[..i], m)
    {
      assert list[..i + 1] == list[..i] + [list[i]];
      forall m
        ensures AmountTo(list[..i + 1], m) == AmountTo(list[..i], m) + if list[i].miner == m then list[i].amount else 0
      {
        AmountToAppend(list[..i], list[i], m);
      }
      sums := sums[list[i].miner := At(sums, list[i].miner) + list[i].amount];
    }
    assert list[..|list|] == list;
  }

  method BuildPayouts(owed: map<Miner, nat>, ghost b: Books, payouts: map<nat, seq<Payout>>, pay: nat,
                      selected: seq<Miner>) returns (list: seq<Payout>)
    requires b.owed == owed && forall i :: 0 <= i < |selected| ==> selected[i] in owed
    ensures list == BlockPayouts(b, payouts, pay, selected)
  {
    hide InFlight;
    var inFlight := SumInFlight(payouts);
    list := [];
    for i := 0 to |selected|
      invariant list == BlockPayouts(b, payouts, pay, selected[..i])
    {
      var m := selected[i];
      assert selected[..i + 1][..i] == selected[..i];
      var effective := owed[m] - At(inFlight, m);
      var amt := if pay <= effective then pay else effective;
      if amt > 0 {
        list := list + [Payout(m, amt)];
      }
    }
    assert selected[..|selected|] == selected;
  }

  /** pending.setdefault(k, []).extend(list). */
  function ExtendAt(payouts: map<nat, seq<Payout>>, k: nat, list: seq<Payout>): map<nat, seq<Payout>> {
    payouts[k := (if k in payouts then payouts[k] else []) + list]
  }

  datatype TraceRow = TraceRow(height: nat, eligible: nat, selected: seq<Miner>, payouts: seq<Payout>)

  /** Pay a finalized block's payouts; the assertion of pay() holds every time. */
  method FinalizePayouts(ledger: OwedLedger, list: seq<Payout>) returns (total: nat)
    requires Affordable(ledger.Value(), list)
    modifies ledger
    ensures ledger.Value() == old(PayAll(ledger.Value(), list))
    ensures total == TotalAmount(list)
  {
    total := 0;
    ghost var b := ledger.Value();
    for i := 0 to |list|
      invariant Affordable(ledger.Value(), list[i..])
      invariant PayAll(ledger.Value(), list[i..]) == PayAll(b, list)
      invariant total + TotalAmount(list[i..]) == TotalAmount(list)
    {
      AffordableStep(ledger.Value(), list[i..]);
      assert list[i..][0] == list[i] && list[i..][1..] == list[i + 1..];
      var ok := ledger.Pay(list[i].miner, list[i].amount);
      assert ok;
      total := total + list[i].amount;
    }
  }

  /** run(): nblocks + depth blocks over a credit stream. */
  method Run(cfg: Config, credits: seq<Credit>, nblocks: nat)
    returns (ledger: OwedLedger, trace: seq<TraceRow>, totalPaid: nat, f1Ok: bool)
    requires cfg.depth >= 1
    ensures var end := Reach(cfg, credits, nblocks + cfg.depth);
            ledger.Value() == end.books && totalPaid == end.paid
    ensures |trace| == nblocks + cfg.depth
    ensures forall h :: 0 <= h < |trace| ==>
              var st := Reach(cfg, credits, h);
              var b := AfterPayouts(cfg, st, h);
              trace[h] == TraceRow(h, |Eligible(b.owed)|, Selected(cfg, b), NewPayouts(cfg, st, h))
    ensures f1Ok
    ensures (forall i :: 0 <= i < |credits| ==> credits[i].amount > 0) ==>
              (TotalCredited(credits) == Sum(ledger.owed) + totalPaid <==> |credits| <= nblocks)
  {
    hide BlockStep, Reach, Inv, AfterPayouts, Selected, NewPayouts, Eligible;
    ReachStart(cfg, credits);
    ledger := new OwedLedger();
    var pendingPayouts: map<nat, seq<Payout>>, pendingCredits: map<nat, Credit> := map[], map[];
    trace, totalPaid, f1Ok := [], 0, true;
    for h := 0 to nblocks + cfg.depth
      invariant fresh(ledger)
      invariant State(ledger.Value(), pendingPayouts, pendingCredits, totalPaid) == Reach(cfg, credits, h)
      invariant |trace| == h
      invariant forall i :: 0 <= i < h ==>
                  var st := Reach(cfg, credits, i);
                  var b := AfterPayouts(cfg, st, i);
                  trace[i] == TraceRow(i, |Eligible(b.owed)|, Selected(cfg, b), NewPayouts(cfg, st, i))
      invariant f1Ok
    {
      ReachStep(cfg, credits, h);
      var row, ok;
      row, pendingPayouts, pendingCredits, totalPaid, ok :=
        RunBlock(cfg, ledger, pendingPayouts, pendingCredits, totalPaid, h, FoundAt(credits, h));
      trace, f1Ok := trace + [row], f1Ok && ok;
    }
    FinalVerdict(cfg, credits, nblocks);
  }

  lemma FinalVerdict(cfg: Config, credits: seq<Credit>, nblocks: nat)
    requires cfg.depth >= 1
    ensures var end := Reach(cfg, credits, nblocks + cfg.depth);
            (forall i :: 0 <= i < |credits| ==> credits[i].amount > 0) ==>
              (TotalCredited(credits) == Sum(end.books.owed) + end.paid <==> |credits| <= nblocks)
  {
    hide Reach, Inv;
    if forall i :: 0 <= i < |credits| ==> credits[i].amount > 0 {
      FinalConservationExactly(cfg, credits, nblocks);
    }
  }

  /** Steps (1) and (3): finalize what is due at height h. */
  method FinalizeDue(cfg: Config, ledger: OwedLedger, payouts: map<nat, seq<Payout>>, credits: map<nat, Credit>,
                     paid: nat, h: nat)
    returns (payouts': map<nat, seq<Payout>>, credits': map<nat, Credit>, paid': nat)
    requires Inv(cfg, State(ledger.Value(), payouts, credits, paid), h)
    modifies ledger
    ensures ledger.Value() == old(AfterPayouts(cfg, State(ledger.Value(), payouts, credits, paid), h))
    ensures payouts' == payouts - {h} && credits' == credits - {h}
    ensures paid' == paid + if h in payouts then TotalAmount(payouts[h]) else 0
  {
    CreditFinalized(cfg, State(ledger.Value(), payouts, credits, paid), h);
    payouts', credits', paid' := payouts, credits, paid;
    if h in credits' {
      ledger.Credit(credits'[h].miner, credits'[h].amount, h);
      credits' := credits' - {h};
    }
    if h in payouts' {
      var amount := FinalizePayouts(ledger, payouts'[h]);
      paid' := paid' + amount;
      payouts' := payouts' - {h};
    }
  }

  /** Step (2): the K_fair selection over the finalized ledger, the F1 check and the capped payout vector. */
  method ChoosePayouts(cfg: Config, ledger: OwedLedger, payouts: map<nat, seq<Payout>>)
    returns (selected: seq<Miner>, list: seq<Payout>, ok: bool)
    requires ledger.first.Keys == Eligible(ledger.owed)
    ensures selected == Selected(cfg, ledger.Value())
    ensures list == BlockPayouts(ledger.Value(), payouts, cfg.payPerSlot, selected)
    ensures ok
  {
    var order := IterationOrder(ledger.owed.Keys);
    SelectionIsPrefix(order, ledger.owed, ledger.first, cfg.slots);
    selected := SelectPayouts(order, ledger.owed, ledger.first, cfg.slots);
    CheckAcceptsExactlyPrefix(order, ledger.owed, ledger.first, selected, cfg.slots);
    ok := CheckOwedHeightFirst(order, ledger.owed, ledger.first, selected, cfg.slots);
    list := BuildPayouts(ledger.owed, ledger.Value(), payouts, cfg.payPerSlot, selected);
  }

  /** The pieces a block computes make up the block function. */
  lemma AssembleBlock(cfg: Config, st: State, h: nat, found: Option<Credit>, st': State, list: seq<Payout>)
    requires cfg.depth >= 1 && Inv(cfg, st, h)
    requires st'.books == AfterPayouts(cfg, st, h)
    requires list == BlockPayouts(st'.books, st.payouts - {h}, cfg.payPerSlot, Selected(cfg, st'.books))
    requires st'.payouts == if list == [] then st.payouts - {h} else ExtendAt(st.payouts - {h}, h + cfg.depth, list)
    requires st'.credits == if found.Some? then (st.credits - {h})[h + cfg.depth := found.value] else st.credits - {h}
    requires st'.paid == st.paid + if h in st.payouts then TotalAmount(st.payouts[h]) else 0
    ensures st' == BlockStep(cfg, st, h, found) && list == NewPayouts(cfg, st, h)
  {
    hide PayAll, BlockPayouts, Ranking;
    assert h + cfg.depth !in st.payouts - {h};
    assert [] + list == list;
  }

  /** The body of the block loop. */
  method RunBlock(cfg: Config, ledger: OwedLedger, payouts: map<nat, seq<Payout>>, credits: map<nat, Credit>,
                  paid: nat, h: nat, found: Option<Credit>)
    returns (row: TraceRow, payouts': map<nat, seq<Payout>>, credits': map<nat, Credit>, paid': nat, ok: bool)
    requires cfg.depth >= 1 && Inv(cfg, State(ledger.Value(), payouts, credits, paid), h)
    modifies ledger
    ensures State(ledger.Value(), payouts', credits', paid') ==
            old(BlockStep(cfg, State(ledger.Value(), payouts, credits, paid), h, found))
    ensures var st := old(State(ledger.Value(), payouts, credits, paid));
            var b := AfterPayouts(cfg, st, h);
            row == TraceRow(h, |Eligible(b.owed)|, Selected(cfg, b), NewPayouts(cfg, st, h))
    ensures ok
  {
    hide BlockStep, NewPayouts, BlockPayouts, AfterCredit, PayAll, Ranking;
    ghost var st := State(ledger.Value(), payouts, credits, paid);
    payouts', credits', paid' := FinalizeDue(cfg, ledger, payouts, credits, paid, h);
    if found.Some? {
      credits' := credits'[h + cfg.depth := found.value];
    }
    var selected, list;
    selected, list, ok := ChoosePayouts(cfg, ledger, payouts');
    if list != [] {
      payouts' := ExtendAt(payouts', h + cfg.depth, list);
    }
    AssembleBlock(cfg, st, h, found, State(ledger.Value(), payouts', credits', paid'), list);
    var count := ledger.EligibleCount();
    row := TraceRow(h, count, selected, list);
  }
}

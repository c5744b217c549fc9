/**
 * The finality-gated owed ledger of proto/refimpl/gen_golden_settlement.py, one block at a time.
 * A credit or a payout found at height h changes the ledger only at height h + depth; until then it
 * sits in an overlay, and new payouts are capped by what is owed minus what is already in flight.
 */
module Settlement {
  import opened Basics
  import opened Sums
  import opened KFair

  datatype Config = Config(depth: nat, slots: nat, payPerSlot: nat)

  datatype Credit = Credit(miner: Miner, amount: nat)

  datatype Payout = Payout(miner: Miner, amount: nat)

  /** The two dictionaries of the ledger. */
  datatype Books = Books(owed: map<Miner, nat>, first: map<Miner, nat>)

  datatype State = State(books: Books, payouts: map<nat, seq<Payout>>, credits: map<nat, Credit>, paid: nat)

  const EmptyState := State(Books(map[], map[]), map[], map[], 0)

  function Owed(b: Books, m: Miner): nat {
    At(b.owed, m)
  }

  /** first_eligible is defined exactly for the miners with something owed, at heights already passed. */
  ghost predicate Armed(b: Books, h: nat) {
    b.first.Keys == Eligible(b.owed) && forall m :: m in b.first ==> b.first[m] < h
  }

  // ---------- ledger operations ----------

  function CreditBooks(b: Books, m: Miner, amount: nat, height: nat): Books {
    Books(b.owed[m := Owed(b, m) + amount],
          if Owed(b, m) == 0 && Owed(b, m) + amount > 0 then b.first[m := height] else b.first)
  }

  function PayBooks(b: Books, m: Miner, amount: nat): Books
    requires m in b.owed && amount <= b.owed[m]
  {
    Books(b.owed[m := b.owed[m] - amount], if b.owed[m] == amount then b.first - {m} else b.first)
  }

  lemma CreditKeeps(b: Books, m: Miner, amount: nat, h: nat)
    requires Armed(b, h)
    ensures Armed(CreditBooks(b, m, amount, h), h + 1)
    ensures forall x :: Owed(CreditBooks(b, m, amount, h), x) == Owed(b, x) + if x == m then amount else 0
    ensures Sum(CreditBooks(b, m, amount, h).owed) == Sum(b.owed) + amount
  {
    SumUpdate(b.owed, m, Owed(b, m) + amount);
    CreditArms(b, m, amount, h);
  }

  lemma CreditArms(b: Books, m: Miner, amount: nat, h: nat)
    requires Armed(b, h)
    ensures Armed(CreditBooks(b, m, amount, h), h + 1)
  {
    var c := CreditBooks(b, m, amount, h);
    assert forall x :: x in Eligible(c.owed) <==> x in Eligible(b.owed) || (x == m && amount > 0);
  }

  ghost function AmountTo(list: seq<Payout>, m: Miner): nat {
    if list == [] then 0 else (if list[0].miner == m then list[0].amount else 0) + AmountTo(list[1..], m)
  }

  ghost function TotalAmount(list: seq<Payout>): nat {
    if list == [] then 0 else list[0].amount + TotalAmount(list[1..])
  }

  ghost predicate Positive(list: seq<Payout>) {
    forall i :: 0 <= i < |list| ==> list[i].amount > 0
  }

  ghost predicate Affordable(b: Books, list: seq<Payout>) {
    Positive(list) && forall m :: AmountTo(list, m) <= Owed(b, m)
  }

  lemma AffordableStep(b: Books, list: seq<Payout>)
    requires list != [] && Affordable(b, list)
    ensures list[0].miner in b.owed && list[0].amount <= b.owed[list[0].miner]
    ensures Affordable(PayBooks(b, list[0].miner, list[0].amount), list[1..])
  {
    var m, c := list[0].miner, list[0].amount;
    assert AmountTo(list, m) >= c;
    var b' := PayBooks(b, m, c);
    forall x ensures AmountTo(list[1..], x) <= Owed(b', x) {
      assert AmountTo(list, x) <= Owed(b, x);
    }
  }

  /** Pay a block's finalized payouts one after the other; none of the payments fails. */
  ghost function PayAll(b: Books, list: seq<Payout>): Books
    requires Affordable(b, list)
    decreases |list|
  {
    if list == [] then b else
      AffordableStep(b, list);
      PayAll(PayBooks(b, list[0].miner, list[0].amount), list[1..])
  }

  lemma PayKeeps(b: Books, m: Miner, amount: nat, h: nat)
    requires Armed(b, h) && m in b.owed && amount <= b.owed[m]
    ensures Armed(PayBooks(b, m, amount), h)
    ensures Sum(PayBooks(b, m, amount).owed) == Sum(b.owed) - amount
  {
    SumUpdate(b.owed, m, b.owed[m] - amount);
    var c := PayBooks(b, m, amount);
    assert forall x :: x in Eligible(c.owed) <==> x in Eligible(b.owed) && (x != m || amount < b.owed[m]);
  }

  lemma {:induction false} PayAllEffect(b: Books, list: seq<Payout>, h: nat)
    requires Affordable(b, list) && Armed(b, h)
    ensures var r := PayAll(b, list);
            && Armed(r, h)
            && (forall m :: Owed(r, m) == Owed(b, m) - AmountTo(list, m))
            && (forall m :: m in r.first ==> m in b.first && r.first[m] == b.first[m])
            && Sum(r.owed) == Sum(b.owed) - TotalAmount(list)
    decreases |list|
  {
    if list != [] {
      AffordableStep(b, list);
      PayKeeps(b, list[0].miner, list[0].amount, h);
      PayAllEffect(PayBooks(b, list[0].miner, list[0].amount), list[1..], h);
    }
  }

  // ---------- the overlay ----------

  ghost function PerHeight(payouts: map<nat, seq<Payout>>, m: Miner): map<nat, nat> {
    map k | k in payouts :: AmountTo(payouts[k], m)
  }

  /** What is in flight to m over all unfinalized blocks. */
  ghost function InFlight(payouts: map<nat, seq<Payout>>, m: Miner): nat {
    Sum(PerHeight(payouts, m))
  }

  lemma InFlightRemove(payouts: map<nat, seq<Payout>>, k: nat, m: Miner)
    requires k in payouts
    ensures InFlight(payouts, m) == InFlight(payouts - {k}, m) + AmountTo(payouts[k], m)
  {
    SumRemove(PerHeight(payouts, m), k);
    assert PerHeight(payouts, m) - {k} == PerHeight(payouts - {k}, m);
  }

  lemma InFlightAdd(payouts: map<nat, seq<Payout>>, k: nat, list: seq<Payout>, m: Miner)
    requires k !in payouts
    ensures InFlight(payouts[k := list], m) == InFlight(payouts, m) + AmountTo(list, m)
  {
    InFlightRemove(payouts[k := list], k, m);
    assert payouts[k := list] - {k} == payouts;
  }

  /** min(PAY_PER_SLOT, owed - in flight), floored at zero. */
  ghost function Share(b: Books, payouts: map<nat, seq<Payout>>, pay: nat, m: Miner): nat {
    if Owed(b, m) <= InFlight(payouts, m) then 0
    else if pay <= Owed(b, m) - InFlight(payouts, m) then pay
    else Owed(b, m) - InFlight(payouts, m)
  }

  /** The payout vector of a block: one entry per selected miner that gets something. */
  ghost function BlockPayouts(b: Books, payouts: map<nat, seq<Payout>>, pay: nat, selected: seq<Miner>): seq<Payout> {
    if selected == [] then [] else
      var last := selected[|selected| - 1];
      BlockPayouts(b, payouts, pay, selected[..|selected| - 1]) +
      if Share(b, payouts, pay, last) > 0 then [Payout(last, Share(b, payouts, pay, last))] else []
  }

  lemma {:induction false} AmountToAppend(list: seq<Payout>, p: Payout, m: Miner)
    ensures AmountTo(list + [p], m) == AmountTo(list, m) + if p.miner == m then p.amount else 0
    decreases |list|
  {
    if list == [] {
      assert list + [p] == [p];
    } else {
      assert (list + [p])[1..] == list[1..] + [p];
      AmountToAppend(list[1..], p, m);
    }
  }

  lemma {:induction false} BlockPayoutsAmounts(b: Books, payouts: map<nat, seq<Payout>>, pay: nat,
                                               selected: seq<Miner>, m: Miner)
    requires Distinct(selected)
    ensures Positive(BlockPayouts(b, payouts, pay, selected))
    ensures AmountTo(BlockPayouts(b, payouts, pay, selected), m) ==
            if m in selected then Share(b, payouts, pay, m) else 0
    decreases |selected|
  {
    hide Share;
    if selected != [] {
      var front, last := selected[..|selected| - 1], selected[|selected| - 1];
      BlockPayoutsAmounts(b, payouts, pay, front, m);
      LastOnce(selected, m);
      var list, p := BlockPayouts(b, payouts, pay, front), Payout(last, Share(b, payouts, pay, last));
      AmountToAppend(list, p, m);
      assert BlockPayouts(b, payouts, pay, selected) == if p.amount > 0 then list + [p] else list;
    }
  }

  /** Every selected miner is paid a whole slot or all it has open, whichever is less; nobody else is paid. */
  lemma SlotPays(cfg: Config, st: State, h: nat, m: Miner)
    requires Inv(cfg, st, h)
    ensures var amount := AmountTo(NewPayouts(cfg, st, h), m);
            var open := Owed(AfterPayouts(cfg, st, h), m) - InFlight(st.payouts - {h}, m);
            if m in Selected(cfg, AfterPayouts(cfg, st, h)) then
              amount <= cfg.payPerSlot && amount <= open && (amount == cfg.payPerSlot || amount == open)
            else amount == 0
  {
    hide Selected, BlockPayouts, InFlight, Owed;
    var b := AfterPayouts(cfg, st, h);
    BlockPayoutsAmounts(b, st.payouts - {h}, cfg.payPerSlot, Selected(cfg, b), m);
  }

  lemma LastOnce(s: seq<Miner>, m: Miner)
    requires s != [] && Distinct(s)
    ensures m in s <==> m in s[..|s| - 1] || m == s[|s| - 1]
    ensures s[|s| - 1] !in s[..|s| - 1]
  {
    assert s == s[..|s| - 1] + [s[|s| - 1]];
  }

  // ---------- one block ----------

  /** The state before block h. */
  ghost predicate Inv(cfg: Config, st: State, h: nat) {
    && Armed(st.books, h)
    && (forall k :: k in st.payouts ==> h <= k < h + cfg.depth && st.payouts[k] != [] && Positive(st.payouts[k]))
    && (forall k :: k in st.credits ==> h <= k < h + cfg.depth)
    && (forall m :: InFlight(st.payouts, m) <= Owed(st.books, m))
  }

  /** Step (1): the credit found depth blocks ago becomes owed. */
  ghost function AfterCredit(st: State, h: nat): Books {
    if h in st.credits then CreditBooks(st.books, st.credits[h].miner, st.credits[h].amount, h) else st.books
  }

  lemma CreditFinalized(cfg: Config, st: State, h: nat)
    requires Inv(cfg, st, h)
    ensures Armed(AfterCredit(st, h), h + 1)
    ensures forall m :: Owed(st.books, m) <= Owed(AfterCredit(st, h), m)
    ensures h in st.payouts ==> Affordable(AfterCredit(st, h), st.payouts[h])
  {
    if h in st.credits { CreditKeeps(st.books, st.credits[h].miner, st.credits[h].amount, h); }
    if h in st.payouts {
      forall m ensures AmountTo(st.payouts[h], m) <= Owed(st.books, m) { InFlightRemove(st.payouts, h, m); }
    }
  }

  /** Step (3): the payouts chosen depth blocks ago are paid. */
  ghost function AfterPayouts(cfg: Config, st: State, h: nat): (b: Books)
    requires Inv(cfg, st, h)
    ensures Armed(b, h + 1)
    ensures forall m :: Owed(b, m) ==
              Owed(AfterCredit(st, h), m) - if h in st.payouts then AmountTo(st.payouts[h], m) else 0
    ensures forall m :: InFlight(st.payouts - {h}, m) <= Owed(b, m)
  {
    CreditFinalized(cfg, st, h);
    assert forall m :: InFlight(st.payouts - {h}, m) + (if h in st.payouts then AmountTo(st.payouts[h], m) else 0)
                       <= Owed(st.books, m) by {
      forall m ensures InFlight(st.payouts - {h}, m) + (if h in st.payouts then AmountTo(st.payouts[h], m) else 0)
                       <= Owed(st.books, m)
      {
        if h in st.payouts { InFlightRemove(st.payouts, h, m); } else { assert st.payouts - {h} == st.payouts; }
      }
    }
    if h in st.payouts then
      PayAllEffect(AfterCredit(st, h), st.payouts[h], h + 1);
      PayAll(AfterCredit(st, h), st.payouts[h])
    else AfterCredit(st, h)
  }

  /** Step (2): who is selected. */
  ghost function Selected(cfg: Config, b: Books): (s: seq<Miner>)
    requires b.first.Keys == Eligible(b.owed)
    ensures Distinct(s) && forall i :: 0 <= i < |s| ==> s[i] in Eligible(b.owed)
  {
    var ranking := Ranking(b.owed, b.first);
    assert forall i :: 0 <= i < |ranking| ==> ranking[i] in Members(ranking);
    Take(ranking, cfg.slots)
  }

  ghost function NewPayouts(cfg: Config, st: State, h: nat): (list: seq<Payout>)
    requires Inv(cfg, st, h)
  {
    var b := AfterPayouts(cfg, st, h);
    BlockPayouts(b, st.payouts - {h}, cfg.payPerSlot, Selected(cfg, b))
  }

  /** The state after block h, which finalizes and selects, and finds the given credit. */
  ghost function NextState(cfg: Config, st: State, h: nat, found: Option<Credit>): State
    requires Inv(cfg, st, h)
  {
    State(AfterPayouts(cfg, st, h),
          NextPayouts(cfg, st, h),
          if found.Some? then (st.credits - {h})[h + cfg.depth := found.value] else st.credits - {h},
          st.paid + if h in st.payouts then TotalAmount(st.payouts[h]) else 0)
  }

  ghost function NextPayouts(cfg: Config, st: State, h: nat): map<nat, seq<Payout>>
    requires Inv(cfg, st, h)
  {
    var list := NewPayouts(cfg, st, h);
    if list == [] then st.payouts - {h} else (st.payouts - {h})[h + cfg.depth := list]
  }

  lemma StepKeepsInv(cfg: Config, st: State, h: nat, found: Option<Credit>)
    requires cfg.depth >= 1 && Inv(cfg, st, h)
    ensures Inv(cfg, NextState(cfg, st, h, found), h + 1)
  {
    hide NewPayouts, InFlight, Positive;
    StepKeepsSolvency(cfg, st, h);
  }

  ghost function BlockStep(cfg: Config, st: State, h: nat, found: Option<Credit>): (st': State)
    requires cfg.depth >= 1 && Inv(cfg, st, h)
    ensures Inv(cfg, st', h + 1)
  {
    StepKeepsInv(cfg, st, h, found);
    NextState(cfg, st, h, found)
  }

  lemma StepKeepsSolvency(cfg: Config, st: State, h: nat)
    requires cfg.depth >= 1 && Inv(cfg, st, h)
    ensures Positive(NewPayouts(cfg, st, h))
    ensures forall m :: InFlight(NextPayouts(cfg, st, h), m) <= Owed(AfterPayouts(cfg, st, h), m)
  {
    hide BlockPayouts, InFlight, AfterCredit;
    var b, list, before := AfterPayouts(cfg, st, h), NewPayouts(cfg, st, h), st.payouts - {h};
    BlockPayoutsAmounts(b, before, cfg.payPerSlot, Selected(cfg, b), 0);
    forall m ensures InFlight(NextPayouts(cfg, st, h), m) <= Owed(b, m) {
      BlockPayoutsAmounts(b, before, cfg.payPerSlot, Selected(cfg, b), m);
      if list != [] { InFlightAdd(before, h + cfg.depth, list, m); }
    }
  }

  // ---------- whole runs ----------

  function FoundAt(credits: seq<Credit>, h: nat): Option<Credit> {
    if h < |credits| then Some(credits[h]) else None
  }

  /** The state before block h of the run over the given credit stream. Solvency holds at every height. */
  ghost function Reach(cfg: Config, credits: seq<Credit>, h: nat): (st: State)
    requires cfg.depth >= 1
    ensures Inv(cfg, st, h)
    decreases h
  {
    if h == 0 then
      assert forall m :: PerHeight(EmptyState.payouts, m) == map[];
      EmptyState
    else BlockStep(cfg, Reach(cfg, credits, h - 1), h - 1, FoundAt(credits, h - 1))
  }
}

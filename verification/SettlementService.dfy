/**
 * How long a miner occupies a slot. A miner that is owed x takes one block per slot's worth to be put in flight and
 * depth blocks for the last of it to be paid; this load shrinks by one in every block in which the miner is selected.
 */
module SettlementService {
  import opened Basics
  import opened Arithmetic
  import opened Sums
  import opened KFair
  import opened Settlement
  import opened SettlementRuns

  // ---------- what a block does to one miner ----------

  ghost function PaysAt(payouts: map<nat, seq<Payout>>, k: nat, m: Miner): nat {
    if k in payouts then AmountTo(payouts[k], m) else 0
  }

  /** What block k pays m. */
  ghost function PaidBy(cfg: Config, credits: seq<Credit>, k: nat, m: Miner): nat
    requires cfg.depth >= 1
  {
    PaysAt(Reach(cfg, credits, k).payouts, k, m)
  }

  /** What block k puts in flight for m. */
  ghost function ChosenBy(cfg: Config, credits: seq<Credit>, k: nat, m: Miner): nat
    requires cfg.depth >= 1
  {
    AmountTo(NewPayouts(cfg, Reach(cfg, credits, k), k), m)
  }

  /** What block k finalizes for the miners of a group: the credit found depth blocks before, if it is theirs. */
  function FinalizedFor(cfg: Config, credits: seq<Credit>, k: nat, group: set<Miner>): nat {
    if cfg.depth <= k < cfg.depth + |credits| && credits[k - cfg.depth].miner in group
    then credits[k - cfg.depth].amount else 0
  }

  /** A block adds exactly its finalized credit to what a miner is owed and takes off exactly what it pays. */
  lemma OwedStep(cfg: Config, credits: seq<Credit>, k: nat, m: Miner)
    requires cfg.depth >= 1
    ensures Owed(Reach(cfg, credits, k + 1).books, m) + PaidBy(cfg, credits, k, m) ==
            Owed(Reach(cfg, credits, k).books, m) + FinalizedFor(cfg, credits, k, {m})
  {
    hide BlockStep, Reach, Inv;
    ReachStep(cfg, credits, k);
    PendingExactly(cfg, credits, k);
    LedgerStep(cfg, Reach(cfg, credits, k), k, FoundAt(credits, k), m);
  }

  lemma NextOverlay(cfg: Config, st: State, h: nat, found: Option<Credit>, m: Miner)
    requires cfg.depth >= 1 && Inv(cfg, st, h)
    ensures var st' := BlockStep(cfg, st, h, found);
            && st'.books == AfterPayouts(cfg, st, h)
            && PaysAt(st'.payouts, h + cfg.depth, m) == AmountTo(NewPayouts(cfg, st, h), m)
            && (forall k :: k != h && k != h + cfg.depth ==> PaysAt(st'.payouts, k, m) == PaysAt(st.payouts, k, m))
            && InFlight(st'.payouts, m) + PaysAt(st.payouts, h, m) ==
               InFlight(st.payouts, m) + AmountTo(NewPayouts(cfg, st, h), m)
            && InFlight(st.payouts - {h}, m) + PaysAt(st.payouts, h, m) == InFlight(st.payouts, m)
  {
    hide AfterPayouts, NewPayouts, InFlight;
    var list, rest := NewPayouts(cfg, st, h), st.payouts - {h};
    if h in st.payouts { InFlightRemove(st.payouts, h, m); } else { assert rest == st.payouts; }
    if list != [] { InFlightAdd(rest, h + cfg.depth, list, m); }
  }

  /** The same on a run, with the law of what a slot pays. */
  lemma FlightStep(cfg: Config, credits: seq<Credit>, k: nat, m: Miner)
    requires cfg.depth >= 1
    ensures var st, st' := Reach(cfg, credits, k), Reach(cfg, credits, k + 1);
            var chosen := ChosenBy(cfg, credits, k, m);
            var open := Owed(st.books, m) + FinalizedFor(cfg, credits, k, {m}) - InFlight(st.payouts, m);
            && PaysAt(st'.payouts, k + cfg.depth, m) == chosen
            && (forall j :: j != k && j != k + cfg.depth ==> PaysAt(st'.payouts, j, m) == PaysAt(st.payouts, j, m))
            && InFlight(st'.payouts, m) + PaidBy(cfg, credits, k, m) == InFlight(st.payouts, m) + chosen
            && chosen == if m !in Selected(cfg, st'.books) then 0
                         else if cfg.payPerSlot <= open then cfg.payPerSlot else open
  {
    hide BlockStep, Reach, Inv, Selected, AfterPayouts, NewPayouts, InFlight, PaysAt, Owed;
    var st := Reach(cfg, credits, k);
    ReachStep(cfg, credits, k);
    NextOverlay(cfg, st, k, FoundAt(credits, k), m);
    OwedStep(cfg, credits, k, m);
    SlotPays(cfg, st, k, m);
  }

  // ---------- what is in flight is what will be paid ----------

  /** The payout overlay holds exactly what the last depth blocks chose, each depth blocks later. */
  lemma {:induction false} OverlayExactly(cfg: Config, credits: seq<Credit>, h: nat, k: nat, m: Miner)
    requires cfg.depth >= 1 && h <= k
    ensures PaysAt(Reach(cfg, credits, h).payouts, k, m) ==
            if cfg.depth <= k < h + cfg.depth then ChosenBy(cfg, credits, k - cfg.depth, m) else 0
    decreases h
  {
    hide Reach, Inv, ChosenBy, Selected, InFlight, Owed;
    if h == 0 {
      ReachStart(cfg, credits);
    } else {
      FlightStep(cfg, credits, h - 1, m);
      OverlayExactly(cfg, credits, h - 1, k, m);
    }
  }

  /** A block pays exactly what the block depth before it chose. */
  lemma PaysWhatWasChosen(cfg: Config, credits: seq<Credit>, k: nat, m: Miner)
    requires cfg.depth >= 1
    ensures PaidBy(cfg, credits, k + cfg.depth, m) == ChosenBy(cfg, credits, k, m)
  {
    hide Reach, ChosenBy, PaysAt, Inv;
    OverlayExactly(cfg, credits, k + cfg.depth, k + cfg.depth, m);
  }

  /** A block pays m at most one slot's worth, and nothing unless m was selected depth blocks before. */
  lemma PaidForSlot(cfg: Config, credits: seq<Credit>, k: nat, m: Miner)
    requires cfg.depth >= 1
    ensures PaidBy(cfg, credits, k, m) <= cfg.payPerSlot
    ensures PaidBy(cfg, credits, k, m) > 0 ==>
              k >= cfg.depth && m in Selected(cfg, Reach(cfg, credits, k - cfg.depth + 1).books)
  {
    hide Reach, Inv, ChosenBy, PaysAt, Selected, InFlight, Owed;
    OverlayExactly(cfg, credits, k, k, m);
    if k >= cfg.depth {
      ReachShape(cfg, credits, k - cfg.depth + 1);
      FlightStep(cfg, credits, k - cfg.depth, m);
    }
  }

  /** What the blocks before h pay m. */
  ghost function PaidBefore(cfg: Config, credits: seq<Credit>, h: nat, m: Miner): nat
    requires cfg.depth >= 1
  {
    if h == 0 then 0 else PaidBefore(cfg, credits, h - 1, m) + PaidBy(cfg, credits, h - 1, m)
  }

  /** What the blocks before h finalize for m. */
  function CreditedBefore(cfg: Config, credits: seq<Credit>, h: nat, m: Miner): nat {
    if h == 0 then 0 else CreditedBefore(cfg, credits, h - 1, m) + FinalizedFor(cfg, credits, h - 1, {m})
  }

  /** Conservation miner by miner: finalized credits = owed + paid, in every reachable state. */
  lemma {:induction false} Account(cfg: Config, credits: seq<Credit>, h: nat, m: Miner)
    requires cfg.depth >= 1
    ensures Owed(Reach(cfg, credits, h).books, m) + PaidBefore(cfg, credits, h, m) == CreditedBefore(cfg, credits, h, m)
    decreases h
  {
    hide Reach, FinalizedFor, PaidBy, Inv;
    if h == 0 {
      ReachStart(cfg, credits);
    } else {
      Account(cfg, credits, h - 1, m);
      OwedStep(cfg, credits, h - 1, m);
    }
  }

  /** What is in flight is what the next depth blocks pay. */
  lemma {:induction false} FlightAccount(cfg: Config, credits: seq<Credit>, h: nat, m: Miner)
    requires cfg.depth >= 1
    ensures PaidBefore(cfg, credits, h + cfg.depth, m) ==
            PaidBefore(cfg, credits, h, m) + InFlight(Reach(cfg, credits, h).payouts, m)
    decreases h
  {
    hide Reach, PaidBy, ChosenBy, Inv, Selected, Owed, PaysAt;
    if h == 0 {
      ReachStart(cfg, credits);
      NothingPaidYet(cfg, credits, cfg.depth, m);
    } else {
      FlightAccount(cfg, credits, h - 1, m);
      FlightStep(cfg, credits, h - 1, m);
      PaysWhatWasChosen(cfg, credits, h - 1, m);
      assert h + cfg.depth - 1 == h - 1 + cfg.depth;
    }
  }

  lemma {:induction false} NothingPaidYet(cfg: Config, credits: seq<Credit>, h: nat, m: Miner)
    requires cfg.depth >= 1 && h <= cfg.depth
    ensures PaidBefore(cfg, credits, h, m) == 0
    decreases h
  {
    hide Reach, ChosenBy, PaysAt, Inv;
    if h > 0 {
      NothingPaidYet(cfg, credits, h - 1, m);
      OverlayExactly(cfg, credits, h - 1, h - 1, m);
    }
  }

  /** Depth blocks settle exactly what was in flight: owed after = owed before + credited meanwhile - in flight. */
  lemma RoundLaw(cfg: Config, credits: seq<Credit>, h: nat, m: Miner)
    requires cfg.depth >= 1
    ensures Owed(Reach(cfg, credits, h + cfg.depth).books, m) ==
            Owed(Reach(cfg, credits, h).books, m) - InFlight(Reach(cfg, credits, h).payouts, m)
            + CreditedBefore(cfg, credits, h + cfg.depth, m) - CreditedBefore(cfg, credits, h, m)
  {
    hide Reach, Owed, InFlight, PaidBefore, CreditedBefore, Inv;
    Account(cfg, credits, h, m);
    Account(cfg, credits, h + cfg.depth, m);
    FlightAccount(cfg, credits, h, m);
  }

  // ---------- how many blocks an amount takes ----------

  /** The slots an amount fills, the last one perhaps not whole. */
  ghost function Slots(pay: nat, x: nat): nat
    requires pay >= 1
  {
    DivisionBounds(x + pay - 1, pay);
    (x + pay - 1) / pay
  }

  lemma SlotsNext(pay: nat, x: nat)
    requires pay >= 1
    ensures Slots(pay, 0) == 0
    ensures x >= 1 ==> Slots(pay, if x <= pay then 0 else x - pay) + 1 == Slots(pay, x)
  {
    DivisionIs(pay - 1, pay, 0, pay - 1);
    if 1 <= x <= pay {
      DivisionIs(x + pay - 1, pay, 1, x - 1);
    } else if x >= 1 {
      var q, r := (x - 1) / pay, (x - 1) % pay;
      DivisionBounds(x - 1, pay);
      OneMoreFactor(q, pay);
      DivisionIs(x - 1 + pay, pay, q + 1, r);
    }
  }

  lemma OneMoreFactor(q: int, d: int)
    ensures (q + 1) * d == q * d + d
  {
  }

  lemma {:induction false} SlotsSum(pay: nat, x: nat, y: nat)
    requires pay >= 1
    ensures Slots(pay, x + y) <= Slots(pay, x) + Slots(pay, y)
    decreases x
  {
    hide Slots;
    SlotsNext(pay, x);
    if x == 0 {
    } else if x <= pay {
      SlotsGrow(pay, y, x + y);
      SlotsNext(pay, x + y);
      SlotsGrow(pay, if x + y <= pay then 0 else x + y - pay, y);
    } else {
      SlotsSum(pay, x - pay, y);
      SlotsNext(pay, x + y);
      assert x + y - pay == x - pay + y;
    }
  }

  lemma {:induction false} SlotsGrow(pay: nat, x: nat, y: nat)
    requires pay >= 1 && x <= y
    ensures Slots(pay, x) <= Slots(pay, y)
    decreases y
  {
    hide Slots;
    SlotsNext(pay, x);
    SlotsNext(pay, y);
    if y > pay {
      SlotsGrow(pay, if x <= pay then 0 else x - pay, y - pay);
    }
  }

  /** The blocks from being selected to being paid off, for a miner that is owed x and credited nothing more. */
  ghost function Visit(cfg: Config, x: nat): nat
    requires cfg.depth >= 1 && cfg.payPerSlot >= 1
  {
    if x == 0 then 0 else cfg.depth - 1 + Slots(cfg.payPerSlot, x)
  }

  // ---------- the load of one miner ----------

  /** The blocks until the last pending payout to m within d blocks of block k is paid. */
  ghost function Remaining(payouts: map<nat, seq<Payout>>, m: Miner, k: nat, d: nat): (r: nat)
    ensures r <= d
  {
    if d == 0 then 0 else if PaysAt(payouts, k + d - 1, m) > 0 then d else Remaining(payouts, m, k, d - 1)
  }

  lemma {:induction false} RemainingStep(now: map<nat, seq<Payout>>, next: map<nat, seq<Payout>>, m: Miner, k: nat,
                                         d: nat)
    requires forall j :: k < j <= k + d ==> PaysAt(next, j, m) == PaysAt(now, j, m)
    ensures var r := Remaining(now, m, k, d + 1); Remaining(next, m, k + 1, d) == if r == 0 then 0 else r - 1
    decreases d
  {
    hide PaysAt;
    if d > 0 {
      assert PaysAt(next, k + d, m) == PaysAt(now, k + d, m);
      RemainingStep(now, next, m, k, d - 1);
    }
  }

  lemma {:induction false} RemainingReaches(payouts: map<nat, seq<Payout>>, m: Miner, k: nat, d: nat, j: nat)
    requires k <= j < k + d && PaysAt(payouts, j, m) > 0
    ensures Remaining(payouts, m, k, d) > j - k
    decreases d
  {
    if j < k + d - 1 { RemainingReaches(payouts, m, k, d - 1, j); }
  }

  lemma {:induction false} RemainingPays(payouts: map<nat, seq<Payout>>, m: Miner, k: nat, d: nat)
    ensures var r := Remaining(payouts, m, k, d); r > 0 ==> PaysAt(payouts, k + r - 1, m) > 0
    decreases d
  {
    if d > 0 && PaysAt(payouts, k + d - 1, m) == 0 { RemainingPays(payouts, m, k, d - 1); }
  }

  /** One block remains exactly when that block pays all that is in flight. */
  lemma LastPayment(payouts: map<nat, seq<Payout>>, m: Miner, k: nat, d: nat)
    requires InFlight(payouts, m) > 0 && forall j :: j in payouts ==> k <= j < k + d
    ensures Remaining(payouts, m, k, d) == 1 <==> PaysAt(payouts, k, m) == InFlight(payouts, m)
  {
    hide Remaining, InFlight;
    var r, rest := Remaining(payouts, m, k, d), payouts - {k};
    var j := InFlightWitness(payouts, m);
    RemainingReaches(payouts, m, k, d, j);
    RemainingPays(payouts, m, k, d);
    if k in payouts { InFlightRemove(payouts, k, m); } else { assert rest == payouts; }
    if InFlight(rest, m) > 0 {
      var i := InFlightWitness(rest, m);
      RemainingReaches(payouts, m, k, d, i);
    } else if r > 1 {
      InFlightRemove(rest, k + r - 1, m);
    }
  }

  /** The load of a miner owed o, of which f is in flight, with r blocks until the last of that is paid. */
  ghost function LoadOf(cfg: Config, o: nat, f: nat, r: nat): nat
    requires cfg.depth >= 1 && cfg.payPerSlot >= 1
  {
    if o == 0 then 0
    else if f == 0 then Visit(cfg, o)
    else if f < o then
      var open, all := Slots(cfg.payPerSlot, o - f), Slots(cfg.payPerSlot, o);
      cfg.depth + if open < all then open else all - 1
    else r
  }

  lemma LoadAtMostVisit(cfg: Config, o: nat, f: nat, r: nat)
    requires cfg.depth >= 1 && cfg.payPerSlot >= 1 && r <= cfg.depth
    ensures LoadOf(cfg, o, f, r) <= Visit(cfg, o)
  {
    hide Slots;
    SlotsNext(cfg.payPerSlot, o);
  }

  /** A block that credits c, pays p and chooses a: the load grows by no more than the visit of the credit. */
  lemma LoadGrows(cfg: Config, o: nat, f: nat, r: nat, c: nat, p: nat, a: nat, r': nat)
    requires cfg.depth >= 1 && cfg.payPerSlot >= 1 && p <= f <= o && a <= o + c - f && r' <= cfg.depth
    requires (f > 0 ==> r >= 1) && (a == 0 ==> r' <= r)
    ensures LoadOf(cfg, o + c - p, f - p + a, r') <= LoadOf(cfg, o, f, r) + Visit(cfg, c)
  {
    hide Slots;
    var pay, o', f' := cfg.payPerSlot, o + c - p, f - p + a;
    LoadAtMostVisit(cfg, o', f', r');
    SlotsNext(pay, 0);
    SlotsSum(pay, o, c);
    SlotsGrow(pay, o', o + c);
    if f > 0 && f < o {
      SlotsSum(pay, o - f, c);
      SlotsGrow(pay, o' - f', o - f + c);
      SlotsNext(pay, o);
    } else if f > 0 {
      SlotsGrow(pay, o' - f', c);
    }
  }

  /** And it shrinks by one besides for a miner that holds its slot. */
  lemma LoadServed(cfg: Config, o: nat, f: nat, r: nat, c: nat, p: nat, a: nat, r': nat)
    requires cfg.depth >= 1 && cfg.payPerSlot >= 1 && p <= f <= o && r' <= cfg.depth
    requires 1 <= f && (f < o ==> cfg.payPerSlot <= f)
    requires a <= o + c - f && (o + c > p ==> a == if cfg.payPerSlot <= o + c - f then cfg.payPerSlot else o + c - f)
    requires r >= 1 && (a == 0 ==> r' == r - 1)
    ensures LoadOf(cfg, o + c - p, f - p + a, r') + 1 <= LoadOf(cfg, o, f, r) + Visit(cfg, c)
  {
    hide Slots;
    var pay, o', f' := cfg.payPerSlot, o + c - p, f - p + a;
    SlotsNext(pay, 0);
    SlotsNext(pay, c);
    SlotsNext(pay, o + c - f);
    SlotsNext(pay, o);
    if f < o {
      SlotsSum(pay, o - f, c);
      SlotsGrow(pay, o - f, o - pay);
    }
  }

  /** Without credit it shrinks by exactly one. */
  lemma LoadServedExactly(cfg: Config, o: nat, f: nat, r: nat, p: nat, a: nat, r': nat)
    requires cfg.depth >= 1 && cfg.payPerSlot >= 1 && p <= f <= o
    requires 1 <= f && (f < o ==> cfg.payPerSlot <= f)
    requires a == if cfg.payPerSlot <= o - f then cfg.payPerSlot else o - f
    requires r >= 1 && r' == (if a == 0 then r - 1 else cfg.depth) && (r == 1 <==> p == f)
    ensures LoadOf(cfg, o - p, f - p + a, r') + 1 == LoadOf(cfg, o, f, r)
  {
    hide Slots;
    var pay, o', f' := cfg.payPerSlot, o - p, f - p + a;
    SlotsNext(pay, 0);
    SlotsNext(pay, o - f);
    SlotsNext(pay, o);
    SlotsNext(pay, o');
    if f < o {
      SlotsGrow(pay, o - f, o - pay);
      if f' < o' { SlotsGrow(pay, o' - f', o' - pay); }
    }
  }

  // ---------- loads over a run ----------

  /** The load of m before block k. */
  ghost function Load(cfg: Config, credits: seq<Credit>, k: nat, m: Miner): nat
    requires cfg.depth >= 1 && cfg.payPerSlot >= 1
  {
    var st := Reach(cfg, credits, k);
    LoadOf(cfg, Owed(st.books, m), InFlight(st.payouts, m), Remaining(st.payouts, m, k, cfg.depth))
  }

  /** Something in flight falls due within depth blocks, and a load of nothing means nothing owed. */
  lemma FlightRemains(cfg: Config, credits: seq<Credit>, k: nat, m: Miner)
    requires cfg.depth >= 1
    ensures InFlight(Reach(cfg, credits, k).payouts, m) <= Owed(Reach(cfg, credits, k).books, m)
    ensures InFlight(Reach(cfg, credits, k).payouts, m) > 0 ==>
              Remaining(Reach(cfg, credits, k).payouts, m, k, cfg.depth) >= 1
  {
    hide Reach, BlockStep, InFlight, Owed;
    var payouts := Reach(cfg, credits, k).payouts;
    if InFlight(payouts, m) > 0 {
      var j := InFlightWitness(payouts, m);
      ReachShape(cfg, credits, k);
      RemainingReaches(payouts, m, k, cfg.depth, j);
    }
  }

  lemma LoadPositive(cfg: Config, credits: seq<Credit>, k: nat, m: Miner)
    requires cfg.depth >= 1 && cfg.payPerSlot >= 1
    ensures IsEligible(cfg, credits, k, m) ==> Load(cfg, credits, k, m) >= 1
    ensures Load(cfg, credits, k, m) <= Visit(cfg, Owed(Reach(cfg, credits, k).books, m))
  {
    hide Reach, InFlight, Owed, Remaining, Inv, Slots;
    var st := Reach(cfg, credits, k);
    FlightRemains(cfg, credits, k, m);
    SlotsNext(cfg.payPerSlot, Owed(st.books, m));
    LoadAtMostVisit(cfg, Owed(st.books, m), InFlight(st.payouts, m), Remaining(st.payouts, m, k, cfg.depth));
  }

  /** Whoever was selected has a whole slot's worth in flight, or all it is owed. */
  lemma SelectedInFlight(cfg: Config, credits: seq<Credit>, k: nat, m: Miner)
    requires cfg.depth >= 1 && cfg.payPerSlot >= 1 && k >= 1 && m in Selected(cfg, Reach(cfg, credits, k).books)
    ensures var owed, inFlight := Owed(Reach(cfg, credits, k).books, m), InFlight(Reach(cfg, credits, k).payouts, m);
            owed >= 1 && inFlight >= if cfg.payPerSlot <= owed then cfg.payPerSlot else owed
  {
    hide Reach, InFlight, Inv, ChosenBy, PaysAt;
    ReachShape(cfg, credits, k);
    FlightStep(cfg, credits, k - 1, m);
    OwedStep(cfg, credits, k - 1, m);
    FlightRemains(cfg, credits, k - 1, m);
    PaidInFlight(cfg, credits, k - 1, m);
  }

  lemma PaidInFlight(cfg: Config, credits: seq<Credit>, k: nat, m: Miner)
    requires cfg.depth >= 1
    ensures PaidBy(cfg, credits, k, m) <= InFlight(Reach(cfg, credits, k).payouts, m)
  {
    hide Reach, Inv;
    var payouts := Reach(cfg, credits, k).payouts;
    if k in payouts { InFlightRemove(payouts, k, m); }
  }

  /** Who is selected stays selected for as long as it is owed something. */
  lemma StaysSelected(cfg: Config, credits: seq<Credit>, k: nat, m: Miner)
    requires cfg.depth >= 1 && m in Selected(cfg, Reach(cfg, credits, k).books) && IsEligible(cfg, credits, k + 1, m)
    ensures m in Selected(cfg, Reach(cfg, credits, k + 1).books)
  {
    hide Reach, BlockStep, Ahead, Inv;
    var b, b' := Reach(cfg, credits, k).books, Reach(cfg, credits, k + 1).books;
    ReachShape(cfg, credits, k);
    ReachShape(cfg, credits, k + 1);
    SelectedIsAhead(cfg, b, m);
    SelectedIsAhead(cfg, b', m);
    NobodyJumpsAhead(cfg, credits, k, k + 1, m);
  }

  /** Who is selected: the eligible miners with fewer than `slots` others ahead. */
  lemma SelectedIsAhead(cfg: Config, b: Books, m: Miner)
    requires b.first.Keys == Eligible(b.owed)
    ensures m in Selected(cfg, b) <==> Owed(b, m) > 0 && |Ahead(b, m)| < cfg.slots
  {
    SelectedExactly(b.owed, b.first, cfg.slots, m);
    if m in Eligible(b.owed) {
      assert Ahead(b, m) == RankedBefore(b.owed, b.first, m);
    }
  }

  /** A block's credit to m adds its visit to m's load; a block with m selected takes one off. */
  lemma LoadStep(cfg: Config, credits: seq<Credit>, k: nat, m: Miner)
    requires cfg.depth >= 1 && cfg.payPerSlot >= 1
    ensures Load(cfg, credits, k + 1, m) <= Load(cfg, credits, k, m) + Visit(cfg, FinalizedFor(cfg, credits, k, {m}))
    ensures k >= 1 && m in Selected(cfg, Reach(cfg, credits, k).books) ==>
              Load(cfg, credits, k + 1, m) < Load(cfg, credits, k, m) + Visit(cfg, FinalizedFor(cfg, credits, k, {m}))
  {
    hide Reach, Inv, InFlight, Owed, ChosenBy, PaysAt, Remaining, FinalizedFor, LoadOf, Visit, Selected;
    var st, st' := Reach(cfg, credits, k), Reach(cfg, credits, k + 1);
    var o, f, r := Owed(st.books, m), InFlight(st.payouts, m), Remaining(st.payouts, m, k, cfg.depth);
    var c, p, a := FinalizedFor(cfg, credits, k, {m}), PaidBy(cfg, credits, k, m), ChosenBy(cfg, credits, k, m);
    var r' := Remaining(st'.payouts, m, k + 1, cfg.depth);
    ReachShape(cfg, credits, k);
    OwedStep(cfg, credits, k, m);
    FlightStep(cfg, credits, k, m);
    FlightRemains(cfg, credits, k, m);
    PaidInFlight(cfg, credits, k, m);
    if a == 0 { NothingChosen(cfg, credits, k, m); }
    LoadGrows(cfg, o, f, r, c, p, a, r');
    if k >= 1 && m in Selected(cfg, st.books) {
      SelectedInFlight(cfg, credits, k, m);
      if o + c > p { StaysSelected(cfg, credits, k, m); }
      LoadServed(cfg, o, f, r, c, p, a, r');
    }
  }

  lemma NothingChosen(cfg: Config, credits: seq<Credit>, k: nat, m: Miner)
    requires cfg.depth >= 1 && ChosenBy(cfg, credits, k, m) == 0
    ensures var r := Remaining(Reach(cfg, credits, k).payouts, m, k, cfg.depth);
            Remaining(Reach(cfg, credits, k + 1).payouts, m, k + 1, cfg.depth) == if r == 0 then 0 else r - 1
  {
    hide Reach, Inv, InFlight, Owed, ChosenBy, PaysAt, Selected;
    FlightStep(cfg, credits, k, m);
    RemainingStep(Reach(cfg, credits, k).payouts, Reach(cfg, credits, k + 1).payouts, m, k, cfg.depth - 1);
  }

  /** And a block with m selected and nothing credited takes off exactly one. */
  lemma LoadStepExactly(cfg: Config, credits: seq<Credit>, k: nat, m: Miner)
    requires cfg.depth >= 1 && cfg.payPerSlot >= 1 && k >= 1 && m in Selected(cfg, Reach(cfg, credits, k).books)
    requires FinalizedFor(cfg, credits, k, {m}) == 0
    ensures Load(cfg, credits, k + 1, m) + 1 == Load(cfg, credits, k, m)
  {
    hide Reach, Inv, InFlight, Owed, ChosenBy, PaysAt, FinalizedFor, LoadOf, Selected;
    var st, st' := Reach(cfg, credits, k), Reach(cfg, credits, k + 1);
    var o, f, r := Owed(st.books, m), InFlight(st.payouts, m), Remaining(st.payouts, m, k, cfg.depth);
    var p, a := PaidBy(cfg, credits, k, m), ChosenBy(cfg, credits, k, m);
    ReachShape(cfg, credits, k);
    OwedStep(cfg, credits, k, m);
    FlightStep(cfg, credits, k, m);
    FlightRemains(cfg, credits, k, m);
    PaidInFlight(cfg, credits, k, m);
    SelectedInFlight(cfg, credits, k, m);
    LastPayment(st.payouts, m, k, cfg.depth);
    if o > p { StaysSelected(cfg, credits, k, m); }
    if a == 0 { NothingChosen(cfg, credits, k, m); }
    LoadServedExactly(cfg, o, f, r, p, a, Remaining(st'.payouts, m, k + 1, cfg.depth));
  }

  /** A selected miner that is credited nothing more is paid off after exactly its load in blocks. */
  lemma {:induction false} PaidOffExactly(cfg: Config, credits: seq<Credit>, k: nat, n: nat, m: Miner)
    requires cfg.depth >= 1 && cfg.payPerSlot >= 1 && k >= 1 && m in Selected(cfg, Reach(cfg, credits, k).books)
    requires forall j :: k <= j < k + n ==> FinalizedFor(cfg, credits, j, {m}) == 0
    ensures IsEligible(cfg, credits, k + n, m) <==> n < Load(cfg, credits, k, m)
    ensures IsEligible(cfg, credits, k + n, m) ==>
              && m in Selected(cfg, Reach(cfg, credits, k + n).books)
              && Load(cfg, credits, k + n, m) + n == Load(cfg, credits, k, m)
    decreases n
  {
    hide Reach, Inv, Load, FinalizedFor, Selected;
    ReachShape(cfg, credits, k);
    ReachShape(cfg, credits, k + n);
    LoadPositive(cfg, credits, k + n, m);
    if n == 0 {
      SelectedInFlight(cfg, credits, k, m);
    } else {
      var before := k + n - 1;
      ReachShape(cfg, credits, before);
      PaidOffExactly(cfg, credits, k, n - 1, m);
      OwedStep(cfg, credits, before, m);
      if IsEligible(cfg, credits, before, m) {
        LoadStepExactly(cfg, credits, before, m);
        if IsEligible(cfg, credits, k + n, m) { StaysSelected(cfg, credits, before, m); }
        LoadZero(cfg, credits, k + n, m);
      }
    }
  }

  lemma LoadZero(cfg: Config, credits: seq<Credit>, k: nat, m: Miner)
    requires cfg.depth >= 1 && cfg.payPerSlot >= 1
    ensures !IsEligible(cfg, credits, k, m) ==> Load(cfg, credits, k, m) == 0
  {
    hide Reach, InFlight, Owed, Remaining, Inv;
  }

  /**
   * What a visit is: from the block that first selects a miner owed x, nothing of it being in flight before, to the
   * block that pays it off, with nothing credited meanwhile, depth - 1 blocks pass and one for every slot x fills.
   */
  lemma VisitExactly(cfg: Config, credits: seq<Credit>, k: nat, n: nat, m: Miner)
    requires cfg.depth >= 1 && cfg.payPerSlot >= 1 && k >= 1 && m in Selected(cfg, Reach(cfg, credits, k).books)
    requires InFlight(Reach(cfg, credits, k - 1).payouts, m) == 0
    requires forall j :: k <= j < k + n ==> FinalizedFor(cfg, credits, j, {m}) == 0
    ensures var x, pay := Owed(Reach(cfg, credits, k).books, m), cfg.payPerSlot;
            IsEligible(cfg, credits, k + n, m) <==> n < cfg.depth - 1 + (x + pay - 1) / pay
  {
    hide Reach, Inv, Load, Selected;
    PaidOffExactly(cfg, credits, k, n, m);
    FreshLoad(cfg, credits, k, m);
  }

  lemma FreshLoad(cfg: Config, credits: seq<Credit>, k: nat, m: Miner)
    requires cfg.depth >= 1 && cfg.payPerSlot >= 1 && k >= 1 && m in Selected(cfg, Reach(cfg, credits, k).books)
    requires InFlight(Reach(cfg, credits, k - 1).payouts, m) == 0
    ensures Owed(Reach(cfg, credits, k).books, m) >= 1
    ensures Load(cfg, credits, k, m) == Visit(cfg, Owed(Reach(cfg, credits, k).books, m))
  {
    hide Reach, Inv, Selected, InFlight, Owed, ChosenBy, PaysAt, FinalizedFor, Slots;
    var o := Owed(Reach(cfg, credits, k).books, m);
    OwedStep(cfg, credits, k - 1, m);
    FlightStep(cfg, credits, k - 1, m);
    PaidInFlight(cfg, credits, k - 1, m);
    SelectedInFlight(cfg, credits, k, m);
    SlotsNext(cfg.payPerSlot, o);
    SlotsNext(cfg.payPerSlot, 0);
    assert k - 1 + cfg.depth == k + cfg.depth - 1;
  }

  // ---------- the load of a group ----------

  ghost function LoadEach(cfg: Config, credits: seq<Credit>, k: nat, group: set<Miner>): map<Miner, nat>
    requires cfg.depth >= 1 && cfg.payPerSlot >= 1
  {
    map u | u in group :: Load(cfg, credits, k, u)
  }

  ghost function WithCredit(cfg: Config, credits: seq<Credit>, k: nat, group: set<Miner>): map<Miner, nat>
    requires cfg.depth >= 1 && cfg.payPerSlot >= 1
  {
    map u | u in group :: Load(cfg, credits, k, u) + Visit(cfg, FinalizedFor(cfg, credits, k, {u}))
  }

  lemma WithCreditSum(cfg: Config, credits: seq<Credit>, k: nat, group: set<Miner>)
    requires cfg.depth >= 1 && cfg.payPerSlot >= 1
    ensures Sum(WithCredit(cfg, credits, k, group)) ==
            Sum(LoadEach(cfg, credits, k, group)) + Visit(cfg, FinalizedFor(cfg, credits, k, group))
  {
    hide Sum, Load, Slots;
    var before: map<Miner, nat>, after: map<Miner, nat> :=
      LoadEach(cfg, credits, k, group), WithCredit(cfg, credits, k, group);
    if FinalizedFor(cfg, credits, k, group) == 0 {
      assert after == before;
    } else {
      var c := credits[k - cfg.depth];
      var more: nat := before[c.miner] + Visit(cfg, c.amount);
      SumUpdate(before, c.miner, more);
      assert after == before[c.miner := more];
    }
  }

  /** In one block the load of a group shrinks by the number of its selected miners, but for the credit it gets. */
  lemma GroupLoadStep(cfg: Config, credits: seq<Credit>, k: nat, group: set<Miner>, served: set<Miner>)
    requires cfg.depth >= 1 && cfg.payPerSlot >= 1 && k >= 1 && served <= group
    requires forall u :: u in served ==> u in Selected(cfg, Reach(cfg, credits, k).books)
    ensures Sum(LoadEach(cfg, credits, k + 1, group)) + |served| <=
            Sum(LoadEach(cfg, credits, k, group)) + Visit(cfg, FinalizedFor(cfg, credits, k, group))
  {
    hide Reach, Inv, Load, FinalizedFor, Visit, Selected, Sum;
    var next, most := LoadEach(cfg, credits, k + 1, group), WithCredit(cfg, credits, k, group);
    WithCreditSum(cfg, credits, k, group);
    forall u | u in group ensures next[u] <= most[u] && (u in served ==> next[u] < most[u]) {
      LoadStep(cfg, credits, k, u);
    }
    SumDrops(next, most, served);
  }

  /** The visits of the credits finalized for a group by the blocks from..until. */
  ghost function VisitsTo(cfg: Config, credits: seq<Credit>, from: nat, until: nat, group: set<Miner>): nat
    requires cfg.depth >= 1 && cfg.payPerSlot >= 1
    decreases until
  {
    if until <= from then 0 else
      VisitsTo(cfg, credits, from, until - 1, group) + Visit(cfg, FinalizedFor(cfg, credits, until - 1, group))
  }

  /** The miners of a group that are selected before block k. */
  ghost function Served(cfg: Config, credits: seq<Credit>, k: nat, group: set<Miner>): set<Miner>
    requires cfg.depth >= 1
  {
    set u | u in group && u in Selected(cfg, Reach(cfg, credits, k).books)
  }

  /** While n miners of a group are served in every block, its load shrinks by n a block. */
  lemma {:induction false} LoadShrinks(cfg: Config, credits: seq<Credit>, h: nat, until: nat, group: set<Miner>, n: nat)
    requires cfg.depth >= 1 && cfg.payPerSlot >= 1 && 1 <= h <= until
    requires forall k :: h <= k < until ==> |Served(cfg, credits, k, group)| >= n
    ensures Sum(LoadEach(cfg, credits, until, group)) + n * (until - h) <=
            Sum(LoadEach(cfg, credits, h, group)) + VisitsTo(cfg, credits, h, until, group)
    decreases until
  {
    hide Reach, Inv, Load, LoadEach, FinalizedFor, Visit, Selected, Sum;
    if h < until {
      LoadShrinks(cfg, credits, h, until - 1, group, n);
      GroupLoadStep(cfg, credits, until - 1, group, Served(cfg, credits, until - 1, group));
      OneMoreFactor(until - 1 - h, n);
      assert n * (until - h) == n * (until - 1 - h) + n;
    }
  }
}

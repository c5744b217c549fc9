/**
 * How long an eligible miner can wait while credits keep arriving, and how long the ledger takes to drain: the visits
 * of everything ahead, shared among the slots. Credits to the miners ahead are what the bound cannot do without.
 */
module SettlementWaiting {
  import opened Basics
  import opened Arithmetic
  import opened Sums
  import opened KFair
  import opened Settlement
  import opened SettlementRuns
  import opened SettlementService

  /** The visits of what the books owe to a group, miner by miner. */
  ghost function VisitEach(cfg: Config, b: Books, group: set<Miner>): map<Miner, nat>
    requires cfg.depth >= 1 && cfg.payPerSlot >= 1
  {
    map u | u in group :: Visit(cfg, Owed(b, u))
  }

  lemma LoadsWithinVisits(cfg: Config, credits: seq<Credit>, h: nat, group: set<Miner>)
    requires cfg.depth >= 1 && cfg.payPerSlot >= 1
    ensures Sum(LoadEach(cfg, credits, h, group)) <= Sum(VisitEach(cfg, Reach(cfg, credits, h).books, group))
  {
    hide Reach, Load, Visit, Owed, Inv;
    var loads, visits := LoadEach(cfg, credits, h, group), VisitEach(cfg, Reach(cfg, credits, h).books, group);
    forall u | u in group ensures loads[u] <= visits[u] { LoadPositive(cfg, credits, h, u); }
    SumMonotone(loads, visits);
  }

  lemma {:induction false} MoreVisits(cfg: Config, credits: seq<Credit>, from: nat, mid: nat, until: nat,
                                      group: set<Miner>)
    requires cfg.depth >= 1 && cfg.payPerSlot >= 1 && mid <= until
    ensures VisitsTo(cfg, credits, from, mid, group) <= VisitsTo(cfg, credits, from, until, group)
    decreases until
  {
    hide FinalizedFor, Visit;
    if mid < until { MoreVisits(cfg, credits, from, mid, until - 1, group); }
  }

  // ---------- waiting ----------

  /** No block of from..until pays m. */
  ghost predicate Unpaid(cfg: Config, credits: seq<Credit>, from: nat, until: nat, m: Miner)
    requires cfg.depth >= 1
  {
    forall k :: from <= k < until ==> PaidBy(cfg, credits, k, m) == 0
  }

  lemma {:induction false} UnpaidStaysEligible(cfg: Config, credits: seq<Credit>, from: nat, until: nat, m: Miner)
    requires cfg.depth >= 1 && from <= until
    requires IsEligible(cfg, credits, from, m) && Unpaid(cfg, credits, from, until, m)
    ensures Owed(Reach(cfg, credits, until).books, m) >= Owed(Reach(cfg, credits, from).books, m)
    ensures IsEligible(cfg, credits, until, m)
    decreases until
  {
    hide Reach, Owed, PaidBy, Inv;
    if from < until {
      UnpaidStaysEligible(cfg, credits, from, until - 1, m);
      OwedStep(cfg, credits, until - 1, m);
    }
  }

  lemma FirstBlockOwesNothing(cfg: Config, credits: seq<Credit>, m: Miner)
    requires cfg.depth >= 1
    ensures !IsEligible(cfg, credits, 0, m)
  {
    ReachStart(cfg, credits);
  }

  lemma StillAhead(cfg: Config, credits: seq<Credit>, h: nat, later: nat, m: Miner)
    requires cfg.depth >= 1 && h <= later && IsEligible(cfg, credits, h, m) && Unpaid(cfg, credits, h, later, m)
    ensures Ahead(Reach(cfg, credits, later).books, m) <= Ahead(Reach(cfg, credits, h).books, m)
  {
    hide Reach, IsEligible, PaidBy, Inv;
    forall i | h <= i <= later ensures IsEligible(cfg, credits, i, m) { UnpaidStaysEligible(cfg, credits, h, i, m); }
    NobodyJumpsAhead(cfg, credits, h, later, m);
  }

  /** Somebody with payouts in flight before block h is paid by one of the next depth blocks. */
  lemma InFlightIsPaid(cfg: Config, credits: seq<Credit>, h: nat, m: Miner) returns (k: nat)
    requires cfg.depth >= 1 && InFlight(Reach(cfg, credits, h).payouts, m) > 0
    ensures h <= k < h + cfg.depth && PaidBy(cfg, credits, k, m) > 0
  {
    hide Reach, ChosenBy, Inv;
    k := InFlightWitness(Reach(cfg, credits, h).payouts, m);
    ReachShape(cfg, credits, h);
    OverlayExactly(cfg, credits, h, k, m);
    OverlayExactly(cfg, credits, k, k, m);
  }

  /** Who stays unpaid for depth blocks is not selected: every slot is held by somebody ahead of it. */
  lemma SlotsHeldAhead(cfg: Config, credits: seq<Credit>, h: nat, k: nat, m: Miner)
    requires cfg.depth >= 1 && cfg.payPerSlot >= 1 && h <= k && IsEligible(cfg, credits, h, m)
    requires Unpaid(cfg, credits, h, k + cfg.depth, m)
    ensures |Served(cfg, credits, k, Ahead(Reach(cfg, credits, h).books, m))| >= cfg.slots
  {
    hide Reach, PaidBy, Inv, Selected;
    ReachShape(cfg, credits, h);
    ReachShape(cfg, credits, k);
    FirstBlockOwesNothing(cfg, credits, m);
    UnpaidStaysEligible(cfg, credits, h, k, m);
    StillAhead(cfg, credits, h, k, m);
    var b := Reach(cfg, credits, k).books;
    if m in Selected(cfg, b) {
      SelectedInFlight(cfg, credits, k, m);
      var paid := InFlightIsPaid(cfg, credits, k, m);
      assert false;
    }
    SelectedAhead(cfg, b, m);
    var ahead := Ahead(Reach(cfg, credits, h).books, m);
    SubsetSize(Members(Selected(cfg, b)), Served(cfg, credits, k, ahead));
  }

  lemma SelectedAhead(cfg: Config, b: Books, m: Miner)
    requires b.first.Keys == Eligible(b.owed) && Owed(b, m) > 0 && m !in Selected(cfg, b)
    ensures Members(Selected(cfg, b)) <= Ahead(b, m)
    ensures |Members(Selected(cfg, b))| == cfg.slots
  {
    forall u | u in Selected(cfg, b) ensures u in Ahead(b, m) { NoInversion(b.owed, b.first, cfg.slots, u, m); }
    NoInversion(b.owed, b.first, cfg.slots, m, m);
    DistinctSize(Selected(cfg, b));
  }

  /** The visits of what is owed to the miners ranked before m. */
  ghost function VisitsAhead(cfg: Config, credits: seq<Credit>, h: nat, m: Miner): nat
    requires cfg.depth >= 1 && cfg.payPerSlot >= 1
  {
    var b := Reach(cfg, credits, h).books;
    Sum(VisitEach(cfg, b, Ahead(b, m)))
  }

  /** The visits of the credits finalized by the blocks h..end for the miners that are ahead of m before block h. */
  ghost function NewVisitsAhead(cfg: Config, credits: seq<Credit>, h: nat, end: nat, m: Miner): nat
    requires cfg.depth >= 1 && cfg.payPerSlot >= 1
  {
    VisitsTo(cfg, credits, h, end, Ahead(Reach(cfg, credits, h).books, m))
  }

  /** The blocks for which all slots can be held ahead of m number at most the visits ahead divided by the slots. */
  lemma QueueShrinks(cfg: Config, credits: seq<Credit>, h: nat, n: nat, m: Miner)
    requires cfg.depth >= 1 && cfg.payPerSlot >= 1 && IsEligible(cfg, credits, h, m)
    requires n >= 1 && Unpaid(cfg, credits, h, h + n - 1 + cfg.depth, m)
    ensures cfg.slots * n <= VisitsAhead(cfg, credits, h, m) + NewVisitsAhead(cfg, credits, h, h + n, m)
  {
    hide Reach, PaidBy, Inv, Ahead, LoadEach, VisitEach, VisitsTo, Served;
    ReachShape(cfg, credits, h);
    FirstBlockOwesNothing(cfg, credits, m);
    var ahead := Ahead(Reach(cfg, credits, h).books, m);
    forall k | h <= k < h + n ensures |Served(cfg, credits, k, ahead)| >= cfg.slots {
      SlotsHeldAhead(cfg, credits, h, k, m);
    }
    LoadShrinks(cfg, credits, h, h + n, ahead, cfg.slots);
    LoadsWithinVisits(cfg, credits, h, ahead);
    assert h + n - h == n;
  }

  /**
   * Bounded waiting over any live stream: an eligible miner is paid within depth blocks after the visits ahead of it,
   * those owed and those of the credits arriving meanwhile, have been shared among the slots.
   */
  lemma BoundedWaiting(cfg: Config, credits: seq<Credit>, h: nat, end: nat, m: Miner)
    requires cfg.depth >= 1 && cfg.slots >= 1 && cfg.payPerSlot >= 1 && IsEligible(cfg, credits, h, m)
    requires var visits := VisitsAhead(cfg, credits, h, m) + NewVisitsAhead(cfg, credits, h, end, m);
             h + visits / cfg.slots + cfg.depth <= end
    ensures exists k :: h <= k < end && PaidBy(cfg, credits, k, m) > 0
  {
    hide Reach, IsEligible, PaidBy, VisitsAhead, VisitsTo, Ahead, Inv;
    ReachShape(cfg, credits, h);
    if Unpaid(cfg, credits, h, end, m) {
      var visits := VisitsAhead(cfg, credits, h, m) + NewVisitsAhead(cfg, credits, h, end, m);
      DivisionBounds(visits, cfg.slots);
      var n := visits / cfg.slots + 1;
      assert cfg.slots * n > visits;
      MoreVisits(cfg, credits, h, h + n, end, Ahead(Reach(cfg, credits, h).books, m));
      QueueShrinks(cfg, credits, h, n, m);
      assert false;
    }
  }

  // ---------- quiet times ----------

  lemma {:induction false} QuietVisits(cfg: Config, credits: seq<Credit>, from: nat, until: nat, group: set<Miner>)
    requires cfg.depth >= 1 && cfg.payPerSlot >= 1 && |credits| + cfg.depth <= from
    ensures VisitsTo(cfg, credits, from, until, group) == 0
    decreases until
  {
    if from < until { QuietVisits(cfg, credits, from, until - 1, group); }
  }

  lemma {:induction false} QuietNeverGrows(cfg: Config, credits: seq<Credit>, h: nat, later: nat, m: Miner)
    requires cfg.depth >= 1 && |credits| + cfg.depth <= h && h <= later
    ensures Owed(Reach(cfg, credits, later).books, m) <= Owed(Reach(cfg, credits, h).books, m)
    decreases later
  {
    hide Reach, Owed, PaidBy, Inv;
    if h < later {
      QuietNeverGrows(cfg, credits, h, later - 1, m);
      OwedStep(cfg, credits, later - 1, m);
    }
  }

  /** With no credit pending: the wait is depth and a share of the visits ahead, and the miner is owed less by then. */
  lemma QuietWaiting(cfg: Config, credits: seq<Credit>, h: nat, end: nat, m: Miner)
    requires cfg.depth >= 1 && cfg.slots >= 1 && cfg.payPerSlot >= 1 && |credits| + cfg.depth <= h
    requires IsEligible(cfg, credits, h, m)
    requires h + VisitsAhead(cfg, credits, h, m) / cfg.slots + cfg.depth <= end
    ensures exists k :: h <= k < end && PaidBy(cfg, credits, k, m) > 0
    ensures Owed(Reach(cfg, credits, end).books, m) < Owed(Reach(cfg, credits, h).books, m)
  {
    hide Reach, IsEligible, Owed, VisitsAhead, PaidBy, Inv, Ahead, VisitsTo;
    ReachShape(cfg, credits, h);
    QuietVisits(cfg, credits, h, end, Ahead(Reach(cfg, credits, h).books, m));
    BoundedWaiting(cfg, credits, h, end, m);
    var k :| h <= k < end && PaidBy(cfg, credits, k, m) > 0;
    QuietNeverGrows(cfg, credits, h, k, m);
    OwedStep(cfg, credits, k, m);
    QuietNeverGrows(cfg, credits, k + 1, end, m);
  }

  // ---------- draining ----------

  /** In quiet times the slots serve the miners owed at the start, all of them once there are no more than slots. */
  lemma QuietServed(cfg: Config, credits: seq<Credit>, h: nat, k: nat)
    requires cfg.depth >= 1 && |credits| + cfg.depth <= h && h <= k
    ensures var eligible := Eligible(Reach(cfg, credits, k).books.owed);
            |Served(cfg, credits, k, Eligible(Reach(cfg, credits, h).books.owed))| ==
            if |eligible| <= cfg.slots then |eligible| else cfg.slots
  {
    hide Reach, Inv;
    ReachShape(cfg, credits, k);
    var b := Reach(cfg, credits, k).books;
    SelectedCount(b.owed, b.first, cfg.slots);
    forall u | u in Selected(cfg, b) ensures u in Eligible(Reach(cfg, credits, h).books.owed) {
      QuietNeverGrows(cfg, credits, h, k, u);
    }
    assert Served(cfg, credits, k, Eligible(Reach(cfg, credits, h).books.owed)) == Members(Selected(cfg, b));
  }

  /** The visits of everything owed. */
  ghost function AllVisits(cfg: Config, credits: seq<Credit>, h: nat): nat
    requires cfg.depth >= 1 && cfg.payPerSlot >= 1
  {
    var b := Reach(cfg, credits, h).books;
    Sum(VisitEach(cfg, b, Eligible(b.owed)))
  }

  /** In quiet times at least n miners can stay eligible for no more blocks than the visits divided by n. */
  lemma QuietLoad(cfg: Config, credits: seq<Credit>, h: nat, until: nat, n: nat)
    requires cfg.depth >= 1 && cfg.payPerSlot >= 1 && |credits| + cfg.depth <= h && h <= until && n <= cfg.slots
    requires forall k :: h <= k < until ==> |Eligible(Reach(cfg, credits, k).books.owed)| >= n
    ensures n * (until - h) <= AllVisits(cfg, credits, h)
  {
    hide Reach, Inv, LoadEach, VisitEach, VisitsTo, Served, Eligible;
    var group := Eligible(Reach(cfg, credits, h).books.owed);
    forall k | h <= k < until ensures |Served(cfg, credits, k, group)| >= n { QuietServed(cfg, credits, h, k); }
    LoadShrinks(cfg, credits, h, until, group, n);
    LoadsWithinVisits(cfg, credits, h, group);
    QuietVisits(cfg, credits, h, until, group);
  }

  lemma {:induction false} QuietEligible(cfg: Config, credits: seq<Credit>, h: nat, later: nat)
    requires cfg.depth >= 1 && |credits| + cfg.depth <= h && h <= later
    ensures Eligible(Reach(cfg, credits, later).books.owed) <= Eligible(Reach(cfg, credits, h).books.owed)
  {
    hide Reach, Inv;
    forall u | u in Eligible(Reach(cfg, credits, later).books.owed)
      ensures u in Eligible(Reach(cfg, credits, h).books.owed)
    {
      QuietNeverGrows(cfg, credits, h, later, u);
    }
  }

  /** Once no credit is pending the ledger is empty after the visits of all it owes, one after another. */
  lemma DrainsCompletely(cfg: Config, credits: seq<Credit>, h: nat, end: nat)
    requires cfg.depth >= 1 && cfg.slots >= 1 && cfg.payPerSlot >= 1 && |credits| + cfg.depth <= h
    requires h + AllVisits(cfg, credits, h) <= end
    ensures Sum(Reach(cfg, credits, end).books.owed) == 0
  {
    hide Reach, Inv, AllVisits, Sum;
    var left := Eligible(Reach(cfg, credits, end).books.owed);
    EligibleSum(Reach(cfg, credits, end).books.owed);
    if left != {} {
      forall k | h <= k < end + 1 ensures |Eligible(Reach(cfg, credits, k).books.owed)| >= 1 {
        QuietEligible(cfg, credits, k, end);
        SubsetSize(left, Eligible(Reach(cfg, credits, k).books.owed));
      }
      QuietLoad(cfg, credits, h, end + 1, 1);
      assert false;
    }
  }

  /** From when there are no more eligible miners than slots, every one of them is served until it is paid off. */
  lemma {:induction false} ServedToTheEnd(cfg: Config, credits: seq<Credit>, h: nat, later: nat, m: Miner)
    requires cfg.depth >= 1 && cfg.payPerSlot >= 1 && |credits| + cfg.depth <= h && h <= later
    requires |Eligible(Reach(cfg, credits, h).books.owed)| <= cfg.slots && IsEligible(cfg, credits, later, m)
    ensures Load(cfg, credits, later, m) + (later - h) <= Load(cfg, credits, h, m)
    decreases later
  {
    hide Reach, Inv, Load, Owed, Selected;
    if h < later {
      QuietNeverGrows(cfg, credits, later - 1, later, m);
      ServedToTheEnd(cfg, credits, h, later - 1, m);
      FewAreServed(cfg, credits, h, later - 1, m);
      LoadStep(cfg, credits, later - 1, m);
      assert Visit(cfg, FinalizedFor(cfg, credits, later - 1, {m})) == 0;
    }
  }

  lemma FewAreServed(cfg: Config, credits: seq<Credit>, h: nat, k: nat, m: Miner)
    requires cfg.depth >= 1 && |credits| + cfg.depth <= h && h <= k && IsEligible(cfg, credits, k, m)
    requires |Eligible(Reach(cfg, credits, h).books.owed)| <= cfg.slots
    ensures m in Selected(cfg, Reach(cfg, credits, k).books)
  {
    hide Reach, Inv;
    var b := Reach(cfg, credits, k).books;
    ReachShape(cfg, credits, k);
    QuietEligible(cfg, credits, h, k);
    SubsetSize(Eligible(b.owed), Eligible(Reach(cfg, credits, h).books.owed));
    SubsetSize(Ahead(b, m) + {m}, Eligible(b.owed));
    SelectedIsAhead(cfg, b, m);
  }

  /** With all slots at work: the visits shared among the slots, then the longest one. */
  lemma DrainsInParallel(cfg: Config, credits: seq<Credit>, h: nat, longest: nat, end: nat)
    requires cfg.depth >= 1 && cfg.slots >= 1 && cfg.payPerSlot >= 1 && |credits| + cfg.depth <= h
    requires forall m :: Visit(cfg, Owed(Reach(cfg, credits, h).books, m)) <= longest
    requires h + AllVisits(cfg, credits, h) / cfg.slots + longest <= end
    ensures Sum(Reach(cfg, credits, end).books.owed) == 0
  {
    hide Reach, Inv, AllVisits, Sum, Eligible, Load, Visit;
    var n := AllVisits(cfg, credits, h) / cfg.slots;
    DivisionBounds(AllVisits(cfg, credits, h), cfg.slots);
    if forall k :: h <= k < h + n + 1 ==> |Eligible(Reach(cfg, credits, k).books.owed)| >= cfg.slots {
      QuietLoad(cfg, credits, h, h + n + 1, cfg.slots);
      assert false;
    }
    var k :| h <= k < h + n + 1 && |Eligible(Reach(cfg, credits, k).books.owed)| < cfg.slots;
    var paid := k + longest;
    forall m ensures !IsEligible(cfg, credits, paid, m) {
      if IsEligible(cfg, credits, paid, m) {
        ServedToTheEnd(cfg, credits, k, paid, m);
        LoadPositive(cfg, credits, paid, m);
        LoadPositive(cfg, credits, k, m);
        QuietNeverGrows(cfg, credits, h, k, m);
        VisitGrows(cfg, Owed(Reach(cfg, credits, k).books, m), Owed(Reach(cfg, credits, h).books, m));
        assert false;
      }
    }
    NobodyOwed(cfg, credits, paid, end);
  }

  lemma VisitGrows(cfg: Config, x: nat, y: nat)
    requires cfg.depth >= 1 && cfg.payPerSlot >= 1 && x <= y
    ensures Visit(cfg, x) <= Visit(cfg, y)
  {
    SlotsGrow(cfg.payPerSlot, x, y);
  }

  lemma NobodyOwed(cfg: Config, credits: seq<Credit>, h: nat, end: nat)
    requires cfg.depth >= 1 && |credits| + cfg.depth <= h && h <= end
    requires forall m :: !IsEligible(cfg, credits, h, m)
    ensures Sum(Reach(cfg, credits, end).books.owed) == 0
  {
    hide Reach, Inv, Sum;
    EligibleSum(Reach(cfg, credits, end).books.owed);
    forall m | m in Eligible(Reach(cfg, credits, end).books.owed) ensures false {
      assert !IsEligible(cfg, credits, h, m);
      QuietNeverGrows(cfg, credits, h, end, m);
    }
  }
}

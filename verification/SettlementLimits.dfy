/**
 * What the owed-height-first order does not give. It does not bound a wait: in every configuration there is a credit
 * stream, with bounded credits, under which one eligible miner is not paid for as long as the stream runs. And a slot
 * can stay empty while an eligible miner waits.
 */
module SettlementLimits {
  import opened Basics
  import opened Arithmetic
  import opened Sums
  import opened KFair
  import opened Settlement
  import opened SettlementRuns
  import opened SettlementService

  lemma {:induction false} PaidAtMost(cfg: Config, credits: seq<Credit>, h: nat, m: Miner)
    requires cfg.depth >= 1
    ensures PaidBefore(cfg, credits, h, m) <= cfg.payPerSlot * h
    decreases h
  {
    hide PaidBy;
    if h > 0 {
      PaidAtMost(cfg, credits, h - 1, m);
      PaidForSlot(cfg, credits, h - 1, m);
      OneMoreFactor(h - 1, cfg.payPerSlot);
    }
  }

  // ---------- the stream ----------

  /** Every slot gets a favourite, the miner after them gets one unit, then the favourites share the stream. */
  function Event(cfg: Config, start: nat, i: nat): Credit
    requires cfg.slots >= 1
  {
    if i < cfg.slots then Credit(i, start)
    else if i == cfg.slots then Credit(cfg.slots, 1)
    else Credit((i - cfg.slots - 1) % cfg.slots, cfg.slots * cfg.payPerSlot)
  }

  function Stream(cfg: Config, start: nat, n: nat): (credits: seq<Credit>)
    requires cfg.slots >= 1
    ensures |credits| == n && forall i :: 0 <= i < n ==> credits[i] == Event(cfg, start, i)
  {
    seq(n, i requires 0 <= i => Event(cfg, start, i))
  }

  /** Events until the j-th later credit is u's turn. */
  function Wait(slots: nat, u: Miner, j: nat): nat
    requires u < slots
  {
    (u - j) % slots
  }

  lemma Turn(slots: nat, u: Miner, j: nat)
    requires u < slots
    ensures Wait(slots, u, j) == 0 <==> j % slots == u
    ensures Wait(slots, u, j + 1) == if Wait(slots, u, j) == 0 then slots - 1 else Wait(slots, u, j) - 1
  {
    hide Wait;
    WaitIs(slots, u, j);
    WaitIs(slots, u, j + 1);
    NextRemainder(j, slots);
  }

  lemma WaitIs(slots: nat, u: Miner, j: nat)
    requires u < slots
    ensures var r := j % slots; Wait(slots, u, j) == if u >= r then u - r else u - r + slots
  {
    DivisionBounds(j, slots);
    var q, r := j / slots, j % slots;
    if u >= r { Opposite(u, j, slots, q, r, 0); } else { Opposite(u, j, slots, q, r, 1); }
  }

  lemma Opposite(u: int, j: int, d: int, q: int, r: int, k: int)
    requires d > 0 && j == q * d + r && 0 <= u - r + k * d < d
    ensures (u - j) % d == u - r + k * d
  {
    assert u - j == (-q - k) * d + (u - r + k * d);
    DivisionIs(u - j, d, -q - k, u - r + k * d);
  }

  lemma NextRemainder(j: nat, d: nat)
    requires d > 0
    ensures (j + 1) % d == if j % d == d - 1 then 0 else j % d + 1
    ensures 0 <= j % d < d
  {
    DivisionBounds(j, d);
    var q, r := j / d, j % d;
    if r == d - 1 {
      assert j + 1 == (q + 1) * d;
      DivisionIs(j + 1, d, q + 1, 0);
    } else {
      DivisionIs(j + 1, d, q, r + 1);
    }
  }

  /** The favourite u has been credited, by any height, as much as its slot can have paid out since. */
  lemma {:induction false} FavouriteCredits(cfg: Config, start: nat, n: nat, h: nat, u: Miner)
    requires cfg.depth >= 1 && u < cfg.slots && cfg.depth + u < h <= n + cfg.depth
    ensures CreditedBefore(cfg, Stream(cfg, start, n), h, u) >= start
    ensures h > cfg.depth + cfg.slots ==> var j := h - cfg.depth - cfg.slots - 1;
              CreditedBefore(cfg, Stream(cfg, start, n), h, u) + cfg.payPerSlot * u >=
              start + cfg.payPerSlot * (j + Wait(cfg.slots, u, j))
    decreases h
  {
    hide Wait, Stream;
    var s, p, j := cfg.slots, cfg.payPerSlot, h - cfg.depth - cfg.slots - 1;
    if cfg.depth + u + 1 < h {
      FavouriteCredits(cfg, start, n, h - 1, u);
      if j == 0 {
        FirstTurn(s, u);
      } else if j > 0 {
        Turn(s, u, j - 1);
        CreditTurn(s, p, j - 1, Wait(s, u, j - 1), Wait(s, u, j));
      }
    }
  }

  lemma FirstTurn(slots: nat, u: Miner)
    requires u < slots
    ensures Wait(slots, u, 0) == u
  {
    DivisionIs(u, slots, 0, u);
  }

  lemma CreditTurn(s: nat, p: nat, j: nat, wait: nat, next: nat)
    requires next == if wait == 0 then s - 1 else wait - 1
    ensures p * (j + 1 + next) == p * (j + wait) + if wait == 0 then s * p else 0
  {
    if wait == 0 {
      assert j + 1 + next == j + s;
      assert p * (j + s) == p * j + s * p;
    } else {
      assert j + 1 + next == j + wait;
    }
  }

  /** The waiting miner's one credit. */
  lemma {:induction false} VictimCredits(cfg: Config, start: nat, n: nat, h: nat)
    requires cfg.depth >= 1 && cfg.slots >= 1 && h <= n + cfg.depth
    ensures CreditedBefore(cfg, Stream(cfg, start, n), h, cfg.slots) == if cfg.depth + cfg.slots < h then 1 else 0
    decreases h
  {
    hide Stream;
    if h > 0 { VictimCredits(cfg, start, n, h - 1); }
  }

  /** The first credit of a favourite is enough to outlast the finality delay. */
  ghost predicate Ample(cfg: Config, start: nat) {
    start > cfg.payPerSlot * (cfg.depth + 2 * cfg.slots + 1)
  }

  lemma FavouriteEligible(cfg: Config, start: nat, n: nat, h: nat, u: Miner)
    requires cfg.depth >= 1 && u < cfg.slots && cfg.depth + u < h <= n + cfg.depth && Ample(cfg, start)
    ensures IsEligible(cfg, Stream(cfg, start, n), h, u)
  {
    hide Reach, Stream, CreditedBefore, PaidBefore, Wait, Inv;
    var credits, s, p := Stream(cfg, start, n), cfg.slots, cfg.payPerSlot;
    Account(cfg, credits, h, u);
    PaidAtMost(cfg, credits, h, u);
    FavouriteCredits(cfg, start, n, h, u);
    var wait := if h <= cfg.depth + s then 0 else Wait(s, u, h - cfg.depth - s - 1);
    Outlasts(p, u, s, cfg.depth, h, wait);
  }

  lemma Outlasts(p: nat, u: nat, s: nat, d: nat, h: nat, wait: nat)
    requires u < s
    ensures p * u + p * h <= p * (d + 2 * s + 1) + if h <= d + s then 0 else p * (h - d - s - 1 + wait)
  {
    assert p * u + p * h == p * (u + h);
    if h <= d + s {
      MulMonotone(p, u + h, p, d + 2 * s + 1);
    } else {
      assert p * (d + 2 * s + 1) + p * (h - d - s - 1 + wait) == p * (h + s + wait);
      MulMonotone(p, u + h, p, h + s + wait);
    }
  }

  // ---------- nobody gets past the favourites ----------

  ghost function Favourites(slots: nat): (r: set<Miner>)
    ensures |r| == slots && forall u: Miner :: u in r <==> u < slots
  {
    if slots == 0 then {} else Favourites(slots - 1) + {slots - 1}
  }

  /** A favourite stays ahead of the waiting miner. */
  lemma FavouriteAhead(cfg: Config, start: nat, n: nat, h: nat, u: Miner)
    requires cfg.depth >= 1 && u < cfg.slots && Ample(cfg, start) && h <= n + cfg.depth
    requires IsEligible(cfg, Stream(cfg, start, n), h, cfg.slots)
    ensures u in Ahead(Reach(cfg, Stream(cfg, start, n), h).books, cfg.slots)
  {
    hide Reach, Stream, CreditedBefore, PaidBefore, Ample, Inv;
    var credits, v, armed := Stream(cfg, start, n), cfg.slots, cfg.depth + cfg.slots;
    VictimCredits(cfg, start, n, h);
    Account(cfg, credits, h, v);
    assert armed < h;
    VictimCredits(cfg, start, n, armed);
    Account(cfg, credits, armed, v);
    assert !IsEligible(cfg, credits, armed, v);
    forall i | armed <= i <= h ensures IsEligible(cfg, credits, i, u) { FavouriteEligible(cfg, start, n, i, u); }
    FirstEligibleIsLastArming(cfg, credits, h, u);
    FirstEligibleIsLastArming(cfg, credits, h, v);
  }

  lemma VictimNotSelected(cfg: Config, start: nat, n: nat, h: nat)
    requires cfg.depth >= 1 && cfg.slots >= 1 && Ample(cfg, start) && h <= n + cfg.depth
    ensures cfg.slots !in Selected(cfg, Reach(cfg, Stream(cfg, start, n), h).books)
  {
    hide Reach, Stream, Ample, Ahead, Inv;
    var credits := Stream(cfg, start, n);
    var b := Reach(cfg, credits, h).books;
    ReachShape(cfg, credits, h);
    if IsEligible(cfg, credits, h, cfg.slots) {
      forall u | u in Favourites(cfg.slots) ensures u in Ahead(b, cfg.slots) { FavouriteAhead(cfg, start, n, h, u); }
      SubsetSize(Favourites(cfg.slots), Ahead(b, cfg.slots));
      SelectedIsAhead(cfg, b, cfg.slots);
    }
  }

  lemma NotPaidBy(cfg: Config, start: nat, n: nat, k: nat)
    requires cfg.depth >= 1 && cfg.slots >= 1 && Ample(cfg, start) && k <= n + cfg.depth
    ensures PaidBy(cfg, Stream(cfg, start, n), k, cfg.slots) == 0
  {
    hide Reach, Stream, Ample, Selected, PaidBy, Inv;
    PaidForSlot(cfg, Stream(cfg, start, n), k, cfg.slots);
    if k >= cfg.depth { VictimNotSelected(cfg, start, n, k - cfg.depth + 1); }
  }

  lemma {:induction false} NothingPaid(cfg: Config, start: nat, n: nat, h: nat)
    requires cfg.depth >= 1 && cfg.slots >= 1 && Ample(cfg, start) && h <= n + cfg.depth
    ensures PaidBefore(cfg, Stream(cfg, start, n), h, cfg.slots) == 0
    decreases h
  {
    hide PaidBy, Stream, Ample;
    if h > 0 {
      NothingPaid(cfg, start, n, h - 1);
      NotPaidBy(cfg, start, n, h - 1);
    }
  }

  /**
   * Starvation in every configuration: over a stream of any length n, the miner credited once at event `slots` is
   * owed that unit from height depth + slots + 1 on, and no block up to n + depth pays it. What is credited per event
   * does not grow with n, so it is the stream and not the amounts that keeps the miner waiting.
   */
  lemma Starvation(cfg: Config, start: nat, n: nat, h: nat)
    requires cfg.depth >= 1 && cfg.slots >= 1 && Ample(cfg, start) && cfg.depth + cfg.slots < h <= n + cfg.depth
    ensures IsEligible(cfg, Stream(cfg, start, n), h, cfg.slots)
    ensures PaidBy(cfg, Stream(cfg, start, n), h, cfg.slots) == 0
    ensures forall i :: 0 <= i < n ==> Stream(cfg, start, n)[i].amount <= start
  {
    hide Reach, Stream, CreditedBefore, PaidBefore, PaidBy, Inv;
    var credits := Stream(cfg, start, n);
    Account(cfg, credits, h, cfg.slots);
    VictimCredits(cfg, start, n, h);
    NothingPaid(cfg, start, n, h);
    NotPaidBy(cfg, start, n, h);
    MulMonotone(cfg.payPerSlot, cfg.slots, cfg.payPerSlot, cfg.depth + 2 * cfg.slots + 1);
    ProductNonNegative(cfg.payPerSlot, cfg.slots);
    AmpleForOne(cfg.payPerSlot, cfg.depth + 2 * cfg.slots + 1, start);
  }

  lemma AmpleForOne(p: nat, q: nat, start: nat)
    requires start > p * q
    ensures start >= 1
  {
    ProductNonNegative(p, q);
  }

  /** The smallest case: one slot, depth one, one unit per slot, and one unit to miner 0 in every block. */
  lemma StarvationRun(n: nat, h: nat)
    requires 2 < h <= n + 1
    ensures var cfg, credits := Config(1, 1, 1), Stream(Config(1, 1, 1), 10, n);
            && (forall i :: 0 <= i < n ==>
                  credits[i] == if i == 0 then Credit(0, 10) else if i == 1 then Credit(1, 1) else Credit(0, 1))
            && IsEligible(cfg, credits, h, 1) && PaidBy(cfg, credits, h, 1) == 0
  {
    hide Stream;
    Starvation(Config(1, 1, 1), 10, n, h);
  }

  // ---------- idle slots ----------

  /** A selected miner gets nothing exactly when all it is owed is already in flight. */
  lemma IdleSlotExactly(cfg: Config, st: State, h: nat, m: Miner)
    requires cfg.depth >= 1 && cfg.payPerSlot >= 1 && Inv(cfg, st, h) && m in Selected(cfg, AfterPayouts(cfg, st, h))
    ensures AmountTo(NewPayouts(cfg, st, h), m) == 0 <==>
            Owed(AfterPayouts(cfg, st, h), m) == InFlight(st.payouts - {h}, m)
  {
    hide AfterPayouts, NewPayouts, Selected, InFlight, Owed;
    SlotPays(cfg, st, h, m);
  }

  /** Before the first credit is finalized nothing has happened. */
  lemma {:induction false} BeforeFirstCredit(cfg: Config, credits: seq<Credit>, h: nat)
    requires cfg.depth >= 1 && h <= cfg.depth
    ensures Reach(cfg, credits, h).books == EmptyState.books && Reach(cfg, credits, h).payouts == map[]
    decreases h
  {
    hide BlockStep, Reach, Inv;
    if h == 0 {
      ReachStart(cfg, credits);
    } else {
      BeforeFirstCredit(cfg, credits, h - 1);
      PendingExactly(cfg, credits, h - 1);
      ReachStep(cfg, credits, h - 1);
      IdleStep(cfg, Reach(cfg, credits, h - 1), h - 1, FoundAt(credits, h - 1));
    }
  }

  lemma IdleStep(cfg: Config, st: State, h: nat, found: Option<Credit>)
    requires cfg.depth >= 1 && Inv(cfg, st, h) && h !in st.credits
    requires st.books == EmptyState.books && st.payouts == map[]
    ensures var st' := BlockStep(cfg, st, h, found); st'.books == EmptyState.books && st'.payouts == map[]
  {
    assert st.payouts - {h} == map[];
    assert Eligible(st.books.owed) == {};
    assert Members(Selected(cfg, st.books)) == {} by {
      forall m | m in Members(Selected(cfg, st.books)) ensures false { }
    }
    NoMembers(Selected(cfg, st.books));
  }

  /** With one slot, the miner that everybody else comes after is the selection. */
  lemma OneSlot(cfg: Config, b: Books, m: Miner)
    requires cfg.slots == 1 && b.first.Keys == Eligible(b.owed) && m in b.first
    requires forall u :: u in b.first && u != m ==> Before(b.first, m, u)
    ensures Selected(cfg, b) == [m]
  {
    var leader := First(cfg, b);
    assert Selected(cfg, b)[0] == leader;
  }

  /** Two credits to two miners, found in the first two blocks. */
  function TwoCredits(a: nat, b: nat): seq<Credit> {
    [Credit(0, a), Credit(1, b)]
  }

  /** When the first credit is finalized its miner is selected and put in flight whole. */
  lemma FirstCredit(cfg: Config, a: nat, b: nat)
    requires cfg.depth >= 1 && cfg.slots == 1 && 1 <= a <= cfg.payPerSlot
    ensures var st := Reach(cfg, TwoCredits(a, b), cfg.depth + 1);
            && st.books == Books(map[0 := a], map[0 := cfg.depth])
            && st.payouts == map[2 * cfg.depth := [Payout(0, a)]]
  {
    hide BlockStep, Reach, Inv;
    var credits, d := TwoCredits(a, b), cfg.depth;
    BeforeFirstCredit(cfg, credits, d);
    PendingExactly(cfg, credits, d);
    ReachStep(cfg, credits, d);
    FirstCreditStep(cfg, Reach(cfg, credits, d), d, FoundAt(credits, d), a);
  }

  lemma FirstCreditStep(cfg: Config, st: State, h: nat, found: Option<Credit>, a: nat)
    requires cfg.depth >= 1 && cfg.slots == 1 && 1 <= a <= cfg.payPerSlot && Inv(cfg, st, h)
    requires st.books == EmptyState.books && st.payouts == map[] && h in st.credits && st.credits[h] == Credit(0, a)
    ensures var st' := BlockStep(cfg, st, h, found);
            && st'.books == Books(map[0 := a], map[0 := h])
            && st'.payouts == map[h + cfg.depth := [Payout(0, a)]]
  {
    hide Selected;
    var b := AfterPayouts(cfg, st, h);
    assert b == Books(map[0 := a], map[0 := h]);
    OneSlot(cfg, b, 0);
    assert st.payouts - {h} == map[];
    assert PerHeight(map[], 0) == map[];
    assert Share(b, map[], cfg.payPerSlot, 0) == a;
    assert BlockPayouts(b, map[], cfg.payPerSlot, []) == [];
    assert NewPayouts(cfg, st, h) == [Payout(0, a)];
  }

  /**
   * An idle slot: over any finality depth of at least two, the block that finalizes the second credit selects the
   * first miner again, pays nothing, and leaves its only slot empty while the second miner is owed.
   */
  lemma IdleSlotRun(cfg: Config, a: nat, b: nat)
    requires cfg.depth >= 2 && cfg.slots == 1 && 1 <= a <= cfg.payPerSlot && b >= 1
    ensures var st, h := Reach(cfg, TwoCredits(a, b), cfg.depth + 1), cfg.depth + 1;
            && Selected(cfg, AfterPayouts(cfg, st, h)) == [0]
            && NewPayouts(cfg, st, h) == []
            && Owed(AfterPayouts(cfg, st, h), 1) == b
  {
    hide Reach, Selected, Inv;
    var credits, h := TwoCredits(a, b), cfg.depth + 1;
    var st := Reach(cfg, credits, h);
    FirstCredit(cfg, a, b);
    PendingExactly(cfg, credits, h);
    var books := AfterPayouts(cfg, st, h);
    assert books == Books(map[0 := a, 1 := b], map[0 := cfg.depth, 1 := h]);
    OneSlot(cfg, books, 0);
    WholeInFlight(2 * cfg.depth, a);
    assert st.payouts - {h} == st.payouts;
    assert Share(books, st.payouts, cfg.payPerSlot, 0) == 0;
    assert BlockPayouts(books, st.payouts, cfg.payPerSlot, []) == [];
  }

  lemma WholeInFlight(k: nat, a: nat)
    ensures InFlight(map[k := [Payout(0, a)]], 0) == a
  {
    var none: map<nat, seq<Payout>> := map[];
    InFlightAdd(none, k, [Payout(0, a)], 0);
    assert none[k := [Payout(0, a)]] == map[k := [Payout(0, a)]];
    assert PerHeight(none, 0) == map[];
    assert AmountTo([Payout(0, a)], 0) == a + AmountTo([], 0);
  }
}

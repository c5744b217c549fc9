/** The owed-height-first payout order of proto/refimpl/settlement_kfair_ref.py. */
module KFair {
  import opened Basics

  type Miner = nat

  /** kfair_key(a) < kfair_key(b): earlier first-eligible height, then smaller miner id. */
  predicate Before(first: map<Miner, nat>, a: Miner, b: Miner)
    requires a in first && b in first
  {
    first[a] < first[b] || (first[a] == first[b] && a < b)
  }

  ghost function Eligible(owed: map<Miner, nat>): set<Miner> {
    set m | m in owed && owed[m] > 0
  }

  ghost predicate Ordered(s: seq<Miner>, first: map<Miner, nat>) {
    && (forall i :: 0 <= i < |s| ==> s[i] in first)
    && (forall i, j :: 0 <= i < j < |s| ==> Before(first, s[i], s[j]))
  }

  /** s lists exactly the miners of `all`, in K_fair order. */
  ghost predicate IsRanking(s: seq<Miner>, all: set<Miner>, first: map<Miner, nat>) {
    Ordered(s, first) && Members(s) == all
  }

  lemma {:induction false} RankingUnique(s: seq<Miner>, t: seq<Miner>, all: set<Miner>, first: map<Miner, nat>)
    requires IsRanking(s, all, first) && IsRanking(t, all, first)
    ensures s == t
    decreases |s|
  {
    NoMembers(t);
    if s == [] {
      assert Members(s) == {};
    } else {
      assert s[0] in Members(s);
      var i :| 0 <= i < |t| && t[i] == s[0];
      assert t[0] in Members(t);
      var j :| 0 <= j < |s| && s[j] == t[0];
      assert s[0] == t[0];
      RankingTail(s, all, first);
      RankingTail(t, all, first);
      RankingUnique(s[1..], t[1..], all - {s[0]}, first);
    }
  }

  lemma NoMembers(s: seq<Miner>)
    ensures Members(s) == {} ==> s == []
  {
    if s != [] { assert s[0] in Members(s); }
  }

  lemma RankingTail(s: seq<Miner>, all: set<Miner>, first: map<Miner, nat>)
    requires s != [] && IsRanking(s, all, first)
    ensures IsRanking(s[1..], all - {s[0]}, first)
  {
    forall m ensures m in Members(s[1..]) <==> m in all - {s[0]} {
      if m in all - {s[0]} {
        var i :| 0 <= i < |s| && s[i] == m;
        assert s[1..][i - 1] == m;
      }
      if m in Members(s[1..]) {
        var i :| 0 <= i < |s[1..]| && s[1..][i] == m;
        assert s[i + 1] == m;
      }
    }
  }

  /** Insertion into an ordered list: the sort of the source, which is stable and keyed by K_fair. */
  function Insert(m: Miner, s: seq<Miner>, first: map<Miner, nat>): (r: seq<Miner>)
    requires m in first && forall i :: 0 <= i < |s| ==> s[i] in first
    ensures forall i :: 0 <= i < |r| ==> r[i] in first
  {
    if s == [] then [m]
    else if Before(first, m, s[0]) then [m] + s
    else [s[0]] + Insert(m, s[1..], first)
  }

  function Sort(s: seq<Miner>, first: map<Miner, nat>): (r: seq<Miner>)
    requires forall i :: 0 <= i < |s| ==> s[i] in first
    ensures forall i :: 0 <= i < |r| ==> r[i] in first
  {
    if s == [] then [] else Insert(s[|s| - 1], Sort(s[..|s| - 1], first), first)
  }

  lemma {:induction false} InsertRanks(m: Miner, s: seq<Miner>, all: set<Miner>, first: map<Miner, nat>)
    requires m in first && m !in all && IsRanking(s, all, first)
    ensures IsRanking(Insert(m, s, first), all + {m}, first)
    decreases |s|
  {
    var r := Insert(m, s, first);
    if s == [] {
      assert Members(s) == {};
      assert r[0] == m;
    } else {
      assert s[0] in Members(s);
      if Before(first, m, s[0]) {
        assert r == [m] + s;
        PrependRanks(m, s, all, first);
      } else {
        RankingTail(s, all, first);
        InsertRanks(m, s[1..], all - {s[0]}, first);
        var tail := Insert(m, s[1..], first);
        forall i | 0 <= i < |tail| ensures Before(first, s[0], tail[i]) {
          assert tail[i] in Members(tail);
          if tail[i] != m { var k :| 0 <= k < |s| && s[k] == tail[i]; }
        }
        PrependRanks(s[0], tail, all - {s[0]} + {m}, first);
        assert all - {s[0]} + {m} + {s[0]} == all + {m};
      }
    }
  }

  lemma PrependRanks(m: Miner, s: seq<Miner>, all: set<Miner>, first: map<Miner, nat>)
    requires m in first && IsRanking(s, all, first)
    requires forall i :: 0 <= i < |s| ==> Before(first, m, s[i])
    ensures IsRanking([m] + s, all + {m}, first)
  {
    var r := [m] + s;
    forall x | x in all + {m} ensures x in Members(r) {
      if x in all {
        var i :| 0 <= i < |s| && s[i] == x;
        assert r[i + 1] == x;
      } else {
        assert r[0] == x;
      }
    }
  }

  /** A listing of a set in some iteration order: every element, once. */
  ghost predicate Lists(order: seq<Miner>, all: set<Miner>) {
    Members(order) == all && Distinct(order)
  }

  lemma {:induction false} SortRanks(order: seq<Miner>, all: set<Miner>, first: map<Miner, nat>)
    requires Lists(order, all) && forall i :: 0 <= i < |order| ==> order[i] in first
    ensures IsRanking(Sort(order, first), all, first)
    decreases |order|
  {
    if order != [] {
      var front, m := order[..|order| - 1], order[|order| - 1];
      assert m in Members(order);
      assert Lists(front, all - {m}) by { ListsFront(order, all); }
      SortRanks(front, all - {m}, first);
      InsertRanks(m, Sort(front, first), all - {m}, first);
      assert all - {m} + {m} == all;
    }
  }

  lemma ListsFront(order: seq<Miner>, all: set<Miner>)
    requires order != [] && Lists(order, all)
    ensures Lists(order[..|order| - 1], all - {order[|order| - 1]})
  {
    var front, m := order[..|order| - 1], order[|order| - 1];
    forall x ensures x in Members(front) <==> x in all - {m} {
      if x in all - {m} {
        var i :| 0 <= i < |order| && order[i] == x;
        assert front[i] == x;
      }
      if x in Members(front) {
        var i :| 0 <= i < |front| && front[i] == x;
        assert order[i] == x;
      }
    }
  }

  /** [m for m in owed if owed[m] > 0], in the iteration order `order`. */
  function FilterEligible(order: seq<Miner>, owed: map<Miner, nat>): (r: seq<Miner>)
    requires forall i :: 0 <= i < |order| ==> order[i] in owed
    ensures forall i :: 0 <= i < |r| ==> r[i] in owed && owed[r[i]] > 0
  {
    if order == [] then [] else
      var m := order[|order| - 1];
      FilterEligible(order[..|order| - 1], owed) + if owed[m] > 0 then [m] else []
  }

  lemma {:induction false} FilterLists(order: seq<Miner>, all: set<Miner>, owed: map<Miner, nat>)
    requires Lists(order, all) && all <= owed.Keys
    requires forall i :: 0 <= i < |order| ==> order[i] in owed
    ensures Lists(FilterEligible(order, owed), set m | m in all && owed[m] > 0)
    decreases |order|
  {
    if order == [] {
      assert Members(order) == {};
    } else {
      var front, m := order[..|order| - 1], order[|order| - 1];
      assert m in Members(order);
      ListsFront(order, all);
      FilterLists(front, all - {m}, owed);
      var f, r := FilterEligible(front, owed), FilterEligible(order, owed);
      var rest, whole := set x | x in all - {m} && owed[x] > 0, set x | x in all && owed[x] > 0;
      assert whole == if owed[m] > 0 then rest + {m} else rest;
      if owed[m] > 0 {
        MembersAppend(f, m);
        forall i | 0 <= i < |f| ensures f[i] != m { assert f[i] in Members(f); }
      } else {
        assert r == f;
      }
    }
  }

  function Take(s: seq<Miner>, n: nat): seq<Miner> {
    if |s| <= n then s else s[..n]
  }

  /** select_payouts over a dictionary iterated in the given order. */
  function SelectPayouts(order: seq<Miner>, owed: map<Miner, nat>, first: map<Miner, nat>, slots: nat): seq<Miner>
    requires forall i :: 0 <= i < |order| ==> order[i] in owed
    requires forall m :: m in owed && owed[m] > 0 ==> m in first
  {
    Take(Sort(FilterEligible(order, owed), first), slots)
  }

  ghost function Ranking(owed: map<Miner, nat>, first: map<Miner, nat>): (s: seq<Miner>)
    requires Eligible(owed) <= first.Keys
    ensures IsRanking(s, Eligible(owed), first)
  {
    RankingExists(Eligible(owed), first);
    var s :| IsRanking(s, Eligible(owed), first);
    s
  }

  lemma {:induction false} RankingExists(all: set<Miner>, first: map<Miner, nat>)
    requires all <= first.Keys
    ensures exists s :: IsRanking(s, all, first)
    decreases |all|
  {
    if all == {} {
      assert IsRanking([], all, first);
    } else {
      var m :| m in all;
      RankingExists(all - {m}, first);
      var s :| IsRanking(s, all - {m}, first);
      InsertRanks(m, s, all - {m}, first);
      assert all - {m} + {m} == all;
    }
  }

  /** Whatever order the dictionary is iterated in, the selection is the prefix of the one ranking. */
  lemma SelectionIsPrefix(order: seq<Miner>, owed: map<Miner, nat>, first: map<Miner, nat>, slots: nat)
    requires Lists(order, owed.Keys) && Eligible(owed) <= first.Keys
    ensures forall i :: 0 <= i < |order| ==> order[i] in owed
    ensures SelectPayouts(order, owed, first, slots) == Take(Ranking(owed, first), slots)
  {
    forall i | 0 <= i < |order| ensures order[i] in owed { assert order[i] in Members(order); }
    FilterLists(order, owed.Keys, owed);
    assert (set m | m in owed.Keys && owed[m] > 0) == Eligible(owed);
    SortRanks(FilterEligible(order, owed), Eligible(owed), first);
    RankingUnique(Sort(FilterEligible(order, owed), first), Ranking(owed, first), Eligible(owed), first);
  }

  /** check_owed_height_first, with its explicit inversion scan. */
  predicate CheckOwedHeightFirst(order: seq<Miner>, owed: map<Miner, nat>, first: map<Miner, nat>,
                                 selected: seq<Miner>, slots: nat)
    requires forall i :: 0 <= i < |order| ==> order[i] in owed
    requires forall m :: m in owed && owed[m] > 0 ==> m in first
  {
    var eligible := Sort(FilterEligible(order, owed), first);
    var expected := Take(eligible, slots);
    if selected != expected then false else
      var unselected := set i | 0 <= i < |eligible| && eligible[i] !in selected :: eligible[i];
      if unselected != {} && |selected| < slots then false else
        forall s, u :: s in selected && u in unselected ==> !Before(first, u, s)
  }

  /** The checker accepts exactly the K_fair prefix: the inversion scan never rejects it. */
  lemma CheckAcceptsExactlyPrefix(order: seq<Miner>, owed: map<Miner, nat>, first: map<Miner, nat>,
                                  selected: seq<Miner>, slots: nat)
    requires Lists(order, owed.Keys) && Eligible(owed) <= first.Keys
    ensures forall i :: 0 <= i < |order| ==> order[i] in owed
    ensures CheckOwedHeightFirst(order, owed, first, selected, slots) <==> selected == Take(Ranking(owed, first), slots)
  {
    SelectionIsPrefix(order, owed, first, slots);
    FilterLists(order, owed.Keys, owed);
    assert (set m | m in owed.Keys && owed[m] > 0) == Eligible(owed);
    SortRanks(FilterEligible(order, owed), Eligible(owed), first);
    var eligible := Sort(FilterEligible(order, owed), first);
    if selected == Take(eligible, slots) {
      assert forall i :: 0 <= i < |selected| ==> eligible[i] == selected[i];
      forall s, i | s in selected && 0 <= i < |eligible| && eligible[i] !in selected
        ensures !Before(first, eligible[i], s)
      {
        var k :| 0 <= k < |selected| && selected[k] == s;
        assert eligible[k] == s;
      }
    }
  }

  /** The eligible miners with an earlier first-eligible height than m, or the same height and a smaller id. */
  ghost function RankedBefore(owed: map<Miner, nat>, first: map<Miner, nat>, m: Miner): set<Miner>
    requires Eligible(owed) <= first.Keys && m in first
  {
    set u | u in Eligible(owed) && (first[u] < first[m] || (first[u] == first[m] && u < m))
  }

  /** The selection is the ranking's first `slots` miners: those with fewer than `slots` eligible ones before them. */
  lemma SelectedExactly(owed: map<Miner, nat>, first: map<Miner, nat>, slots: nat, m: Miner)
    requires Eligible(owed) <= first.Keys
    ensures m in Take(Ranking(owed, first), slots) <==>
            m in Eligible(owed) && |RankedBefore(owed, first, m)| < slots
  {
    var ranking := Ranking(owed, first);
    assert m in Take(ranking, slots) ==> m in Members(ranking);
    if m in Eligible(owed) {
      assert m in Members(ranking);
      var i :| 0 <= i < |ranking| && ranking[i] == m;
      RankIs(ranking, Eligible(owed), first, i);
      assert RankedBefore(owed, first, m) == Members(ranking[..i]);
      assert forall k :: 0 <= k < |ranking| && ranking[k] == m ==> k == i;
    }
  }

  /** Who stands before a place of the ranking, and how many. */
  lemma RankIs(s: seq<Miner>, all: set<Miner>, first: map<Miner, nat>, i: nat)
    requires IsRanking(s, all, first) && i < |s|
    ensures |Members(s[..i])| == i
    ensures forall u :: u in Members(s[..i]) <==> u in all && u in first && Before(first, u, s[i])
  {
    DistinctSize(s[..i]);
    assert forall k :: 0 <= k < i ==> s[k] == s[..i][k];
    forall u ensures u in Members(s[..i]) <==> u in all && u in first && Before(first, u, s[i]) {
      if u in Members(s[..i]) {
        var k :| 0 <= k < i && s[k] == u;
        assert u in Members(s);
      } else if u in all {
        assert u in Members(s);
        var k :| 0 <= k < |s| && s[k] == u;
      }
    }
  }

  /** As many miners are selected as there are slots or eligible miners, whichever is less. */
  lemma SelectedCount(owed: map<Miner, nat>, first: map<Miner, nat>, slots: nat)
    requires Eligible(owed) <= first.Keys
    ensures |Members(Take(Ranking(owed, first), slots))| ==
            if |Eligible(owed)| <= slots then |Eligible(owed)| else slots
  {
    DistinctSize(Ranking(owed, first));
    DistinctSize(Take(Ranking(owed, first), slots));
  }

  lemma {:induction false} DistinctSize(s: seq<Miner>)
    requires Distinct(s)
    ensures |Members(s)| == |s|
    decreases |s|
  {
    if s != [] {
      DistinctSize(s[..|s| - 1]);
      MembersAppend(s[..|s| - 1], s[|s| - 1]);
      assert s == s[..|s| - 1] + [s[|s| - 1]];
      assert s[|s| - 1] !in Members(s[..|s| - 1]);
    }
  }

  /** Nobody ahead of a selected miner is left out, and no slot stays free while someone eligible waits. */
  lemma NoInversion(owed: map<Miner, nat>, first: map<Miner, nat>, slots: nat, s: Miner, u: Miner)
    requires Eligible(owed) <= first.Keys
    requires u in Eligible(owed) && u !in Take(Ranking(owed, first), slots)
    ensures |Take(Ranking(owed, first), slots)| == slots
    ensures s in Take(Ranking(owed, first), slots) ==>
              s in first && (first[s] < first[u] || (first[s] == first[u] && s < u))
  {
    var ranking := Ranking(owed, first);
    var taken := Take(ranking, slots);
    assert forall k :: 0 <= k < |taken| ==> ranking[k] == taken[k];
    assert u in Members(ranking);
    var i :| 0 <= i < |ranking| && ranking[i] == u;
  }
}

/**
 * The delivery protocol of the Telegram sidecar in scripts/alert_relay_telegram.py, as a state machine. Two
 * append-only ledgers survive a restart; everything else belongs to one process. A restart may happen between
 * any two events.
 */
module Delivery {
  import opened Basics

  type Id = string
  type Chat = int

  /** What one process is configured with. */
  datatype Config = Config(chats: seq<Chat>, maxPerMin: int)

  /**
   * The two ledgers; what the running process holds (the ids it loaded, its pending ids, the chats already done
   * for each, the send times of the last minute, the latest clock reading it acted on); and all its send times.
   */
  datatype State = State(
    deliveredLog: seq<Id>, expiredLog: seq<Id>,
    config: Config, delivered: set<Id>, expired: set<Id>, pending: set<Id>, done: map<Id, set<Chat>>,
    window: seq<real>, clock: real, sends: seq<real>)

  datatype Event =
    | Accept(id: Id)
    | Prune(now: real)
    | Send(id: Id, chat: Chat, now: real, ok: bool)
    | Deliver(id: Id)
    | Expire(id: Id)
    | Forget(id: Id)
    | Restart(config: Config, now: real)

  function DoneFor(s: State, id: Id): set<Chat> {
    if id in s.done then s.done[id] else {}
  }

  function ChatSet(config: Config): set<Chat> {
    set c | c in config.chats
  }

  /** The send times still inside the minute before now. */
  function Pruned(window: seq<real>, now: real): (w: seq<real>)
    ensures |w| <= |window| && w == window[|window| - |w|..]
    ensures forall i :: 0 <= i < |window| - |w| ==> window[i] + 60.0 <= now
    ensures w == [] || now < w[0] + 60.0
  {
    if window != [] && window[0] + 60.0 <= now then Pruned(window[1..], now) else window
  }

  predicate Enabled(s: State, e: Event) {
    match e
    case Accept(id) => id !in s.delivered && id !in s.expired && id !in s.pending
    case Prune(now) => s.clock <= now
    case Send(id, chat, now, _) =>
      && id in s.pending && chat in s.config.chats && chat !in DoneFor(s, id)
      && s.clock <= now && |s.window| < s.config.maxPerMin
    case Deliver(id) => id in s.pending && ChatSet(s.config) <= DoneFor(s, id)
    case Expire(id) => id in s.pending
    case Forget(id) => id in s.delivered || id in s.expired
    case Restart(config, _) => config.chats != []
  }

  function Apply(s: State, e: Event): State
    requires Enabled(s, e)
  {
    match e
    case Accept(id) => s.(pending := s.pending + {id})
    case Prune(now) => s.(window := Pruned(s.window, now), clock := now)
    case Send(id, chat, now, ok) =>
      s.(window := s.window + [now], clock := now, sends := s.sends + [now],
         done := if ok then s.done[id := DoneFor(s, id) + {chat}] else s.done)
    case Deliver(id) =>
      s.(deliveredLog := s.deliveredLog + [id], delivered := s.delivered + {id}, pending := s.pending - {id})
    case Expire(id) =>
      s.(expiredLog := s.expiredLog + [id], expired := s.expired + {id}, pending := s.pending - {id})
    case Forget(id) => s.(done := s.done - {id})
    case Restart(config, now) =>
      State(s.deliveredLog, s.expiredLog, config, Members(s.deliveredLog), Members(s.expiredLog), {}, map[], [],
            now, [])
  }

  /** A fresh state directory and its first process. */
  function Initial(config: Config): State {
    State([], [], config, {}, {}, {}, map[], [], 0.0, [])
  }

  ghost predicate Runs(s: State, events: seq<Event>)
    decreases |events|
  {
    events == [] || (Enabled(s, events[0]) && Runs(Apply(s, events[0]), events[1..]))
  }

  ghost function After(s: State, events: seq<Event>): State
    requires Runs(s, events)
    decreases |events|
  {
    if events == [] then s else After(Apply(s, events[0]), events[1..])
  }

  // ---------- the invariant ----------

  /** Ledgers: no id twice, no id in both, and the process knows exactly what they hold. */
  ghost predicate Ledgers(s: State) {
    && Distinct(s.deliveredLog) && Distinct(s.expiredLog)
    && Members(s.deliveredLog) !! Members(s.expiredLog)
    && s.delivered == Members(s.deliveredLog) && s.expired == Members(s.expiredLog)
    && s.pending !! s.delivered && s.pending !! s.expired
  }

  /** No more than n sends fall into any minute. */
  ghost predicate Spaced(times: seq<real>, n: int) {
    forall i :: 0 <= i && i + n < |times| && n >= 0 ==> times[i] + 60.0 <= times[i + n]
  }

  ghost predicate Nondecreasing(times: seq<real>) {
    forall i, j :: 0 <= i < j < |times| ==> times[i] <= times[j]
  }

  /** The window holds the latest sends; everything older is at least a minute old. */
  ghost predicate Throttled(s: State) {
    && Nondecreasing(s.sends) && (forall i :: 0 <= i < |s.sends| ==> s.sends[i] <= s.clock)
    && |s.window| <= |s.sends| && s.window == s.sends[|s.sends| - |s.window|..]
    && (forall i :: 0 <= i < |s.sends| - |s.window| ==> s.sends[i] + 60.0 <= s.clock)
    && Spaced(s.sends, s.config.maxPerMin) && (s.config.maxPerMin <= 0 ==> s.sends == [])
  }

  ghost predicate Inv(s: State) {
    Ledgers(s) && Throttled(s)
  }

  lemma LedgersKept(s: State, e: Event)
    requires Ledgers(s) && Enabled(s, e)
    ensures Ledgers(Apply(s, e))
  {
    match e
    case Deliver(id) => MembersAppend(s.deliveredLog, id);
    case Expire(id) => MembersAppend(s.expiredLog, id);
    case _ =>
  }

  lemma PruneKeeps(s: State, now: real)
    requires Throttled(s) && s.clock <= now
    ensures Throttled(Apply(s, Prune(now)))
  {
    hide Pruned, Spaced, Nondecreasing;
    var w := Pruned(s.window, now);
    SuffixOfSuffix(s.sends, s.window, w);
    DroppedAreOld(s.sends, s.window, w, s.clock, now);
  }

  /** What the window no longer holds is at least a minute old. */
  lemma DroppedAreOld(sends: seq<real>, window: seq<real>, w: seq<real>, clock: real, now: real)
    requires |w| <= |window| <= |sends| && window == sends[|sends| - |window|..] && clock <= now
    requires forall i :: 0 <= i < |sends| - |window| ==> sends[i] + 60.0 <= clock
    requires forall i :: 0 <= i < |window| - |w| ==> window[i] + 60.0 <= now
    ensures forall i :: 0 <= i < |sends| - |w| ==> sends[i] + 60.0 <= now
  {
    var gone := |sends| - |window|;
    forall i | gone <= i < |sends| - |w| ensures sends[i] + 60.0 <= now { assert window[i - gone] == sends[i]; }
  }

  lemma SuffixOfSuffix(a: seq<real>, b: seq<real>, c: seq<real>)
    requires |c| <= |b| <= |a| && b == a[|a| - |b|..] && c == b[|b| - |c|..]
    ensures c == a[|a| - |c|..]
  {
  }

  lemma SendKeeps(s: State, e: Event)
    requires Throttled(s) && e.Send? && Enabled(s, e)
    ensures Throttled(Apply(s, e))
  {
    var t := Apply(s, e);
    var n, limit := |s.sends|, s.config.maxPerMin;
    assert t.window == t.sends[|t.sends| - |t.window|..];
    forall i | 0 <= i && i + limit < n + 1 ensures t.sends[i] + 60.0 <= t.sends[i + limit] {
      if i + limit == n { assert i < n - |s.window|; }
    }
  }

  lemma ThrottledKept(s: State, e: Event)
    requires Throttled(s) && Enabled(s, e)
    ensures Throttled(Apply(s, e))
  {
    match e
    case Prune(now) => PruneKeeps(s, now);
    case Send(_, _, _, _) => SendKeeps(s, e);
    case _ =>
  }

  /** Every event keeps the invariant, restarts included. */
  lemma InvKept(s: State, e: Event)
    requires Inv(s) && Enabled(s, e)
    ensures Inv(Apply(s, e))
  {
    hide Ledgers, Throttled, Apply;
    LedgersKept(s, e);
    ThrottledKept(s, e);
  }

  lemma {:induction false} InvOverRun(s: State, events: seq<Event>)
    requires Inv(s) && Runs(s, events)
    ensures Inv(After(s, events))
    decreases |events|
  {
    hide Inv, Apply, Enabled;
    if events != [] {
      InvKept(s, events[0]);
      InvOverRun(Apply(s, events[0]), events[1..]);
    }
  }

  /** A run followed by one more event. */
  lemma {:induction false} RunThen(s: State, events: seq<Event>, e: Event)
    requires Runs(s, events) && Enabled(After(s, events), e)
    ensures Runs(s, events + [e]) && After(s, events + [e]) == Apply(After(s, events), e)
    decreases |events|
  {
    hide Apply, Enabled;
    var all := events + [e];
    if events == [] {
      assert all[1..] == [];
    } else {
      assert all[1..] == events[1..] + [e];
      RunThen(Apply(s, events[0]), events[1..], e);
    }
  }

  /** Two runs one after the other. */
  lemma {:induction false} RunJoin(s: State, a: seq<Event>, b: seq<Event>)
    requires Runs(s, a) && Runs(After(s, a), b)
    ensures Runs(s, a + b) && After(s, a + b) == After(After(s, a), b)
    decreases |a|
  {
    hide Apply, Enabled;
    if a == [] {
      assert a + b == b;
    } else {
      assert (a + b)[1..] == a[1..] + b;
      RunJoin(Apply(s, a[0]), a[1..], b);
    }
  }

  lemma {:induction false} LogsOnlyGrow(s: State, events: seq<Event>)
    requires Runs(s, events)
    ensures s.deliveredLog <= After(s, events).deliveredLog && s.expiredLog <= After(s, events).expiredLog
    decreases |events|
  {
    if events != [] { LogsOnlyGrow(Apply(s, events[0]), events[1..]); }
  }

  // ---------- what every run guarantees ----------

  /** Over any run with any number of restarts an id enters one of the ledgers at most once, and never both. */
  lemma AtMostOnce(config: Config, events: seq<Event>)
    requires Runs(Initial(config), events)
    ensures var s := After(Initial(config), events); Distinct(s.deliveredLog + s.expiredLog)
  {
    InitialInv(config);
    InvOverRun(Initial(config), events);
    var s := After(Initial(config), events);
    var both := s.deliveredLog + s.expiredLog;
    var n := |s.deliveredLog|;
    forall i, j | 0 <= i < j < |both| ensures both[i] != both[j] {
      if i < n <= j {
        assert both[i] in Members(s.deliveredLog) && both[j] in Members(s.expiredLog);
      }
    }
  }

  /** The last event of a run on its own. */
  lemma {:induction false} RunFront(s: State, events: seq<Event>)
    requires Runs(s, events) && events != []
    ensures var front, last := events[..|events| - 1], events[|events| - 1];
            Runs(s, front) && Enabled(After(s, front), last) && After(s, events) == Apply(After(s, front), last)
    decreases |events|
  {
    hide Apply, Enabled;
    if |events| > 1 {
      RunFront(Apply(s, events[0]), events[1..]);
      assert events[1..][..|events| - 2] == events[..|events| - 1][1..];
    }
  }

  /** The configuration in force after the events: that of the last restart, or the first process's. */
  function ConfigAfter(config: Config, events: seq<Event>): Config
    decreases |events|
  {
    if events == [] then config else
      var last := events[|events| - 1];
      if last.Restart? then last.config else ConfigAfter(config, events[..|events| - 1])
  }

  /** Since the last restart the chat has said ok to the id. */
  predicate SaidOk(events: seq<Event>, id: Id, chat: Chat)
    decreases |events|
  {
    events != [] &&
    var last := events[|events| - 1];
    && !last.Restart?
    && ((last.Send? && last.id == id && last.chat == chat && last.ok) || SaidOk(events[..|events| - 1], id, chat))
  }

  /** Event j is an acknowledged send of the id to the chat, and no restart follows. */
  ghost predicate OkAt(events: seq<Event>, id: Id, chat: Chat, j: nat) {
    && j < |events| && events[j].Send? && events[j].id == id && events[j].chat == chat && events[j].ok
    && forall k :: j <= k < |events| ==> !events[k].Restart?
  }

  /** SaidOk, by the event itself. */
  lemma {:induction false} SaidOkExactly(events: seq<Event>, id: Id, chat: Chat)
    ensures SaidOk(events, id, chat) <==> exists j: nat :: OkAt(events, id, chat, j)
    decreases |events|
  {
    if events != [] {
      var n := |events| - 1;
      var front := events[..n];
      SaidOkExactly(front, id, chat);
      forall j: nat | j < n && !events[n].Restart?
        ensures OkAt(front, id, chat, j) <==> OkAt(events, id, chat, j)
      {
        assert forall k :: j <= k < n ==> front[k] == events[k];
      }
      assert events[n].Restart? ==> forall j: nat :: !OkAt(events, id, chat, j);
      assert !events[n].Restart? ==>
          (OkAt(events, id, chat, n) <==>
           events[n].Send? && events[n].id == id && events[n].chat == chat && events[n].ok);
    }
  }

  /** What a process holds as done was acknowledged to that process. */
  lemma {:induction false} DoneSaidOk(config: Config, events: seq<Event>, id: Id, chat: Chat)
    requires Runs(Initial(config), events)
    ensures After(Initial(config), events).config == ConfigAfter(config, events)
    ensures chat in DoneFor(After(Initial(config), events), id) ==> SaidOk(events, id, chat)
    decreases |events|
  {
    hide Runs, After;
    NoEvents(Initial(config));
    if events != [] {
      RunFront(Initial(config), events);
      DoneSaidOk(config, events[..|events| - 1], id, chat);
    }
  }

  lemma NoEvents(s: State)
    ensures Runs(s, []) && After(s, []) == s
  {
  }

  /** Event i delivers the id, and every chat of the configuration then in force has said ok to the process. */
  ghost predicate DeliveredAt(config: Config, events: seq<Event>, i: nat, id: Id)
    requires i < |events|
  {
    var before := events[..i];
    && events[i] == Deliver(id) && ConfigAfter(config, before).chats != []
    && forall c :: c in ConfigAfter(config, before).chats ==> SaidOk(before, id, c)
  }

  lemma {:induction false} ChatsConfigured(config: Config, events: seq<Event>)
    requires config.chats != [] && Runs(Initial(config), events)
    ensures ConfigAfter(config, events).chats != []
    decreases |events|
  {
    hide Runs, After;
    if events != [] {
      RunFront(Initial(config), events);
      ChatsConfigured(config, events[..|events| - 1]);
    }
  }

  /**
   * Every id in the delivered ledger was put there by a Deliver event, before which every chat of the configuration
   * then in force had acknowledged a send of the id, with no restart in between.
   */
  lemma DeliveredWasAcknowledged(config: Config, events: seq<Event>, id: Id)
    requires config.chats != [] && Runs(Initial(config), events) && id in After(Initial(config), events).deliveredLog
    ensures exists i :: 0 <= i < |events| && events[i] == Deliver(id) &&
              var chats := ConfigAfter(config, events[..i]).chats;
              chats != [] && forall c :: c in chats ==> exists j: nat :: OkAt(events[..i], id, c, j)
  {
    hide Runs, After, SaidOk, ConfigAfter, OkAt;
    DeliveredByEvent(config, events, id);
    var i :| 0 <= i < |events| && DeliveredAt(config, events, i, id);
    forall c | c in ConfigAfter(config, events[..i]).chats ensures exists j: nat :: OkAt(events[..i], id, c, j) {
      SaidOkExactly(events[..i], id, c);
    }
  }

  lemma {:induction false} DeliveredByEvent(config: Config, events: seq<Event>, id: Id)
    requires config.chats != [] && Runs(Initial(config), events) && id in After(Initial(config), events).deliveredLog
    ensures exists i :: 0 <= i < |events| && DeliveredAt(config, events, i, id)
    decreases |events|
  {
    hide Runs, After, SaidOk, ConfigAfter;
    NoEvents(Initial(config));
    var n := |events| - 1;
    RunFront(Initial(config), events);
    var front := events[..n];
    var s := After(Initial(config), front);
    if id in s.deliveredLog {
      DeliveredByEvent(config, front, id);
      var i :| 0 <= i < |front| && DeliveredAt(config, front, i, id);
      assert front[..i] == events[..i];
      assert DeliveredAt(config, events, i, id);
    } else {
      ChatsConfigured(config, front);
      forall c ensures c in ConfigAfter(config, front).chats ==> SaidOk(front, id, c) {
        DoneSaidOk(config, front, id, c);
        assert c in s.config.chats ==> c in ChatSet(s.config);
      }
      assert DeliveredAt(config, events, n, id);
    }
  }

  lemma InitialInv(config: Config)
    ensures Inv(Initial(config))
  {
  }

  /** Once in a ledger, always refused: no later event accepts, sends, delivers or expires that id again. */
  lemma LedgerIsFinal(s: State, e: Event, id: Id)
    requires Inv(s) && Enabled(s, e) && (id in s.deliveredLog || id in s.expiredLog)
    ensures e != Accept(id) && e != Deliver(id) && e != Expire(id) && !(e.Send? && e.id == id)
  {
    assert id in Members(s.deliveredLog) || id in Members(s.expiredLog);
  }

  ghost function InMinute(times: seq<real>, from: real): set<int> {
    set i | 0 <= i < |times| && from <= times[i] < from + 60.0
  }

  /** The indices of the sends in one minute lie in a range shorter than the limit. */
  lemma {:induction false} RangeSize(s: set<int>, lo: int, n: nat)
    requires forall i :: i in s ==> lo <= i < lo + n
    ensures |s| <= n
    decreases n
  {
    if n == 0 {
      assert forall i :: i !in s;
    } else {
      var last := lo + n - 1;
      RangeSize(s - {last}, lo, n - 1);
      if last in s { assert s == (s - {last}) + {last}; } else { assert s - {last} == s; }
    }
  }

  lemma SpacedCount(times: seq<real>, limit: int, from: real)
    requires Nondecreasing(times) && Spaced(times, limit) && limit >= 0
    ensures |InMinute(times, from)| <= limit
  {
    var s := InMinute(times, from);
    if s != {} {
      var lo := FirstIndex(times, from);
      assert lo + limit < |times| ==> times[lo] + 60.0 <= times[lo + limit];
      RangeSize(s, lo, limit);
    }
  }

  lemma FirstIndex(times: seq<real>, from: real) returns (lo: int)
    requires InMinute(times, from) != {}
    ensures lo in InMinute(times, from) && forall i :: i in InMinute(times, from) ==> lo <= i
  {
    lo := 0;
    var some :| some in InMinute(times, from);
    while lo !in InMinute(times, from)
      invariant 0 <= lo <= some
      invariant forall i :: 0 <= i < lo ==> i !in InMinute(times, from)
      decreases some - lo
    {
      lo := lo + 1;
    }
  }

  /** No process ever makes more than maxPerMin sends in any minute. */
  lemma RateLimited(config: Config, events: seq<Event>, from: real)
    requires Runs(Initial(config), events)
    ensures var s := After(Initial(config), events);
            |set i | 0 <= i < |s.sends| && from <= s.sends[i] < from + 60.0| <=
            if s.config.maxPerMin >= 0 then s.config.maxPerMin else 0
  {
    InitialInv(config);
    InvOverRun(Initial(config), events);
    var s := After(Initial(config), events);
    assert InMinute(s.sends, from) == set i | 0 <= i < |s.sends| && from <= s.sends[i] < from + 60.0;
    if s.config.maxPerMin >= 0 {
      SpacedCount(s.sends, s.config.maxPerMin, from);
    } else {
      assert InMinute(s.sends, from) == {};
    }
  }
}

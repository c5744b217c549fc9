/** The Telegram sidecar of scripts/alert_relay_telegram.py as an object; every method's effect is a run of Delivery. */
module Sidecar {
  import opened Basics
  import opened Delivery

  /**
   * An outbox row. Its time is 0 when missing and None when it is no number; `readable` says whether the rest of the
   * row, and its time as a calendar date, can be put into a message text.
   */
  datatype Row = Row(id: Id, time: Option<int>, readable: bool)

  /** How a row, or a whole pass, ended: normally, cut short by the rate limit, or by an exception. */
  datatype Outcome = Done | Deferred | Raised

  datatype Reply = Accepted | Refused | RetryAfter(seconds: real)

  datatype Settings = Settings(config: Config, backoffMin: real, backoffMax: real, maxAge: real)

  /** The clocks and the network: arbitrary scripts of clock advances, wall times and replies. */
  class Env {
    var now: real
    var advances: seq<real>
    var walls: seq<real>
    var replies: seq<Reply>

    constructor (advances: seq<real>, walls: seq<real>, replies: seq<Reply>)
      requires forall i :: 0 <= i < |advances| ==> advances[i] >= 0.0
      ensures Valid() && now == 0.0
    {
      this.now, this.advances, this.walls, this.replies := 0.0, advances, walls, replies;
    }

    ghost predicate Valid()
      reads this
    {
      now >= 0.0 && forall i :: 0 <= i < |advances| ==> advances[i] >= 0.0
    }

    ghost function NextClock(): real
      reads this
    {
      if advances == [] then now else now + advances[0]
    }

    ghost function NextWall(): real
      reads this
    {
      if walls == [] then 0.0 else walls[0]
    }

    /** A monotonic clock. */
    method Clock() returns (t: real)
      requires Valid()
      modifies this
      ensures Valid() && t == now == old(NextClock()) >= old(now) && walls == old(walls)
    {
      if advances != [] {
        now, advances := now + advances[0], advances[1..];
      }
      t := now;
    }

    method Wall() returns (t: real)
      requires Valid()
      modifies this
      ensures Valid() && now == old(now) && t == old(NextWall())
      ensures forall w :: w in walls ==> w in old(walls)
    {
      t := 0.0;
      if walls != [] {
        t, walls := walls[0], walls[1..];
      }
    }

    method SendOne() returns (r: Reply)
      requires Valid()
      modifies this
      ensures Valid() && now == old(now) && walls == old(walls)
    {
      r := Refused;
      if replies != [] {
        r, replies := replies[0], replies[1..];
      }
    }
  }

  function Remove(s: seq<Id>, id: Id): (r: seq<Id>)
    ensures forall x :: x in r ==> x in s
  {
    if s == [] then [] else if s[0] == id then s[1..] else [s[0]] + Remove(s[1..], id)
  }

  lemma {:induction false} RemoveDistinct(s: seq<Id>, id: Id)
    requires Distinct(s)
    ensures Distinct(Remove(s, id)) && Members(Remove(s, id)) == Members(s) - {id}
    decreases |s|
  {
    if s != [] {
      var tail := s[1..];
      assert s == [s[0]] + tail;
      MembersPrepend(s[0], tail);
      if s[0] != id {
        RemoveDistinct(tail, id);
        MembersPrepend(s[0], Remove(tail, id));
      }
    }
  }

  lemma MembersPrepend(x: Id, s: seq<Id>)
    ensures Members([x] + s) == {x} + Members(s)
    ensures Distinct([x] + s) <==> x !in s && Distinct(s)
  {
    var all := [x] + s;
    assert forall i :: 0 <= i < |s| ==> all[i + 1] == s[i];
    assert forall i :: 0 < i < |all| ==> all[i] == s[i - 1];
    if Distinct(all) {
      forall i | 0 <= i < |s| ensures s[i] != x { assert all[0] != all[i + 1]; }
    }
  }

  /** The rows a process has read and not finished, and their order of arrival. */
  datatype Queue = Queue(pending: map<Id, Row>, order: seq<Id>)

  /** One line of the outbox: unreadable lines and known ids are skipped. */
  function Enqueue(q: Queue, known: set<Id>, line: Option<Row>): Queue {
    if line.None? || line.value.id in known || line.value.id in q.pending then q
    else Queue(q.pending[line.value.id := line.value], q.order + [line.value.id])
  }

  function EnqueueAll(q: Queue, known: set<Id>, lines: seq<Option<Row>>): Queue {
    if lines == [] then q else Enqueue(EnqueueAll(q, known, lines[..|lines| - 1]), known, lines[|lines| - 1])
  }

  /** Line i is the first that carries the id. */
  ghost predicate FirstWith(lines: seq<Option<Row>>, id: Id, i: nat) {
    && i < |lines| && lines[i].Some? && lines[i].value.id == id
    && forall j :: 0 <= j < i && lines[j].Some? ==> lines[j].value.id != id
  }

  /** Rows that were waiting stay in front as they were. */
  lemma {:induction false} EnqueueKeeps(q: Queue, known: set<Id>, lines: seq<Option<Row>>)
    requires Distinct(q.order) && Members(q.order) == q.pending.Keys
    ensures var r := EnqueueAll(q, known, lines);
            && q.order <= r.order && Distinct(r.order) && Members(r.order) == r.pending.Keys
            && (forall id :: id in q.pending ==> id in r.pending && r.pending[id] == q.pending[id])
            && (forall i: nat :: i < |lines| && lines[i].Some? && lines[i].value.id !in known ==>
                  lines[i].value.id in r.pending)
    decreases |lines|
  {
    if lines != [] {
      var front, last := lines[..|lines| - 1], lines[|lines| - 1];
      EnqueueKeeps(q, known, front);
      var before, after := EnqueueAll(q, known, front), EnqueueAll(q, known, lines);
      if after != before { MembersAppend(before.order, last.value.id); }
    }
  }

  /** A row that joins is the first line with its id. */
  lemma {:induction false} JoinsFirst(q: Queue, known: set<Id>, lines: seq<Option<Row>>, id: Id)
    requires Distinct(q.order) && Members(q.order) == q.pending.Keys
    requires id in EnqueueAll(q, known, lines).pending && id !in q.pending
    ensures id !in known
    ensures exists i: nat :: FirstWith(lines, id, i) && lines[i].value == EnqueueAll(q, known, lines).pending[id]
    decreases |lines|
  {
    if lines != [] {
      var front, last := lines[..|lines| - 1], lines[|lines| - 1];
      var before := EnqueueAll(q, known, front);
      FirstInFront(lines);
      if id in before.pending {
        JoinsFirst(q, known, front, id);
      } else {
        EnqueueKeeps(q, known, front);
        assert FirstWith(lines, id, |lines| - 1);
      }
    }
  }

  /** Rows join in the order of their first lines. */
  lemma {:induction false} JoinsInOrder(q: Queue, known: set<Id>, lines: seq<Option<Row>>, a: nat, b: nat, i: nat,
                                        j: nat)
    requires Distinct(q.order) && Members(q.order) == q.pending.Keys
    requires |q.order| <= a < b < |EnqueueAll(q, known, lines).order|
    requires FirstWith(lines, EnqueueAll(q, known, lines).order[a], i)
    requires FirstWith(lines, EnqueueAll(q, known, lines).order[b], j)
    ensures i < j
    decreases |lines|
  {
    var front := lines[..|lines| - 1];
    var before, after := EnqueueAll(q, known, front), EnqueueAll(q, known, lines);
    EnqueueKeeps(q, known, front);
    EnqueueKeeps(q, known, lines);
    assert before.order <= after.order;
    FirstOfJoined(q, known, lines, a, i);
    if b < |before.order| {
      FirstOfJoined(q, known, lines, b, j);
      JoinsInOrder(q, known, front, a, b, i, j);
    }
  }

  /** What had joined before the last line has its first line before it. */
  lemma FirstOfJoined(q: Queue, known: set<Id>, lines: seq<Option<Row>>, a: nat, i: nat)
    requires lines != [] && Distinct(q.order) && Members(q.order) == q.pending.Keys
    requires |q.order| <= a < |EnqueueAll(q, known, lines[..|lines| - 1]).order|
    requires FirstWith(lines, EnqueueAll(q, known, lines[..|lines| - 1]).order[a], i)
    ensures i < |lines| - 1 && FirstWith(lines[..|lines| - 1], lines[i].value.id, i)
  {
    var front := lines[..|lines| - 1];
    var before := EnqueueAll(q, known, front);
    var id := before.order[a];
    EnqueueKeeps(q, known, front);
    assert id in Members(before.order);
    assert id !in Members(q.order);
    JoinsFirst(q, known, front, id);
    var first: nat :| FirstWith(front, id, first);
    assert FirstWith(lines, id, first);
  }

  lemma FirstInFront(lines: seq<Option<Row>>)
    requires lines != []
    ensures var n := |lines| - 1;
            && (forall id, i: nat :: i < n ==> (FirstWith(lines[..n], id, i) <==> FirstWith(lines, id, i)))
  {
  }

  /** An empty set of done chats is the same as none. */
  ghost function NonEmpty(m: map<Id, set<Chat>>): map<Id, set<Chat>> {
    map id | id in m && m[id] != {} :: m[id]
  }

  lemma NonEmptyRemove(m: map<Id, set<Chat>>, id: Id)
    ensures NonEmpty(m - {id}) == NonEmpty(m) - {id}
  {
  }

  lemma NonEmptyAdd(m: map<Id, set<Chat>>, id: Id, chats: set<Chat>)
    ensures chats != {} ==> NonEmpty(m[id := chats]) == NonEmpty(m)[id := chats]
    ensures id !in m ==> NonEmpty(m[id := {}]) == NonEmpty(m)
    ensures (if id in NonEmpty(m) then NonEmpty(m)[id] else {}) == if id in m then m[id] else {}
  {
  }

  method PopOld(window: seq<real>, now: real) returns (w: seq<real>)
    ensures w == Pruned(window, now)
  {
    w := window;
    while w != [] && w[0] + 60.0 <= now
      invariant Pruned(w, now) == Pruned(window, now)
      decreases |w|
    {
      w := w[1..];
    }
  }

  class Sidecar {
    const settings: Settings
    /** The contents of the two ledger files. */
    var deliveredFile: seq<Id>
    var expiredFile: seq<Id>
    var delivered: set<Id>
    var expired: set<Id>
    var pending: map<Id, Row>
    var order: seq<Id>
    var doneChats: map<Id, set<Chat>>
    var nextTry: map<Id, real>
    var backoff: map<Id, real>
    var sentWindow: seq<real>
    ghost var clock: real
    ghost var sends: seq<real>

    ghost function Abs(): State
      reads this
    {
      State(deliveredFile, expiredFile, settings.config, delivered, expired, pending.Keys,
            NonEmpty(doneChats),
            sentWindow, clock, sends)
    }

    ghost predicate Valid()
      reads this
    {
      Inv(Abs()) && Distinct(order) && Members(order) == pending.Keys && nextTry.Keys <= pending.Keys
    }

    ghost function Waiting(): Queue
      reads this
    {
      Queue(pending, order)
    }

    /** A new process over existing ledgers; s is the state that the previous process left behind. */
    constructor (settings: Settings, ghost s: State, deliveredFile: seq<Id>, expiredFile: seq<Id>, now: real)
      requires settings.config.chats != [] && Inv(s)
      requires deliveredFile == s.deliveredLog && expiredFile == s.expiredLog
      ensures Valid() && this.settings == settings && clock == now
      ensures Abs() == Apply(s, Restart(settings.config, now))
      ensures Waiting() == Queue(map[], []) && doneChats == map[] && nextTry == map[] && backoff == map[]
    {
      this.settings := settings;
      this.deliveredFile, this.expiredFile := deliveredFile, expiredFile;
      delivered, expired := Members(deliveredFile), Members(expiredFile);
      pending, order, doneChats, nextTry, backoff, sentWindow := map[], [], map[], map[], map[], [];
      clock, sends := now, [];
      new;
      InvKept(s, Restart(settings.config, now));
      assert Abs() == Apply(s, Restart(settings.config, now));
    }

    /** read_outbox over the complete lines of this poll; an unreadable line is None. */
    method ReadOutbox(lines: seq<Option<Row>>) returns (ghost events: seq<Event>)
      requires Valid()
      modifies `pending, `order
      ensures Valid() && Runs(old(Abs()), events) && After(old(Abs()), events) == Abs()
      ensures Waiting() == EnqueueAll(old(Waiting()), delivered + expired, lines)
      ensures forall i :: 0 <= i < |lines| && lines[i].Some? ==>
                lines[i].value.id in pending || lines[i].value.id in delivered || lines[i].value.id in expired
      ensures forall id :: id in old(pending) ==> id in pending && pending[id] == old(pending)[id]
      ensures old(order) <= order
    {
      hide Inv, Runs, After, NonEmpty, Members, Distinct;
      events := [];
      NoEvents(Abs());
      for i := 0 to |lines|
        invariant Valid() && Runs(old(Abs()), events) && After(old(Abs()), events) == Abs()
        invariant Waiting() == EnqueueAll(old(Waiting()), delivered + expired, lines[..i])
        invariant forall k :: 0 <= k < i && lines[k].Some? ==>
                    lines[k].value.id in pending || lines[k].value.id in delivered || lines[k].value.id in expired
        invariant forall id :: id in old(pending) ==> id in pending && pending[id] == old(pending)[id]
        invariant old(order) <= order
      {
        assert lines[..i + 1][..i] == lines[..i];
        if lines[i].None? {
          continue;
        }
        var rid := lines[i].value.id;
        if rid in delivered || rid in expired || rid in pending {
          continue;
        }
        RunThen(old(Abs()), events, Accept(rid));
        InvKept(Abs(), Accept(rid));
        AppendMember(order, rid, pending.Keys);
        ghost var before := Abs();
        pending := pending[rid := lines[i].value];
        order := order + [rid];
        assert Abs() == Apply(before, Accept(rid));
        events := events + [Accept(rid)];
      }
      assert lines[..|lines|] == lines;
    }

    /** _forget. */
    method Drop(rid: Id)
      requires Distinct(order)
      modifies `pending, `order, `doneChats, `nextTry, `backoff
      ensures pending == old(pending) - {rid} && doneChats == old(doneChats) - {rid}
      ensures nextTry == old(nextTry) - {rid} && backoff == old(backoff) - {rid}
      ensures Distinct(order) && Members(order) == Members(old(order)) - {rid} && order == Remove(old(order), rid)
    {
      RemoveDistinct(order, rid);
      pending := pending - {rid};
      order := Remove(order, rid);
      doneChats := doneChats - {rid};
      nextTry := nextTry - {rid};
      backoff := backoff - {rid};
    }

    /** _mark_delivered followed by _forget. */
    method MarkDelivered(rid: Id) returns (ghost events: seq<Event>)
      requires Valid() && Enabled(Abs(), Deliver(rid))
      modifies this
      ensures Valid() && clock == old(clock)
      ensures pending == old(pending) - {rid} && nextTry == old(nextTry) - {rid} && order == Remove(old(order), rid)
      ensures delivered == old(delivered) + {rid} && expired == old(expired)
      ensures events == [Deliver(rid), Forget(rid)] && Runs(old(Abs()), events) && After(old(Abs()), events) == Abs()
    {
      hide Inv, Runs, After, NonEmpty, ChatSet, Members, Distinct, Enabled, Apply;
      ghost var s := Abs();
      NonEmptyRemove(doneChats, rid);
      InvKept(s, Deliver(rid));
      DeliverThenForget(s, rid);
      deliveredFile := deliveredFile + [rid];
      delivered := delivered + {rid};
      Drop(rid);
      TwoEvents(s, Deliver(rid), Forget(rid));
      assert Abs() == Apply(Apply(s, Deliver(rid)), Forget(rid));
      InvKept(Apply(s, Deliver(rid)), Forget(rid));
      events := [Deliver(rid), Forget(rid)];
    }

    /** _expire. */
    method MarkExpired(rid: Id) returns (ghost events: seq<Event>)
      requires Valid() && rid in pending
      modifies this
      ensures Valid() && clock == old(clock)
      ensures pending == old(pending) - {rid} && nextTry == old(nextTry) - {rid} && order == Remove(old(order), rid)
      ensures delivered == old(delivered) && expired == old(expired) + {rid}
      ensures events == [Expire(rid), Forget(rid)] && Runs(old(Abs()), events) && After(old(Abs()), events) == Abs()
    {
      hide Inv, Runs, After, NonEmpty, ChatSet, Members, Distinct;
      ghost var s := Abs();
      NonEmptyRemove(doneChats, rid);
      InvKept(s, Expire(rid));
      expiredFile := expiredFile + [rid];
      expired := expired + {rid};
      Drop(rid);
      TwoEvents(s, Expire(rid), Forget(rid));
      assert Abs() == Apply(Apply(s, Expire(rid)), Forget(rid));
      InvKept(Apply(s, Expire(rid)), Forget(rid));
      events := [Expire(rid), Forget(rid)];
    }

    /** _throttled: drop send times that are a minute old, then compare with the limit. */
    method IsThrottled(now: real) returns (full: bool)
      requires Valid() && clock <= now
      modifies `sentWindow, `clock
      ensures Valid() && clock == now && Abs() == Apply(old(Abs()), Prune(now))
      ensures full <==> |sentWindow| >= settings.config.maxPerMin
    {
      hide Inv, Pruned;
      ghost var s := Abs();
      sentWindow := PopOld(sentWindow, now);
      clock := now;
      assert Abs() == Apply(s, Prune(now));
      InvKept(s, Prune(now));
      full := |sentWindow| >= settings.config.maxPerMin;
    }
  
    /** Record a sendMessage call and its outcome. */
    method RecordSend(rid: Id, chat: Chat, at: real, ok: bool)
      requires Valid() && clock <= at && rid in pending && chat in settings.config.chats
      requires |sentWindow| < settings.config.maxPerMin && rid in doneChats && chat !in doneChats[rid]
      modifies `sentWindow, `doneChats, `sends, `clock
      ensures Valid() && clock == at && Enabled(old(Abs()), Send(rid, chat, at, ok))
      ensures Abs() == Apply(old(Abs()), Send(rid, chat, at, ok))
      ensures doneChats == if ok then old(doneChats)[rid := old(doneChats)[rid] + {chat}] else old(doneChats)
    {
      hide Inv, NonEmpty;
      ghost var s := Abs();
      NonEmptyAdd(doneChats, rid, doneChats[rid] + {chat});
      sentWindow := sentWindow + [at];
      sends, clock := sends + [at], at;
      if ok {
        doneChats := doneChats[rid := doneChats[rid] + {chat}];
      }
      InvKept(s, Send(rid, chat, at, ok));
      assert Abs() == Apply(s, Send(rid, chat, at, ok));
    }

    /** After a failure: wait as long as the reply asks (at least a second), or the row's backoff, which doubles. */
    method Postpone(env: Env, rid: Id, reply: Reply)
      requires env.Valid() && !reply.Accepted?
      modifies `nextTry, `backoff, env
      ensures env.Valid() && env.now >= old(env.now) && env.walls == old(env.walls)
      ensures var current := if rid in old(backoff) then old(backoff)[rid] else settings.backoffMin;
              && nextTry == old(nextTry)[rid := env.now +
                   if reply == Refused then current else if reply.seconds < 1.0 then 1.0 else reply.seconds]
              && backoff == if reply.RetryAfter? then old(backoff)
                            else old(backoff)[rid := if 2.0 * current < settings.backoffMax then 2.0 * current
                                                     else settings.backoffMax]
    {
      var wait;
      if reply.RetryAfter? {
        wait := if reply.seconds >= 1.0 then reply.seconds else 1.0;
      } else {
        wait := if rid in backoff then backoff[rid] else settings.backoffMin;
        backoff := backoff[rid := Doubled(wait, settings.backoffMax)];
      }
      var later := env.Clock();
      nextTry := nextTry[rid := later + wait];
    }

    /** One sendMessage call for a pending row. */
    method SendChat(env: Env, rid: Id, chat: Chat) returns (ok: bool, ghost e: Event)
      requires Valid() && env.Valid() && clock <= env.now
      requires rid in pending && chat in settings.config.chats && |sentWindow| < settings.config.maxPerMin
      requires rid in doneChats && chat !in doneChats[rid]
      modifies `sentWindow, `doneChats, `sends, `clock, `nextTry, `backoff, env
      ensures Valid() && env.Valid() && clock <= env.now && env.walls == old(env.walls)
      ensures e.Send? && e.id == rid && e.ok == ok && Enabled(old(Abs()), e) && Abs() == Apply(old(Abs()), e)
      ensures doneChats == if ok then old(doneChats)[rid := old(doneChats)[rid] + {chat}] else old(doneChats)
      ensures nextTry - {rid} == old(nextTry) - {rid} && (rid in old(nextTry) || !ok ==> rid in nextTry)
    {
      hide Inv, Apply, Enabled;
      var at := env.Clock();
      var reply := env.SendOne();
      ok := reply.Accepted?;
      e := Send(rid, chat, at, ok);
      RecordSend(rid, chat, at, ok);
      if !ok {
        Postpone(env, rid, reply);
      }
    }

    /** Check the rate limit, then send. */
    method TryChat(env: Env, rid: Id, chat: Chat) returns (more: bool, failed: bool, ghost events: seq<Event>)
      requires Valid() && env.Valid() && clock <= env.now
      requires rid in pending && chat in settings.config.chats && rid in doneChats && chat !in doneChats[rid]
      modifies `sentWindow, `doneChats, `sends, `clock, `nextTry, `backoff, env
      ensures Valid() && env.Valid() && clock <= env.now && env.walls == old(env.walls)
      ensures Runs(old(Abs()), events) && After(old(Abs()), events) == Abs()
      ensures doneChats ==
                if more && !failed then old(doneChats)[rid := old(doneChats)[rid] + {chat}] else old(doneChats)
      ensures nextTry - {rid} == old(nextTry) - {rid} && (rid in old(nextTry) || failed ==> rid in nextTry)
    {
      hide Inv, Apply, Enabled, Runs, After, NonEmpty, Distinct, Members;
      failed := false;
      ghost var s := Abs();
      NoEvents(s);
      var now := env.Clock();
      CanPrune(s, now);
      RunThen(s, [], Prune(now));
      var full := IsThrottled(now);
      events := [] + [Prune(now)];
      more := !full;
      if more {
        var ok;
        ghost var e;
        ok, e := SendChat(env, rid, chat);
        RunThen(s, events, e);
        events := events + [e];
        failed := !ok;
      }
    }

    /** The loop over the configured chats. `more` is false when the pass must stop because of the rate limit. */
    method SendToChats(env: Env, rid: Id) returns (more: bool, failed: bool, ghost events: seq<Event>)
      requires Valid() && env.Valid() && clock <= env.now && rid in pending && rid in doneChats
      modifies `sentWindow, `doneChats, `sends, `clock, `nextTry, `backoff, env
      ensures Valid() && env.Valid() && clock <= env.now && env.walls == old(env.walls)
      ensures Runs(old(Abs()), events) && After(old(Abs()), events) == Abs()
      ensures rid in doneChats
      ensures nextTry - {rid} == old(nextTry) - {rid} && (rid in old(nextTry) || failed ==> rid in nextTry)
      ensures more && !failed ==> ChatSet(settings.config) <= doneChats[rid]
    {
      hide Inv, Apply, Enabled, Runs, After, NonEmpty, Distinct, Members;
      events, failed, more := [], false, true;
      NoEvents(Abs());
      for k := 0 to |settings.config.chats|
        invariant Valid() && env.Valid() && clock <= env.now && env.walls == old(env.walls)
        invariant Runs(old(Abs()), events) && After(old(Abs()), events) == Abs()
        invariant rid in doneChats && !failed && more
        invariant nextTry - {rid} == old(nextTry) - {rid} && (rid in old(nextTry) ==> rid in nextTry)
        invariant forall i :: 0 <= i < k ==> settings.config.chats[i] in doneChats[rid]
      {
        var chat := settings.config.chats[k];
        if chat in doneChats[rid] {
          continue;
        }
        ghost var some;
        more, failed, some := TryChat(env, rid, chat);
        RunJoin(old(Abs()), events, some);
        events := events + some;
        if !more || failed {
          return;
        }
      }
    }

    /**
     * The body of step() for one row of the snapshot. A due row expires if and only if the age limit is on, the row
     * carries a positive time and more than the limit has passed since; a due row that does not expire raises if and
     * only if it has no text.
     */
    method ProcessRow(env: Env, rid: Id) returns (outcome: Outcome, ghost events: seq<Event>)
      requires Valid() && env.Valid() && clock <= env.now
      modifies this, env
      ensures Valid() && env.Valid() && clock <= env.now && forall w :: w in env.walls ==> w in old(env.walls)
      ensures Runs(old(Abs()), events) && After(old(Abs()), events) == Abs()
      ensures var due := old(rid in pending && (rid in nextTry ==> nextTry[rid] <= env.NextClock()));
              var expires :=
                due && old(settings.maxAge > 0.0 && pending[rid].time.Some? && pending[rid].time.value > 0 &&
                           pending[rid].time.value as real + settings.maxAge < env.NextWall());
              && expired == old(expired) + (if expires then {rid} else {})
              && (outcome == Raised <==>
                    due && !expires && (old(pending[rid].time.None?) || !old(pending[rid].readable)))
              && (!due || outcome == Raised ==>
                    Abs() == old(Abs()) && nextTry == old(nextTry) && order == old(order) && pending == old(pending))
              && (!due ==> outcome == Done)
              && (due && outcome == Done ==> rid in delivered || rid in expired || (rid in pending && rid in nextTry))
      ensures delivered == old(delivered) || delivered == old(delivered) + {rid}
      ensures pending == old(pending) || pending == old(pending) - {rid}
      ensures order == old(order) || order == Remove(old(order), rid)
      ensures nextTry - {rid} == old(nextTry) - {rid}
    {
      hide Inv, Apply, Runs, After, NonEmpty, Enabled;
      events, outcome := [], Done;
      NoEvents(Abs());
      if rid !in pending {
        return;
      }
      var now := env.Clock();
      if (if rid in nextTry then nextTry[rid] else 0.0) > now {
        return;
      }
      var wall := env.Wall();
      StaleMeans(settings, pending[rid], wall);
      if Stale(settings, pending[rid], wall) {
        events := MarkExpired(rid);
        return;
      }
      if !Formats(pending[rid]) {
        outcome := Raised;
        return;
      }
      outcome, events := SendRow(env, rid);
    }

    /** The part of step() after the message text: send, and record the delivery when every chat is done. */
    method SendRow(env: Env, rid: Id) returns (outcome: Outcome, ghost events: seq<Event>)
      requires Valid() && env.Valid() && clock <= env.now && rid in pending
      modifies this, env
      ensures Valid() && env.Valid() && clock <= env.now && env.walls == old(env.walls) && outcome != Raised
      ensures Runs(old(Abs()), events) && After(old(Abs()), events) == Abs()
      ensures expired == old(expired) && (delivered == old(delivered) || delivered == old(delivered) + {rid})
      ensures outcome == Done ==> rid in delivered || (rid in pending && rid in nextTry)
      ensures pending == old(pending) || pending == old(pending) - {rid}
      ensures order == old(order) || order == Remove(old(order), rid)
      ensures nextTry - {rid} == old(nextTry) - {rid}
    {
      hide Inv, Apply, Runs, After, NonEmpty, Enabled;
      if rid !in doneChats {
        NonEmptyAdd(doneChats, rid, {});
        doneChats := doneChats[rid := {}];
        assert Abs() == old(Abs());
      }
      var more, failed;
      more, failed, events := SendToChats(env, rid);
      outcome := if more then Done else Deferred;
      if more && !failed {
        DoneIsDeliverable(Abs(), doneChats, rid);
        ghost var last := MarkDelivered(rid);
        RunJoin(old(Abs()), events, last);
        events := events + last;
      }
    }

    /** id has left the queue for a ledger, or its next attempt is scheduled. */
    ghost predicate Handled(id: Id)
      reads this
    {
      id in delivered || id in expired || (id in pending && id in nextTry)
    }

    /** A row that format_text raises on, and that never grows stale, stands in the queue before another row. */
    ghost predicate Blocked(bad: Id, later: Id)
      reads this
    {
      && bad in pending && bad !in nextTry && !Formats(pending[bad]) && NeverStale(settings, pending[bad])
      && later in pending && Precedes(order, bad, later)
    }

    /**
     * step(): read the outbox, then try every row of a snapshot of the order. A pass that ends normally has handled
     * every row that was waiting or has just been read. A row that blocks the queue blocks it for good: no pass ends
     * normally, and the rows behind it stay where they are. `bad` and `later` are any two ids. No row expires before
     * the age limit has passed since its time.
     */
    method Step(env: Env, lines: seq<Option<Row>>, ghost bad: Id, ghost later: Id)
      returns (outcome: Outcome, ghost events: seq<Event>)
      requires Valid() && env.Valid() && clock <= env.now
      modifies this, env
      ensures Valid() && env.Valid() && clock <= env.now
      ensures Runs(old(Abs()), events) && After(old(Abs()), events) == Abs()
      ensures outcome == Done ==>
                forall id :: id in old(pending) || (exists i :: 0 <= i < |lines| && lines[i].Some? &&
                                                                lines[i].value.id == id) ==>
                  id in delivered || id in expired || (id in pending && id in nextTry)
      ensures old(delivered) <= delivered && old(expired) <= expired
      ensures forall id :: id in expired && id !in old(expired) ==>
                var rows := EnqueueAll(old(Waiting()), old(delivered) + old(expired), lines).pending;
                && id in rows && settings.maxAge > 0.0 && rows[id].time.Some? && rows[id].time.value > 0
                && exists w :: w in old(env.walls) && rows[id].time.value as real + settings.maxAge < w
      ensures old(Blocked(bad, later)) ==> Blocked(bad, later) && outcome != Done
    {
      hide Inv, Runs, After, NonEmpty, Distinct, Formats, Precedes;
      events := ReadOutbox(lines);
      PrecedesLonger(old(order), order, bad, later);
      assert old(Blocked(bad, later)) ==> Blocked(bad, later);
      ghost var more;
      outcome, more := TryAll(env, order, bad, later);
      RunJoin(old(Abs()), events, more);
      events := events + more;
    }

    /** The loop of step() over the snapshot. */
    method TryAll(env: Env, snapshot: seq<Id>, ghost bad: Id, ghost later: Id)
      returns (outcome: Outcome, ghost events: seq<Event>)
      requires Valid() && env.Valid() && clock <= env.now && snapshot == order
      modifies this, env
      ensures Valid() && env.Valid() && clock <= env.now
      ensures Runs(old(Abs()), events) && After(old(Abs()), events) == Abs()
      ensures outcome == Done ==> forall id :: id in old(pending) ==> Handled(id)
      ensures outcome == Done ==> forall id :: old(Handled(id)) ==> Handled(id)
      ensures old(delivered) <= delivered && old(expired) <= expired
      ensures forall id :: id in expired && id !in old(expired) ==>
                id in old(pending) && OldEnough(settings, old(pending)[id], old(env.walls))
      ensures old(Blocked(bad, later)) ==> Blocked(bad, later) && outcome != Done
    {
      hide Inv, Runs, After, NonEmpty, Formats, NeverStale, Abs, OldEnough;
      events, outcome := [], Done;
      NoEvents(Abs());
      for i := 0 to |snapshot|
        invariant Valid() && env.Valid() && clock <= env.now && outcome == Done
        invariant Runs(old(Abs()), events) && After(old(Abs()), events) == Abs()
        invariant old(delivered) <= delivered && old(expired) <= expired
        invariant forall w :: w in env.walls ==> w in old(env.walls)
        invariant forall id :: id in pending ==> id in old(pending) && pending[id] == old(pending)[id]
        invariant forall id :: id in expired && id !in old(expired) ==>
                    id in old(pending) && OldEnough(settings, old(pending)[id], old(env.walls))
        invariant forall k :: 0 <= k < i ==> Handled(snapshot[k])
        invariant forall k :: i <= k < |snapshot| ==> snapshot[k] in pending || Handled(snapshot[k])
        invariant forall id :: old(Handled(id)) ==> Handled(id)
        invariant old(Blocked(bad, later)) ==> Blocked(bad, later) && Precedes(snapshot[i..], bad, later)
      {
        ghost var some;
        ghost var walls := env.walls;
        outcome, some := TryNext(env, snapshot, i, bad, later);
        forall id | id in old(pending) && OldEnough(settings, old(pending)[id], walls)
          ensures OldEnough(settings, old(pending)[id], old(env.walls))
        {
          OldEnoughInMore(settings, old(pending)[id], walls, old(env.walls));
        }
        RunJoin(old(Abs()), events, some);
        events := events + some;
        if outcome != Done {
          return;
        }
      }
      assert forall id :: id in old(pending) ==> id in Members(snapshot);
    }

    /** One round of that loop. */
    method TryNext(env: Env, snapshot: seq<Id>, i: nat, ghost bad: Id, ghost later: Id)
      returns (outcome: Outcome, ghost events: seq<Event>)
      requires Valid() && env.Valid() && clock <= env.now && i < |snapshot| && Distinct(snapshot)
      modifies this, env
      ensures Valid() && env.Valid() && clock <= env.now
      ensures Runs(old(Abs()), events) && After(old(Abs()), events) == Abs()
      ensures old(delivered) <= delivered && old(expired) <= expired
      ensures forall w :: w in env.walls ==> w in old(env.walls)
      ensures forall id :: id in pending ==> id in old(pending) && pending[id] == old(pending)[id]
      ensures forall id :: id in expired && id !in old(expired) ==>
                id in old(pending) && OldEnough(settings, old(pending)[id], old(env.walls))
      ensures outcome == Done && old(snapshot[i] in pending || Handled(snapshot[i])) ==> Handled(snapshot[i])
      ensures forall id :: id != snapshot[i] && id in old(pending) ==> id in pending
      ensures outcome == Done ==> forall id :: old(Handled(id)) ==> Handled(id)
      ensures old(Blocked(bad, later)) && Precedes(snapshot[i..], bad, later) ==>
                Blocked(bad, later) && (outcome == Done ==> Precedes(snapshot[i + 1..], bad, later))
    {
      hide Inv, Runs, After, NonEmpty, Abs, Precedes, Distinct;
      var rid := snapshot[i];
      assert env.NextWall() > 0.0 ==> env.NextWall() in env.walls;
      NextPrecedes(snapshot, i, bad, later);
      if rid != bad && rid != later { PrecedesRemoved(order, rid, bad, later); }
      outcome, events := ProcessRow(env, rid);
      assert forall id :: id != rid ==> (id in nextTry <==> id in nextTry - {rid});
      assert forall id :: id != rid ==> (id in old(nextTry) <==> id in old(nextTry) - {rid});
    }
  }

  /** An event older than the limit, where the limit is on and the row carries a time. */
  predicate Stale(settings: Settings, row: Row, wall: real) {
    settings.maxAge > 0.0 && row.time.Some? && row.time.value > 0 && wall - row.time.value as real > settings.maxAge
  }

  /** Stale, written out: the limit is on, the row carries a positive time and more than the limit has passed since. */
  lemma StaleMeans(settings: Settings, row: Row, wall: real)
    ensures Stale(settings, row, wall) <==>
            && settings.maxAge > 0.0 && row.time.Some? && row.time.value > 0
            && row.time.value as real + settings.maxAge < wall
  {
  }

  /** A stale row stays stale. */
  lemma StaleGrows(settings: Settings, row: Row, wall: real, later: real)
    requires Stale(settings, row, wall) && wall <= later
    ensures Stale(settings, row, later)
  {
  }

  /** One of the wall clock readings lies more than the age limit after the row's time. */
  ghost predicate OldEnough(settings: Settings, row: Row, walls: seq<real>) {
    && settings.maxAge > 0.0 && row.time.Some? && row.time.value > 0
    && exists w :: w in walls && row.time.value as real + settings.maxAge < w
  }

  lemma OldEnoughInMore(settings: Settings, row: Row, walls: seq<real>, more: seq<real>)
    requires OldEnough(settings, row, walls) && forall w :: w in walls ==> w in more
    ensures OldEnough(settings, row, more)
  {
  }

  predicate NeverStale(settings: Settings, row: Row) {
    settings.maxAge <= 0.0 || row.time.None? || row.time.value <= 0
  }

  /** format_text returns: the time is a number and the rest of the row can be printed. */
  predicate Formats(row: Row) {
    row.time.Some? && row.readable
  }

  /** a stands before b. */
  ghost predicate Precedes(s: seq<Id>, a: Id, b: Id) {
    exists i, j :: 0 <= i < j < |s| && s[i] == a && s[j] == b
  }

  lemma PrecedesLonger(s: seq<Id>, t: seq<Id>, a: Id, b: Id)
    requires s <= t
    ensures Precedes(s, a, b) ==> Precedes(t, a, b)
  {
  }

  lemma {:induction false} PrecedesRemoved(s: seq<Id>, id: Id, a: Id, b: Id)
    requires id != a && id != b
    ensures Precedes(s, a, b) ==> Precedes(Remove(s, id), a, b)
    decreases |s|
  {
    if i, j :| 0 <= i < j < |s| && s[i] == a && s[j] == b {
      if i == 0 {
        KeptByRemove(s[1..], id, b);
        var k :| 0 <= k < |Remove(s[1..], id)| && Remove(s[1..], id)[k] == b;
        assert Remove(s, id)[0] == a && Remove(s, id)[k + 1] == b;
      } else {
        assert s[1..][i - 1] == a && s[1..][j - 1] == b;
        PrecedesRemoved(s[1..], id, a, b);
        if s[0] != id {
          PrecedesPrepended(s[0], Remove(s[1..], id), a, b);
        }
      }
    }
  }

  /** In a list without repetitions, what stands before something else is the head or stands so in the tail. */
  lemma NextPrecedes(s: seq<Id>, i: nat, a: Id, b: Id)
    requires Distinct(s) && i < |s|
    ensures Precedes(s[i..], a, b) && s[i] != a ==> s[i] != b && Precedes(s[i + 1..], a, b)
  {
    if j, k :| 0 <= j < k < |s[i..]| && s[i..][j] == a && s[i..][k] == b && s[i] != a {
      assert s[i + j] == a && s[i + k] == b;
      assert s[i + 1..][j - 1] == a && s[i + 1..][k - 1] == b;
    }
  }

  /** NeverStale is what it says: no reading of the wall clock ever makes the row stale. */
  lemma NeverStaleExactly(settings: Settings, row: Row)
    ensures NeverStale(settings, row) <==> forall wall :: !Stale(settings, row, wall)
  {
    if !NeverStale(settings, row) {
      var wall := row.time.value as real + settings.maxAge + 1.0;
      assert Stale(settings, row, wall);
    }
  }

  lemma PrecedesPrepended(x: Id, s: seq<Id>, a: Id, b: Id)
    ensures Precedes(s, a, b) ==> Precedes([x] + s, a, b)
  {
    if i, j :| 0 <= i < j < |s| && s[i] == a && s[j] == b {
      var t := [x] + s;
      assert t[i + 1] == a && t[j + 1] == b;
    }
  }

  lemma {:induction false} KeptByRemove(s: seq<Id>, id: Id, x: Id)
    requires x != id && x in s
    ensures x in Remove(s, id)
    decreases |s|
  {
    if s[0] != id && s[0] != x { KeptByRemove(s[1..], id, x); }
  }

  function Doubled(wait: real, limit: real): real {
    if limit <= wait * 2.0 then limit else wait * 2.0
  }

  lemma AppendMember(order: seq<Id>, rid: Id, keys: set<Id>)
    requires Distinct(order) && Members(order) == keys && rid !in keys
    ensures Distinct(order + [rid]) && Members(order + [rid]) == keys + {rid}
  {
    MembersAppend(order, rid);
  }

  /** An empty state directory and one process over it: the start of every run. */
  method StartSidecar(settings: Settings) returns (s: Sidecar)
    requires settings.config.chats != []
    ensures fresh(s) && s.Valid() && s.settings == settings && s.clock == 0.0
    ensures s.Waiting() == Queue(map[], []) && s.nextTry == map[] && s.delivered == {} && s.expired == {}
  {
    InitialInv(settings.config);
    s := new Sidecar(settings, Initial(settings.config), [], [], 0.0);
  }

  /**
   * A row that format_text raises on and that never grows stale, read before another row, blocks that row for ever:
   * over any number of passes, with any replies, clocks and further outbox lines, no pass ends normally and the
   * second row stays in the queue.
   */
  method BlockedForEver(settings: Settings, env: Env, bad: Row, later: Row, polls: seq<seq<Option<Row>>>)
    returns (s: Sidecar, outcomes: seq<Outcome>)
    requires settings.config.chats != [] && env.Valid()
    requires !Formats(bad) && NeverStale(settings, bad) && bad.id != later.id
    modifies env
    ensures s.Valid() && s.Blocked(bad.id, later.id)
    ensures later.id in s.pending && later.id !in s.delivered && later.id !in s.expired
    ensures |outcomes| == |polls| && Done !in outcomes
  {
    hide Inv, NeverStale, Formats;
    s := StartSidecar(settings);
    ghost var _ := s.ReadOutbox([Some(bad), Some(later)]);
    TwoRows(bad, later);
    assert s.delivered + s.expired == {};
    outcomes := [];
    for i := 0 to |polls|
      invariant fresh(s) && s.Valid() && env.Valid() && s.clock <= env.now
      invariant s.Blocked(bad.id, later.id) && |outcomes| == i && Done !in outcomes
    {
      var outcome;
      ghost var events;
      outcome, events := s.Step(env, polls[i], bad.id, later.id);
      outcomes := outcomes + [outcome];
    }
    PendingIsNeither(s, later.id);
  }

  lemma PendingIsNeither(s: Sidecar, id: Id)
    requires s.Valid() && id in s.pending
    ensures id !in s.delivered && id !in s.expired
  {
    assert id in s.Abs().pending;
  }

  lemma TwoRows(a: Row, b: Row)
    requires a.id != b.id
    ensures EnqueueAll(Queue(map[], []), {}, [Some(a), Some(b)]) == Queue(map[a.id := a, b.id := b], [a.id, b.id])
    ensures Precedes([a.id, b.id], a.id, b.id)
  {
    var empty, lines, ids := Queue(map[], []), [Some(a), Some(b)], [a.id, b.id];
    var one := [Some(a)];
    assert lines[..1] == one && one[..0] == [];
    assert EnqueueAll(empty, {}, one) == Enqueue(EnqueueAll(empty, {}, []), {}, Some(a));
    assert EnqueueAll(empty, {}, one) == Queue(map[a.id := a], [a.id]);
    assert EnqueueAll(empty, {}, lines) == Enqueue(EnqueueAll(empty, {}, one), {}, Some(b));
    assert ids[0] == a.id && ids[1] == b.id;
  }

  lemma CanPrune(s: State, now: real)
    requires s.clock <= now
    ensures Enabled(s, Prune(now))
  {
  }

  lemma DoneIsDeliverable(s: State, m: map<Id, set<Chat>>, rid: Id)
    requires s.done == NonEmpty(m) && rid in m && rid in s.pending && ChatSet(s.config) <= m[rid]
    ensures Enabled(s, Deliver(rid))
  {
    NonEmptyAdd(m, rid, {});
  }

  lemma DeliverThenForget(s: State, rid: Id)
    requires Enabled(s, Deliver(rid))
    ensures Enabled(Apply(s, Deliver(rid)), Forget(rid))
    ensures Apply(Apply(s, Deliver(rid)), Forget(rid)) ==
            s.(deliveredLog := s.deliveredLog + [rid], delivered := s.delivered + {rid}, pending := s.pending - {rid},
               done := s.done - {rid})
  {
  }

  lemma TwoEvents(s: State, a: Event, b: Event)
    requires Enabled(s, a) && Enabled(Apply(s, a), b)
    ensures Runs(s, [a, b]) && After(s, [a, b]) == Apply(Apply(s, a), b)
  {
    RunThen(s, [], a);
    assert [] + [a] == [a] && [a] + [b] == [a, b];
    RunThen(s, [a], b);
  }
}

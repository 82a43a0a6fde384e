/** Streams over many connections, the wait between reads, and why publication is serialized. */
module LiveReconnect {
  import opened Wrappers
  import opened LiveReplay

  // ---- Reconnecting ----

  /** One connection: what happened around its reads, and how many of the events it sent arrived. */
  datatype Visit = Visit(turns: seq<Turn>, received: nat)

  /** What the client holds after some connections, the log at that time and the identity it will name next. */
  datatype Held = Held(log: Log, last: nat, events: Log)

  /** What arrived of a stream. */
  function Arrived(e: Ending, received: nat): Log {
    if received < |e.sent| then e.sent[..received] else e.sent
  }

  /** Every connection is a session that starts at the last event received before it. */
  function Reconnect(h: Held, visits: seq<Visit>): Held
    decreases |visits|
  {
    if visits == [] then h
    else
      var e := Session(h.log, h.last, visits[0].turns);
      var arrived := Arrived(e, visits[0].received);
      Reconnect(Held(e.log, EndOf(h.last, arrived), h.events + arrived), visits[1..])
  }

  lemma {:induction false} ReconnectGrows(h: Held, visits: seq<Visit>)
    ensures h.log <= Reconnect(h, visits).log
    decreases |visits|
  {
    if visits == [] {
    } else {
      hide Session;
      var e := Session(h.log, h.last, visits[0].turns);
      var arrived := Arrived(e, visits[0].received);
      SessionGrows(h.log, h.last, visits[0].turns);
      ReconnectGrows(Held(e.log, EndOf(h.last, arrived), h.events + arrived), visits[1..]);
    }
  }

  /** The client of a stream, at the highest floor used so far. */
  ghost predicate Whole(h: Held, start: nat, floor: int) {
    && Delivered(h.log, start, h.last, h.events, floor)
    && (Steady(h.log) ==> Gapless(h.log, start, h.last, h.events))
  }

  lemma {:induction false} GaplessPrefix(log: Log, start: nat, cursor: nat, written: Log, floor: int, k: nat)
    requires Delivered(log, start, cursor, written, floor) && Gapless(log, start, cursor, written) && k <= |written|
    ensures Gapless(log, start, if k == 0 then start else written[k - 1].id, written[..k])
  {
    if k > 0 {
      var end := written[k - 1].id;
      assert written[k - 1] in written;
      forall e | e in log && start < e.id <= end && (start > 0 || e.id >= written[0].id)
        ensures e in written[..k]
      {
        var i :| 0 <= i < |written| && written[i] == e;
        assert i < k;
      }
    }
  }

  /** What arrived of a connection after earlier events is a prefix of all that was sent. */
  lemma {:induction false} ArrivedIsPrefix(e: Ending, received: nat, before: Log, start: nat) returns (k: nat)
    ensures k <= |before + e.sent| && (before + e.sent)[..k] == before + Arrived(e, received)
    ensures EndOf(EndOf(start, before), Arrived(e, received)) == (if k == 0 then start else (before + e.sent)[k - 1].id)
  {
    k := |before| + |Arrived(e, received)|;
  }

  /** One connection more, of which any part arrived. */
  lemma {:induction false} VisitKeeps(h: Held, start: nat, floor: int, visit: Visit) returns (top: int)
    requires Whole(h, start, floor) && Increasing(Session(h.log, h.last, visit.turns).log)
    ensures FloorUsed(visit.turns, floor, top)
    ensures var e := Session(h.log, h.last, visit.turns);
            var arrived := Arrived(e, visit.received);
            Whole(Held(e.log, EndOf(h.last, arrived), h.events + arrived), start, top)
  {
    hide Session, Gapless, Steady, Increasing, FloorUsed, Expired, Arrived;
    var e := Session(h.log, h.last, visit.turns);
    top := SessionKeeps(h.log, start, h.last, h.events, floor, visit.turns);
    assert h.last == EndOf(start, h.events);
    hide Delivered, EndOf;
    var all := h.events + e.sent;
    var k := ArrivedIsPrefix(e, visit.received, h.events, start);
    PrefixIsDelivered(e.log, start, e.cursor, all, top, k);
    if Steady(e.log) {
      GaplessPrefix(e.log, start, e.cursor, all, top, k);
    }
  }

  /** The floor `top` is `floor` or one that a read of some connection used. */
  ghost predicate FloorOf(visits: seq<Visit>, floor: int, top: int) {
    top == floor || exists i, j :: 0 <= i < |visits| && 0 <= j < |visits[i].turns| && visits[i].turns[j].floor == top
  }

  lemma {:induction false} FloorOfMore(visits: seq<Visit>, floor: int, first: int, top: int)
    requires visits != [] && FloorUsed(visits[0].turns, floor, first) && FloorOf(visits[1..], first, top)
    ensures FloorOf(visits, floor, top)
  {
    if top != first {
      var i, j :| 0 <= i < |visits[1..]| && 0 <= j < |visits[1..][i].turns| && visits[1..][i].turns[j].floor == top;
      assert visits[i + 1].turns[j].floor == top;
    }
  }

  /**
   Over any connections to any log: the events that arrived are in order, each once, and
   one that is missing is older than a floor that some read used.
   */
  lemma {:induction false} ReconnectKeeps(h: Held, start: nat, floor: int, visits: seq<Visit>) returns (top: int)
    requires Whole(h, start, floor) && Increasing(Reconnect(h, visits).log)
    ensures Whole(Reconnect(h, visits), start, top) && FloorOf(visits, floor, top)
    decreases |visits|
  {
    top := floor;
    if visits == [] {
    } else {
      hide Session, Whole, Increasing, FloorUsed;
      var e := Session(h.log, h.last, visits[0].turns);
      var arrived := Arrived(e, visits[0].received);
      var next := Held(e.log, EndOf(h.last, arrived), h.events + arrived);
      var last := Reconnect(h, visits).log;
      ReconnectGrows(next, visits[1..]);
      assert last == e.log + last[|e.log|..];
      IncreasingPart(e.log, last[|e.log|..]);
      var first := VisitKeeps(h, start, floor, visits[0]);
      top := ReconnectKeeps(next, start, first, visits[1..]);
      FloorOfMore(visits, floor, first, top);
    }
  }

  /**
   Over any number of connections, each resumed from the last event that arrived, the
   client holds exactly the log from its first event to its last, if the log is steady.
   */
  lemma {:induction false} ReconnectsAreOneStream(log: Log, start: nat, visits: seq<Visit>)
    requires start > 0 && Increasing(Reconnect(Held(log, start, []), visits).log)
    ensures var r := Reconnect(Held(log, start, []), visits);
            Steady(r.log) ==> r.events == Segment(r.log, start, r.last)
  {
    hide Reconnect, Delivered, Gapless, Steady, Increasing, Segment;
    var r := Reconnect(Held(log, start, []), visits);
    DeliveredNothing(log, start, 0);
    NothingIsGapless(log, start);
    var top := ReconnectKeeps(Held(log, start, []), start, 0, visits);
    if Steady(r.log) {
      GaplessIsSegment(r.log, start, r.last, r.events, top);
    }
  }

  /**
   A client that starts at zero, as one does whose log was empty, holds exactly the log
   from the first event that arrived to its last.
   */
  lemma {:induction false} ReconnectsFromNothing(log: Log, visits: seq<Visit>)
    requires Increasing(Reconnect(Held(log, 0, []), visits).log)
    ensures var r := Reconnect(Held(log, 0, []), visits);
            Steady(r.log) && r.events != [] ==>
              r.events[0].id > 0 && r.events == Segment(r.log, r.events[0].id - 1, r.last)
  {
    var r := Reconnect(Held(log, 0, []), visits);
    DeliveredNothing(log, 0, 0);
    NothingIsGapless(log, 0);
    hide Reconnect;
    var top := ReconnectKeeps(Held(log, 0, []), 0, 0, visits);
    if Steady(r.log) && r.events != [] {
      GaplessFromFirst(r.log, r.last, r.events, top);
    }
  }

  // ---- What the guarantees rest on ----

  /**
   Whatever is published while a stream runs, in whatever order, it sends nothing at or
   below its cursor.  So an event that becomes visible below a cursor is lost to every
   later read of the stream, which is why publication is serialized.
   */
  lemma {:induction false} LateCommitIsLost(log: Log, cursor: nat, turns: seq<Turn>, e: Entry)
    requires e in Session(log, cursor, turns).sent
    ensures e.id > cursor
    decreases |turns|
  {
    var turn := turns[0];
    var now := log + turn.published;
    var batch, rows := Replay(now, cursor, turn.floor, REPLAY_LIMIT), After(now, cursor, turn.floor);
    hide After, Retained;
    if e in batch.events {
      assert e in rows;
      AfterHas(now, cursor, turn.floor, e);
    } else {
      var k := if turn.writes < |batch.events| then turn.writes else |batch.events|;
      var end := if k == 0 then cursor else batch.events[k - 1].id;
      if k > 0 {
        assert batch.events[k - 1] in rows;
        AfterHas(now, cursor, turn.floor, batch.events[k - 1]);
      }
      LateCommitIsLost(now, end, turns[1..], e);
    }
  }

  lemma {:induction false} AfterIsShorter(log: Log, cursor: nat, floor: int)
    ensures |After(log, cursor, floor)| <= |log|
  {
    if log == [] {
    } else {
      AfterIsShorter(log[1..], cursor, floor);
    }
  }

  /**
   Creation times are taken before the publication lock, so they can go back.  Then an
   event can expire between a retained cursor and a later event: the read shows the
   later one, passes over the other, and does not tell the client to start again.
   */
  lemma {:induction false} OlderSuccessorIsPassedOver(a: Entry, b: Entry, c: Entry, floor: int)
    requires a.id < b.id < c.id && b.created < floor <= a.created && floor <= c.created
    ensures var batch := Replay([a, b, c], a.id, floor, REPLAY_LIMIT);
            batch.Batch? && !batch.more && c in batch.events && b !in batch.events
  {
    var log := [a, b, c];
    assert Retained(log, a.id, floor) by {
      assert log[0] == a;
    }
    hide After, Retained;
    AfterIsShorter(log, a.id, floor);
    AfterHas(log, a.id, floor, b);
    AfterHas(log, a.id, floor, c);
  }

  // ---- Waiting ----

  datatype Phase = Start | Subscribed | Reading | Waiting

  /** Counts of what is published, what the last read saw, and notifications not yet taken. */
  datatype Wake = Wake(phase: Phase, published: nat, seen: nat, pending: nat)

  datatype Action =
    | Publish
    | Subscribe
    | Read(more: bool)
    | Notified
    | Heartbeat

  function Step(w: Wake, a: Action): Option<Wake> {
    match a
    case Publish => Some(w.(published := w.published + 1, pending := if w.phase.Start? then 0 else w.pending + 1))
    case Subscribe => if w.phase.Start? then Some(w.(phase := Subscribed, pending := 0)) else None
    case Read(more) =>
      if w.phase.Subscribed? || w.phase.Reading?
      then Some(w.(phase := if more then Reading else Waiting, seen := w.published)) else None
    case Notified => if w.phase.Waiting? && w.pending > 0 then Some(w.(phase := Reading,
      pending := w.pending - 1)) else None
    case Heartbeat => if w.phase.Waiting? then Some(w.(phase := Reading)) else None
  }

  function Follow(w: Wake, actions: seq<Action>): Option<Wake> {
    if actions == [] then Some(w)
    else
      match Follow(w, actions[..|actions| - 1])
      case None => None
      case Some(v) => Step(v, actions[|actions| - 1])
  }

  /** A stream that waits has a notification for every event it has not read, so no event can be slept through. */
  lemma {:induction false} NoLostWakeup(published: nat, actions: seq<Action>)
    requires Follow(Wake(Start, published, 0, 0), actions).Some?
    ensures var w := Follow(Wake(Start, published, 0, 0), actions).value;
            && w.seen <= w.published
            && (w.phase.Waiting? ==> w.pending >= w.published - w.seen)
            && (w.phase.Waiting? && w.seen < w.published ==> Step(w, Notified).Some?)
  {
    if actions == [] {
    } else {
      NoLostWakeup(published, actions[..|actions| - 1]);
    }
  }

  /** How many of the actions after the subscription are of a kind. */
  function CountSince(actions: seq<Action>, kind: Action): nat {
    if actions == [] then 0
    else
      var last := actions[|actions| - 1];
      if last == Subscribe then 0
      else CountSince(actions[..|actions| - 1], kind) + if last == kind then 1 else 0
  }

  /**
   A stream is woken once for each event published since it subscribed, and waits exactly
   after a read that found no more.
   */
  lemma {:induction false} NoSpuriousWakeup(published: nat, actions: seq<Action>)
    requires Follow(Wake(Start, published, 0, 0), actions).Some?
    ensures var w := Follow(Wake(Start, published, 0, 0), actions).value;
            && (w.phase != Start ==> w.pending + CountSince(actions, Notified) == CountSince(actions, Publish))
            && (actions != [] && actions[|actions| - 1].Read? ==>
                  w.seen == w.published && (w.phase == Waiting <==> !actions[|actions| - 1].more))
            && (actions != [] && actions[|actions| - 1] in {Notified, Heartbeat} ==> w.phase == Reading)
  {
    if actions == [] {
    } else {
      NoSpuriousWakeup(published, actions[..|actions| - 1]);
      if Follow(Wake(Start, published, 0, 0), actions[..|actions| - 1]).value.phase == Start {
        NobodyWaits(published, actions[..|actions| - 1]);
      }
    }
  }

  lemma {:induction false} NobodyWaits(published: nat, actions: seq<Action>)
    requires Follow(Wake(Start, published, 0, 0), actions).Some?
    ensures Follow(Wake(Start, published, 0, 0), actions).value.phase == Start ==>
              CountSince(actions, Notified) == 0
  {
    if actions == [] {
    } else {
      NobodyWaits(published, actions[..|actions| - 1]);
    }
  }
}

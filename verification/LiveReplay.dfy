/**
 The live event stream: the handler of `internal/api/live.go` over the replay query of
 `internal/intelligence/pgstore/live.go`.

 Events are published under a lock, so the log grows at its end and identities
 increase.  A read sees the entries above a cursor that are not older than a floor
 (seven days before now, or what retention has left).  A stream may end at any point
 and the client comes back with the last identity it received.
 */
module LiveReplay {
  import opened Wrappers
  import opened Ordering

  datatype Entry = Entry(id: nat, created: int)

  type Log = seq<Entry>

  const REPLAY_LIMIT := 100

  /** Identities are positive and increase along the log. */
  ghost predicate Increasing(log: Log) {
    && (forall i :: 0 <= i < |log| ==> log[i].id > 0)
    && (forall i, j :: 0 <= i < j < |log| ==> log[i].id < log[j].id)
  }

  /** No event is older than both an event before it and an event after it. */
  ghost predicate Steady(log: Log) {
    forall i, j, k :: 0 <= i < j < k < |log| ==> log[j].created >= log[i].created || log[j].created >= log[k].created
  }

  // ---- The store ----

  /** Rows above a cursor that are not older than the floor, in order. */
  function After(log: Log, cursor: nat, floor: int): Log {
    if log == [] then []
    else (if log[0].id > cursor && log[0].created >= floor then [log[0]] else []) + After(log[1..], cursor, floor)
  }

  predicate Retained(log: Log, id: nat, floor: int) {
    exists i :: 0 <= i < |log| && log[i].id == id && log[i].created >= floor
  }

  datatype Batch = Reset | Batch(events: Log, more: bool)

  /** `Replay`, with the floor that the clock and retention leave. */
  function Replay(log: Log, cursor: nat, floor: int, limit: nat): Batch {
    var rows := After(log, cursor, floor);
    if cursor > 0 && !Retained(log, cursor, floor) then Reset
    else if |rows| > limit then Batch(rows[..limit], true)
    else Batch(rows, false)
  }

  /** The highest identity that is still shown, or zero. */
  function Latest(log: Log, floor: int): (id: nat)
    ensures forall e :: e in log && e.created >= floor ==> e.id <= id
    ensures id == 0 || exists e :: e in log && e.created >= floor && e.id == id
  {
    if log == [] then 0
    else
      var last := log[|log| - 1];
      var rest := Latest(log[..|log| - 1], floor);
      if last.created >= floor && last.id > rest then last.id else rest
  }

  lemma {:induction false} AfterHas(log: Log, cursor: nat, floor: int, e: Entry)
    ensures e in After(log, cursor, floor) <==> e in log && e.id > cursor && e.created >= floor
  {
    if log == [] {
    } else {
      AfterHas(log[1..], cursor, floor, e);
      assert log == [log[0]] + log[1..];
    }
  }

  lemma {:induction false} FirstIncreases(e: Entry, rest: Log)
    requires e.id > 0 && Increasing(rest) && forall x :: x in rest ==> x.id > e.id
    ensures Increasing([e] + rest)
  {
    var all := [e] + rest;
    forall i, j | 0 <= i < j < |all|
      ensures all[i].id < all[j].id
    {
      assert all[j] == rest[j - 1] && rest[j - 1] in rest && (i > 0 ==> all[i] == rest[i - 1]);
    }
  }

  lemma {:induction false} RestIncreases(log: Log)
    requires Increasing(log) && log != []
    ensures Increasing(log[1..]) && log[0].id > 0 && forall x :: x in log[1..] ==> x.id > log[0].id
  {
  }

  lemma {:induction false} AfterIncreases(log: Log, cursor: nat, floor: int)
    requires Increasing(log)
    ensures Increasing(After(log, cursor, floor))
  {
    if log == [] {
    } else {
      var rest := After(log[1..], cursor, floor);
      RestIncreases(log);
      hide Increasing;
      AfterIncreases(log[1..], cursor, floor);
      forall x | x in rest
        ensures x.id > log[0].id
      {
        AfterHas(log[1..], cursor, floor, x);
      }
      FirstIncreases(log[0], rest);
      assert [] + rest == rest;
    }
  }

  // ---- What a stream owes its client ----

  /**
   The events of (start, cursor], in order and each once: only events of the log are
   written, and one that is missing is older than the floor.
   */
  ghost predicate Delivered(log: Log, start: nat, cursor: nat, written: Log, floor: int) {
    && Increasing(written)
    && (forall e :: e in written ==> e in log && start < e.id <= cursor)
    && (forall e :: e in log && start < e.id <= cursor && e.created >= floor ==> e in written)
    && cursor == (if written == [] then start else written[|written| - 1].id)
  }

  /** The log between two cursors. */
  function Segment(log: Log, start: nat, cursor: nat): Log {
    if log == [] then []
    else (if start < log[0].id <= cursor then [log[0]] else []) + Segment(log[1..], start, cursor)
  }

  lemma {:induction false} SegmentHas(log: Log, start: nat, cursor: nat, e: Entry)
    ensures e in Segment(log, start, cursor) <==> e in log && start < e.id <= cursor
  {
    if log == [] {
    } else {
      SegmentHas(log[1..], start, cursor, e);
      assert log == [log[0]] + log[1..];
    }
  }

  lemma {:induction false} SegmentIncreases(log: Log, start: nat, cursor: nat)
    requires Increasing(log)
    ensures Increasing(Segment(log, start, cursor))
  {
    if log == [] {
    } else {
      var rest := Segment(log[1..], start, cursor);
      RestIncreases(log);
      hide Increasing;
      SegmentIncreases(log[1..], start, cursor);
      forall x | x in rest
        ensures x.id > log[0].id
      {
        SegmentHas(log[1..], start, cursor, x);
      }
      FirstIncreases(log[0], rest);
      assert [] + rest == rest;
    }
  }

  /** Increasing sequences with the same entries are equal. */
  lemma {:induction false} SameEntries(a: Log, b: Log)
    requires Increasing(a) && Increasing(b) && forall e :: e in a <==> e in b
    ensures a == b
  {
    var less := (x: Entry, y: Entry) => x.id < y.id;
    assert Strict(less, a) && Strict(less, b) && Asymmetric(less, a);
    StrictIsUnique(less, a, b);
  }

  lemma {:induction false} SegmentIs(log: Log, start: nat, cursor: nat, written: Log)
    requires Increasing(log) && Increasing(written)
    requires forall e :: e in written <==> e in log && start < e.id <= cursor
    ensures written == Segment(log, start, cursor)
  {
    forall e: Entry
      ensures e in Segment(log, start, cursor) <==> e in log && start < e.id <= cursor
    {
      SegmentHas(log, start, cursor, e);
    }
    SegmentIncreases(log, start, cursor);
    SameEntries(written, Segment(log, start, cursor));
  }

  // ---- Steps that keep it ----

  lemma DeliveredNothing(log: Log, start: nat, floor: int)
    ensures Delivered(log, start, start, [], floor)
  {
  }

  /** The log grows above the cursor only. */
  lemma {:induction false} DeliveredGrows(log: Log, more: Log, start: nat, cursor: nat, written: Log, floor: int,
      newFloor: int)
    requires Increasing(log + more) && Delivered(log, start, cursor, written, floor) && floor <= newFloor
    ensures Delivered(log + more, start, cursor, written, newFloor)
  {
    forall e | e in log + more && start < e.id <= cursor && e.created >= newFloor
      ensures e in written
    {
      var last := written[|written| - 1];
      assert last in written;
      AboveTheLog(log, more, last, e);
    }
  }

  lemma AboveTheLog(log: Log, more: Log, old_: Entry, e: Entry)
    requires Increasing(log + more) && old_ in log && e in log + more && e.id <= old_.id
    ensures e in log
  {
    var i :| 0 <= i < |log| && log[i] == old_;
    var j :| 0 <= j < |log + more| && (log + more)[j] == e;
    assert (log + more)[i] == old_;
    assert j <= i;
    assert e == log[j];
  }

  /** The client may have received less than was written: any prefix keeps the promise up to its own last event. */
  lemma {:induction false} PrefixIsDelivered(log: Log, start: nat, cursor: nat, written: Log, floor: int, k: nat)
    requires Delivered(log, start, cursor, written, floor) && k <= |written|
    ensures Delivered(log, start, if k == 0 then start else written[k - 1].id, written[..k], floor)
  {
    if k > 0 {
      var received, end := written[..k], written[k - 1].id;
      forall e | e in received
        ensures e in log && start < e.id <= end
      {
        var i :| 0 <= i < k && written[i] == e;
        assert written[i] in written && (i < k - 1 ==> written[i].id < end);
      }
      forall e | e in log && start < e.id <= end && e.created >= floor
        ensures e in received
      {
        assert written[k - 1] in written;
      }
    }
  }

  /** Two stretches that meet are one stretch. */
  lemma {:induction false} DeliveredJoin(log: Log, start: nat, middle: nat, cursor: nat, a: Log, b: Log, floor: int)
    requires Delivered(log, start, middle, a, floor) && Delivered(log, middle, cursor, b, floor)
    ensures Delivered(log, start, cursor, a + b, floor)
  {
    assert a != [] ==> a[|a| - 1] in a;
    assert b != [] ==> b[|b| - 1] in b;
    assert b != [] ==> (a + b)[|a + b| - 1] == b[|b| - 1];
    assert b == [] ==> a + b == a;
  }

  lemma {:induction false} RowsAreDelivered(log: Log, cursor: nat, floor: int)
    requires Increasing(log)
    ensures var rows := After(log, cursor, floor);
            Delivered(log, cursor, if rows == [] then cursor else rows[|rows| - 1].id, rows, floor)
  {
    var rows := After(log, cursor, floor);
    AfterIncreases(log, cursor, floor);
    forall e: Entry
      ensures e in rows <==> e in log && e.id > cursor && e.created >= floor
    {
      AfterHas(log, cursor, floor, e);
    }
    forall e | e in rows
      ensures e.id <= rows[|rows| - 1].id
    {
      var i :| 0 <= i < |rows| && rows[i] == e;
    }
  }

  /** Writing the next events of a read keeps the promise after each of them. */
  lemma {:induction false} DeliveredBatch(log: Log, start: nat, cursor: nat, written: Log, floor: int,
      seenFrom: int, k: nat)
    requires Increasing(log) && Delivered(log, start, cursor, written, floor) && seenFrom <= floor
    requires k <= |After(log, cursor, seenFrom)|
    ensures var rows := After(log, cursor, seenFrom);
            Delivered(log, start, if k == 0 then cursor else rows[k - 1].id, written + rows[..k], floor)
  {
    var rows := After(log, cursor, seenFrom);
    var last := if rows == [] then cursor else rows[|rows| - 1].id;
    var end := if k == 0 then cursor else rows[k - 1].id;
    RowsAreDelivered(log, cursor, seenFrom);
    PrefixIsDelivered(log, cursor, last, rows, seenFrom, k);
    assert Delivered(log, cursor, end, rows[..k], floor);
    DeliveredJoin(log, start, cursor, end, written, rows[..k], floor);
  }

  // ---- When nothing is passed over ----

  /** From the start, or for a start at zero from the first event written, nothing is missing. */
  ghost predicate Gapless(log: Log, start: nat, cursor: nat, written: Log) {
    forall e ::
      e in log && start < e.id <= cursor && (start > 0 || (written != [] && e.id >= written[0].id)) ==> e in written
  }

  /** In a steady log whatever lies between two retained events is retained. */
  lemma {:induction false} SteadyBetween(log: Log, a: Entry, e: Entry, c: Entry, floor: int)
    requires Increasing(log) && Steady(log) && a in log && e in log && c in log && a.id <= e.id <= c.id
    requires floor <= a.created && floor <= c.created
    ensures floor <= e.created
  {
    var i :| 0 <= i < |log| && log[i] == a;
    var j :| 0 <= j < |log| && log[j] == e;
    var k :| 0 <= k < |log| && log[k] == c;
    assert i <= j <= k;
  }

  lemma {:induction false} GaplessBatch(log: Log, start: nat, cursor: nat, written: Log, floor: int, seenFrom: int,
      k: nat)
    requires Increasing(log) && Steady(log)
    requires Delivered(log, start, cursor, written, floor) && Gapless(log, start, cursor, written)
    requires cursor > 0 ==> Retained(log, cursor, seenFrom)
    requires k <= |After(log, cursor, seenFrom)|
    ensures var rows := After(log, cursor, seenFrom);
            Gapless(log, start, if k == 0 then cursor else rows[k - 1].id, written + rows[..k])
  {
    var rows := After(log, cursor, seenFrom);
    assert written != [] ==> written[0] in written;
    if k == 0 {
      assert written + rows[..0] == written;
    } else {
      AfterIncreases(log, cursor, seenFrom);
      var end, all := rows[k - 1].id, written + rows[..k];
      assert rows[0] in rows && rows[k - 1] in rows;
      AfterHas(log, cursor, seenFrom, rows[0]);
      AfterHas(log, cursor, seenFrom, rows[k - 1]);
      forall e | e in log && start < e.id <= end && (start > 0 || e.id >= all[0].id)
        ensures e in all
      {
        if e.id > cursor {
          var first := rows[0];
          if cursor > 0 {
            var i :| 0 <= i < |log| && log[i].id == cursor && log[i].created >= seenFrom;
            first := log[i];
          } else {
            assert all[0] == rows[0];
          }
          SteadyBetween(log, first, e, rows[k - 1], seenFrom);
          AfterHas(log, cursor, seenFrom, e);
        }
      }
    }
  }

  lemma {:induction false} SteadyPart(log: Log, more: Log)
    requires Steady(log + more)
    ensures Steady(log)
  {
    var all := log + more;
    forall i, j, k | 0 <= i < j < k < |log|
      ensures log[j].created >= log[i].created || log[j].created >= log[k].created
    {
      assert all[i] == log[i] && all[j] == log[j] && all[k] == log[k];
    }
  }

  lemma {:induction false} GaplessGrows(log: Log, more: Log, start: nat, cursor: nat, written: Log, floor: int)
    requires Increasing(log + more) && Delivered(log, start, cursor, written, floor)
    requires Steady(log) ==> Gapless(log, start, cursor, written)
    ensures Steady(log + more) ==> Steady(log) && Gapless(log + more, start, cursor, written)
  {
    if Steady(log + more) {
      SteadyPart(log, more);
      forall e |
        e in log + more && start < e.id <= cursor && (start > 0 || (written != [] && e.id >= written[0].id))
        ensures e in written
      {
        var last := written[|written| - 1];
        assert last in written;
        AboveTheLog(log, more, last, e);
      }
    }
  }

  // ---- The handler ----

  /**
   What happens around one read: events published before it, the floor it uses, whether
   it fails, how many writes reach the client before the connection breaks, whether the
   flush succeeds, and whether the wait after it ends with another read.
   */
  datatype Turn = Turn(published: Log, floor: int, broken: bool, writes: nat, flushed: bool, woken: bool)

  /** Whether the stream ends after a batch that was written. */
  predicate Ends(turn: Turn, events: Log, more: bool) {
    (events != [] && !turn.flushed) || (!more && !turn.woken)
  }

  datatype Ending = Ending(log: Log, cursor: nat, sent: Log, reset: bool)

  /** What a stream does over a script of turns. */
  function Session(log: Log, cursor: nat, turns: seq<Turn>): Ending
    decreases |turns|
  {
    if turns == [] then Ending(log, cursor, [], false)
    else
      var turn := turns[0];
      var now := log + turn.published;
      if turn.broken then Ending(now, cursor, [], false)
      else
        match Replay(now, cursor, turn.floor, REPLAY_LIMIT)
        case Reset => Ending(now, cursor, [], true)
        case Batch(events, more) =>
          var k := if turn.writes < |events| then turn.writes else |events|;
          var end := if k == 0 then cursor else events[k - 1].id;
          if k < |events| || Ends(turn, events, more) then Ending(now, end, events[..k], false)
          else Prepend(events, Session(now, end, turns[1..]))
  }

  function Prepend(sent: Log, e: Ending): Ending {
    e.(sent := sent + e.sent)
  }

  /** A stream waits only when it has written everything a read could still show. */
  lemma {:induction false} WaitsOnlyWhenDone(log: Log, cursor: nat, floor: int)
    requires Increasing(log)
    ensures var batch := Replay(log, cursor, floor, REPLAY_LIMIT);
            batch.Batch? && !batch.more ==>
              After(log, if batch.events == [] then cursor else batch.events[|batch.events| - 1].id, floor) == []
  {
    var rows := After(log, cursor, floor);
    if rows != [] && |rows| <= REPLAY_LIMIT {
      var last := rows[|rows| - 1];
      var left := After(log, last.id, floor);
      AfterIncreases(log, cursor, floor);
      assert last in rows;
      AfterHas(log, cursor, floor, last);
      if left != [] {
        assert left[0] in left;
        AfterHas(log, last.id, floor, left[0]);
        AfterHas(log, cursor, floor, left[0]);
      }
    }
  }

  /** The inner loop over a batch: the cursor follows each event that is written. */
  method WriteBatch(events: Log, before: nat, sent: Log, writes: nat) returns (cursor: nat, written: Log, ok: bool)
    ensures var k := if writes < |events| then writes else |events|;
            && written == sent + events[..k] && cursor == (if k == 0 then before else events[k - 1].id)
            && ok == (k == |events|)
  {
    cursor, written := before, sent;
    assert sent + events[..0] == sent;
    for i := 0 to |events|
      invariant i <= writes && written == sent + events[..i] && cursor == if i == 0 then before else events[i - 1].id
    {
      if i == writes {
        return cursor, written, false;
      }
      assert events[..i + 1] == events[..i] + [events[i]];
      written := written + [events[i]];
      cursor := events[i].id;
    }
    return cursor, written, true;
  }

  /** One read and what is written of it keeps the promise, at the highest floor so far. */
  lemma {:induction false} TurnKeeps(log: Log, more: Log, start: nat, cursor: nat, written: Log, floor: int,
      seenFrom: int, k: nat)
    requires Increasing(log + more) && Delivered(log, start, cursor, written, floor)
    requires Steady(log) ==> Gapless(log, start, cursor, written)
    ensures var now := log + more;
            var top := if floor < seenFrom then seenFrom else floor;
            var batch := Replay(now, cursor, seenFrom, REPLAY_LIMIT);
            && Delivered(now, start, cursor, written, top)
            && (Steady(now) ==> Gapless(now, start, cursor, written))
            && (batch.Batch? && k <= |batch.events| ==>
                  var end := if k == 0 then cursor else batch.events[k - 1].id;
                  && Delivered(now, start, end, written + batch.events[..k], top)
                  && (Steady(now) ==> Gapless(now, start, end, written + batch.events[..k])))
  {
    hide Delivered, Gapless, Steady, Increasing, Retained, After;
    var now := log + more;
    var top := if floor < seenFrom then seenFrom else floor;
    DeliveredGrows(log, more, start, cursor, written, floor, top);
    GaplessGrows(log, more, start, cursor, written, floor);
    var batch := Replay(now, cursor, seenFrom, REPLAY_LIMIT);
    var rows := After(now, cursor, seenFrom);
    if batch.Batch? && k <= |batch.events| {
      assert batch.events[..k] == rows[..k];
      DeliveredBatch(now, start, cursor, written, top, seenFrom, k);
      if Steady(now) {
        GaplessBatch(now, start, cursor, written, top, seenFrom, k);
      }
    }
  }

  lemma {:induction false} IncreasingPart(a: Log, b: Log)
    requires Increasing(a + b)
    ensures Increasing(a)
  {
    forall i, j | 0 <= i < j < |a|
      ensures a[i].id < a[j].id
    {
      assert (a + b)[i] == a[i] && (a + b)[j] == a[j];
    }
    forall i | 0 <= i < |a|
      ensures a[i].id > 0
    {
      assert (a + b)[i] == a[i];
    }
  }

  /** A floor that some read used. */
  ghost predicate FloorUsed(turns: seq<Turn>, firstFloor: int, floor: int) {
    floor == firstFloor || exists i :: 0 <= i < |turns| && turns[i].floor == floor
  }

  /** Some read found the cursor gone. */
  ghost predicate Expired(log: Log, cursor: nat, turns: seq<Turn>) {
    exists i :: 0 <= i < |turns| && !Retained(log, cursor, turns[i].floor)
  }

  /** The handler, for a client that names its last event or none. */
  method Serve(initial: Log, after: Option<nat>, firstFloor: int, turns: seq<Turn>)
    returns (log: Log, start: nat, cursor: nat, written: Log, reset: bool)
    ensures start == if after.Some? then after.value else Latest(initial, firstFloor)
    ensures Ending(log, cursor, written, reset) == Session(initial, start, turns)
  {
    hide Replay, Latest;
    start := if after.Some? then after.value else Latest(initial, firstFloor);
    log, cursor, written, reset := initial, start, [], false;
    assert turns[0..] == turns;
    for i := 0 to |turns|
      invariant Prepend(written, Session(log, cursor, turns[i..])) == Session(initial, start, turns)
      invariant !reset
    {
      var turn := turns[i];
      ghost var sent := written;
      assert turns[i..][0] == turn && turns[i..][1..] == turns[i + 1..];
      log := log + turn.published;
      if turn.broken {
        return;
      }
      var batch := Replay(log, cursor, turn.floor, REPLAY_LIMIT);
      if batch.Reset? {
        reset := true;
        return;
      }
      var ok;
      cursor, written, ok := WriteBatch(batch.events, cursor, written, turn.writes);
      assert batch.events[..|batch.events|] == batch.events;
      PrependTwice(sent, batch.events, Session(log, cursor, turns[i + 1..]));
      if !ok {
        return;
      }
      if batch.events != [] && !turn.flushed {
        return;
      }
      if !batch.more && !turn.woken {
        return;
      }
    }
  }

  /**
   However the log grows and wherever the stream ends, the client has the events after
   its start in order, each once, and misses only what was too old for some read.  It is
   told to start again only when its cursor has expired.
   */
  lemma {:induction false} SessionKeeps(log: Log, start: nat, cursor: nat, written: Log, floor: int, turns: seq<Turn>)
    returns (top: int)
    requires Increasing(Session(log, cursor, turns).log) && Delivered(log, start, cursor, written, floor)
    requires Steady(log) ==> Gapless(log, start, cursor, written)
    ensures FloorUsed(turns, floor, top)
    ensures var e := Session(log, cursor, turns);
            && Delivered(e.log, start, e.cursor, written + e.sent, top)
            && (Steady(e.log) ==> Gapless(e.log, start, e.cursor, written + e.sent))
            && (e.reset ==> e.cursor > 0 && Expired(e.log, e.cursor, turns))
    decreases |turns|
  {
    hide Delivered, Gapless, Steady, Increasing, Retained, After, Replay, FloorUsed, Expired;
    top := floor;
    FirstFloorUsed(turns, floor);
    if turns == [] {
      assert written + [] == written;
    } else {
      var turn, rest := turns[0], turns[1..];
      var now := log + turn.published;
      FirstTurn(log, cursor, turns);
      var batch := Replay(now, cursor, turn.floor, REPLAY_LIMIT);
      var k := if batch.Batch? then (if turn.writes < |batch.events| then turn.writes else |batch.events|) else 0;
      top := if floor < turn.floor then turn.floor else floor;
      TurnKeeps(log, turn.published, start, cursor, written, floor, turn.floor, k);
      FloorGrows(turns, floor, floor, 0);
      assert written + [] == written;
      if batch.Reset? && !turn.broken {
        ResetMeansExpired(now, cursor, turns, 0);
      }
      if !turn.broken && batch.Batch? && k == |batch.events| && !Ends(turn, batch.events, batch.more) {
        var end := if k == 0 then cursor else batch.events[k - 1].id;
        assert batch.events[..k] == batch.events;
        var e := Session(now, end, rest);
        var first := top;
        top := SessionKeeps(now, start, end, written + batch.events, first, rest);
        LaterTurns(turns, floor, first, top, e.log, e.cursor);
        assert written + batch.events + e.sent == written + (batch.events + e.sent);
      }
    }
  }

  /** The log only grows while a stream runs. */
  lemma {:induction false} SessionGrows(log: Log, cursor: nat, turns: seq<Turn>)
    ensures log <= Session(log, cursor, turns).log
    decreases |turns|
  {
    hide Replay;
    if turns == [] {
    } else {
      var turn := turns[0];
      var now := log + turn.published;
      var batch := Replay(now, cursor, turn.floor, REPLAY_LIMIT);
      assert log <= now;
      if batch.Batch? {
        var end := if batch.events == [] then cursor else batch.events[|batch.events| - 1].id;
        SessionGrows(now, end, turns[1..]);
      }
    }
  }

  lemma {:induction false} FirstTurn(log: Log, cursor: nat, turns: seq<Turn>)
    requires turns != [] && Increasing(Session(log, cursor, turns).log)
    ensures Increasing(log + turns[0].published)
  {
    hide Increasing, Replay;
    var turn := turns[0];
    var now := log + turn.published;
    var last := Session(log, cursor, turns).log;
    var batch := Replay(now, cursor, turn.floor, REPLAY_LIMIT);
    if batch.Batch? {
      var end := if batch.events == [] then cursor else batch.events[|batch.events| - 1].id;
      SessionGrows(now, end, turns[1..]);
    }
    assert now <= last && last == now + last[|now|..];
    IncreasingPart(now, last[|now|..]);
  }

  /** In a steady log a stream from a known event sends exactly the log up to its cursor. */
  lemma {:induction false} StreamIsTheSegment(log: Log, start: nat, turns: seq<Turn>)
    requires Increasing(Session(log, start, turns).log) && start > 0
    ensures var e := Session(log, start, turns);
            Steady(e.log) ==> e.sent == Segment(e.log, start, e.cursor)
  {
    hide Session, Delivered, Gapless, Steady, Increasing, Segment, Expired, FloorUsed;
    var e := Session(log, start, turns);
    DeliveredNothing(log, start, 0);
    NothingIsGapless(log, start);
    var top := SessionKeeps(log, start, start, [], 0, turns);
    assert [] + e.sent == e.sent;
    if Steady(e.log) {
      GaplessIsSegment(e.log, start, e.cursor, e.sent, top);
    }
  }

  lemma {:induction false} GaplessIsSegment(log: Log, start: nat, cursor: nat, written: Log, floor: int)
    requires Increasing(log) && start > 0
    requires Delivered(log, start, cursor, written, floor) && Gapless(log, start, cursor, written)
    ensures written == Segment(log, start, cursor)
  {
    SegmentIs(log, start, cursor, written);
  }

  lemma {:induction false} GaplessFromFirst(log: Log, cursor: nat, written: Log, floor: int)
    requires Increasing(log) && written != []
    requires Delivered(log, 0, cursor, written, floor) && Gapless(log, 0, cursor, written)
    ensures written[0].id > 0 && written == Segment(log, written[0].id - 1, cursor)
  {
    assert written[0] in written;
    forall e | e in written
      ensures e.id >= written[0].id
    {
      var i :| 0 <= i < |written| && written[i] == e;
    }
    SegmentIs(log, written[0].id - 1, cursor, written);
  }

  /** In a steady log a stream from zero sends exactly the log from its first event up to its cursor. */
  lemma {:induction false} StreamFromNothing(log: Log, turns: seq<Turn>)
    requires Increasing(Session(log, 0, turns).log)
    ensures var e := Session(log, 0, turns);
            Steady(e.log) && e.sent != [] ==>
              e.sent[0].id > 0 && e.sent == Segment(e.log, e.sent[0].id - 1, e.cursor)
  {
    hide Session, Delivered, Gapless, Steady, Increasing, Segment, Expired, FloorUsed;
    var e := Session(log, 0, turns);
    DeliveredNothing(log, 0, 0);
    NothingIsGapless(log, 0);
    var top := SessionKeeps(log, 0, 0, [], 0, turns);
    assert [] + e.sent == e.sent;
    if Steady(e.log) && e.sent != [] {
      GaplessFromFirst(e.log, e.cursor, e.sent, top);
    }
  }

  // ---- The exact condition ----

  /** The last identity of a batch, or the cursor it was read at. */
  function EndOf(cursor: nat, events: Log): nat {
    if events == [] then cursor else events[|events| - 1].id
  }

  /** A read shows exactly the log from its cursor to its last event, or tells the client to start again. */
  ghost predicate ReadIsWhole(log: Log, cursor: nat, floor: int) {
    var batch := Replay(log, cursor, floor, REPLAY_LIMIT);
    batch.Batch? ==> batch.events == Segment(log, cursor, EndOf(cursor, batch.events))
  }

  lemma {:induction false} SteadyReadIsWhole(log: Log, cursor: nat, floor: int)
    requires Increasing(log) && Steady(log) && cursor > 0
    ensures ReadIsWhole(log, cursor, floor)
  {
    hide Delivered, Gapless, Steady, Increasing, Segment, Retained, After;
    var batch, rows := Replay(log, cursor, floor, REPLAY_LIMIT), After(log, cursor, floor);
    if batch.Batch? {
      var k := |batch.events|;
      assert batch.events == rows[..k] && [] + rows[..k] == rows[..k];
      DeliveredNothing(log, cursor, floor);
      NothingIsGapless(log, cursor);
      DeliveredBatch(log, cursor, cursor, [], floor, floor, k);
      GaplessBatch(log, cursor, cursor, [], floor, floor, k);
      GaplessIsSegment(log, cursor, EndOf(cursor, batch.events), batch.events, floor);
    }
  }

  /** The last event before `j` that a floor retains. */
  lemma {:induction false} LastRetained(log: Log, i: nat, j: nat, floor: int) returns (m: nat)
    requires i < j <= |log| && log[i].created >= floor
    ensures m < j && log[m].created >= floor && forall n :: m < n < j ==> log[n].created < floor
  {
    m := j - 1;
    if log[m].created < floor {
      m := LastRetained(log, i, j - 1, floor);
    }
  }

  /** A dip makes some read pass over its event without telling the client. */
  lemma {:induction false} DipIsPassedOver(log: Log, i: nat, j: nat, k: nat) returns (cursor: nat, floor: int)
    requires Increasing(log) && i < j < k < |log|
    requires log[j].created < log[i].created && log[j].created < log[k].created
    ensures cursor > 0 && !ReadIsWhole(log, cursor, floor)
    ensures var batch := Replay(log, cursor, floor, REPLAY_LIMIT);
            && batch.Batch? && batch.events != []
            && cursor < log[j].id < batch.events[0].id && log[j] !in batch.events
  {
    floor := log[j].created + 1;
    var m := LastRetained(log, i, j, floor);
    cursor := log[m].id;
    var rows := After(log, cursor, floor);
    AfterHas(log, cursor, floor, log[k]);
    AfterHas(log, cursor, floor, log[j]);
    assert log[k] in rows && log[j] !in rows;
    assert Retained(log, cursor, floor);
    AfterIncreases(log, cursor, floor);
    var first := rows[0];
    assert first in rows;
    AfterHas(log, cursor, floor, first);
    assert first.id > log[j].id by {
      var n :| 0 <= n < |log| && log[n] == first;
      assert n > m && n >= j;
    }
    var events := Replay(log, cursor, floor, REPLAY_LIMIT).events;
    assert events != [] && events[0] == first && events <= rows;
    assert EndOf(cursor, events) >= first.id;
    SegmentHas(log, cursor, EndOf(cursor, events), log[j]);
    assert log[j] !in events;
  }

  /**
   Every read from a known event is whole if and only if the log is steady: no event is
   older than both an event before it and an event after it.
   */
  lemma {:induction false} WholeExactlyWhenSteady(log: Log)
    requires Increasing(log)
    ensures (forall cursor: nat, floor :: cursor > 0 ==> ReadIsWhole(log, cursor, floor)) <==> Steady(log)
  {
    hide ReadIsWhole, Increasing;
    if Steady(log) {
      forall cursor: nat, floor | cursor > 0
        ensures ReadIsWhole(log, cursor, floor)
      {
        SteadyReadIsWhole(log, cursor, floor);
      }
    } else {
      var i, j, k :| 0 <= i < j < k < |log| && log[j].created < log[i].created && log[j].created < log[k].created;
      var cursor, floor := DipIsPassedOver(log, i, j, k);
    }
  }

  /** Every stream over a log from a known event sends its whole segment if and only if the log is steady. */
  lemma {:induction false} StreamsExactlyWhenSteady(log: Log)
    requires Increasing(log)
    ensures Steady(log) <==>
            forall start: nat, turns :: start > 0 && Session(log, start, turns).log == log ==>
              StreamIsWhole(log, start, turns)
  {
    hide Increasing, Steady, Session, ReadIsWhole, Segment;
    if Steady(log) {
      forall start: nat, turns | start > 0 && Session(log, start, turns).log == log
        ensures StreamIsWhole(log, start, turns)
      {
        StreamIsTheSegment(log, start, turns);
      }
    } else {
      WholeExactlyWhenSteady(log);
      var start: nat, floor :| start > 0 && !ReadIsWhole(log, start, floor);
      OneRead(log, start, floor);
    }
  }

  ghost predicate StreamIsWhole(log: Log, start: nat, turns: seq<Turn>) {
    var e := Session(log, start, turns);
    e.sent == Segment(log, start, e.cursor)
  }

  /** A stream that ends after its first batch sends that batch. */
  lemma {:induction false} OneRead(log: Log, start: nat, floor: int)
    ensures var turns := [Turn([], floor, false, REPLAY_LIMIT, false, false)];
            Session(log, start, turns).log == log && (StreamIsWhole(log, start, turns) ==>
              ReadIsWhole(log, start, floor))
  {
    hide After, Segment, Retained;
    var turns := [Turn([], floor, false, REPLAY_LIMIT, false, false)];
    assert log + [] == log;
    var batch := Replay(log, start, floor, REPLAY_LIMIT);
    if batch.Batch? {
      assert batch.events[..|batch.events|] == batch.events;
    }
  }

  lemma {:induction false} LaterTurns(turns: seq<Turn>, floor: int, first: int, top: int, log: Log, cursor: nat)
    requires turns != [] && FloorUsed(turns, floor, first) && FloorUsed(turns[1..], first, top)
    ensures FloorUsed(turns, floor, top)
    ensures Expired(log, cursor, turns[1..]) ==> Expired(log, cursor, turns)
  {
    var rest := turns[1..];
    if Expired(log, cursor, rest) {
      var i :| 0 <= i < |rest| && !Retained(log, cursor, rest[i].floor);
      assert turns[i + 1] == rest[i];
    }
    if top != first {
      var i :| 0 <= i < |rest| && rest[i].floor == top;
      assert turns[i + 1] == rest[i];
    }
  }

  lemma PrependTwice(a: Log, b: Log, e: Ending)
    ensures Prepend(a, Prepend(b, e)) == Prepend(a + b, e)
  {
    assert a + (b + e.sent) == a + b + e.sent;
  }

  lemma NothingIsGapless(log: Log, start: nat)
    ensures Gapless(log, start, start, [])
  {
  }

  lemma ResetMeansExpired(log: Log, cursor: nat, turns: seq<Turn>, i: nat)
    requires i < |turns| && Replay(log, cursor, turns[i].floor, REPLAY_LIMIT).Reset?
    ensures cursor > 0 && Expired(log, cursor, turns)
  {
  }

  lemma FirstFloorUsed(turns: seq<Turn>, firstFloor: int)
    ensures FloorUsed(turns, firstFloor, firstFloor)
  {
  }

  lemma FloorGrows(turns: seq<Turn>, firstFloor: int, floor: int, i: nat)
    requires i < |turns| && FloorUsed(turns, firstFloor, floor)
    ensures FloorUsed(turns, firstFloor, turns[i].floor)
  {
  }
}

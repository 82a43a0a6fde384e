/** What a read shows exactly, and how far a stream gets that nothing disturbs. */
module LiveProgress {
  import opened Wrappers
  import opened LiveReplay

  /** A read: the next hundred events above the cursor that are still shown, or a reset if the cursor's own is not. */
  lemma {:induction false} ReadMeans(log: Log, cursor: nat, floor: int)
    requires Increasing(log)
    ensures var batch := Replay(log, cursor, floor, REPLAY_LIMIT);
            && (batch.Reset? <==> cursor > 0 && forall e :: e in log && e.id == cursor ==> e.created < floor)
            && (batch.Batch? ==>
                  && |batch.events| <= 100 && Increasing(batch.events)
                  && (forall e :: e in batch.events ==> e in log && e.id > cursor && e.created >= floor)
                  && (forall e :: e in log && e.id > cursor && e.created >= floor && e !in batch.events ==>
                        batch.more && |batch.events| == 100 && forall x :: x in batch.events ==> x.id < e.id)
                  && (batch.more ==> exists e :: e in log && e.id > cursor && e.created >= floor && e !in batch.events))
  {
    var rows := After(log, cursor, floor);
    forall e: Entry
      ensures e in rows <==> e in log && e.id > cursor && e.created >= floor
    {
      AfterHas(log, cursor, floor, e);
    }
    AfterIncreases(log, cursor, floor);
    var batch := Replay(log, cursor, floor, REPLAY_LIMIT);
    hide After;
    if batch.Batch? {
      assert batch.events == rows[..|batch.events|] && (batch.more <==> |rows| > 100);
      FirstRows(rows, |batch.events|);
      assert batch.more ==> rows[100] in rows;
    }
    hide Increasing;
  }

  lemma {:induction false} FirstRows(rows: Log, k: nat)
    requires Increasing(rows) && k <= |rows|
    ensures Increasing(rows[..k]) && forall e :: e in rows[..k] ==> e in rows
    ensures forall e :: e in rows && e !in rows[..k] ==> k < |rows| && forall x :: x in rows[..k] ==> x.id < e.id
    ensures k < |rows| ==> rows[k] !in rows[..k]
  {
    forall e | e in rows && e !in rows[..k]
      ensures k < |rows| && forall x :: x in rows[..k] ==> x.id < e.id
    {
      var i :| 0 <= i < |rows| && rows[i] == e;
      assert i >= k;
    }
  }

  /** A turn in which nothing is published, nothing fails and the stream goes on. */
  predicate Undisturbed(turn: Turn, floor: int) {
    turn.published == [] && turn.floor == floor && !turn.broken && turn.writes >= 100 && turn.flushed && turn.woken
  }

  function Least(a: nat, b: nat): nat {
    if a < b then a else b
  }

  /** As much of a log as `n` full batches carry. */
  function Batches(rows: Log, n: nat): Log {
    rows[..Least(100 * n, |rows|)]
  }

  lemma {:induction false} AfterSame(log: Log, a: nat, b: nat, floor: int)
    requires forall e :: e in log ==> e.id > a && e.id > b
    ensures After(log, a, floor) == After(log, b, floor)
  {
    if log == [] {
    } else {
      assert log[0] in log;
      AfterSame(log[1..], a, b, floor);
    }
  }

  /** A read from an event that a read shows gives what comes after it. */
  lemma {:induction false} AfterFirst(log: Log, cursor: nat, floor: int, k: nat)
    requires Increasing(log) && 0 < k <= |After(log, cursor, floor)|
    ensures var rows := After(log, cursor, floor);
            After(log, rows[k - 1].id, floor) == rows[k..] && rows[k - 1] in log && rows[k - 1].id > cursor
            && rows[k - 1].created >= floor
  {
    var rows, rest := After(log, cursor, floor), After(log[1..], cursor, floor);
    RestIncreases(log);
    hide Increasing;
    if log[0].id > cursor && log[0].created >= floor {
      assert rows == [log[0]] + rest;
      if k == 1 {
        AfterSame(log[1..], log[0].id, cursor, floor);
      } else {
        AfterFirst(log[1..], cursor, floor, k - 1);
        assert rows[k - 1] == rest[k - 2] && rows[k..] == rest[k - 1..];
      }
    } else {
      assert rows == rest;
      AfterFirst(log[1..], cursor, floor, k);
    }
  }

  /** The stream has sent all that fits into its turns, and goes on from there. */
  ghost predicate CaughtUp(rows: Log, log: Log, cursor: nat, n: nat, r: Ending) {
    r.log == log && !r.reset && r.sent == Batches(rows, n) && r.cursor == EndOf(cursor, r.sent)
  }

  /**
   A stream that nothing disturbs sends a hundred events a turn until it has sent all that
   are shown above its cursor, and does not end on its own.
   */
  lemma {:induction false} StreamCatchesUp(log: Log, cursor: nat, floor: int, turns: seq<Turn>)
    requires Increasing(log) && (cursor == 0 || Retained(log, cursor, floor))
    requires forall i :: 0 <= i < |turns| ==> Undisturbed(turns[i], floor)
    ensures CaughtUp(After(log, cursor, floor), log, cursor, |turns|, Session(log, cursor, turns))
    decreases |turns|
  {
    hide After, Session, Increasing, Retained, Undisturbed, Batches, EndOf, CaughtUp, Prepend;
    var rows := After(log, cursor, floor);
    if turns == [] {
      NoTurns(rows, log, cursor);
    } else {
      var sent := Batches(rows, 1);
      var end := EndOf(cursor, sent);
      OneTurn(log, cursor, floor, turns);
      StreamCatchesUp(log, end, floor, turns[1..]);
      OneMore(rows, log, cursor, |turns| - 1, Session(log, end, turns[1..]));
    }
  }

  lemma NoTurns(rows: Log, log: Log, cursor: nat)
    ensures CaughtUp(rows, log, cursor, 0, Session(log, cursor, []))
  {
  }

  lemma {:induction false} OneMore(rows: Log, log: Log, cursor: nat, n: nat, r: Ending)
    requires var sent := Batches(rows, 1); CaughtUp(rows[|sent|..], log, EndOf(cursor, sent), n, r)
    ensures CaughtUp(rows, log, cursor, n + 1, Prepend(Batches(rows, 1), r))
  {
    hide Batches, EndOf;
    TakeMore(rows, n);
    EndsJoin(cursor, Batches(rows, 1), r.sent);
  }

  lemma TakeMore(rows: Log, n: nat)
    ensures var first := Batches(rows, 1); first + Batches(rows[|first|..], n) == Batches(rows, n + 1)
  {
  }

  lemma EndsJoin(cursor: nat, a: Log, b: Log)
    ensures EndOf(EndOf(cursor, a), b) == EndOf(cursor, a + b)
  {
    assert b == [] ==> a + b == a;
  }

  lemma {:induction false} OneTurn(log: Log, cursor: nat, floor: int, turns: seq<Turn>)
    requires turns != [] && Undisturbed(turns[0], floor) && Increasing(log)
    requires cursor == 0 || Retained(log, cursor, floor)
    ensures var rows := After(log, cursor, floor);
            var sent := Batches(rows, 1);
            var end := EndOf(cursor, sent);
            && Session(log, cursor, turns) == Prepend(sent, Session(log, end, turns[1..]))
            && After(log, end, floor) == rows[|sent|..] && (end == 0 || Retained(log, end, floor))
  {
    hide After, Increasing, Batches, Session, Replay, Retained, Prepend;
    var rows := After(log, cursor, floor);
    var sent := Batches(rows, 1);
    ReadsBatch(log, cursor, floor);
    SendsBatch(log, cursor, turns, sent, |rows| > 100);
    if sent != [] {
      AfterFirst(log, cursor, floor, |sent|);
      StaysRetained(log, rows[|sent| - 1], floor);
    }
    assert sent == [] ==> rows[|sent|..] == rows;
  }

  lemma StaysRetained(log: Log, e: Entry, floor: int)
    requires e in log && e.created >= floor
    ensures Retained(log, e.id, floor)
  {
    var i :| 0 <= i < |log| && log[i] == e;
  }

  lemma {:induction false} SendsBatch(log: Log, cursor: nat, turns: seq<Turn>, sent: Log, more: bool)
    requires turns != [] && Undisturbed(turns[0], turns[0].floor) && |sent| <= 100
    requires Replay(log, cursor, turns[0].floor, REPLAY_LIMIT) == Batch(sent, more)
    ensures Session(log, cursor, turns) == Prepend(sent, Session(log, EndOf(cursor, sent), turns[1..]))
  {
    hide Replay;
    assert log + turns[0].published == log;
  }

  lemma ReadsBatch(log: Log, cursor: nat, floor: int)
    requires cursor == 0 || Retained(log, cursor, floor)
    ensures var rows := After(log, cursor, floor);
            && Replay(log, cursor, floor, REPLAY_LIMIT) == Batch(Batches(rows, 1), |rows| > 100)
            && |Batches(rows, 1)| <= 100 && Batches(rows, 1) <= rows
  {
    hide After, Retained;
  }
}

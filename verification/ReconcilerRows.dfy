/**
 What a run of the reconciler writes into each row of the occurrence table, and which
 schedules it may touch at all.
 */
module ReconcilerRows {
  import opened Wrappers
  import opened Reconciler
  import opened ReconcilerRuns
  import Schedule

  /** A row of the table before and after a run over schedule `id`: unchanged if it was there, else new and fitting. */
  ghost predicate Written(before: Ledger, after: Ledger, rows: map<Id, Row>, ids: seq<Id>, now: int, key: Key) {
    && (key in before.occurrences ==> key in after.occurrences && after.occurrences[key] == before.occurrences[key])
    && (key in after.occurrences && key !in before.occurrences ==>
          && key.0 in ids && key.0 in rows && key.1 <= now
          && Fits(rows[key.0], key.1, now, after.occurrences[key].state)
          && Starts(key.1, now, after.occurrences[key]))
  }

  lemma {:induction false} AdvanceWrites(tables: Tables, id: Id, now: int, key: Key)
    requires id in tables.rows && JobsMatch(tables.ledger) && Advance(tables, id, now).Ok?
    ensures Written(tables.ledger, Advance(tables, id, now).value.ledger, tables.rows, [id], now, key)
    ensures JobsMatch(Advance(tables, id, now).value.ledger)
  {
    hide CatchUpFrom, SettleAll, Fits, Starts, Schedule.Next;
    var row, after := tables.rows[id], Advance(tables, id, now).value.ledger;
    var chain := CatchUpSettlesStretch(tables.ledger, id, row, row.nextDue, now, false, MAXIMUM_OCCURRENCES_PER_RUN);
    var settled := chain[..|chain| - 1];
    SettleAllKeepsJobs(tables.ledger, id, row, settled, now);
    SettledKeys(tables.ledger, id, row, settled, now, key);
    if key.1 in settled {
      var i :| 0 <= i < |settled| && settled[i] == key.1;
      assert chain[i] <= now;
    }
    if key in after.occurrences {
      SettledRow(tables.ledger, id, row, settled, now, key);
    }
  }

  lemma {:induction false} AdvanceAllWrites(tables: Tables, ids: seq<Id>, now: int, key: Key)
    requires forall i :: 0 <= i < |ids| ==> ids[i] in tables.rows
    requires forall i, j :: 0 <= i < j < |ids| ==> ids[i] != ids[j]
    requires JobsMatch(tables.ledger) && AdvanceAll(tables, ids, now).Ok?
    ensures Written(tables.ledger, AdvanceAll(tables, ids, now).value.ledger, tables.rows, ids, now, key)
    decreases |ids|
  {
    hide CatchUpFrom, Fits, Starts, JobsMatch;
    if ids == [] {
    } else {
      var one, rest := Advance(tables, ids[0], now).value, ids[1..];
      AdvanceWrites(tables, ids[0], now, key);
      assert forall i :: 0 <= i < |rest| ==> rest[i] == ids[i + 1] && rest[i] != ids[0];
      AdvanceAllWrites(one, rest, now, key);
      assert ids == [ids[0]] + rest;
    }
  }

  /**
   What a committed run writes: every row that was there stays, and every new one belongs
   to a claimed schedule, is due, and is skipped, enqueued in time, enqueued late or missed
   as the schedule's skip request, policy and grace say.
   */
  lemma {:induction false} RunWrites(tables: Tables, now: int, ids: seq<Id>, key: Key)
    requires JobsMatch(tables.ledger) && Claim(ResumeAll(tables.rows, now), now, ids)
    ensures Written(tables.ledger, Apply(tables, Reconcile(now, ids)).ledger, tables.rows, ids, now, key)
  {
    hide AdvanceAll, Starts, JobsMatch;
    if Committed(tables, now, ids).Ok? {
      AdvanceAllWrites(Tables(ResumeAll(tables.rows, now), tables.ledger), ids, now, key);
    }
  }

  // ---- Schedules ----

  lemma {:induction false} AdvanceMoves(tables: Tables, ids: seq<Id>, id: Id, now: int)
    requires forall i :: 0 <= i < |ids| ==> ids[i] in tables.rows
    requires forall i, j :: 0 <= i < j < |ids| ==> ids[i] != ids[j]
    requires id in ids && AdvanceAll(tables, ids, now).Ok?
    ensures var before, after := tables.rows[id], AdvanceAll(tables, ids, now).value.rows;
            && id in after && (before.nextDue <= now ==> after[id].nextDue > before.nextDue)
            && after[id] == before.(nextDue := after[id].nextDue, skipNext := after[id].skipNext,
                                    version := before.version + 1)
    decreases |ids|
  {
    hide CatchUpFrom;
    var rest := ids[1..];
    assert ids == [ids[0]] + rest;
    assert forall i :: 0 <= i < |rest| ==> rest[i] == ids[i + 1] && rest[i] != ids[0];
    var one := Advance(tables, ids[0], now).value;
    if ids[0] == id {
      assert id !in rest;
      OneMoves(tables, id, now);
      BatchLeavesOthers(one, rest, id, now);
    } else {
      AdvanceMoves(one, rest, id, now);
    }
  }

  lemma {:induction false} OneMoves(tables: Tables, id: Id, now: int)
    requires id in tables.rows && Advance(tables, id, now).Ok?
    ensures var row, after := tables.rows[id], Advance(tables, id, now).value.rows[id];
            && (row.nextDue <= now ==> after.nextDue > row.nextDue)
            && after == row.(nextDue := after.nextDue, skipNext := after.skipNext, version := row.version + 1)
  {
    hide CatchUpFrom, SettleAll, Schedule.Next;
    var row := tables.rows[id];
    var chain := CatchUpSettlesStretch(tables.ledger, id, row, row.nextDue, now, false, MAXIMUM_OCCURRENCES_PER_RUN);
    if |chain| > 1 {
      ChainIncreases(row, chain, 0, |chain| - 1);
    }
  }

  /**
   What a committed run does to a claimed schedule: it waits for a later occurrence, a pause
   is over, every change is counted, and nothing else is touched but the skip request.
   */
  lemma {:induction false} ClaimedRowMoves(tables: Tables, now: int, ids: seq<Id>, id: Id)
    requires Claim(ResumeAll(tables.rows, now), now, ids) && id in ids && Committed(tables, now, ids).Ok?
    ensures var before, after := tables.rows[id], Apply(tables, Reconcile(now, ids)).rows;
            && id in after && after[id].nextDue > before.nextDue
            && after[id] == before.(
                 nextDue := after[id].nextDue, skipNext := after[id].skipNext, pausedAt := None,
                 pausedUntil := if before.pausedAt.Some? then None else before.pausedUntil,
                 version := before.version + if before.pausedAt.Some? then 2 else 1)
  {
    hide AdvanceAll;
    AdvanceMoves(Tables(ResumeAll(tables.rows, now), tables.ledger), ids, id, now);
  }

  // ---- Pauses ----

  /** When a schedule may be claimed: not disabled, due, and not paused or paused until a time that has come. */
  lemma ClaimableExactly(row: Row, now: int)
    ensures Resume(row, now).Due(now) <==>
            && row.enabled && row.nextDue <= now
            && (row.pausedAt.None? || (row.pausedUntil.Some? && row.pausedUntil.value <= now))
  {
  }

  lemma {:induction false} BatchLeavesOthers(tables: Tables, ids: seq<Id>, id: Id, now: int)
    requires forall i :: 0 <= i < |ids| ==> ids[i] in tables.rows
    requires id in tables.rows && id !in ids && AdvanceAll(tables, ids, now).Ok?
    ensures var after := AdvanceAll(tables, ids, now).value; id in after.rows && after.rows[id] == tables.rows[id]
    decreases |ids|
  {
    hide CatchUpFrom;
    if ids == [] {
    } else {
      assert ids[0] in ids;
      BatchLeavesOthers(Advance(tables, ids[0], now).value, ids[1..], id, now);
    }
  }

  /** A disabled schedule, and one whose pause has not ended, is as it was after a run and has no new row. */
  lemma {:induction false} PausedIsLeftAlone(tables: Tables, now: int, ids: seq<Id>, id: Id, t: int)
    requires JobsMatch(tables.ledger) && Claim(ResumeAll(tables.rows, now), now, ids) && id in tables.rows
    requires var row := tables.rows[id];
             !row.enabled || (row.pausedAt.Some? && (row.pausedUntil.None? || now < row.pausedUntil.value))
    ensures var after := Apply(tables, Reconcile(now, ids));
            && id in after.rows && after.rows[id] == tables.rows[id]
            && ((id, t) in after.ledger.occurrences <==> (id, t) in tables.ledger.occurrences)
  {
    hide AdvanceAll, JobsMatch;
    ClaimableExactly(tables.rows[id], now);
    assert id !in ids;
    RunWrites(tables, now, ids, (id, t));
    if Committed(tables, now, ids).Ok? {
      BatchLeavesOthers(Tables(ResumeAll(tables.rows, now), tables.ledger), ids, id, now);
    }
  }
}

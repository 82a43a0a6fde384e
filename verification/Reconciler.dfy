/**
 The catch-up loop of `internal/scheduler/reconciler.go`.

 A run locks, resumes elapsed pauses, claims due schedules and writes one occurrence
 row per missed instant, all in one serializable transaction.  The tables are maps;
 a run that reports an error leaves them as they were.
 */
module Reconciler {
  import opened Wrappers
  import Schedule

  type Id = string
  type Key = (Id, int)

  const MAXIMUM_OCCURRENCES_PER_RUN := 100
  const BATCH_SIZE := 100

  datatype Row = Row(
    zone: Schedule.Zone,
    definition: Schedule.Definition,
    catchUp: bool,
    grace: int,
    enabled: bool,
    pausedAt: Option<int>,
    pausedUntil: Option<int>,
    nextDue: int,
    skipNext: Option<int>,
    version: int)
  {
    ghost predicate Sound() {
      definition.Valid() && Schedule.Bounded(zone)
    }

    ghost function Next(t: int): Result<int, Schedule.Error> {
      Schedule.Next(zone, definition, t)
    }

    predicate Due(now: int) {
      enabled && pausedAt.None? && nextDue <= now
    }
  }

  datatype State = Due | Enqueued | Skipped | Missed

  datatype Trigger = Scheduled | CatchUp

  datatype Occurrence = Occurrence(state: State, trigger: Trigger, job: Option<nat>)

  /** The occurrence and job tables.  A job is identified by its position. */
  datatype Ledger = Ledger(occurrences: map<Key, Occurrence>, jobs: seq<Key>)

  datatype Tables = Tables(rows: map<Id, Row>, ledger: Ledger)

  datatype Verdict = Verdict(state: State, trigger: Trigger, enqueue: bool, skipped: bool)

  /** `classifyOccurrence`. */
  function Classify(row: Row, scheduledFor: int, now: int): Verdict {
    if row.skipNext == Some(scheduledFor) then Verdict(Skipped, Scheduled, false, true)
    else if now <= scheduledFor then Verdict(Due, Scheduled, true, false)
    else if row.catchUp && now - scheduledFor <= row.grace then Verdict(Due, CatchUp, true, false)
    else Verdict(Missed, Scheduled, false, false)
  }

  /** In which state an occurrence due at `t` is left by a run at `now`. */
  predicate Fits(row: Row, t: int, now: int, state: State) {
    && (state == Skipped <==> row.skipNext == Some(t))
    && (state == Enqueued <==> row.skipNext != Some(t) && (now <= t || (row.catchUp && now - t <= row.grace)))
    && (state == Missed <==> row.skipNext != Some(t) && t < now && (!row.catchUp || now - t > row.grace))
    && state != Due
  }

  /** What a new row says besides: whether it makes up for a late start, and that it has a job if it is enqueued. */
  predicate Starts(t: int, now: int, o: Occurrence) {
    && (o.trigger == CatchUp <==> o.state == Enqueued && t < now)
    && (o.job.Some? <==> o.state == Enqueued)
  }

  /** The job the queue holds for an occurrence, or the number a new one gets; the queue holds a job once. */
  function JobNumber(jobs: seq<Key>, key: Key): (n: nat)
    ensures n <= |jobs| && (n < |jobs| ==> jobs[n] == key) && forall i :: 0 <= i < n ==> jobs[i] != key
  {
    if jobs == [] || jobs[0] == key then 0 else 1 + JobNumber(jobs[1..], key)
  }

  /** `reconcileOccurrence` when nothing fails. */
  function Settle(ledger: Ledger, id: Id, row: Row, t: int, now: int): Ledger {
    var key, verdict := (id, t), Classify(row, t, now);
    var found := if key in ledger.occurrences then ledger.occurrences[key] else Occurrence(verdict.state,
      verdict.trigger, None);
    if found.state != Due then ledger.(occurrences := ledger.occurrences[key := found])
    else if !verdict.enqueue then
      ledger.(occurrences := ledger.occurrences[key := found.(state := verdict.state, trigger := verdict.trigger)])
    else
      var n := JobNumber(ledger.jobs, key);
      Ledger(ledger.occurrences[key := found.(state := Enqueued, job := Some(n))],
             if n < |ledger.jobs| then ledger.jobs else ledger.jobs + [key])
  }

  datatype Caught = Caught(ledger: Ledger, nextDue: int, skipped: bool)

  /** The loop over one schedule, with `left` occurrences still allowed in this run. */
  ghost function CatchUpFrom(ledger: Ledger, id: Id, row: Row, t: int, now: int, skipped: bool,
      left: nat): Result<Caught, Schedule.Error>
    decreases left
  {
    if left == 0 || t > now then Ok(Caught(ledger, t, skipped))
    else
      match row.Next(t)
      case Err(e) => Err(e)
      case Ok(u) =>
        CatchUpFrom(Settle(ledger, id, row, t, now), id, row, u, now, skipped ||
          Classify(row, t, now).skipped, left - 1)
  }

  ghost function Advance(tables: Tables, id: Id, now: int): Result<Tables, Schedule.Error>
    requires id in tables.rows
  {
    var row := tables.rows[id];
    match CatchUpFrom(tables.ledger, id, row, row.nextDue, now, false, MAXIMUM_OCCURRENCES_PER_RUN)
    case Err(e) => Err(e)
    case Ok(c) =>
      Ok(Tables(tables.rows[id := row.(nextDue := c.nextDue,
                                       skipNext := if c.skipped then None else row.skipNext,
                                       version := row.version + 1)],
                c.ledger))
  }

  ghost function AdvanceAll(tables: Tables, ids: seq<Id>, now: int): Result<Tables, Schedule.Error>
    requires forall i :: 0 <= i < |ids| ==> ids[i] in tables.rows
    decreases |ids|
  {
    if ids == [] then Ok(tables)
    else
      match Advance(tables, ids[0], now)
      case Err(e) => Err(e)
      case Ok(next) => AdvanceAll(next, ids[1..], now)
  }

  /** The first statement of a run: elapsed pauses end. */
  function Resume(row: Row, now: int): Row {
    if row.enabled && row.pausedAt.Some? && row.pausedUntil.Some? && row.pausedUntil.value <= now
    then row.(pausedAt := None, pausedUntil := None, version := row.version + 1)
    else row
  }

  function ResumeAll(rows: map<Id, Row>, now: int): map<Id, Row> {
    map id | id in rows :: Resume(rows[id], now)
  }

  /** A batch the claim query can return: due rows, no row twice, at most a hundred. */
  ghost predicate Claim(rows: map<Id, Row>, now: int, ids: seq<Id>) {
    && |ids| <= BATCH_SIZE
    && (forall i :: 0 <= i < |ids| ==> ids[i] in rows && rows[ids[i]].Due(now))
    && (forall i, j :: 0 <= i < j < |ids| ==> ids[i] != ids[j])
  }

  // ---- The transaction as it executes ----

  datatype Report = Report(lockAcquired: bool, occurrencesCreated: int, jobsEnqueued: int)

  datatype Failure = EnqueueFailed | InvalidDefinition | NoNextOccurrence(cause: Schedule.Error)

  /** Why a run over claimed schedules fails: the queue, a definition, or an occurrence that cannot be found. */
  ghost predicate Explains(failure: Failure, tables: Tables, ids: seq<Id>, now: int, available: nat -> bool)
    requires forall i :: 0 <= i < |ids| ==> ids[i] in tables.rows
  {
    match failure
    case EnqueueFailed => exists n :: !available(n)
    case InvalidDefinition => exists i :: 0 <= i < |ids| && !tables.rows[ids[i]].definition.Valid()
    case NoNextOccurrence(_) => AdvanceAll(tables, ids, now).Err?
  }

  lemma NewRowFits(ledger: Ledger, id: Id, row: Row, t: int, now: int)
    ensures (id, t) in Settle(ledger, id, row, t, now).occurrences
    ensures (id, t) !in ledger.occurrences ==>
              var o := Settle(ledger, id, row, t, now).occurrences[(id, t)];
              Fits(row, t, now, o.state) && Starts(t, now, o)
  {
    hide JobNumber;
  }

  /** `reconcileOccurrence`; `available` says whether the queue accepts a job. */
  method ReconcileOccurrence(ledger: Ledger, id: Id, row: Row, t: int, now: int, available: bool)
    returns (r: Result<Ledger, Failure>, created: bool, enqueued: bool, skipped: bool)
    ensures r.Ok? ==> r.value == Settle(ledger, id, row, t, now) && skipped == Classify(row, t, now).skipped
    ensures r.Ok? ==> (skipped <==> row.skipNext == Some(t)) && (id, t) in r.value.occurrences
    ensures r.Ok? && (id, t) !in ledger.occurrences ==>
              var o := r.value.occurrences[(id, t)]; Fits(row, t, now, o.state) && Starts(t, now, o)
    ensures r.Ok? ==> |r.value.occurrences| == |ledger.occurrences| + (if created then 1 else 0)
    ensures r.Ok? ==> |r.value.jobs| == |ledger.jobs| + (if enqueued then 1 else 0)
    ensures r.Err? ==> r.error == EnqueueFailed && !available
  {
    NewRowFits(ledger, id, row, t, now);
    hide Fits, Starts;
    var verdict := Classify(row, t, now);
    var key := (id, t);
    created, enqueued, skipped := key !in ledger.occurrences, false, verdict.skipped;
    var occurrences := ledger.occurrences;
    if created {
      occurrences := occurrences[key := Occurrence(verdict.state, verdict.trigger, None)];
    }
    assert occurrences.Keys == ledger.occurrences.Keys + {key};
    var found := occurrences[key];
    if found.state != Due {
      assert occurrences == ledger.occurrences[key := found];
      return Ok(ledger.(occurrences := occurrences)), created, enqueued, skipped;
    }
    if !verdict.enqueue {
      occurrences := occurrences[key := found.(state := verdict.state, trigger := verdict.trigger)];
      assert occurrences.Keys == ledger.occurrences.Keys + {key};
      return Ok(ledger.(occurrences := occurrences)), created, enqueued, skipped;
    }
    if !available {
      return Err(EnqueueFailed), false, false, false;
    }
    var n, jobs := JobNumber(ledger.jobs, key), ledger.jobs;
    enqueued := n == |jobs|;
    if enqueued {
      jobs := jobs + [key];
    }
    occurrences := occurrences[key := found.(state := Enqueued, job := Some(n))];
    assert occurrences.Keys == ledger.occurrences.Keys + {key};
    return Ok(Ledger(occurrences, jobs)), created, enqueued, skipped;
  }

  /** The inner loop of `Reconcile`: one claimed schedule; `available` is asked once per job. */
  method CatchUpSchedule(ledger: Ledger, id: Id, row: Row, now: int, available: nat -> bool)
    returns (r: Result<Caught, Failure>, created: nat, enqueued: nat)
    requires Schedule.Bounded(row.zone)
    ensures r.Ok? ==>
              && CatchUpFrom(ledger, id, row, row.nextDue, now, false, MAXIMUM_OCCURRENCES_PER_RUN) == Ok(r.value)
              && |r.value.ledger.occurrences| == |ledger.occurrences| + created
              && |r.value.ledger.jobs| == |ledger.jobs| + enqueued
    ensures r.Err? && r.error.NoNextOccurrence? ==>
              CatchUpFrom(ledger, id, row, row.nextDue, now, false, MAXIMUM_OCCURRENCES_PER_RUN).Err?
    ensures r.Err? && r.error.InvalidDefinition? ==> !row.definition.Valid()
    ensures r.Err? && r.error.EnqueueFailed? ==> exists n :: !available(n)
  {
    hide Settle, Classify, Schedule.Search;
    created, enqueued := 0, 0;
    if !row.definition.Valid() {
      return Err(InvalidDefinition), 0, 0;
    }
    var current, nextDueAt, clearSkipNext := ledger, row.nextDue, false;
    var i := 0;
    while i < MAXIMUM_OCCURRENCES_PER_RUN && nextDueAt <= now
      invariant 0 <= i <= MAXIMUM_OCCURRENCES_PER_RUN
      invariant CatchUpFrom(current, id, row, nextDueAt, now, clearSkipNext, MAXIMUM_OCCURRENCES_PER_RUN - i) ==
                CatchUpFrom(ledger, id, row, row.nextDue, now, false, MAXIMUM_OCCURRENCES_PER_RUN)
      invariant |current.occurrences| == |ledger.occurrences| + created
      invariant |current.jobs| == |ledger.jobs| + enqueued
    {
      var settled, isNew, queued, skipped := ReconcileOccurrence(current, id, row, nextDueAt, now,
        available(|current.jobs|));
      if settled.Err? {
        return Err(settled.error), 0, 0;
      }
      var next := Schedule.NextOccurrence(row.zone, row.definition, nextDueAt);
      if next.Err? {
        return Err(NoNextOccurrence(next.error)), 0, 0;
      }
      created := created + if isNew then 1 else 0;
      enqueued := enqueued + if queued then 1 else 0;
      clearSkipNext := clearSkipNext || skipped;
      current, nextDueAt, i := settled.value, next.value, i + 1;
    }
    r := Ok(Caught(current, nextDueAt, clearSkipNext));
  }

  /** One claimed schedule: its loop and the update of its row. */
  method AdvanceSchedule(tables: Tables, id: Id, now: int, available: nat -> bool)
    returns (r: Result<Tables, Failure>, created: nat, enqueued: nat)
    requires id in tables.rows && Schedule.Bounded(tables.rows[id].zone)
    ensures r.Ok? ==>
              && Advance(tables, id, now) == Ok(r.value)
              && r.value.rows.Keys == tables.rows.Keys
              && (forall other :: other in tables.rows ==> r.value.rows[other].zone == tables.rows[other].zone)
              && (forall other :: other in tables.rows ==>
                    r.value.rows[other].definition == tables.rows[other].definition)
              && |r.value.ledger.occurrences| == |tables.ledger.occurrences| + created
              && |r.value.ledger.jobs| == |tables.ledger.jobs| + enqueued
    ensures r.Err? && r.error.NoNextOccurrence? ==> Advance(tables, id, now).Err?
    ensures r.Err? && r.error.InvalidDefinition? ==> !tables.rows[id].definition.Valid()
    ensures r.Err? && r.error.EnqueueFailed? ==> exists n :: !available(n)
  {
    hide CatchUpFrom, Schedule.Bounded;
    var row := tables.rows[id];
    var caught;
    caught, created, enqueued := CatchUpSchedule(tables.ledger, id, row, now, available);
    if caught.Err? {
      return Err(caught.error), 0, 0;
    }
    var c := caught.value;
    var next := row.(nextDue := c.nextDue, skipNext := if c.skipped then None else row.skipNext,
      version := row.version + 1);
    r := Ok(Tables(tables.rows[id := next], c.ledger));
  }

  /** The outer loop of `Reconcile` over the claimed schedules. */
  method AdvanceClaimed(start: Tables, ids: seq<Id>, now: int, available: nat -> bool)
    returns (r: Result<Tables, Failure>, created: nat, enqueued: nat)
    requires forall j :: 0 <= j < |ids| ==> ids[j] in start.rows
    requires forall id :: id in start.rows ==> Schedule.Bounded(start.rows[id].zone)
    ensures r.Ok? ==>
              && AdvanceAll(start, ids, now) == Ok(r.value)
              && |r.value.ledger.occurrences| == |start.ledger.occurrences| + created
              && |r.value.ledger.jobs| == |start.ledger.jobs| + enqueued
    ensures r.Err? ==> Explains(r.error, start, ids, now, available)
  {
    hide Advance, Schedule.Bounded;
    var tables := start;
    created, enqueued := 0, 0;
    for i := 0 to |ids|
      invariant tables.rows.Keys == start.rows.Keys
      invariant forall id :: id in tables.rows ==> Schedule.Bounded(tables.rows[id].zone)
      invariant forall id :: id in tables.rows ==> tables.rows[id].definition == start.rows[id].definition
      invariant AdvanceAll(tables, ids[i..], now) == AdvanceAll(start, ids, now)
      invariant |tables.ledger.occurrences| == |start.ledger.occurrences| + created
      invariant |tables.ledger.jobs| == |start.ledger.jobs| + enqueued
    {
      var next, more, queued := AdvanceSchedule(tables, ids[i], now, available);
      assert ids[i..][1..] == ids[i + 1..] && ids[i..][0] == ids[i];
      if next.Err? {
        return Err(next.error), 0, 0;
      }
      tables, created, enqueued := next.value, created + more, enqueued + queued;
    }
    r := Ok(tables);
  }

  class Store {
    var rows: map<Id, Row>
    var occurrences: map<Key, Occurrence>
    var jobs: seq<Key>

    ghost function Contents(): Tables
      reads this
    {
      Tables(rows, Ledger(occurrences, jobs))
    }

    /** The tables once elapsed pauses have ended. */
    ghost function Resumed(now: int): Tables
      reads this
    {
      Tables(ResumeAll(rows, now), Ledger(occurrences, jobs))
    }

    /**
     `Reconcile`.  `acquired` is the outcome of the advisory lock and `ids` the rows
     the claim query returned.  The tables are written once, at the end.
     */
    method Reconcile(now: int, acquired: bool, ids: seq<Id>, available: nat -> bool)
      returns (r: Result<Report, Failure>)
      requires Claim(ResumeAll(rows, now), now, ids)
      requires forall id :: id in rows ==> Schedule.Bounded(rows[id].zone)
      modifies this
      ensures r.Err? || !acquired ==> Contents() == old(Contents())
      ensures acquired && r.Ok? ==>
                AdvanceAll(old(Resumed(now)), ids, now) == Ok(Contents())
      ensures r.Err? ==> acquired && Explains(r.error, old(Resumed(now)), ids, now, available)
      ensures r.Ok? ==> r.value == Report(acquired, |occurrences| - |old(occurrences)|, |jobs| - |old(jobs)|)
    {
      if !acquired {
        return Ok(Report(false, 0, 0));
      }
      var start := Tables(ResumeAll(rows, now), Ledger(occurrences, jobs));
      var outcome, created, enqueued := AdvanceClaimed(start, ids, now, available);
      if outcome.Err? {
        return Err(outcome.error);
      }
      var tables := outcome.value;
      rows, occurrences, jobs := tables.rows, tables.ledger.occurrences, tables.ledger.jobs;
      r := Ok(Report(true, created, enqueued));
    }
  }
}

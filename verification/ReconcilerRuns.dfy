/**
 What every sequence of reconciler runs keeps: the rows of a schedule are its chain
 of occurrences, no job is queued twice, a skip is spent on its own occurrence, and
 the backlog shrinks.
 */
module ReconcilerRuns {
  import opened Wrappers
  import opened Reconciler
  import Schedule

  // ---- Chains ----

  /** Each instant is the next occurrence after the one before it. */
  ghost predicate IsChain(row: Row, chain: seq<int>) {
    chain != [] && forall i :: 0 <= i < |chain| - 1 ==> row.Next(chain[i]) == Ok(chain[i + 1])
  }

  lemma {:induction false} SearchIsLater(zone: Schedule.Zone, definition: Schedule.Definition, after: int,
      date: int, left: nat)
    ensures var r := Schedule.Search(zone, definition, after, date, left); r.Ok? ==> r.value > after
    decreases left
  {
    if left == 0 {
    } else {
      SearchIsLater(zone, definition, after, date + 1, left - 1);
    }
  }

  lemma NextIsLater(row: Row, t: int)
    ensures row.Next(t).Ok? ==> row.Next(t).value > t
  {
    SearchIsLater(row.zone, row.definition, t, Schedule.Date(row.zone(t)), Schedule.MAXIMUM_SEARCH_DAYS);
  }

  lemma {:induction false} ChainIncreases(row: Row, chain: seq<int>, i: nat, j: nat)
    requires IsChain(row, chain) && i < j < |chain|
    ensures chain[i] < chain[j]
    decreases j
  {
    hide Schedule.Next;
    NextIsLater(row, chain[j - 1]);
    if i < j - 1 {
      ChainIncreases(row, chain, i, j - 1);
    }
  }

  // ---- One schedule in one run ----

  /** Settles instants one after the other. */
  function SettleAll(ledger: Ledger, id: Id, row: Row, ts: seq<int>, now: int): Ledger
    decreases |ts|
  {
    if ts == [] then ledger else SettleAll(Settle(ledger, id, row, ts[0], now), id, row, ts[1..], now)
  }

  /** The stretch of the chain that one run settles. */
  ghost predicate Stretch(row: Row, t: int, now: int, left: nat, chain: seq<int>) {
    && IsChain(row, chain) && chain[0] == t
    && |chain| - 1 <= left
    && (forall i :: 0 <= i < |chain| - 1 ==> chain[i] <= now)
    && (|chain| - 1 < left ==> chain[|chain| - 1] > now)
  }

  lemma {:induction false} CatchUpSettlesStretch(ledger: Ledger, id: Id, row: Row, t: int, now: int, skipped: bool,
      left: nat)
    returns (chain: seq<int>)
    requires CatchUpFrom(ledger, id, row, t, now, skipped, left).Ok?
    ensures Stretch(row, t, now, left, chain)
    ensures var c := CatchUpFrom(ledger, id, row, t, now, skipped, left).value; var settled := chain[..|chain| - 1];
            && c.nextDue == chain[|chain| - 1]
            && c.ledger == SettleAll(ledger, id, row, settled, now)
            && (c.skipped <==> skipped || (row.skipNext.Some? && row.skipNext.value in settled))
    decreases left
  {
    if left == 0 || t > now {
      chain := [t];
    } else {
      var u := row.Next(t).value;
      var rest := CatchUpSettlesStretch(Settle(ledger, id, row, t, now), id, row, u, now,
                                        skipped || Classify(row, t, now).skipped, left - 1);
      chain := [t] + rest;
      var settled := chain[..|chain| - 1];
      assert settled == [t] + rest[..|rest| - 1];
      assert settled[1..] == rest[..|rest| - 1];
    }
  }

  /** Which keys a stretch adds. */
  lemma {:induction false} SettledKeys(ledger: Ledger, id: Id, row: Row, ts: seq<int>, now: int, key: Key)
    ensures var after := SettleAll(ledger, id, row, ts, now);
            key in after.occurrences <==> key in ledger.occurrences || (key.0 == id && key.1 in ts)
    decreases |ts|
  {
    if ts == [] {
    } else {
      SettledKeys(Settle(ledger, id, row, ts[0], now), id, row, ts[1..], now, key);
    }
  }

  // ---- Jobs ----

  /** Every row is final, and the jobs are exactly the enqueued rows, each once. */
  ghost predicate JobsMatch(ledger: Ledger) {
    && (forall k :: k in ledger.occurrences ==> ledger.occurrences[k].state != Due)
    && (forall k :: k in ledger.occurrences && ledger.occurrences[k].state == Enqueued ==>
          ledger.occurrences[k].job.Some? && ledger.occurrences[k].job.value < |ledger.jobs| &&
          ledger.jobs[ledger.occurrences[k].job.value] == k)
    && (forall i :: 0 <= i < |ledger.jobs| ==>
          ledger.jobs[i] in ledger.occurrences && ledger.occurrences[ledger.jobs[i]].state == Enqueued &&
          ledger.occurrences[ledger.jobs[i]].job == Some(i))
  }

  lemma SettleKeepsJobs(ledger: Ledger, id: Id, row: Row, t: int, now: int)
    requires JobsMatch(ledger)
    ensures JobsMatch(Settle(ledger, id, row, t, now))
  {
    hide JobNumber;
    var key := (id, t);
    if key in ledger.occurrences {
      assert ledger.occurrences[key := ledger.occurrences[key]] == ledger.occurrences;
    } else {
      assert forall i :: 0 <= i < |ledger.jobs| ==> ledger.jobs[i] != key;
      assert JobNumber(ledger.jobs, key) == |ledger.jobs|;
    }
  }

  lemma {:induction false} SettleAllKeepsJobs(ledger: Ledger, id: Id, row: Row, ts: seq<int>, now: int)
    requires JobsMatch(ledger)
    ensures JobsMatch(SettleAll(ledger, id, row, ts, now))
    decreases |ts|
  {
    if ts == [] {
    } else {
      SettleKeepsJobs(ledger, id, row, ts[0], now);
      hide JobsMatch, Settle;
      SettleAllKeepsJobs(Settle(ledger, id, row, ts[0], now), id, row, ts[1..], now);
    }
  }

  // ---- What a settled row says ----

  /**
   A row that is final stays as it is.  A new one, or one left due by somebody else, gets
   the state that its lateness, the policy and the skip request ask for; only a row that
   was there already keeps its trigger when it is enqueued.
   */
  lemma {:induction false} SettledRow(ledger: Ledger, id: Id, row: Row, ts: seq<int>, now: int, key: Key)
    requires key in SettleAll(ledger, id, row, ts, now).occurrences
    ensures var after := SettleAll(ledger, id, row, ts, now).occurrences[key];
            if key in ledger.occurrences && (ledger.occurrences[key].state != Due || key.0 != id || key.1 !in ts)
            then after == ledger.occurrences[key]
            else
              && key.0 == id && key.1 in ts && Fits(row, key.1, now, after.state)
              && (key !in ledger.occurrences ==> Starts(key.1, now, after))
              && (key in ledger.occurrences ==>
                    after.trigger == if after.state == Enqueued then ledger.occurrences[key].trigger else Scheduled)
    decreases |ts|
  {
    if ts == [] {
    } else {
      hide JobNumber;
      var rest := ts[1..];
      assert ts == [ts[0]] + rest;
      SettledRow(Settle(ledger, id, row, ts[0], now), id, row, rest, now, key);
    }
  }

  // ---- Runs ----

  /** A committed run, or the operator's request to skip the next occurrence.  Runs that fail change nothing. */
  datatype Step = Reconcile(now: int, ids: seq<Id>) | SkipNext(id: Id)

  ghost function Committed(tables: Tables, now: int, ids: seq<Id>): Result<Tables, Schedule.Error>
    requires Claim(ResumeAll(tables.rows, now), now, ids)
  {
    AdvanceAll(Tables(ResumeAll(tables.rows, now), tables.ledger), ids, now)
  }

  ghost function Apply(tables: Tables, step: Step): Tables {
    match step
    case Reconcile(now, ids) =>
      if Claim(ResumeAll(tables.rows, now), now, ids) && Committed(tables, now, ids).Ok? then Committed(tables,
        now, ids).value
      else tables
    case SkipNext(id) =>
      if id in tables.rows then
        var row := tables.rows[id];
        tables.(rows := tables.rows[id := row.(skipNext := Some(row.nextDue), version := row.version + 1)])
      else tables
  }

  ghost function Run(tables: Tables, steps: seq<Step>): Tables
    decreases |steps|
  {
    if steps == [] then tables else Run(Apply(tables, steps[0]), steps[1..])
  }

  /** The rows of a schedule are its chain up to, and without, the instant it waits for. */
  ghost predicate Chained(ledger: Ledger, id: Id, row: Row, birth: int, chain: seq<int>) {
    && IsChain(row, chain) && chain[0] == birth && chain[|chain| - 1] == row.nextDue
    && forall t :: (id, t) in ledger.occurrences <==> t in chain[..|chain| - 1]
  }

  ghost predicate Covered(ledger: Ledger, id: Id, row: Row, birth: int) {
    exists chain :: Chained(ledger, id, row, birth, chain)
  }

  ghost predicate SkipIsNext(row: Row) {
    row.skipNext.Some? ==> row.skipNext.value == row.nextDue
  }

  ghost predicate Inv(tables: Tables, birth: map<Id, int>) {
    && birth.Keys == tables.rows.Keys
    && JobsMatch(tables.ledger)
    && (forall id :: id in tables.rows ==>
          Covered(tables.ledger, id, tables.rows[id], birth[id]) && SkipIsNext(tables.rows[id]))
  }

  lemma CoveredAdvances(ledger: Ledger, id: Id, row: Row, birth: int, now: int, left: nat)
    requires Covered(ledger, id, row, birth) && SkipIsNext(row) && left > 0 && row.nextDue <= now
    requires CatchUpFrom(ledger, id, row, row.nextDue, now, false, left).Ok?
    ensures var c := CatchUpFrom(ledger, id, row, row.nextDue, now, false, left).value;
            forall next: Row ::
              next.zone == row.zone && next.definition == row.definition && next.nextDue == c.nextDue ==>
              Covered(c.ledger, id, next, birth)
    ensures var c := CatchUpFrom(ledger, id, row, row.nextDue, now, false, left).value; c.skipped <==>
            row.skipNext.Some?
  {
    hide Schedule.Next, SettleAll, CatchUpFrom;
    var c := CatchUpFrom(ledger, id, row, row.nextDue, now, false, left).value;
    var old' :| Chained(ledger, id, row, birth, old');
    var more := CatchUpSettlesStretch(ledger, id, row, row.nextDue, now, false, left);
    var all := old'[..|old'| - 1] + more;
    assert all[..|all| - 1] == old'[..|old'| - 1] + more[..|more| - 1];
    forall t
      ensures (id, t) in c.ledger.occurrences <==> t in all[..|all| - 1]
    {
      SettledKeys(ledger, id, row, more[..|more| - 1], now, (id, t));
    }
    forall next: Row | next.zone == row.zone && next.definition == row.definition && next.nextDue == c.nextDue
      ensures Covered(c.ledger, id, next, birth)
    {
      assert Chained(c.ledger, id, next, birth, all);
    }
    assert more[0] == row.nextDue;
  }

  lemma CoveredElsewhere(ledger: Ledger, after: Ledger, id: Id, row: Row, birth: int)
    requires Covered(ledger, id, row, birth)
    requires forall t :: (id, t) in after.occurrences <==> (id, t) in ledger.occurrences
    ensures Covered(after, id, row, birth)
  {
    var chain :| Chained(ledger, id, row, birth, chain);
    assert Chained(after, id, row, birth, chain);
  }

  lemma AdvanceKeeps(tables: Tables, id: Id, now: int, birth: map<Id, int>)
    requires Inv(tables, birth) && id in tables.rows && tables.rows[id].nextDue <= now
    requires Advance(tables, id, now).Ok?
    ensures Inv(Advance(tables, id, now).value, birth)
  {
    hide JobsMatch, Covered, SettleAll, CatchUpFrom;
    var row, after := tables.rows[id], Advance(tables, id, now).value;
    var stretch := CatchUpSettlesStretch(tables.ledger, id, row, row.nextDue, now, false, MAXIMUM_OCCURRENCES_PER_RUN);
    var settled := stretch[..|stretch| - 1];
    SettleAllKeepsJobs(tables.ledger, id, row, settled, now);
    CoveredAdvances(tables.ledger, id, row, birth[id], now, MAXIMUM_OCCURRENCES_PER_RUN);
    forall other | other in after.rows
      ensures Covered(after.ledger, other, after.rows[other], birth[other]) && SkipIsNext(after.rows[other])
    {
      if other != id {
        forall t
          ensures (other, t) in after.ledger.occurrences <==> (other, t) in tables.ledger.occurrences
        {
          SettledKeys(tables.ledger, id, row, settled, now, (other, t));
        }
        CoveredElsewhere(tables.ledger, after.ledger, other, tables.rows[other], birth[other]);
      }
    }
  }

  /** Schedules that are due and listed once. */
  ghost predicate Waiting(rows: map<Id, Row>, now: int, ids: seq<Id>) {
    && (forall i :: 0 <= i < |ids| ==> ids[i] in rows && rows[ids[i]].nextDue <= now)
    && (forall i, j :: 0 <= i < j < |ids| ==> ids[i] != ids[j])
  }

  lemma WaitingRest(tables: Tables, now: int, ids: seq<Id>)
    requires Waiting(tables.rows, now, ids) && ids != [] && Advance(tables, ids[0], now).Ok?
    ensures Waiting(Advance(tables, ids[0], now).value.rows, now, ids[1..])
  {
    var rest := ids[1..];
    assert forall i :: 0 <= i < |rest| ==> rest[i] == ids[i + 1] && rest[i] != ids[0];
  }

  lemma {:induction false} AdvanceAllKeeps(tables: Tables, ids: seq<Id>, now: int, birth: map<Id, int>)
    requires Inv(tables, birth) && Waiting(tables.rows, now, ids) && AdvanceAll(tables, ids, now).Ok?
    ensures Inv(AdvanceAll(tables, ids, now).value, birth)
    decreases |ids|
  {
    if ids == [] {
    } else {
      AdvanceKeeps(tables, ids[0], now, birth);
      WaitingRest(tables, now, ids);
      AdvanceAllKeeps(Advance(tables, ids[0], now).value, ids[1..], now, birth);
    }
  }

  lemma ResumeKeeps(tables: Tables, now: int, birth: map<Id, int>)
    requires Inv(tables, birth)
    ensures Inv(tables.(rows := ResumeAll(tables.rows, now)), birth)
  {
    forall id | id in tables.rows
      ensures Covered(tables.ledger, id, Resume(tables.rows[id], now), birth[id])
    {
      var chain :| Chained(tables.ledger, id, tables.rows[id], birth[id], chain);
      assert Chained(tables.ledger, id, Resume(tables.rows[id], now), birth[id], chain);
    }
  }

  lemma StepKeeps(tables: Tables, step: Step, birth: map<Id, int>)
    requires Inv(tables, birth)
    ensures Inv(Apply(tables, step), birth)
  {
    match step
    case Reconcile(now, ids) =>
      ResumeKeeps(tables, now, birth);
      if Claim(ResumeAll(tables.rows, now), now, ids) && Committed(tables, now, ids).Ok? {
        AdvanceAllKeeps(tables.(rows := ResumeAll(tables.rows, now)), ids, now, birth);
      }
    case SkipNext(id) =>
      if id in tables.rows {
        var row, after := tables.rows[id], Apply(tables, step);
        var chain :| Chained(tables.ledger, id, row, birth[id], chain);
        assert Chained(after.ledger, id, after.rows[id], birth[id], chain);
      }
  }

  lemma {:induction false} RunKeeps(tables: Tables, steps: seq<Step>, birth: map<Id, int>)
    requires Inv(tables, birth)
    ensures Inv(Run(tables, steps), birth)
    decreases |steps|
  {
    if steps == [] {
    } else {
      StepKeeps(tables, steps[0], birth);
      RunKeeps(Apply(tables, steps[0]), steps[1..], birth);
    }
  }

  /** Schedules before their first run: nothing written, nothing queued, no skip requested. */
  ghost predicate Initial(tables: Tables) {
    tables.ledger == Ledger(map[], []) && forall id :: id in tables.rows ==> tables.rows[id].skipNext.None?
  }

  ghost function Births(tables: Tables): map<Id, int> {
    map id | id in tables.rows :: tables.rows[id].nextDue
  }

  /**
   Over any sequence of runs and skips, the rows of a schedule are exactly its chain
   of occurrences from the instant it first waited for up to the one it waits for
   now, and the jobs are exactly the enqueued rows, each queued once.
   */
  lemma RunsWriteTheChain(tables: Tables, steps: seq<Step>, id: Id)
    requires Initial(tables) && id in tables.rows
    ensures var after := Run(tables, steps);
            && id in after.rows
            && Covered(after.ledger, id, after.rows[id], tables.rows[id].nextDue)
            && JobsMatch(after.ledger)
            && SkipIsNext(after.rows[id])
  {
    var birth := Births(tables);
    forall i | i in tables.rows
      ensures Covered(tables.ledger, i, tables.rows[i], birth[i])
    {
      assert Chained(tables.ledger, i, tables.rows[i], birth[i], [birth[i]]);
    }
    RunKeeps(tables, steps, birth);
  }

  lemma JobsAreDistinct(ledger: Ledger, i: nat, j: nat)
    requires JobsMatch(ledger) && i < j < |ledger.jobs|
    ensures ledger.jobs[i] != ledger.jobs[j]
  {
  }

  // ---- The chain is every occurrence ----

  /** The clock of this schedule behaves: see `Schedule.LeastExactlyWhen`. */
  ghost predicate Regular(row: Row) {
    && row.Sound() && Schedule.Calendar(row.zone)
    && Schedule.DatesShown(row.zone, row.definition) && Schedule.InOrder(row.zone, row.definition)
  }

  lemma {:induction false} ChainMeetsOccurrence(row: Row, chain: seq<int>, t: int)
    requires Regular(row) && IsChain(row, chain) && chain[0] < t <= chain[|chain| - 1]
    ensures t in chain <==> Schedule.Occurs(row.zone, row.definition, t)
    decreases |chain|
  {
    hide Schedule.Search, Schedule.Occurs, Schedule.DatesShown, Schedule.InOrder, Schedule.Calendar, Schedule.Bounded;
    var n := |chain| - 1;
    var before := chain[..n];
    Schedule.NextIsLeast(row.zone, row.definition, chain[n - 1]);
    assert row.Next(chain[n - 1]) == Ok(chain[n]);
    if t <= chain[n - 1] {
      ChainMeetsOccurrence(row, before, t);
    } else if t in chain {
      var i :| 0 <= i < |chain| && chain[i] == t;
      if i < n - 1 {
        ChainIncreases(row, chain, i, n - 1);
      }
    }
  }

  /**
   For a regular clock the chain is every local-time occurrence: nothing between the
   first instant and the current one is left without a row, and nothing else has one.
   */
  lemma RunsCoverEveryOccurrence(tables: Tables, steps: seq<Step>, id: Id, t: int)
    requires Initial(tables) && id in tables.rows
    requires id in Run(tables, steps).rows && Regular(Run(tables, steps).rows[id])
    requires tables.rows[id].nextDue < t < Run(tables, steps).rows[id].nextDue
    ensures var after := Run(tables, steps);
            (id, t) in after.ledger.occurrences <==> Schedule.Occurs(after.rows[id].zone, after.rows[id].definition, t)
  {
    RunsWriteTheChain(tables, steps, id);
    var after := Run(tables, steps);
    var row := after.rows[id];
    var chain :| Chained(after.ledger, id, row, tables.rows[id].nextDue, chain);
    ChainMeetsOccurrence(row, chain, t);
    assert chain == chain[..|chain| - 1] + [row.nextDue];
  }

  // ---- Skips ----

  /** The rows a run adds for one schedule. */
  predicate Fresh(tables: Tables, after: Tables, key: Key) {
    key in after.ledger.occurrences && key !in tables.ledger.occurrences
  }

  /**
   A run marks an occurrence as skipped exactly when it is the one the operator asked
   to skip, and clears the request exactly then.
   */
  lemma SkipIsSpentOnItsOccurrence(tables: Tables, id: Id, now: int, birth: map<Id, int>)
    requires Inv(tables, birth) && id in tables.rows && tables.rows[id].nextDue <= now
    requires Advance(tables, id, now).Ok?
    ensures var row, after := tables.rows[id], Advance(tables, id, now).value;
            && (forall t :: Fresh(tables, after, (id, t)) ==>
                  (after.ledger.occurrences[(id, t)].state == Skipped <==> row.skipNext == Some(t)))
            && after.rows[id].skipNext.None?
            && (row.skipNext.Some? ==> Fresh(tables, after, (id, row.skipNext.value)))
  {
    var row, after := tables.rows[id], Advance(tables, id, now).value;
    var stretch := CatchUpSettlesStretch(tables.ledger, id, row, row.nextDue, now, false, MAXIMUM_OCCURRENCES_PER_RUN);
    var settled := stretch[..|stretch| - 1];
    CoveredAdvances(tables.ledger, id, row, birth[id], now, MAXIMUM_OCCURRENCES_PER_RUN);
    forall t | Fresh(tables, after, (id, t))
      ensures after.ledger.occurrences[(id, t)].state == Skipped <==> row.skipNext == Some(t)
    {
      SettledRow(tables.ledger, id, row, settled, now, (id, t));
    }
    if row.skipNext.Some? {
      assert settled[0] == row.nextDue;
      SettledKeys(tables.ledger, id, row, settled, now, (id, row.nextDue));
      NextDueIsUnwritten(tables.ledger, id, row, birth[id]);
    }
  }

  lemma NextDueIsUnwritten(ledger: Ledger, id: Id, row: Row, birth: int)
    requires Covered(ledger, id, row, birth)
    ensures (id, row.nextDue) !in ledger.occurrences
  {
    var chain :| Chained(ledger, id, row, birth, chain);
    var n := |chain| - 1;
    forall i | 0 <= i < n
      ensures chain[i] != row.nextDue
    {
      ChainIncreases(row, chain, i, n);
    }
  }

  // ---- Progress ----

  /** The occurrences a schedule owes at `now`, counted along its chain from `t`. */
  ghost function Backlog(row: Row, t: int, now: int): nat
    decreases if t > now then 0 else now - t + 1
  {
    if t > now then 0
    else
      NextIsLater(row, t);
      match row.Next(t)
      case Err(_) => 1
      case Ok(u) => 1 + Backlog(row, u, now)
  }

  lemma {:induction false} StretchPaysBacklog(row: Row, t: int, now: int, left: nat, chain: seq<int>)
    requires Stretch(row, t, now, left, chain)
    ensures Backlog(row, t, now) == |chain| - 1 + Backlog(row, chain[|chain| - 1], now)
    decreases |chain|
  {
    if |chain| > 1 {
      var rest := chain[1..];
      assert row.Next(chain[0]) == Ok(chain[1]);
      assert chain[0] <= now;
      StretchPaysBacklog(row, chain[1], now, left - 1, rest);
    }
  }

  lemma BacklogDependsOnClock(row: Row, next: Row, t: int, now: int)
    requires next.zone == row.zone && next.definition == row.definition
    ensures Backlog(next, t, now) == Backlog(row, t, now)
    decreases if t > now then 0 else now - t + 1
  {
    if t <= now {
      NextIsLater(row, t);
      if row.Next(t).Ok? {
        BacklogDependsOnClock(row, next, row.Next(t).value, now);
      }
    }
  }

  function Paid(owed: nat): nat {
    if owed <= 100 then 0 else owed - 100
  }

  ghost function Owed(rows: map<Id, Row>, id: Id, now: int): nat {
    if id in rows then Backlog(rows[id], rows[id].nextDue, now) else 0
  }

  /** A claimed schedule pays off its whole backlog or a hundred occurrences of it; the others keep theirs. */
  lemma AdvancePays(tables: Tables, id: Id, now: int, other: Id)
    requires id in tables.rows && Advance(tables, id, now).Ok?
    ensures Owed(Advance(tables, id, now).value.rows, other, now) ==
            if other == id then Paid(Owed(tables.rows, id, now)) else Owed(tables.rows, other, now)
  {
    if other == id {
      var row, after := tables.rows[id], Advance(tables, id, now).value;
      var stretch := CatchUpSettlesStretch(tables.ledger, id, row, row.nextDue, now, false,
        MAXIMUM_OCCURRENCES_PER_RUN);
      StretchPaysBacklog(row, row.nextDue, now, MAXIMUM_OCCURRENCES_PER_RUN, stretch);
      BacklogDependsOnClock(row, after.rows[id], after.rows[id].nextDue, now);
    }
  }

  lemma {:induction false} AdvanceAllPays(tables: Tables, ids: seq<Id>, now: int, id: Id)
    requires Waiting(tables.rows, now, ids) && AdvanceAll(tables, ids, now).Ok?
    ensures Owed(AdvanceAll(tables, ids, now).value.rows, id, now) ==
            if id in ids then Paid(Owed(tables.rows, id, now)) else Owed(tables.rows, id, now)
    decreases |ids|
  {
    if ids == [] {
    } else {
      AdvancePays(tables, ids[0], now, id);
      WaitingRest(tables, now, ids);
      AdvanceAllPays(Advance(tables, ids[0], now).value, ids[1..], now, id);
      assert ids[0] !in ids[1..];
    }
  }

  ghost function Total(rows: map<Id, Row>, all: seq<Id>, now: int): nat {
    if all == [] then 0 else Owed(rows, all[0], now) + Total(rows, all[1..], now)
  }

  lemma {:induction false} TotalDrops(before: map<Id, Row>, after: map<Id, Row>, all: seq<Id>, now: int)
    requires forall id :: Owed(after, id, now) <= Owed(before, id, now)
    ensures Total(after, all, now) <= Total(before, all, now)
    ensures forall id :: id in all && Owed(after, id, now) < Owed(before, id, now) ==>
            Total(after, all, now) < Total(before, all, now)
  {
    if all == [] {
    } else {
      TotalDrops(before, after, all[1..], now);
    }
  }

  /**
   Despite the cap of a hundred occurrences per schedule, every committed run that
   claims a schedule leaves fewer occurrences owed at that time than it found.
   */
  lemma CommittedRunPays(tables: Tables, now: int, ids: seq<Id>, all: seq<Id>)
    requires Claim(ResumeAll(tables.rows, now), now, ids) && Committed(tables, now, ids).Ok?
    requires ids != [] && ids[0] in all
    ensures Total(Committed(tables, now, ids).value.rows, all, now) < Total(tables.rows, all, now)
    ensures forall id :: id in ids ==>
              Owed(Committed(tables, now, ids).value.rows, id, now) ==
              Paid(Owed(tables.rows, id, now)) < Owed(tables.rows, id, now)
  {
    var resumed := tables.(rows := ResumeAll(tables.rows, now));
    var after := Committed(tables, now, ids).value;
    forall id
      ensures Owed(after.rows, id, now) == if id in ids then Paid(Owed(tables.rows, id,
              now)) else Owed(tables.rows, id, now)
    {
      AdvanceAllPays(resumed, ids, now, id);
      if id in tables.rows {
        BacklogDependsOnClock(tables.rows[id], resumed.rows[id], tables.rows[id].nextDue, now);
      }
    }
    TotalDrops(tables.rows, after.rows, all, now);
  }
}

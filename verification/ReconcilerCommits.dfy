/**
 When a run of the reconciler commits.  One claimed schedule without a next occurrence
 undoes the whole run, so every other claimed schedule stays unpaid with it.
 */
module ReconcilerCommits {
  import opened Wrappers
  import opened Reconciler
  import opened ReconcilerRuns
  import opened Ordering
  import Schedule
  import ScheduleZones

  /** A schedule in a zone in use. */
  ghost predicate Ready(row: Row) {
    row.Sound() && Schedule.Calendar(row.zone)
  }

  /** A chain of due occurrences from `t` that a run would follow into a dead end. */
  ghost predicate Dead(row: Row, t: int, now: int, left: nat, chain: seq<int>) {
    && IsChain(row, chain) && chain[0] == t && |chain| <= left
    && (forall i :: 0 <= i < |chain| ==> chain[i] <= now)
    && Schedule.DeadEnd(row.zone, row.definition, chain[|chain| - 1])
  }

  ghost predicate RunsDead(row: Row, t: int, now: int, left: nat) {
    exists chain :: Dead(row, t, now, left, chain)
  }

  /** A dead end lies ahead of the schedule within what one run catches up. */
  ghost predicate Stuck(row: Row, now: int) {
    RunsDead(row, row.nextDue, now, MAXIMUM_OCCURRENCES_PER_RUN)
  }

  lemma {:induction false} NextIsErrExactly(row: Row, t: int)
    requires Ready(row)
    ensures row.Next(t).Err? <==> Schedule.DeadEnd(row.zone, row.definition, t)
  {
    Schedule.NextFailsExactly(row.zone, row.definition, t);
  }

  lemma {:induction false} DeadLater(row: Row, t: int, u: int, now: int, left: nat)
    requires Ready(row) && t <= now && left > 0 && row.Next(t) == Ok(u)
    ensures RunsDead(row, t, now, left) <==> RunsDead(row, u, now, left - 1)
  {
    hide Schedule.Next, Schedule.DeadEnd, Ready;
    NextIsErrExactly(row, t);
    if RunsDead(row, t, now, left) {
      var chain :| Dead(row, t, now, left, chain);
      assert |chain| > 1 && chain[1] == u;
      var rest := chain[1..];
      assert forall i :: 0 <= i < |rest| ==> rest[i] == chain[i + 1];
      assert Dead(row, u, now, left - 1, rest);
    }
    if RunsDead(row, u, now, left - 1) {
      var rest :| Dead(row, u, now, left - 1, rest);
      var chain := [t] + rest;
      assert forall i :: 1 <= i < |chain| ==> chain[i] == rest[i - 1];
      assert Dead(row, t, now, left, chain);
    }
  }

  lemma {:induction false} DeadHere(row: Row, t: int, now: int, left: nat)
    requires Ready(row) && t <= now && left > 0 && row.Next(t).Err?
    ensures RunsDead(row, t, now, left)
  {
    hide Schedule.Next, Schedule.DeadEnd, Ready;
    NextIsErrExactly(row, t);
    assert Dead(row, t, now, left, [t]);
  }

  /** Catching up fails exactly when a dead end lies ahead. */
  lemma {:induction false} CatchUpFailsExactly(
    ledger: Ledger, id: Id, row: Row, t: int, now: int, skipped: bool, left: nat)
    requires Ready(row)
    ensures CatchUpFrom(ledger, id, row, t, now, skipped, left).Err? <==> RunsDead(row, t, now, left)
    decreases left
  {
    hide Schedule.Next, Schedule.DeadEnd, Ready, Settle, Classify;
    if left == 0 || t > now {
    } else {
      hide RunsDead;
      match row.Next(t)
      case Err(_) =>
        DeadHere(row, t, now, left);
      case Ok(u) =>
        DeadLater(row, t, u, now, left);
        CatchUpFailsExactly(Settle(ledger, id, row, t, now), id, row, u, now,
                            skipped || Classify(row, t, now).skipped, left - 1);
    }
  }

  lemma {:induction false} AdvanceFailsExactly(tables: Tables, id: Id, now: int)
    requires id in tables.rows && Ready(tables.rows[id])
    ensures Advance(tables, id, now).Err? <==> Stuck(tables.rows[id], now)
    ensures Advance(tables, id, now).Ok? ==>
              var after := Advance(tables, id, now).value;
              after.rows.Keys == tables.rows.Keys && forall other :: other in tables.rows && other != id ==>
                after.rows[other] == tables.rows[other]
  {
    hide CatchUpFrom, RunsDead, Ready;
    var row := tables.rows[id];
    CatchUpFailsExactly(tables.ledger, id, row, row.nextDue, now, false, MAXIMUM_OCCURRENCES_PER_RUN);
  }

  /** A claimed batch commits if and only if no claimed schedule has a dead end ahead. */
  lemma {:induction false} BatchCommitsExactly(tables: Tables, ids: seq<Id>, now: int)
    requires forall i :: 0 <= i < |ids| ==> ids[i] in tables.rows && Ready(tables.rows[ids[i]])
    requires forall i, j :: 0 <= i < j < |ids| ==> ids[i] != ids[j]
    ensures AdvanceAll(tables, ids, now).Ok? <==> forall i :: 0 <= i < |ids| ==> !Stuck(tables.rows[ids[i]], now)
    decreases |ids|
  {
    hide Advance, Stuck, Ready;
    if ids == [] {
    } else {
      AdvanceFailsExactly(tables, ids[0], now);
      var one := Advance(tables, ids[0], now);
      if one.Ok? {
        var rest := ids[1..];
        assert forall i :: 0 <= i < |rest| ==> rest[i] == ids[i + 1] && one.value.rows[rest[i]] == tables.rows[rest[i]];
        BatchCommitsExactly(one.value, rest, now);
        assert forall i :: 1 <= i < |ids| ==> ids[i] == rest[i - 1];
      }
    }
  }

  /** A schedule whose dates all have occurrences never has a dead end ahead. */
  lemma {:induction false} ShownIsNotStuck(row: Row, now: int)
    requires Schedule.DatesShown(row.zone, row.definition)
    ensures !Stuck(row, now)
  {
    hide Schedule.DatesShown, Schedule.DeadEnd;
    forall chain | chain != []
      ensures !Schedule.DeadEnd(row.zone, row.definition, chain[|chain| - 1])
    {
      Schedule.ShownIsNoDeadEnd(row.zone, row.definition, chain[|chain| - 1]);
    }
  }

  lemma StuckWhenResumed(row: Row, now: int)
    ensures Stuck(Resume(row, now), now) <==> Stuck(row, now)
    ensures Ready(Resume(row, now)) <==> Ready(row)
  {
    hide Schedule.Next, Schedule.DeadEnd;
    var next := Resume(row, now);
    forall chain: seq<int>
      ensures Dead(next, next.nextDue, now, MAXIMUM_OCCURRENCES_PER_RUN, chain) <==>
              Dead(row, row.nextDue, now, MAXIMUM_OCCURRENCES_PER_RUN, chain)
    {
    }
  }

  /**
   A run with the lock that claims a schedule leaves fewer occurrences owed than it found,
   despite the cap, if and only if no claimed schedule has a dead end ahead; otherwise it
   changes nothing at all.
   */
  lemma {:induction false} RunShrinksBacklog(tables: Tables, now: int, ids: seq<Id>, all: seq<Id>)
    requires Claim(ResumeAll(tables.rows, now), now, ids) && ids != [] && ids[0] in all
    requires forall i :: 0 <= i < |ids| ==> Ready(tables.rows[ids[i]])
    ensures var after := Apply(tables, Reconcile(now, ids));
            var free := forall i :: 0 <= i < |ids| ==> !Stuck(tables.rows[ids[i]], now);
            && (Total(after.rows, all, now) < Total(tables.rows, all, now) <==> free)
            && (free ==> forall id :: id in ids ==>
                  Owed(after.rows, id, now) == Paid(Owed(tables.rows, id, now)) < Owed(tables.rows, id, now))
            && (!free ==> after == tables)
  {
    hide Stuck, Ready, AdvanceAll, Owed, Total;
    var resumed := Tables(ResumeAll(tables.rows, now), tables.ledger);
    forall i | 0 <= i < |ids|
      ensures Ready(resumed.rows[ids[i]])
      ensures Stuck(resumed.rows[ids[i]], now) <==> Stuck(tables.rows[ids[i]], now)
    {
      StuckWhenResumed(tables.rows[ids[i]], now);
    }
    BatchCommitsExactly(resumed, ids, now);
    if Committed(tables, now, ids).Ok? {
      CommittedRunPays(tables, now, ids, all);
    }
  }

  // ---- A dead end over all later runs ----

  ghost predicate SameClock(a: Row, b: Row) {
    a.zone == b.zone && a.definition == b.definition && a.nextDue == b.nextDue
  }

  lemma {:induction false} StaysStuck(a: Row, b: Row, now: int, later: int)
    requires SameClock(a, b) && now <= later && Stuck(a, now)
    ensures Stuck(b, later)
  {
    hide Schedule.Next, Schedule.DeadEnd;
    var chain :| Dead(a, a.nextDue, now, MAXIMUM_OCCURRENCES_PER_RUN, chain);
    assert Dead(b, b.nextDue, later, MAXIMUM_OCCURRENCES_PER_RUN, chain);
  }

  /** A batch fails with a stuck schedule in it and does not touch one outside. */
  lemma {:induction false} BatchLeavesStuck(tables: Tables, ids: seq<Id>, id: Id, now: int)
    requires forall i :: 0 <= i < |ids| ==> ids[i] in tables.rows
    requires id in tables.rows && Ready(tables.rows[id]) && Stuck(tables.rows[id], now)
    ensures var r := AdvanceAll(tables, ids, now);
            r.Ok? ==> id !in ids && id in r.value.rows && r.value.rows[id] == tables.rows[id]
    decreases |ids|
  {
    hide Stuck, Ready, CatchUpFrom;
    if ids == [] {
    } else if ids[0] == id {
      AdvanceFailsExactly(tables, id, now);
    } else {
      var one := Advance(tables, ids[0], now);
      if one.Ok? {
        BatchLeavesStuck(one.value, ids[1..], id, now);
        assert ids == [ids[0]] + ids[1..];
      }
    }
  }

  lemma {:induction false} StepLeavesStuck(tables: Tables, step: Step, id: Id, now: int)
    requires id in tables.rows && Ready(tables.rows[id]) && Stuck(tables.rows[id], now)
    requires step.Reconcile? ==> now <= step.now
    ensures var after := Apply(tables, step);
            && id in after.rows && SameClock(tables.rows[id], after.rows[id])
            && Ready(after.rows[id]) && Stuck(after.rows[id], now)
            && (step.Reconcile? && id in step.ids ==> after == tables)
            && (step.SkipNext? ==> after.ledger == tables.ledger)
  {
    hide Stuck, AdvanceAll;
    if step.Reconcile? && Claim(ResumeAll(tables.rows, step.now), step.now, step.ids) {
      var resumed := Tables(ResumeAll(tables.rows, step.now), tables.ledger);
      assert SameClock(tables.rows[id], resumed.rows[id]);
      StaysStuck(tables.rows[id], resumed.rows[id], now, step.now);
      BatchLeavesStuck(resumed, step.ids, id, step.now);
    }
    StaysStuck(tables.rows[id], Apply(tables, step).rows[id], now, now);
  }

  /**
   A schedule with a dead end ahead waits for the same occurrence after every later run and
   skip request; as long as every run claims it, no run writes a row or a job of any
   schedule.
   */
  lemma {:induction false} StuckForever(tables: Tables, steps: seq<Step>, id: Id, now: int)
    requires id in tables.rows && Ready(tables.rows[id]) && Stuck(tables.rows[id], now)
    requires forall i :: 0 <= i < |steps| && steps[i].Reconcile? ==> now <= steps[i].now
    ensures var after := Run(tables, steps);
            && id in after.rows && after.rows[id].nextDue == tables.rows[id].nextDue
            && ((forall i :: 0 <= i < |steps| && steps[i].Reconcile? ==> id in steps[i].ids) ==>
                  after.ledger == tables.ledger)
    decreases |steps|
  {
    hide Stuck, Ready, Apply;
    if steps == [] {
    } else {
      StepLeavesStuck(tables, steps[0], id, now);
      StuckForever(Apply(tables, steps[0]), steps[1..], id, now);
    }
  }

  // ---- The claim query takes the oldest first ----

  predicate Earlier(rows: map<Id, Row>, a: Id, b: Id)
    requires a in rows && b in rows
  {
    rows[a].nextDue < rows[b].nextDue || (rows[a].nextDue == rows[b].nextDue && Less(a, b))
  }

  /** What the claim query returns: the first hundred due rows by due instant and identity. */
  ghost predicate FirstDue(rows: map<Id, Row>, now: int, ids: seq<Id>) {
    && Claim(rows, now, ids)
    && (forall i, j :: 0 <= i < j < |ids| ==> Earlier(rows, ids[i], ids[j]))
    && forall id :: id in rows && rows[id].Due(now) && id !in ids ==>
         |ids| == 100 && forall i :: 0 <= i < |ids| ==> Earlier(rows, ids[i], id)
  }

  /** Nothing changed that the claim query looks at. */
  ghost predicate Alike(a: map<Id, Row>, b: map<Id, Row>) {
    a.Keys == b.Keys && forall id :: id in a ==> SameDue(a[id], b[id])
  }

  predicate SameDue(a: Row, b: Row) {
    a.nextDue == b.nextDue && a.enabled == b.enabled && a.pausedAt == b.pausedAt && a.pausedUntil == b.pausedUntil
  }

  /** No pause ends by itself. */
  ghost predicate NoReturns(rows: map<Id, Row>) {
    forall id :: id in rows && rows[id].pausedAt.Some? ==> rows[id].pausedUntil.None?
  }

  lemma {:induction false} Distinct(ids: seq<Id>)
    requires forall i, j :: 0 <= i < j < |ids| ==> ids[i] != ids[j]
    ensures |set id | id in ids| == |ids|
  {
    var all := set id | id in ids;
    if ids == [] {
      assert all == {};
    } else {
      var rest := ids[1..];
      Distinct(rest);
      assert ids == [ids[0]] + rest;
      assert all == {ids[0]} + set id | id in rest;
    }
  }

  /** A schedule that one batch holds is in every later batch while the rows stay alike. */
  lemma {:induction false} StaysClaimed(a: map<Id, Row>, now: int, ids: seq<Id>, b: map<Id, Row>, later: int,
      more: seq<Id>, id: Id)
    requires FirstDue(a, now, ids) && id in ids && Alike(a, b) && now <= later && FirstDue(b, later, more)
    ensures id in more
  {
    if id !in more {
      forall other | other in more
        ensures other in ids
      {
        assert Earlier(b, other, id);
        if other !in ids {
          assert Earlier(a, id, other);
          LessIsTotal(id, other);
        }
      }
      Distinct(ids);
      Distinct(more);
      var one, two := set x | x in ids, set x | x in more;
      assert two <= one && id in one && id !in two;
      assert two + {id} <= one;
      SubsetSize(two + {id}, one);
    }
  }

  lemma {:induction false} SubsetSize(a: set<Id>, b: set<Id>)
    requires a <= b
    ensures |a| <= |b|
  {
    assert b == a + (b - a);
  }

  /** Later runs, each with the batch that the claim query returns to it, and skip requests. */
  ghost predicate Ordered(tables: Tables, steps: seq<Step>, now: int)
    decreases |steps|
  {
    steps != [] ==>
      && (steps[0].Reconcile? ==> now <= steps[0].now && TakesFirst(tables, steps[0].now, steps[0].ids))
      && Ordered(Apply(tables, steps[0]), steps[1..], now)
  }

  ghost predicate TakesFirst(tables: Tables, now: int, ids: seq<Id>) {
    FirstDue(ResumeAll(tables.rows, now), now, ids)
  }

  lemma NothingResumes(rows: map<Id, Row>, now: int)
    requires NoReturns(rows)
    ensures ResumeAll(rows, now) == rows
  {
  }

  lemma {:induction false} StepKeepsAlike(rows: map<Id, Row>, tables: Tables, step: Step, id: Id, now: int)
    requires id in rows && Alike(rows, tables.rows) && Ready(tables.rows[id]) && Stuck(tables.rows[id], now)
    requires step.Reconcile? ==> now <= step.now && id in step.ids
    ensures var after := Apply(tables, step);
            && after.ledger == tables.ledger && Alike(rows, after.rows)
            && Ready(after.rows[id]) && Stuck(after.rows[id], now)
  {
    assert id in tables.rows;
    hide Stuck, Ready, Apply, Alike;
    StepLeavesStuck(tables, step, id, now);
    if step.SkipNext? {
      SkipIsAlike(rows, tables, step);
    }
  }

  lemma {:induction false} SkipIsAlike(rows: map<Id, Row>, tables: Tables, step: Step)
    requires Alike(rows, tables.rows) && step.SkipNext?
    ensures Alike(rows, Apply(tables, step).rows)
  {
    hide Committed, Claim, ResumeAll;
    var after := Apply(tables, step).rows;
    assert after.Keys == tables.rows.Keys;
    assert forall id :: id in rows ==> SameDue(tables.rows[id], after[id]);
  }

  lemma {:induction false} BlocksOn(rows: map<Id, Row>, ids: seq<Id>, tables: Tables, steps: seq<Step>, id: Id,
      now: int)
    requires FirstDue(rows, now, ids) && id in ids && Alike(rows, tables.rows) && NoReturns(rows)
    requires Ready(tables.rows[id]) && Stuck(tables.rows[id], now) && Ordered(tables, steps, now)
    ensures Run(tables, steps).ledger == tables.ledger && Alike(rows, Run(tables, steps).rows)
    decreases |steps|
  {
    assert id in rows && NoReturns(tables.rows);
    hide Stuck, Ready, FirstDue, Apply, Alike, NoReturns;
    if steps == [] {
    } else {
      var step := steps[0];
      if step.Reconcile? {
        NothingResumes(tables.rows, step.now);
        StaysClaimed(rows, now, ids, tables.rows, step.now, step.ids, id);
      }
      StepKeepsAlike(rows, tables, step, id, now);
      BlocksOn(rows, ids, Apply(tables, step), steps[1..], id, now);
    }
  }

  /**
   While no pause ends, one schedule with a dead end ahead that is in the batch once is in
   the batch of every later run, so no run writes a row or a job any more and no schedule
   moves on.
   */
  lemma {:induction false} OneBlocksAll(tables: Tables, steps: seq<Step>, ids: seq<Id>, id: Id, now: int)
    requires TakesFirst(tables, now, ids) && id in ids && NoReturns(tables.rows)
    requires Ready(tables.rows[id]) && Stuck(tables.rows[id], now) && Ordered(tables, steps, now)
    ensures var after := Run(tables, steps);
            && after.ledger == tables.ledger && after.rows.Keys == tables.rows.Keys
            && forall other :: other in tables.rows ==> after.rows[other].nextDue == tables.rows[other].nextDue
  {
    hide Stuck, Ready, FirstDue, Ordered, Run;
    NothingResumes(tables.rows, now);
    BlocksOn(tables.rows, ids, tables, steps, id, now);
  }

  // ---- A schedule that blocks the others ----

  /** A daily schedule in the hour that America/Nuuk skips in March. */
  ghost predicate InNuuksGap(row: Row, now: int) {
    && row.zone == ScheduleZones.Nuuk && 1380 <= row.definition.minute < Schedule.DAY
    && row.definition.weekdays == ScheduleZones.EVERY_DAY
    && row.nextDue == row.definition.minute - 2760 <= now
  }

  lemma {:induction false} NuukIsStuck(row: Row, now: int)
    requires InNuuksGap(row, now)
    ensures Ready(row) && Stuck(row, now)
  {
    hide RunsDead, Schedule.Next, Schedule.Bounded, Schedule.Calendar, Schedule.NondecreasingDates;
    hide Schedule.DatesShown, Schedule.Occurs, ScheduleZones.Nuuk;
    ScheduleZones.NuukHasNoNext(row.definition.minute);
    assert row.definition == Schedule.Definition(row.definition.minute, ScheduleZones.EVERY_DAY);
    DeadHere(row, row.nextDue, now, MAXIMUM_OCCURRENCES_PER_RUN);
  }

  /** Such a schedule is stuck on the day before, and whatever is claimed with it stays unpaid. */
  lemma {:induction false} NuukBlocksTheBatch(tables: Tables, now: int, ids: seq<Id>, k: nat)
    requires Claim(ResumeAll(tables.rows, now), now, ids) && k < |ids| && InNuuksGap(tables.rows[ids[k]], now)
    ensures Stuck(tables.rows[ids[k]], now) && Apply(tables, Reconcile(now, ids)) == tables
  {
    hide InNuuksGap, Stuck, Ready, Apply;
    NuukIsStuck(tables.rows[ids[k]], now);
    StepLeavesStuck(tables, Reconcile(now, ids), ids[k], now);
  }
}

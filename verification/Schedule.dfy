/**
 Next-occurrence search of `internal/scheduler/schedule.go`.

 Instants are UTC minutes and local readings are local minutes, both counted from
 1970-01-01T00:00.  A zone maps the one to the other, so a gap is a jump of the
 reading and a fold is a repetition of it.
 */
module Schedule {
  import opened Wrappers

  const DAY := 1440
  const MAXIMUM_SEARCH_DAYS := 370
  const MAXIMUM_OFFSET := 14 * 60
  const SCAN_MINUTES := 52 * 60

  type Zone = int -> int

  /** Offsets stay within fourteen hours, as they do in every zone in use. */
  ghost predicate Bounded(zone: Zone) {
    forall t :: -MAXIMUM_OFFSET <= zone(t) - t <= MAXIMUM_OFFSET
  }

  function Date(local: int): int {
    local / 1440
  }

  /** The reading at which a date begins. */
  function Midnight(date: int): int {
    1440 * date
  }

  /** Monday is 1; day 0 was a Thursday. */
  function IsoWeekday(date: int): int {
    (date + 3) % 7 + 1
  }

  /** Monday 1970-01-05 is day 4; the weekdays follow each other from there, in both directions. */
  lemma WeekdayOfDay(week: int, i: nat)
    requires i < 7
    ensures IsoWeekday(4 + 7 * week + i) == 1 + i
  {
  }

  datatype Definition = Definition(minute: int, weekdays: set<int>) {
    predicate Valid() {
      0 <= minute < DAY && weekdays != {} && forall w :: w in weekdays ==> 1 <= w <= 7
    }

    predicate Enabled(date: int) {
      IsoWeekday(date) in weekdays
    }
  }

  datatype Error = InvalidDefinition | Unresolvable(date: int) | NoneWithinOneYear

  predicate IsoDays(weekdays: seq<int>) {
    forall i :: 0 <= i < |weekdays| ==> 1 <= weekdays[i] <= 7
  }

  /** `NewDefinition`; `loads` says which zone names the system knows. */
  method NewDefinition(timezone: string, loads: string -> bool, hour: int, minute: int, weekdays: seq<int>)
    returns (r: Result<Definition, Error>)
    ensures r.Ok? <==>
            && timezone != "" && loads(timezone)
            && 0 <= hour <= 23 && 0 <= minute <= 59 && weekdays != [] && IsoDays(weekdays)
    ensures r.Ok? ==>
            && r.value.Valid() && r.value.minute == hour * 60 + minute
            && forall w :: w in r.value.weekdays <==> w in weekdays
  {
    if timezone == "" {
      return Err(InvalidDefinition);
    }
    if hour < 0 || hour > 23 || minute < 0 || minute > 59 || |weekdays| == 0 {
      return Err(InvalidDefinition);
    }
    var enabled: set<int> := {};
    for i := 0 to |weekdays|
      invariant IsoDays(weekdays[..i])
      invariant enabled == set w | w in weekdays[..i]
    {
      if weekdays[i] < 1 || weekdays[i] > 7 {
        return Err(InvalidDefinition);
      }
      enabled := enabled + {weekdays[i]};
      assert weekdays[..i + 1] == weekdays[..i] + [weekdays[i]];
    }
    assert weekdays[..|weekdays|] == weekdays;
    assert weekdays[0] in enabled;
    if !loads(timezone) {
      return Err(InvalidDefinition);
    }
    return Ok(Definition(hour * 60 + minute, enabled));
  }

  // ---- One local date ----

  /** At instant `t` the clock shows `date`, at the requested minute or later. */
  predicate Offers(zone: Zone, date: int, minute: int, t: int) {
    Midnight(date) + minute <= zone(t) < Midnight(date) + DAY
  }

  /** Instant `t` is to be preferred to `u`: an earlier reading, or the same reading earlier. */
  predicate Before(zone: Zone, t: int, u: int) {
    zone(t) < zone(u) || (zone(t) == zone(u) && t <= u)
  }

  /**
   The meaning of a local minute on a date: the smallest reading at or after it on
   that date, at the first instant that shows it.
   */
  ghost predicate Resolves(zone: Zone, date: int, minute: int, t: int) {
    Offers(zone, date, minute, t) && forall u :: Offers(zone, date, minute, u) ==> Before(zone, t, u)
  }

  /** First and last instant that `resolveLocalMinute` looks at. */
  function ScanStart(date: int): int {
    Midnight(date) - MAXIMUM_OFFSET
  }

  /** The scan covers the whole local date. */
  lemma ScanCoversDate(zone: Zone, date: int, minute: int, t: int)
    requires Bounded(zone) && 0 <= minute && Offers(zone, date, minute, t)
    ensures ScanStart(date) <= t <= ScanStart(date) + SCAN_MINUTES
  {
  }

  /** `resolveLocalMinute`. */
  method ResolveLocalMinute(zone: Zone, date: int, minute: int) returns (r: Option<int>)
    requires 0 <= minute < DAY
    ensures r.Some? ==> 1440 * date + minute <= zone(r.value) < 1440 * (date + 1)
    ensures Bounded(zone) && r.Some? ==> Resolves(zone, date, minute, r.value)
    ensures Bounded(zone) && r.None? ==> forall t :: !Offers(zone, date, minute, t)
  {
    var candidate := ScanStart(date);
    var end := candidate + SCAN_MINUTES;
    var firstAfterGap: Option<int> := None;
    var firstAfterGapMinute := DAY;
    while candidate <= end
      invariant ScanStart(date) <= candidate <= end + 1
      invariant forall t :: ScanStart(date) <= t < candidate ==> zone(t) != Midnight(date) + minute
      invariant firstAfterGap.None? ==>
          firstAfterGapMinute == DAY && forall t :: ScanStart(date) <= t < candidate ==> !Offers(zone, date, minute, t)
      invariant firstAfterGap.Some? ==>
          && ScanStart(date) <= firstAfterGap.value < candidate
          && Offers(zone, date, minute, firstAfterGap.value)
          && zone(firstAfterGap.value) == Midnight(date) + firstAfterGapMinute
          && forall t :: ScanStart(date) <= t < candidate && Offers(zone, date, minute, t) ==>
            Before(zone, firstAfterGap.value, t)
    {
      var local := zone(candidate);
      if Date(local) == date {
        var candidateMinute := local % 1440;
        if candidateMinute == minute {
          forall t | Bounded(zone) && Offers(zone, date, minute, t)
            ensures Before(zone, candidate, t)
          {
            ScanCoversDate(zone, date, minute, t);
          }
          return Some(candidate);
        }
        if candidateMinute > minute && candidateMinute < firstAfterGapMinute {
          firstAfterGap, firstAfterGapMinute := Some(candidate), candidateMinute;
        }
      }
      candidate := candidate + 1;
    }
    forall t | Bounded(zone) && Offers(zone, date, minute, t)
      ensures ScanStart(date) <= t <= end
    {
      ScanCoversDate(zone, date, minute, t);
    }
    return firstAfterGap;
  }

  /** The scan is as short as it can be: zones at fourteen hours use its first and its last but one minute. */
  lemma ScanIsTight(date: int)
    ensures var east := (t: int) => t + MAXIMUM_OFFSET;
            Bounded(east) && Resolves(east, date, 0, ScanStart(date))
    ensures var west := (t: int) => t - MAXIMUM_OFFSET;
            Bounded(west) && Resolves(west, date, DAY - 1, ScanStart(date) + SCAN_MINUTES - 1)
  {
  }

  lemma ResolvesOnce(zone: Zone, date: int, minute: int, t: int, u: int)
    requires Resolves(zone, date, minute, t) && Resolves(zone, date, minute, u)
    ensures t == u
  {
  }

  lemma {:induction false} ResolvesExists(zone: Zone, date: int, minute: int, t: int)
    requires Bounded(zone) && 0 <= minute && Offers(zone, date, minute, t)
    ensures exists u :: Resolves(zone, date, minute, u)
    decreases zone(t) - Midnight(date) - minute, t - ScanStart(date)
  {
    if u :| Offers(zone, date, minute, u) && !Before(zone, t, u) {
      ScanCoversDate(zone, date, minute, t);
      ScanCoversDate(zone, date, minute, u);
      ResolvesExists(zone, date, minute, u);
    } else {
      assert Resolves(zone, date, minute, t);
    }
  }

  /** A minute that is shown resolves to its first showing; a skipped one to the smallest later reading. */
  lemma FoldsAndGaps(zone: Zone, date: int, minute: int, t: int)
    requires 0 <= minute < DAY && Resolves(zone, date, minute, t)
    ensures forall u :: zone(u) == Midnight(date) + minute ==> zone(t) == zone(u) && t <= u
    ensures (forall u :: zone(u) != Midnight(date) + minute) ==>
              zone(t) > Midnight(date) + minute &&
                forall u :: Midnight(date) + minute < zone(u) < Midnight(date) + DAY ==> zone(t) <= zone(u)
  {
    assert forall u :: zone(u) == Midnight(date) + minute ==> Offers(zone, date, minute, u);
    assert forall u :: Midnight(date) + minute < zone(u) < Midnight(date) + DAY ==> Offers(zone, date, minute, u);
  }

  // ---- The search over dates ----

  ghost function Resolved(zone: Zone, date: int, minute: int): (r: Option<int>)
    ensures r.Some? ==> Resolves(zone, date, minute, r.value)
    ensures r.None? ==> forall t :: !Resolves(zone, date, minute, t)
  {
    if t :| Resolves(zone, date, minute, t) then Some(t) else None
  }

  lemma ResolvedIs(zone: Zone, date: int, minute: int, r: Option<int>)
    requires r.Some? ==> Resolves(zone, date, minute, r.value)
    requires r.None? ==> forall t :: !Offers(zone, date, minute, t)
    ensures Resolved(zone, date, minute) == r
  {
  }

  function Offset(zone: Zone, t: int): int {
    zone(t) - t
  }

  /**
   The date on which `time.Date` puts the noon of a date: the offset is looked up twice,
   first as if the reading were UTC and then at the instant this gives.  Where the noon is
   not shown the result may be another date.
   */
  function NoonDate(zone: Zone, date: int): int {
    var noon := Midnight(date) + 720;
    var guess := noon - Offset(zone, noon);
    Date(zone(noon - Offset(zone, guess)))
  }

  /** Tries `left` noons from `date` on: the first enabled date that fails to resolve or resolves after `after`. */
  ghost function Search(zone: Zone, definition: Definition, after: int, date: int, left: nat): Result<int, Error>
    decreases left
  {
    if left == 0 then Err(NoneWithinOneYear)
    else
      var local := NoonDate(zone, date);
      if !definition.Enabled(local) then Search(zone, definition, after, date + 1, left - 1)
      else
        match Resolved(zone, local, definition.minute)
        case None => Err(Unresolvable(local))
        case Some(t) => if t > after then Ok(t) else Search(zone, definition, after, date + 1, left - 1)
  }

  ghost function Next(zone: Zone, definition: Definition, after: int): Result<int, Error> {
    Search(zone, definition, after, Date(zone(after)), MAXIMUM_SEARCH_DAYS)
  }

  /** The reading is at or after the minute of the definition on a day so many days after a Monday as it lists. */
  ghost predicate OnListedDay(local: int, definition: Definition) {
    local % 1440 >= definition.minute && exists w :: w in definition.weekdays && (local / 1440 - 4) % 7 == w - 1
  }

  lemma {:induction false} OnItsDay(local: int, definition: Definition, date: int)
    requires definition.Valid() && definition.Enabled(date)
    requires 1440 * date + definition.minute <= local < 1440 * (date + 1)
    ensures OnListedDay(local, definition)
  {
    var week, i := (date - 4) / 7, (date - 4) % 7;
    WeekdayOfDay(week, i);
    assert local / 1440 == date;
  }

  /** `NextOccurrence`. */
  method NextOccurrence(zone: Zone, definition: Definition, after: int) returns (r: Result<int, Error>)
    requires definition.Valid()
    ensures r.Ok? ==> r.value > after && OnListedDay(zone(r.value), definition)
    ensures Bounded(zone) ==> r == Next(zone, definition, after)
  {
    hide Resolves, Offers, Bounded, NoonDate;
    var first := Date(zone(after));
    var dayOffset := 0;
    while dayOffset < MAXIMUM_SEARCH_DAYS
      invariant 0 <= dayOffset <= MAXIMUM_SEARCH_DAYS
      invariant Bounded(zone) ==>
          Search(zone, definition, after, first + dayOffset, MAXIMUM_SEARCH_DAYS - dayOffset) ==
          Next(zone, definition, after)
    {
      var date := NoonDate(zone, first + dayOffset);
      if definition.Enabled(date) {
        var candidate := ResolveLocalMinute(zone, date, definition.minute);
        if Bounded(zone) {
          ResolvedIs(zone, date, definition.minute, candidate);
        }
        if candidate.None? {
          return Err(Unresolvable(date));
        }
        if candidate.value > after {
          OnItsDay(zone(candidate.value), definition, date);
          return Ok(candidate.value);
        }
      }
      dayOffset := dayOffset + 1;
    }
    return Err(NoneWithinOneYear);
  }

  // ---- What the search finds ----

  /** The date shows the requested minute or a later one. */
  ghost predicate Shown(zone: Zone, date: int, minute: int) {
    exists t :: Offers(zone, date, minute, t)
  }

  /** The clock shows the date at all. */
  ghost predicate Present(zone: Zone, date: int) {
    exists t :: Date(zone(t)) == date
  }

  /**
   Zones in use: a date that is shown is shown at its noon, and of two dates a week apart
   one is shown, so a date may be skipped as a whole.
   */
  ghost predicate Calendar(zone: Zone) {
    forall date ::
      && (Present(zone, date) ==> NoonDate(zone, date) == date)
      && (Present(zone, date) || Present(zone, date + 7))
  }

  /** No enabled date that the clock shows lacks the minute and everything after it. */
  ghost predicate DatesShown(zone: Zone, definition: Definition) {
    forall date :: definition.Enabled(date) && Present(zone, date) ==> Shown(zone, date, definition.minute)
  }

  /** An enabled date is resolved before the clock first shows a later date. */
  ghost predicate InOrder(zone: Zone, definition: Definition) {
    forall date, t, u ::
      definition.Enabled(date) && Resolves(zone, date, definition.minute, t) && Date(zone(u)) > date ==> t < u
  }

  /** An enabled date resolves to `t`. */
  ghost predicate Occurs(zone: Zone, definition: Definition, t: int) {
    exists date :: definition.Enabled(date) && Resolves(zone, date, definition.minute, t)
  }

  ghost predicate NondecreasingDates(zone: Zone) {
    forall t, u :: t <= u ==> Date(zone(t)) <= Date(zone(u))
  }

  /** Zones whose date never runs backwards are in order, whatever else their offsets do. */
  lemma NondecreasingIsInOrder(zone: Zone, definition: Definition)
    requires NondecreasingDates(zone) && definition.Valid()
    ensures InOrder(zone, definition)
  {
    forall date, t, u | Resolves(zone, date, definition.minute, t) && Date(zone(u)) > date
      ensures t < u
    {
      assert u <= t ==> Date(zone(u)) <= Date(zone(t));
    }
  }

  /** A noon is put on its own date or on a neighbouring one. */
  lemma {:induction false} NoonIsNear(zone: Zone, date: int)
    requires Bounded(zone)
    ensures date - 1 <= NoonDate(zone, date) <= date + 1
  {
    var noon := Midnight(date) + 720;
    var guess := noon - Offset(zone, noon);
    var t := noon - Offset(zone, guess);
    assert -MAXIMUM_OFFSET <= Offset(zone, guess) <= MAXIMUM_OFFSET;
    assert -MAXIMUM_OFFSET <= zone(t) - t <= MAXIMUM_OFFSET;
  }

  /** The search ends at this noon, with an error or with an instant after `after`. */
  ghost predicate Stops(zone: Zone, definition: Definition, after: int, date: int) {
    var local := NoonDate(zone, date);
    definition.Enabled(local) &&
    (!Shown(zone, local, definition.minute) || exists t :: Resolves(zone, local, definition.minute, t) && t > after)
  }

  /** The first noon at which the search ends decides its result. */
  ghost predicate Decides(zone: Zone, definition: Definition, after: int, date: int, d: int, r: Result<int, Error>) {
    var local := NoonDate(zone, d);
    && date <= d && Stops(zone, definition, after, d)
    && (forall e :: date <= e < d ==> !Stops(zone, definition, after, e))
    && (r.Ok? ==> Resolves(zone, local, definition.minute, r.value) && r.value > after)
    && (r.Err? ==> r == Err(Unresolvable(local)) && !Shown(zone, local, definition.minute))
  }

  lemma ResolvedIfShown(zone: Zone, date: int, minute: int)
    requires Bounded(zone) && 0 <= minute
    ensures Resolved(zone, date, minute).Some? <==> Shown(zone, date, minute)
  {
    if t :| Offers(zone, date, minute, t) {
      ResolvesExists(zone, date, minute, t);
    }
  }

  /** A search over some noons ends at the first where it can end, or finds none of them. */
  lemma {:induction false} SearchDecides(zone: Zone, definition: Definition, after: int, date: int, left: nat)
    requires definition.Valid() && Bounded(zone)
    ensures var r := Search(zone, definition, after, date, left);
            || (&& r == Err(NoneWithinOneYear)
                && forall e :: date <= e < date + left ==> !Stops(zone, definition, after, e))
            || exists d :: d < date + left && Decides(zone, definition, after, date, d, r)
    decreases left
  {
    hide NoonDate;
    if left == 0 {
    } else {
      var minute, r, local := definition.minute, Search(zone, definition, after, date, left), NoonDate(zone, date);
      ResolvedIfShown(zone, local, minute);
      if Stops(zone, definition, after, date) {
        if t :| Resolves(zone, local, minute, t) && t > after {
          ResolvesOnce(zone, local, minute, t, Resolved(zone, local, minute).value);
        }
        assert Decides(zone, definition, after, date, date, r);
      } else {
        var next := date + 1;
        SearchDecides(zone, definition, after, next, left - 1);
        assert r == Search(zone, definition, after, next, left - 1);
        if d :| d < date + left && Decides(zone, definition, after, next, d, r) {
          assert Decides(zone, definition, after, date, d, r);
        }
      }
    }
  }

  /** Every run of seven dates holds an enabled one. */
  lemma EnabledWithinAWeek(definition: Definition, date: int) returns (goal: int)
    requires definition.Valid()
    ensures date <= goal < date + 7 && definition.Enabled(goal)
  {
    assert (forall w :: w !in definition.weekdays) ==> definition.weekdays == {};
    var w :| w in definition.weekdays;
    goal := date + (w - IsoWeekday(date)) % 7;
  }

  lemma SameWeekday(definition: Definition, date: int)
    ensures definition.Enabled(date + 7) <==> definition.Enabled(date)
  {
  }

  /** An enabled date that is shown lies three to sixteen days ahead, and to nine if none of these is skipped. */
  lemma {:induction false} GoalAhead(zone: Zone, definition: Definition, first: int) returns (goal: int)
    requires definition.Valid() && Calendar(zone)
    ensures first + 3 <= goal < first + 17 && definition.Enabled(goal) && Present(zone, goal)
    ensures (forall e :: first <= e < first + 10 ==> Present(zone, e)) ==> goal < first + 10
  {
    hide IsoWeekday, NoonDate, Present;
    goal := EnabledWithinAWeek(definition, first + 3);
    if !Present(zone, goal) {
      SameWeekday(definition, goal);
      goal := goal + 7;
    }
  }

  /** An enabled date that is shown three days ahead or later ends the search. */
  lemma {:induction false} StopsAhead(zone: Zone, definition: Definition, after: int, goal: int)
    requires definition.Valid() && Bounded(zone) && definition.Enabled(goal) && NoonDate(zone, goal) == goal
    requires goal >= Date(zone(after)) + 3
    ensures Stops(zone, definition, after, goal)
  {
    hide NoonDate;
    var minute := definition.minute;
    ResolvedIfShown(zone, goal, minute);
    if Shown(zone, goal, minute) {
      var t := Resolved(zone, goal, minute).value;
      assert zone(after) - after >= -MAXIMUM_OFFSET && zone(t) - t <= MAXIMUM_OFFSET;
    }
  }

  /** The error "within one year" stands for 370 noons without an end of the search. */
  lemma {:induction false} OneYearExactly(zone: Zone, definition: Definition, after: int)
    requires definition.Valid() && Bounded(zone)
    ensures Next(zone, definition, after) == Err(NoneWithinOneYear) <==>
            forall e :: Date(zone(after)) <= e < Date(zone(after)) + 370 ==> !Stops(zone, definition, after, e)
  {
    hide Search, Stops;
    SearchDecides(zone, definition, after, Date(zone(after)), MAXIMUM_SEARCH_DAYS);
  }

  /**
   The search ends within ten days if no date of them is skipped, and within seventeen in
   every zone in use.  It fails only at an enabled date that is shown but neither at the
   minute nor later, when no occurrence after `after` comes before; the "within one year"
   error cannot happen.
   */
  lemma {:induction false} NextDecides(zone: Zone, definition: Definition, after: int)
    requires definition.Valid() && Bounded(zone) && Calendar(zone)
    ensures var first := Date(zone(after));
            exists d ::
              && d < first + (if forall e :: first <= e < first + 10 ==> Present(zone, e) then 10 else 17)
              && Decides(zone, definition, after, first, d, Next(zone, definition, after))
    ensures Next(zone, definition, after) != Err(NoneWithinOneYear)
  {
    hide NoonDate, Present, Stops, Resolves, Shown, IsoWeekday;
    var first, r := Date(zone(after)), Next(zone, definition, after);
    var goal := GoalAhead(zone, definition, first);
    StopsAhead(zone, definition, after, goal);
    SearchDecides(zone, definition, after, first, MAXIMUM_SEARCH_DAYS);
    var d :| d < first + MAXIMUM_SEARCH_DAYS && Decides(zone, definition, after, first, d, r);
    assert d <= goal;
  }

  /** The search returns the least occurrence after `after` over all enabled dates. */
  ghost predicate FindsLeast(zone: Zone, definition: Definition, after: int) {
    var r := Next(zone, definition, after);
    && r.Ok? && r.value > after && Occurs(zone, definition, r.value)
    && forall t :: t > after && Occurs(zone, definition, t) ==> r.value <= t
  }

  lemma ResolvesOnItsDate(zone: Zone, date: int, minute: int, t: int)
    requires 0 <= minute < DAY && Resolves(zone, date, minute, t)
    ensures Date(zone(t)) == date && Shown(zone, date, minute) && Present(zone, date)
  {
  }

  /** Where the search ends, without the search: at noon `d`, which is put on date `local`. */
  lemma {:induction false} NextStops(zone: Zone, definition: Definition, after: int) returns (d: int, local: int)
    requires definition.Valid() && Bounded(zone) && Calendar(zone)
    ensures var r := Next(zone, definition, after);
            && Date(zone(after)) <= d && local == NoonDate(zone, d) && d - 1 <= local <= d + 1
            && definition.Enabled(local) && (Present(zone, d) ==> local == d)
            && (r.Ok? ==>
                  Resolves(zone, local, definition.minute, r.value) && r.value > after && Date(zone(r.value)) == local)
            && (r.Err? ==> !Shown(zone, local, definition.minute))
            && forall e :: Date(zone(after)) <= e < d ==> !Stops(zone, definition, after, e)
  {
    NextDecides(zone, definition, after);
    var r := Next(zone, definition, after);
    d :| Decides(zone, definition, after, Date(zone(after)), d, r);
    assert Decides(zone, definition, after, Date(zone(after)), d, r);
    assert Stops(zone, definition, after, d);
    local := NoonDate(zone, d);
    NoonIsNear(zone, d);
    if r.Ok? {
      ResolvesOnItsDate(zone, local, definition.minute, r.value);
    }
  }

  /** A date with an occurrence after `after` ends the search. */
  lemma {:induction false} OccurrenceStops(zone: Zone, definition: Definition, after: int, e: int, t: int)
    requires definition.Valid() && Calendar(zone) && definition.Enabled(e)
    requires Resolves(zone, e, definition.minute, t) && t > after
    ensures NoonDate(zone, e) == e && Stops(zone, definition, after, e) && Date(zone(t)) == e
  {
    hide NoonDate, Resolves, Present;
    ResolvesOnItsDate(zone, e, definition.minute, t);
  }

  /**
   An enabled date comes up that is shown, but neither at the minute nor later, and no
   enabled date from today up to it has an occurrence after `after`.
   */
  ghost predicate DeadEnd(zone: Zone, definition: Definition, after: int) {
    exists d ::
      && Date(zone(after)) <= d && definition.Enabled(d) && Present(zone, d) && !Shown(zone, d, definition.minute)
      && NothingBefore(zone, definition, after, d)
  }

  ghost predicate NothingBefore(zone: Zone, definition: Definition, after: int, d: int) {
    forall e, t ::
      Date(zone(after)) <= e < d && definition.Enabled(e) && Resolves(zone, e, definition.minute, t) ==> t <= after
  }

  /** The search fails exactly at a dead end. */
  lemma {:induction false} NextFailsExactly(zone: Zone, definition: Definition, after: int)
    requires definition.Valid() && Bounded(zone) && Calendar(zone)
    ensures Next(zone, definition, after).Err? <==> DeadEnd(zone, definition, after)
  {
    hide Resolves, Shown, Bounded, Next, NoonDate, Stops, Calendar;
    var first, minute, r := Date(zone(after)), definition.minute, Next(zone, definition, after);
    var d, local := NextStops(zone, definition, after);
    assert Present(zone, first);
    LocalIsPresent(zone, d);
    assert first <= local;
    if r.Err? {
      forall e, t | first <= e < local && definition.Enabled(e) && Resolves(zone, e, minute, t)
        ensures t <= after
      {
        ResolvesOnItsDate(zone, e, minute, t);
        if t > after {
          OccurrenceStops(zone, definition, after, e, t);
        }
      }
      assert NothingBefore(zone, definition, after, local);
    } else if DeadEnd(zone, definition, after) {
      var e :| first <= e && definition.Enabled(e) && Present(zone, e) && !Shown(zone, e, minute)
        && NothingBefore(zone, definition, after, e);
      UnshownStops(zone, definition, after, e);
      ResolvesOnItsDate(zone, local, minute, r.value);
      assert false;
    }
  }

  lemma UnshownStops(zone: Zone, definition: Definition, after: int, e: int)
    requires Calendar(zone) && definition.Enabled(e) && Present(zone, e) && !Shown(zone, e, definition.minute)
    ensures Stops(zone, definition, after, e) && NoonDate(zone, e) == e
  {
    hide NoonDate, Present;
  }

  /** A definition whose dates all have occurrences meets no dead end. */
  lemma ShownIsNoDeadEnd(zone: Zone, definition: Definition, after: int)
    requires DatesShown(zone, definition)
    ensures !DeadEnd(zone, definition, after)
  {
    hide Present, Shown;
  }

  lemma {:induction false} NextIsLeast(zone: Zone, definition: Definition, after: int)
    requires definition.Valid() && Bounded(zone) && Calendar(zone)
    requires DatesShown(zone, definition) && InOrder(zone, definition)
    ensures FindsLeast(zone, definition, after)
  {
    hide Resolves, Shown, Bounded, Next, NoonDate, Stops, Calendar;
    var minute, r := definition.minute, Next(zone, definition, after);
    var d, local := NextStops(zone, definition, after);
    LocalIsPresent(zone, d);
    assert r.Ok? && Occurs(zone, definition, r.value);
    forall t | t > after && Occurs(zone, definition, t)
      ensures r.value <= t
    {
      var e :| definition.Enabled(e) && Resolves(zone, e, minute, t);
      OccurrenceStops(zone, definition, after, e, t);
      if e == local {
        ResolvesOnce(zone, local, minute, r.value, t);
      }
    }
  }

  lemma LocalIsPresent(zone: Zone, date: int)
    ensures Present(zone, NoonDate(zone, date))
  {
  }

  /** A search that always finds the least occurrence resolves a date before a later one is shown. */
  lemma {:induction false} LeastIsInOrder(zone: Zone, definition: Definition, date: int, t: int, u: int)
    requires definition.Valid() && Bounded(zone) && Calendar(zone)
    requires forall after :: FindsLeast(zone, definition, after)
    requires definition.Enabled(date) && Resolves(zone, date, definition.minute, t) && Date(zone(u)) > date
    ensures t < u
    decreases t - u
  {
    hide Resolves, Shown, Bounded, Next, NoonDate, Stops, Calendar;
    ResolvesOnItsDate(zone, date, definition.minute, t);
    if u < t {
      var d, local := NextStops(zone, definition, u);
      assert Present(zone, Date(zone(u)));
      assert FindsLeast(zone, definition, u) && Occurs(zone, definition, t);
      LeastIsInOrder(zone, definition, date, t, Next(zone, definition, u).value);
    }
  }

  /** The last instant at which the clock shows `date` or an earlier date. */
  lemma {:induction false} LastInstant(zone: Zone, date: int, t: int) returns (last: int)
    requires Bounded(zone) && forall u :: u > t ==> Date(zone(u)) > date
    ensures Date(zone(last)) <= date && forall u :: u > last ==> Date(zone(u)) > date
    decreases t - Midnight(date) + MAXIMUM_OFFSET + 1
  {
    last := t;
    assert zone(t) <= t + MAXIMUM_OFFSET;
    if Date(zone(t)) > date {
      last := LastInstant(zone, date, t - 1);
    }
  }

  /**
   From that instant the search meets no occurrence up to the date, and fails there or
   before if the date is shown but cannot be resolved.
   */
  lemma {:induction false} UnshownDateFails(zone: Zone, definition: Definition, date: int) returns (after: int)
    requires definition.Valid() && Bounded(zone) && Calendar(zone)
    requires definition.Enabled(date) && Present(zone, date) && !Shown(zone, date, definition.minute)
    ensures Next(zone, definition, after).Err? && !FindsLeast(zone, definition, after)
  {
    var late := Midnight(date + 1) + MAXIMUM_OFFSET;
    forall u | u > late
      ensures Date(zone(u)) > date
    {
      assert zone(u) >= u - MAXIMUM_OFFSET;
    }
    after := LastInstant(zone, date, late);
    assert NoonDate(zone, date) == date;
    hide NoonDate, Resolves, Shown, Bounded, Next, Calendar;
    var d, local := NextStops(zone, definition, after);
    assert Stops(zone, definition, after, date);
    assert d <= date;
  }

  /**
   The search finds the least occurrence after every instant if and only if every enabled
   date that is shown has an occurrence, and each is resolved before the clock shows a
   later date.
   */
  lemma {:induction false} LeastExactlyWhen(zone: Zone, definition: Definition)
    requires definition.Valid() && Bounded(zone) && Calendar(zone)
    ensures (forall after :: FindsLeast(zone, definition, after)) <==>
            DatesShown(zone, definition) && InOrder(zone, definition)
  {
    hide Resolves, Shown, NoonDate, Present;
    if DatesShown(zone, definition) && InOrder(zone, definition) {
      forall after: int
        ensures FindsLeast(zone, definition, after)
      {
        NextIsLeast(zone, definition, after);
      }
    } else if !DatesShown(zone, definition) {
      var date :| definition.Enabled(date) && Present(zone, date) && !Shown(zone, date, definition.minute);
      var after := UnshownDateFails(zone, definition, date);
    } else if forall after :: FindsLeast(zone, definition, after) {
      forall date, t, u | definition.Enabled(date) && Resolves(zone, date, definition.minute, t) && Date(zone(u)) > date
        ensures t < u
      {
        LeastIsInOrder(zone, definition, date, t, u);
      }
    }
  }
}

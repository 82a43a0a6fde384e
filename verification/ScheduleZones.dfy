/**
 The conditions of `Schedule.LeastExactlyWhen` in particular zones, with instants counted
 from a change of the clock: a whole date that is skipped does no harm, an hour that is
 skipped at the end of a date makes the search fail, and a date that comes back makes it
 miss an occurrence.
 */
module ScheduleZones {
  import opened Wrappers
  import opened Schedule

  const EVERY_DAY := {1, 2, 3, 4, 5, 6, 7}

  lemma EveryDayIsEnabled(minute: int, date: int)
    requires 0 <= minute < DAY
    ensures Definition(minute, EVERY_DAY).Valid() && Definition(minute, EVERY_DAY).Enabled(date)
  {
  }

  /** One noon of the search whose date resolves to `t`. */
  lemma {:induction false} SearchStep(zone: Zone, definition: Definition, after: int, date: int, left: nat, t: int)
    requires left > 0 && definition.Enabled(NoonDate(zone, date))
    requires Resolves(zone, NoonDate(zone, date), definition.minute, t)
    ensures Search(zone, definition, after, date, left) ==
            if t > after then Ok(t) else Search(zone, definition, after, date + 1, left - 1)
  {
    hide NoonDate;
    var local := NoonDate(zone, date);
    ResolvesOnce(zone, local, definition.minute, t, Resolved(zone, local, definition.minute).value);
  }

  // ---- Pacific/Apia, end of December 2011 ----

  /** Offset -10:00 until the end of date -1, then +14:00: date 0 is skipped. */
  function Apia(t: int): int {
    if t < 600 then t - 600 else t + 840
  }

  lemma {:induction false} ApiaSkipsADate()
    ensures Bounded(Apia) && Calendar(Apia) && NondecreasingDates(Apia) && !Present(Apia, 0)
    ensures NoonDate(Apia, 0) == 1
  {
    forall date: int
      ensures Present(Apia, date) <==> date != 0
      ensures Present(Apia, date) ==> NoonDate(Apia, date) == date
    {
      var noon := Midnight(date) + 720;
      if date < 0 {
        assert Date(Apia(noon + 600)) == date;
      } else if date > 0 {
        assert Date(Apia(noon - 840)) == date;
      }
    }
  }

  lemma {:induction false} ApiaResolves(date: int, minute: int)
    requires 0 <= minute < DAY && date != 0
    ensures Resolves(Apia, date, minute, Midnight(date) + minute + if date < 0 then 600 else -840)
  {
  }

  /** No daily schedule misses an occurrence. */
  lemma {:induction false} ApiaMissesNothing(minute: int)
    requires 0 <= minute < DAY
    ensures forall after :: FindsLeast(Apia, Definition(minute, EVERY_DAY), after)
  {
    var daily := Definition(minute, EVERY_DAY);
    ApiaSkipsADate();
    EveryDayIsEnabled(minute, 0);
    NondecreasingIsInOrder(Apia, daily);
    hide Resolves, NoonDate, Apia, Bounded, Calendar, NondecreasingDates, Present, InOrder, Shown, FindsLeast;
    forall date | Present(Apia, date)
      ensures Shown(Apia, date, minute)
    {
      ApiaResolves(date, minute);
      ResolvesOnItsDate(Apia, date, minute, Midnight(date) + minute + if date < 0 then 600 else -840);
    }
    LeastExactlyWhen(Apia, daily);
  }

  /** A daily schedule goes on with the date after the skipped one. */
  lemma {:induction false} ApiaGoesOn(minute: int)
    requires 0 <= minute < DAY
    ensures Next(Apia, Definition(minute, EVERY_DAY), minute - 840) == Ok(600 + minute)
  {
    var daily, after := Definition(minute, EVERY_DAY), minute - 840;
    ApiaResolves(-1, minute);
    ApiaResolves(1, minute);
    ApiaNoons();
    EveryDayIsEnabled(minute, -1);
    EveryDayIsEnabled(minute, 1);
    ResolvesOnItsDate(Apia, -1, minute, after);
    hide Resolves, NoonDate, Apia;
    SearchStep(Apia, daily, after, -1, MAXIMUM_SEARCH_DAYS, after);
    SearchStep(Apia, daily, after, 0, MAXIMUM_SEARCH_DAYS - 1, 600 + minute);
  }

  lemma ApiaNoons()
    ensures NoonDate(Apia, -1) == -1 && NoonDate(Apia, 0) == 1
  {
  }

  // ---- America/Nuuk, end of March ----

  /** Offset -2:00 until 23:00 of date -1, then -1:00: the last hour of date -1 is skipped. */
  function Nuuk(t: int): int {
    if t < 60 then t - 120 else t - 60
  }

  lemma {:induction false} NuukIsInUse()
    ensures Bounded(Nuuk) && Calendar(Nuuk) && NondecreasingDates(Nuuk)
  {
    forall date: int
      ensures Present(Nuuk, date) && NoonDate(Nuuk, date) == date
    {
      var noon := Midnight(date) + 720;
      assert Date(Nuuk(noon + if date < 0 then 120 else 60)) == date;
    }
  }

  lemma {:induction false} NuukDates(minute: int)
    requires 1380 <= minute < DAY
    ensures Resolves(Nuuk, -2, minute, minute - 2760) && !Shown(Nuuk, -1, minute)
    ensures NoonDate(Nuuk, -2) == -2 && NoonDate(Nuuk, -1) == -1 && Date(Nuuk(minute - 2760)) == -2
  {
  }

  /** A daily schedule in the skipped hour has no next occurrence the day before. */
  lemma {:induction false} NuukHasNoNext(minute: int)
    requires 1380 <= minute < DAY
    ensures Bounded(Nuuk) && Calendar(Nuuk) && NondecreasingDates(Nuuk)
    ensures var daily := Definition(minute, EVERY_DAY);
            && daily.Valid() && !DatesShown(Nuuk, daily)
            && Occurs(Nuuk, daily, minute - 2760) && Next(Nuuk, daily, minute - 2760) == Err(Unresolvable(-1))
  {
    var daily, after := Definition(minute, EVERY_DAY), minute - 2760;
    NuukIsInUse();
    NuukDates(minute);
    EveryDayIsEnabled(minute, -2);
    EveryDayIsEnabled(minute, -1);
    hide Nuuk, NoonDate, Resolves, Calendar, Bounded, NondecreasingDates;
    SearchStep(Nuuk, daily, after, -2, MAXIMUM_SEARCH_DAYS, after);
    NothingResolves(Nuuk, -1, minute);
    assert Search(Nuuk, daily, after, -1, MAXIMUM_SEARCH_DAYS - 1) == Err(Unresolvable(-1));
    LocalIsPresent(Nuuk, -1);
  }

  lemma NothingResolves(zone: Zone, date: int, minute: int)
    requires !Shown(zone, date, minute)
    ensures Resolved(zone, date, minute) == None
  {
  }

  // ---- A date that comes back ----

  /**
   A zone that no time zone database has: it shows date 1 for ten minutes before date 0
   begins.  It is regular otherwise, so the order is needed in `LeastExactlyWhen`.
   */
  function Regressing(t: int): int {
    if t < 600 then t - 840 else if t < 610 then t + 840 else t - 610
  }

  lemma {:induction false} RegressingIsRegular()
    ensures Bounded(Regressing) && Calendar(Regressing)
  {
    forall date: int
      ensures Present(Regressing, date) && NoonDate(Regressing, date) == date
    {
      var noon := Midnight(date) + 720;
      assert Date(Regressing(noon + if date < 0 then 840 else 610)) == date;
    }
  }

  lemma {:induction false} RegressingResolves()
    ensures Resolves(Regressing, 0, 0, 610) && Resolves(Regressing, 1, 0, 600) && Resolves(Regressing, 2, 0, 3490)
    ensures NoonDate(Regressing, 1) == 1 && NoonDate(Regressing, 2) == 2 && Date(Regressing(600)) == 1
    ensures forall date :: Shown(Regressing, date, 0)
  {
    forall date: int
      ensures Shown(Regressing, date, 0)
    {
      assert Offers(Regressing, date, 0, Midnight(date) + 700 + if date < 0 then 840 else 610);
    }
  }

  /** From the ten minutes the search passes over the midnight of date 0 and returns that of date 2. */
  lemma {:induction false} RegressingDateIsMissed()
    ensures Bounded(Regressing) && Calendar(Regressing)
    ensures var daily := Definition(0, EVERY_DAY);
            && daily.Valid() && DatesShown(Regressing, daily)
            && Occurs(Regressing, daily, 610) && Next(Regressing, daily, 600) == Ok(3490)
  {
    var daily := Definition(0, EVERY_DAY);
    RegressingIsRegular();
    RegressingResolves();
    EveryDayIsEnabled(0, 0);
    EveryDayIsEnabled(0, 1);
    EveryDayIsEnabled(0, 2);
    hide NoonDate, Resolves, Regressing, Calendar, Bounded;
    SearchStep(Regressing, daily, 600, 1, MAXIMUM_SEARCH_DAYS, 600);
    SearchStep(Regressing, daily, 600, 2, MAXIMUM_SEARCH_DAYS - 1, 3490);
  }

  // ---- Noon ----

  /** In a zone that shows date 0 from 12:01 on only, its noon falls on the next date. */
  lemma NoonIsTwelve()
    ensures var zone := (t: int) => if t < 0 then t - 700 else t + 721;
            Bounded(zone) && Date(zone(-1)) == -1 && zone(0) == 12 * 60 + 1 && NoonDate(zone, 0) == 1
  {
  }
}

/** What holds of every reading state that commands can reach, and which commands commute. */
module ReadingRuns {
  import opened Wrappers
  import opened Ordering
  import opened ReadingState

  // ---- The invariant ----

  /** Stronger than the validator: positions belong to Later, reasons to the archive, tags are a sorted set. */
  ghost predicate Sound(text: Text, s: State) {
    && Accepted(s)
    && (s.laterPosition.Some? <==> s.location == Later)
    && (s.dismissed.Some? ==> s.location == Archive && s.dismissed.value in text.reasons)
    && Strict(Less, s.tags)
    && (forall t :: t in s.tags ==> text.trim(t) != "")
  }

  lemma {:induction false} WithoutHas(tags: seq<string>, tag: string, t: string)
    ensures t in Without(tags, tag) <==> t in tags && t != tag
  {
    if tags == [] {
    } else {
      WithoutHas(tags[1..], tag, t);
      assert tags == [tags[0]] + tags[1..];
    }
  }

  lemma {:induction false} WithoutSorted(tags: seq<string>, tag: string)
    requires Strict(Less, tags)
    ensures Strict(Less, Without(tags, tag))
  {
    hide Less;
    if tags == [] {
    } else {
      var rest := Without(tags[1..], tag);
      WithoutSorted(tags[1..], tag);
      forall i | 0 <= i < |rest|
        ensures Less(tags[0], rest[i])
      {
        WithoutHas(tags[1..], tag, rest[i]);
      }
    }
  }

  lemma {:induction false} LessIsWeak(tags: seq<string>)
    ensures Weak(Less, tags)
  {
    hide Less;
    forall a, b | a in tags && b in tags && Less(a, b)
      ensures !Less(b, a)
    {
      LessIsTotal(a, b);
    }
    forall a, b, c | a in tags && b in tags && c in tags && Less(a, c)
      ensures Less(a, b) || Less(b, c)
    {
      LessIsTotal(a, b);
      if Less(b, a) {
        LessIsTransitive(b, a, c);
      }
    }
  }

  lemma {:induction false} LessIsComparable(tags: seq<string>)
    ensures Comparable(Less, tags) && Asymmetric(Less, tags)
  {
    hide Less;
    forall x, y | x in tags && y in tags
      ensures (x == y || Less(x, y) || Less(y, x)) && !(Less(x, y) && Less(y, x))
    {
      LessIsTotal(x, y);
    }
  }

  /** Sorting distinct tags gives a strictly sorted list of the same tags. */
  lemma {:induction false} AddedSorted(tags: seq<string>, tag: string)
    requires Strict(Less, tags) && tag !in tags
    ensures var added := Sort(Less, tags + [tag]);
            Strict(Less, added) && forall t :: t in added <==> t in tags || t == tag
  {
    var all := tags + [tag];
    assert Once(all) by {
      LessIsComparable(tags);
      forall i, j | 0 <= i < j < |all|
        ensures all[i] != all[j]
      {
        if j < |tags| {
          LessIsTotal(tags[i], tags[j]);
        }
      }
    }
    hide Less, Sort, Once, Weak, Comparable, Strict;
    LessIsWeak(all);
    LessIsComparable(all);
    SortIsStrict(Less, all);
  }

  lemma {:induction false} NextTagsSorted(text: Text, tags: seq<string>, c: Command)
    requires Strict(Less, tags)
    ensures var next := NextTags(tags, c);
            Strict(Less, next) && forall t :: t in next <==> TagAfter(tags, c, t)
  {
    hide Sort, Without, Strict;
    if c.tag.Some? && c.action.AddTag? && c.tag.value !in tags {
      AddedSorted(tags, c.tag.value);
    } else if c.tag.Some? && c.action.RemoveTag? {
      WithoutSorted(tags, c.tag.value);
      forall t: string
        ensures t in Without(tags, c.tag.value) <==> t in tags && t != c.tag.value
      {
        WithoutHas(tags, c.tag.value, t);
      }
    }
  }

  /** Whether a tag is there after a command. */
  predicate TagAfter(tags: seq<string>, c: Command, t: string) {
    if c.action.AddTag? && c.tag == Some(t) then true
    else if c.action.RemoveTag? && c.tag == Some(t) then false
    else t in tags
  }

  /** Every command that is not refused keeps the invariant, so the closing validation never rejects. */
  lemma {:induction false} NextIsSound(text: Text, s: State, c: Command, now: int)
    requires Sound(text, s) && !Refused(text, s, c, now)
    ensures Sound(text, Next(text, s, c, now))
  {
    hide NextTags, Strict;
    NextTagsSorted(text, s.tags, c);
  }

  /** A command fails exactly when it is refused on its own terms. */
  lemma {:induction false} FailsExactlyWhenRefused(text: Text, s: State, c: Command, now: int)
    requires Sound(text, s)
    ensures Outcome(text, s, c, now).Err? <==> Refused(text, s, c, now)
    ensures Outcome(text, s, c, now).Ok? ==> Sound(text, Outcome(text, s, c, now).value)
  {
    hide Refused, Next, Strict;
    if !Refused(text, s, c, now) {
      NextIsSound(text, s, c, now);
    }
  }

  // ---- Runs ----

  datatype Entry = Entry(command: Command, now: int)

  /** A command that fails leaves the state as it was. */
  function Run(text: Text, s: State, entries: seq<Entry>): State {
    if entries == [] then s
    else
      var before := Run(text, s, entries[..|entries| - 1]);
      var last := entries[|entries| - 1];
      match Outcome(text, before, last.command, last.now)
      case Ok(next) => next
      case Err(_) => before
  }

  function Applied(text: Text, s: State, entries: seq<Entry>): nat {
    if entries == [] then 0
    else
      var last := entries[|entries| - 1];
      Applied(text, s, entries[..|entries| - 1]) +
      if Outcome(text, Run(text, s, entries[..|entries| - 1]), last.command, last.now).Ok? then 1 else 0
  }

  /** Every reachable state satisfies the invariant, and its version counts the commands that took effect. */
  lemma {:induction false} ReachableIsSound(text: Text, story: string, now: int, entries: seq<Entry>)
    ensures var s := Run(text, Default(story, now), entries);
            Sound(text, s) && s.version == Applied(text, Default(story, now), entries) && s.story == story
  {
    hide Refused, Accepted, Strict, Sound;
    if entries == [] {
      DefaultIsSound(text, story, now);
    } else {
      var init, last := entries[..|entries| - 1], entries[|entries| - 1];
      ReachableIsSound(text, story, now, init);
      FailsExactlyWhenRefused(text, Run(text, Default(story, now), init), last.command, last.now);
    }
  }

  lemma DefaultIsSound(text: Text, story: string, now: int)
    ensures Sound(text, Default(story, now))
  {
  }

  // ---- Commands that commute ----

  datatype Axis = Stars | Tags | Progress | Place

  function AxisOf(a: Action): Axis {
    match a
    case Star => Stars
    case Unstar => Stars
    case AddTag => Tags
    case RemoveTag => Tags
    case UpdateProgress => Progress
    case _ => Place
  }

  function Then(text: Text, r: Result<State, Problem>, c: Command, now: int): Result<State, Problem> {
    match r
    case Err(e) => Err(e)
    case Ok(s) => Outcome(text, s, c, now)
  }

  lemma {:induction false} OtherAxisKeeps(text: Text, s: State, c: Command, d: Command, now: int)
    requires AxisOf(c.action) != AxisOf(d.action)
    ensures Refused(text, Next(text, s, c, now), d, now) <==> Refused(text, s, d, now)
  {
    hide NextTags, NextReason, NextParagraph;
    if AxisOf(c.action) != Place {
      var next := Next(text, s, c, now);
      assert next.location == s.location && next.snoozedUntil == s.snoozedUntil && next.snoozedFrom == s.snoozedFrom;
    }
  }

  lemma {:induction false} NextCommutes(text: Text, s: State, c: Command, d: Command, now: int)
    requires AxisOf(c.action) != AxisOf(d.action)
    ensures Next(text, Next(text, s, c, now), d, now) == Next(text, Next(text, s, d, now), c, now)
  {
    hide Sort, Without;
  }

  /** Commands on different axes at one time give the same result in either order, failures included. */
  lemma {:induction false} AxesCommute(text: Text, s: State, c: Command, d: Command, now: int)
    requires Sound(text, s) && AxisOf(c.action) != AxisOf(d.action)
    ensures Then(text, Outcome(text, s, c, now), d, now) == Then(text, Outcome(text, s, d, now), c, now)
  {
    hide Refused, Next, AxisOf, Sound, Accepted;
    FailsExactlyWhenRefused(text, s, c, now);
    FailsExactlyWhenRefused(text, s, d, now);
    OtherAxisKeeps(text, s, c, d, now);
    OtherAxisKeeps(text, s, d, c, now);
    NextCommutes(text, s, c, d, now);
    if !Refused(text, s, c, now) {
      FailsExactlyWhenRefused(text, Next(text, s, c, now), d, now);
    }
    if !Refused(text, s, d, now) {
      FailsExactlyWhenRefused(text, Next(text, s, d, now), c, now);
    }
    OneProblem(Then(text, Outcome(text, s, c, now), d, now));
    OneProblem(Then(text, Outcome(text, s, d, now), c, now));
  }

  lemma OneProblem<T>(r: Result<T, Problem>)
    ensures r.Err? ==> r == Err(Invalid)
  {
    match r
    case Ok(_) =>
    case Err(e) =>
      match e
      case Invalid =>
  }

  /** Adding and removing different tags also commute: the list depends on the set of tags only. */
  lemma {:induction false} DifferentTagsCommute(text: Text, tags: seq<string>, c: Command, d: Command)
    requires Strict(Less, tags) && c.tag != d.tag
    ensures NextTags(NextTags(tags, c), d) == NextTags(NextTags(tags, d), c)
  {
    hide NextTags, Strict;
    NextTagsSorted(text, tags, c);
    NextTagsSorted(text, tags, d);
    NextTagsSorted(text, NextTags(tags, c), d);
    NextTagsSorted(text, NextTags(tags, d), c);
    LessIsComparable(NextTags(NextTags(tags, c), d));
    StrictIsUnique(Less, NextTags(NextTags(tags, c), d), NextTags(NextTags(tags, d), c));
  }

  // ---- Snoozing and returning ----

  /** Actions that leave a snoozed story snoozed and in its place. */
  predicate Quiet(a: Action) {
    AxisOf(a) != Place || a.MarkRead? || a.MarkUnread? || a.AlreadyKnown? || a.Snooze? || a.Unknown?
  }

  lemma {:induction false} QuietKeepsPlace(text: Text, s: State, entries: seq<Entry>)
    requires forall i :: 0 <= i < |entries| ==> Quiet(entries[i].command.action)
    ensures var r := Run(text, s, entries);
            r.location == s.location && r.laterPosition == s.laterPosition && r.dismissed == s.dismissed &&
            (s.snoozedUntil.Some? ==> r.snoozedUntil.Some?) && (s.snoozedFrom.Some? ==> r.snoozedFrom.Some?)
  {
    hide NextTags, NextParagraph, Accepted;
    if entries == [] {
    } else {
      QuietKeepsPlace(text, s, entries[..|entries| - 1]);
    }
  }

  /**
   Snoozing a story, doing anything that does not move it, and returning it once the
   time has come puts it back where it was: same place, same position, unread, awake.
   */
  lemma {:induction false} SnoozeThenReturn(text: Text, s: State, snooze: Command, at: int, entries: seq<Entry>,
      return_: Command, now: int)
    requires Sound(text, s) && snooze.action.Snooze? && !Refused(text, s, snooze, at)
    requires forall i :: 0 <= i < |entries| ==> Quiet(entries[i].command.action)
    requires return_.action.ReturnSnoozed?
    requires var asleep := Run(text, Next(text, s, snooze, at), entries);
             asleep.snoozedUntil.Some? ==> asleep.snoozedUntil.value <= now
    ensures var r := Outcome(text, Run(text, Next(text, s, snooze, at), entries), return_, now);
            && r.Ok? && r.value.location == s.location && r.value.laterPosition == s.laterPosition
            && r.value.snoozedUntil.None? && r.value.snoozedFrom.None? && !r.value.isRead && r.value.readAt.None?
  {
    var first := Next(text, s, snooze, at);
    var asleep := Run(text, first, entries);
    assert first.location == s.location && first.laterPosition == s.laterPosition;
    assert first.snoozedUntil.Some? && first.snoozedFrom.Some?;
    NextIsSound(text, s, snooze, at);
    QuietKeepsPlace(text, first, entries);
    RunIsSound(text, first, entries);
    hide Run, Sound, NextTags, NextParagraph;
    FailsExactlyWhenRefused(text, asleep, return_, now);
  }

  lemma {:induction false} RunIsSound(text: Text, s: State, entries: seq<Entry>)
    requires Sound(text, s)
    ensures Sound(text, Run(text, s, entries))
  {
    hide Sound, Outcome;
    if entries == [] {
    } else {
      var before, last := Run(text, s, entries[..|entries| - 1]), entries[|entries| - 1];
      RunIsSound(text, s, entries[..|entries| - 1]);
      FailsExactlyWhenRefused(text, before, last.command, last.now);
    }
  }
}

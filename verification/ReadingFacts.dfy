/** What each command does to a story, in the words of the reader, and which command a field goes back to. */
module ReadingFacts {
  import opened Wrappers
  import opened Ordering
  import opened ReadingState
  import opened ReadingRuns

  /** Nanoseconds. */
  const DAY := 86_400_000_000_000

  /** Which commands are possible. */
  predicate Possible(text: Text, s: State, c: Command, now: int) {
    match c.action
    case Snooze => s.location != Archive && c.until.Some? && now < c.until.value <= now + 366 * DAY
    case ReturnSnoozed => s.snoozedUntil.Some? && s.snoozedFrom.Some? && s.snoozedUntil.value <= now
    case Dismiss => c.reason.Some? ==> text.trim(c.reason.value) in text.reasons
    case UpdateProgress =>
      && c.progress.Some? && 0.0 <= c.progress.value <= 1.0
      && (c.paragraph.Some? ==> text.trim(c.paragraph.value) != "" && text.bytes(text.trim(c.paragraph.value)) <= 255)
    case AddTag => c.tag.Some? && text.trim(c.tag.value) != ""
    case RemoveTag => c.tag.Some? && text.trim(c.tag.value) != ""
    case ReorderLater => s.location == Later && c.position.Some? && c.position.value >= 0
    case Unknown => false
    case _ => true
  }

  lemma {:induction false} SucceedsExactly(text: Text, s: State, c: Command, now: int)
    requires Sound(text, s)
    ensures Outcome(text, s, c, now).Ok? <==> Possible(text, s, c, now)
  {
    FailsExactlyWhenRefused(text, s, c, now);
    hide Outcome, Sound;
  }

  // ---- Places, stars, reading ----

  predicate Moves(a: Action) {
    a in {MoveInbox, MoveLater, MoveArchive, Dismiss}
  }

  predicate Stars(a: Action) {
    a in {Star, Unstar}
  }

  predicate TurnsPage(a: Action) {
    a in {MarkRead, AlreadyKnown, MarkUnread, Snooze, Unsnooze, ReturnSnoozed}
  }

  /** What holds of a story right after a command. */
  ghost predicate Done(text: Text, c: Command, now: int, t: State) {
    match c.action
    case MoveInbox => t.location == Inbox && t.dismissed.None? && t.snoozedUntil.None?
    case MoveLater => t.location == Later && t.laterPosition == Some(now / 1_000_000) && t.snoozedUntil.None?
    case MoveArchive => t.location == Archive && t.dismissed.None? && t.snoozedUntil.None?
    case Dismiss =>
      && t.location == Archive && t.snoozedUntil.None?
      && t.dismissed == if c.reason.Some? then Some(text.trim(c.reason.value)) else None
    case Star => t.starredAt == Some(now)
    case Unstar => t.starredAt.None?
    case MarkRead => t.isRead && t.readAt == Some(now)
    case AlreadyKnown => t.isRead && t.readAt == Some(now)
    case MarkUnread => !t.isRead && t.readAt.None?
    case Snooze => t.snoozedUntil == c.until && t.snoozedFrom == Some(t.location) && !t.isRead && t.readAt.None?
    case Unsnooze => t.snoozedUntil.None? && !t.isRead && t.readAt.None?
    case ReturnSnoozed => t.snoozedUntil.None? && !t.isRead && t.readAt.None?
    case UpdateProgress =>
      && c.progress == Some(t.progress)
      && (c.paragraph.Some? ==> t.paragraph == Some(text.trim(c.paragraph.value)))
    case AddTag => c.tag.Some? && c.tag.value in t.tags
    case RemoveTag => c.tag.Some? && c.tag.value !in t.tags
    case ReorderLater => t.laterPosition == c.position
    case Unknown => false
  }

  /** Every command that succeeds does what it says. */
  lemma {:induction false} CommandDoes(text: Text, s: State, c: Command, now: int)
    requires Sound(text, s) && Outcome(text, s, c, now).Ok?
    ensures Done(text, c, now, Outcome(text, s, c, now).value)
    ensures Outcome(text, s, c, now).value.updatedAt == now
  {
    hide Sort, Without, Strict;
    NextTagsSorted(text, s.tags, c);
    hide NextTags;
  }

  lemma {:induction false} RunJoin(text: Text, s: State, a: seq<Entry>, b: seq<Entry>)
    ensures Run(text, s, a + b) == Run(text, Run(text, s, a), b)
    decreases |b|
  {
    hide Outcome;
    if b == [] {
      assert a + b == a;
    } else {
      var n := |b| - 1;
      RunJoin(text, s, a, b[..n]);
      assert (a + b)[..|a + b| - 1] == a + b[..n];
      assert (a + b)[|a + b| - 1] == b[n];
    }
  }

  /** Commands of other kinds leave place, star, reading mark, progress, tags and position alone. */
  lemma {:induction false} OthersKeep(text: Text, s: State, entries: seq<Entry>)
    ensures var t := Run(text, s, entries);
            && ((forall e :: e in entries ==> !Moves(e.command.action)) ==> t.location == s.location)
            && ((forall e :: e in entries ==> !Stars(e.command.action)) ==> t.starredAt == s.starredAt)
            && ((forall e :: e in entries ==> !TurnsPage(e.command.action)) ==>
                  t.isRead == s.isRead && t.readAt == s.readAt)
            && ((forall e :: e in entries ==> e.command.action != UpdateProgress) ==>
                  t.progress == s.progress && t.paragraph == s.paragraph)
            && ((forall e :: e in entries ==> !(e.command.action in {AddTag, RemoveTag})) ==> t.tags == s.tags)
            && ((forall e :: e in entries ==> !Moves(e.command.action) && e.command.action != ReorderLater) ==>
                  t.laterPosition == s.laterPosition && t.dismissed == s.dismissed)
  {
    hide Outcome;
    if entries == [] {
    } else {
      var init, last := entries[..|entries| - 1], entries[|entries| - 1];
      assert entries == init + [last];
      OthersKeep(text, s, init);
      assert last in entries;
      assert forall e :: e in init ==> e in entries;
      StepKeeps(text, Run(text, s, init), last.command, last.now);
    }
  }

  lemma {:induction false} StepKeeps(text: Text, s: State, c: Command, now: int)
    ensures Outcome(text, s, c, now).Ok? ==>
            var t := Outcome(text, s, c, now).value;
            && (!Moves(c.action) ==> t.location == s.location)
            && (!Stars(c.action) ==> t.starredAt == s.starredAt)
            && (!TurnsPage(c.action) ==> t.isRead == s.isRead && t.readAt == s.readAt)
            && (c.action != UpdateProgress ==> t.progress == s.progress && t.paragraph == s.paragraph)
            && (!(c.action in {AddTag, RemoveTag}) ==> t.tags == s.tags)
            && (!Moves(c.action) && c.action != ReorderLater ==>
                  t.laterPosition == s.laterPosition && t.dismissed == s.dismissed)
  {
  }

  /**
   Over any run: where a story is, whether it is starred and whether it is read are what the
   last successful command of that kind made them.
   */
  lemma {:induction false} LastCommandDecides(text: Text, s: State, before: seq<Entry>, e: Entry, after: seq<Entry>)
    requires Sound(text, s) && Outcome(text, Run(text, s, before), e.command, e.now).Ok?
    ensures var t := Run(text, s, before + [e] + after);
            && (Moves(e.command.action) && (forall x :: x in after ==> !Moves(x.command.action)) ==>
                  t.location == if e.command.action == MoveInbox then Inbox
                                else if e.command.action == MoveLater then Later else Archive)
            && (Stars(e.command.action) && (forall x :: x in after ==> !Stars(x.command.action)) ==>
                  t.starredAt == if e.command.action == Star then Some(e.now) else None)
            && (TurnsPage(e.command.action) && (forall x :: x in after ==> !TurnsPage(x.command.action)) ==>
                  && (t.isRead <==> e.command.action in {MarkRead, AlreadyKnown})
                  && t.readAt == if t.isRead then Some(e.now) else None)
  {
    hide Outcome, Sound;
    var u := Run(text, s, before);
    RunIsSound(text, s, before);
    CommandDoes(text, u, e.command, e.now);
    assert (before + [e])[..|before|] == before;
    var t := Run(text, s, before + [e]);
    assert t == Outcome(text, u, e.command, e.now).value;
    RunJoin(text, s, before + [e], after);
    OthersKeep(text, t, after);
  }

  // ---- The first state and the validator ----

  /** A new story is in the inbox, unread, without progress, star, tags or history. */
  lemma NewStory(story: string, now: int)
    ensures var s := Default(story, now);
            && s.story == story && s.location == Inbox && !s.isRead && s.progress == 0.0 && s.version == 0
            && s.readAt.None? && s.paragraph.None? && s.snoozedUntil.None? && s.snoozedFrom.None?
            && s.starredAt.None? && s.dismissed.None? && s.laterPosition.None? && s.tags == [] && s.updatedAt == now
  {
  }

  /** What the validator turns down. */
  lemma RejectedExactly(s: State)
    ensures !Accepted(s) <==>
            || s.location == Unsupported
            || s.isRead != s.readAt.Some?
            || s.progress < 0.0 || s.progress > 1.0
            || s.snoozedUntil.Some? != s.snoozedFrom.Some?
            || (s.snoozedFrom.Some? && (s.location == Archive || s.location != s.snoozedFrom.value))
            || s.version < 0
  {
  }
}

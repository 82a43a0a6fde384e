/**
 The reading state of a story, `internal/readingstate/transition.go`: sixteen actions
 over a state whose invariant is stronger than its own validator.

 The specification gives each field of the next state by itself; the method follows the
 code, which goes action by action.
 */
module ReadingState {
  import opened Wrappers
  import opened Ordering

  /** Instants are nanoseconds. */
  const LONGEST_SNOOZE := 366 * 24 * 3600 * 1_000_000_000
  const MILLISECOND := 1_000_000
  const MAXIMUM_PARAGRAPH_BYTES := 255

  datatype Location = Inbox | Later | Archive | Unsupported

  datatype Action =
    | MarkRead | MarkUnread | MoveInbox | MoveLater | MoveArchive
    | Snooze | Unsnooze | ReturnSnoozed | Star | Unstar | Dismiss | AlreadyKnown
    | UpdateProgress | AddTag | RemoveTag | ReorderLater | Unknown

  datatype Command = Command(
    action: Action, until: Option<int>, reason: Option<string>, progress: Option<real>,
    paragraph: Option<string>, tag: Option<string>, position: Option<int>)

  datatype State = State(
    story: string, location: Location, isRead: bool, readAt: Option<int>,
    progress: real, paragraph: Option<string>, snoozedUntil: Option<int>, snoozedFrom: Option<Location>,
    starredAt: Option<int>, dismissed: Option<string>, laterPosition: Option<int>,
    tags: seq<string>, updatedAt: int, version: int)

  /** Trimming of Unicode space, UTF-8 length, and the five accepted dismissal reasons. */
  datatype Text = Text(trim: string -> string, bytes: string -> nat, reasons: set<string>)

  function Default(story: string, now: int): State {
    State(story, Inbox, false, None, 0.0, None, None, None, None, None, None, [], now, 0)
  }

  /** What the validator checks. */
  predicate Accepted(s: State) {
    && !s.location.Unsupported?
    && (s.isRead <==> s.readAt.Some?)
    && 0.0 <= s.progress <= 1.0
    && (s.snoozedUntil.None? <==> s.snoozedFrom.None?)
    && (s.snoozedFrom.Some? ==> s.location != Archive && s.location == s.snoozedFrom.value)
    && s.version >= 0
  }

  // ---- Field by field ----

  /** Why a command is refused. */
  predicate Refused(text: Text, s: State, c: Command, now: int) {
    match c.action
    case Snooze =>
      s.location == Archive || c.until.None? || c.until.value <= now || c.until.value > now + LONGEST_SNOOZE
    case ReturnSnoozed => s.snoozedUntil.None? || s.snoozedFrom.None? || s.snoozedUntil.value > now
    case Dismiss => c.reason.Some? && text.trim(c.reason.value) !in text.reasons
    case UpdateProgress =>
      || c.progress.None? || c.progress.value < 0.0 || c.progress.value > 1.0
      || (c.paragraph.Some? && (text.trim(c.paragraph.value) == "" ||
        text.bytes(text.trim(c.paragraph.value)) > MAXIMUM_PARAGRAPH_BYTES))
    case AddTag => c.tag.None? || text.trim(c.tag.value) == ""
    case RemoveTag => c.tag.None? || text.trim(c.tag.value) == ""
    case ReorderLater => s.location != Later || c.position.None? || c.position.value < 0
    case Unknown => true
    case _ => false
  }

  /** Where a story goes, if the action moves it. */
  function Destination(a: Action): Option<Location> {
    match a
    case MoveInbox => Some(Inbox)
    case MoveLater => Some(Later)
    case MoveArchive => Some(Archive)
    case Dismiss => Some(Archive)
    case _ => None
  }

  predicate Wakes(a: Action) {
    Destination(a).Some? || a.Unsnooze? || a.ReturnSnoozed?
  }

  predicate Reads(a: Action) {
    a.MarkRead? || a.AlreadyKnown?
  }

  predicate Unreads(a: Action) {
    a.MarkUnread? || a.Snooze? || a.Unsnooze? || a.ReturnSnoozed?
  }

  function NextPosition(s: State, c: Command, now: int): Option<int> {
    if c.action.MoveLater? then Some(now / MILLISECOND)
    else if Destination(c.action).Some? then None
    else if c.action.ReorderLater? then c.position
    else s.laterPosition
  }

  function NextReason(text: Text, s: State, c: Command): Option<string> {
    if Destination(c.action).None? then s.dismissed
    else if c.action.Dismiss? && c.reason.Some? then Some(text.trim(c.reason.value))
    else None
  }

  function NextParagraph(text: Text, s: State, c: Command): Option<string> {
    if c.action.UpdateProgress? && c.paragraph.Some? then Some(text.trim(c.paragraph.value)) else s.paragraph
  }

  function Without(tags: seq<string>, tag: string): seq<string> {
    if tags == [] then [] else (if tags[0] == tag then [] else [tags[0]]) + Without(tags[1..], tag)
  }

  function NextTags(tags: seq<string>, c: Command): seq<string> {
    if c.tag.None? then tags
    else if c.action.AddTag? then (if c.tag.value in tags then tags else Sort(Less, tags + [c.tag.value]))
    else if c.action.RemoveTag? then Without(tags, c.tag.value)
    else tags
  }

  /** The next state, each field by itself. */
  function Next(text: Text, s: State, c: Command, now: int): State {
    State(
      s.story,
      if Destination(c.action).Some? then Destination(c.action).value else s.location,
      Reads(c.action) || (s.isRead && !Unreads(c.action)),
      if Reads(c.action) then Some(now) else if Unreads(c.action) then None else s.readAt,
      if c.action.UpdateProgress? && c.progress.Some? then c.progress.value else s.progress,
      NextParagraph(text, s, c),
      if Wakes(c.action) then None else if c.action.Snooze? then c.until else s.snoozedUntil,
      if Wakes(c.action) then None else if c.action.Snooze? then Some(s.location) else s.snoozedFrom,
      if c.action.Star? then Some(now) else if c.action.Unstar? then None else s.starredAt,
      NextReason(text, s, c),
      NextPosition(s, c, now),
      NextTags(s.tags, c),
      now,
      s.version + 1)
  }

  datatype Problem = Invalid

  function Outcome(text: Text, s: State, c: Command, now: int): Result<State, Problem> {
    if Refused(text, s, c, now) || !Accepted(Next(text, s, c, now)) then Err(Invalid) else Ok(Next(text, s, c, now))
  }

  // ---- Action by action ----

  method Apply(text: Text, current: State, c: Command, now: int) returns (r: Result<State, Problem>)
    ensures r == Outcome(text, current, c, now)
  {
    hide Sort, Without, Accepted;
    var next := current;
    match c.action {
      case MarkRead =>
        next := next.(isRead := true, readAt := Some(now));
      case MarkUnread =>
        next := Unread(next);
      case MoveInbox =>
        next := ClearSnooze(next.(location := Inbox, dismissed := None, laterPosition := None));
      case MoveLater =>
        next := ClearSnooze(next.(location := Later, dismissed := None, laterPosition := Some(now / MILLISECOND)));
      case MoveArchive =>
        next := ClearSnooze(next.(location := Archive, dismissed := None, laterPosition := None));
      case Snooze =>
        if current.location == Archive || c.until.None? {
          return Err(Invalid);
        }
        if !(c.until.value > now) || c.until.value > now + LONGEST_SNOOZE {
          return Err(Invalid);
        }
        next := Unread(next.(snoozedUntil := c.until, snoozedFrom := Some(current.location)));
      case Unsnooze =>
        next := Unread(ClearSnooze(next));
      case ReturnSnoozed =>
        if current.snoozedUntil.None? || current.snoozedFrom.None? || current.snoozedUntil.value > now {
          return Err(Invalid);
        }
        next := Unread(ClearSnooze(next));
      case Star =>
        next := next.(starredAt := Some(now));
      case Unstar =>
        next := next.(starredAt := None);
      case Dismiss =>
        next := ClearSnooze(next.(location := Archive, laterPosition := None));
        if c.reason.Some? {
          var reason := text.trim(c.reason.value);
          if reason !in text.reasons {
            return Err(Invalid);
          }
          next := next.(dismissed := Some(reason));
        } else {
          next := next.(dismissed := None);
        }
      case AlreadyKnown =>
        next := next.(isRead := true, readAt := Some(now));
      case UpdateProgress =>
        if c.progress.None? || c.progress.value < 0.0 || c.progress.value > 1.0 {
          return Err(Invalid);
        }
        if c.paragraph.Some? {
          var paragraph := text.trim(c.paragraph.value);
          if paragraph == "" || text.bytes(paragraph) > MAXIMUM_PARAGRAPH_BYTES {
            return Err(Invalid);
          }
          next := next.(paragraph := Some(paragraph));
        }
        next := next.(progress := c.progress.value);
      case AddTag =>
        if c.tag.None? || text.trim(c.tag.value) == "" {
          return Err(Invalid);
        }
        if c.tag.value !in next.tags {
          next := next.(tags := Sort(Less, next.tags + [c.tag.value]));
        }
      case RemoveTag =>
        if c.tag.None? || text.trim(c.tag.value) == "" {
          return Err(Invalid);
        }
        next := next.(tags := Without(next.tags, c.tag.value));
      case ReorderLater =>
        if current.location != Later || c.position.None? || c.position.value < 0 {
          return Err(Invalid);
        }
        next := next.(laterPosition := c.position);
      case Unknown =>
        return Err(Invalid);
    }
    next := next.(version := current.version + 1, updatedAt := now);
    if !Accepted(next) {
      return Err(Invalid);
    }
    return Ok(next);
  }

  function ClearSnooze(s: State): State {
    s.(snoozedFrom := None, snoozedUntil := None)
  }

  function Unread(s: State): State {
    s.(isRead := false, readAt := None)
  }
}

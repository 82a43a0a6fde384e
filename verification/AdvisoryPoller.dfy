/**
 The stored side of the advisory scan: the untyped provider state, its JSON round
 trip through the database, and the poll as the worker executes it.  `Poller.Poll`
 is proved to do to the stored checkpoint what `AdvisoryScan.Poll` does to the
 decoded one, so the facts in `AdvisoryRuns` hold of the store.
 */
module AdvisoryPoller {
  import opened Wrappers
  import opened Checkpoints
  import opened AdvisoryScan

  function Lookup(state: ProviderState, key: Key): Json {
    if key in state then state[key] else Null
  }

  function PageCount(value: Json): int {
    match value
    case Int(n) => n
    case Number(x) => if 0.0 <= x <= 10001.0 then x.Floor else 10001
    case _ => 0
  }

  function StoredDigests(items: seq<Element>): seq<string> {
    if items == [] then []
    else
      var rest := StoredDigests(items[1..]);
      if items[0].Word? && |items[0].s| == 64 then [items[0].s] + rest else rest
  }

  function RecentPages(value: Json): seq<string> {
    match value
    case Texts(ts) => Last(ts, RECENT_LIMIT)
    case List(items) => Last(StoredDigests(items), RECENT_LIMIT)
    case _ => []
  }

  function Issue(value: Json): string {
    if value.Text? then value.s else ""
  }

  function CompletedAt(lib: Library, value: Json): Option<int> {
    if value.Text? then lib.parseTime(value.s) else None
  }

  function ViewScan(lib: Library, state: ProviderState): Scan {
    Scan(PageCount(Lookup(state, PagesKey)),
         RecentPages(Lookup(state, RecentKey)),
         Issue(Lookup(state, IssueKey)),
         CompletedAt(lib, Lookup(state, CompletedKey)))
  }

  function View(lib: Library, c: Checkpoint): Progress {
    Progress(c.cursor, c.etag, c.lastModified, ViewScan(lib, c.state))
  }

  // ---- Writing the state as JSON and reading it back ----

  function Encode(value: Json): Json {
    match value
    case Int(n) => Number(n as real)
    case Texts(ts) => List(Words(ts))
    case _ => value
  }

  function Words(ts: seq<string>): (r: seq<Element>)
    ensures |r| == |ts| && forall i :: 0 <= i < |ts| ==> r[i] == Word(ts[i])
  {
    seq(|ts|, i requires 0 <= i < |ts| => Word(ts[i]))
  }

  function Persist(c: Checkpoint): Checkpoint {
    c.(state := map k | k in c.state :: Encode(c.state[k]))
  }

  ghost predicate AllDigests(ts: seq<string>) {
    forall i :: 0 <= i < |ts| ==> |ts[i]| == 64
  }

  /** The page counter and the recent pages fit their JSON form. */
  ghost predicate Storable(state: ProviderState) {
    && (Lookup(state, PagesKey).Int? ==> 0 <= Lookup(state, PagesKey).n <= MAXIMUM_PAGES + 1)
    && (Lookup(state, RecentKey).Texts? ==> AllDigests(Lookup(state, RecentKey).ts))
  }

  lemma {:induction false} WordDigests(ts: seq<string>)
    requires AllDigests(ts)
    ensures StoredDigests(Words(ts)) == ts
  {
    if ts == [] {
    } else {
      assert Words(ts)[1..] == Words(ts[1..]);
      WordDigests(ts[1..]);
    }
  }

  /** Storing a checkpoint and loading it again does not change what the scan reads from it. */
  lemma PersistKeepsView(lib: Library, c: Checkpoint)
    requires Storable(c.state)
    ensures View(lib, Persist(c)) == View(lib, c)
    ensures Storable(Persist(c).state)
  {
    var value := Lookup(c.state, RecentKey);
    if value.Texts? {
      WordDigests(value.ts);
    }
  }

  // ---- Operations ----

  /** The cycle check: flags the state when the next page is one of the recent ones. */
  method FlagCycle(before: ProviderState, recent: seq<string>, nextDigest: string) returns (state: ProviderState)
    ensures state == if nextDigest in recent then before[IssueKey := Text(CURSOR_CYCLE)] else before
  {
    state := before;
    for i := 0 to |recent|
      invariant nextDigest !in recent[..i]
      invariant state == before
    {
      if recent[i] == nextDigest {
        state := state[IssueKey := Text(CURSOR_CYCLE)];
        break;
      }
    }
  }

  /** The part of `setAdvisoryScanState` that counts a fetched continuation page. */
  method CountPage(lib: Library, before: ProviderState, next: Url, fetched: Url) returns (state: ProviderState)
    requires lib.Sound() && next != "" && fetched != ""
    ensures ViewScan(lib, state) == NextScan(lib, ViewScan(lib, before), 0, next, false, fetched)
    ensures forall k: Key :: k.OtherKey? || k.StartedKey? ==> Lookup(state, k) == Lookup(before, k)
    ensures Storable(before) && 0 <= ViewScan(lib, before).pages <= MAXIMUM_PAGES ==> Storable(state)
  {
    var pages := PageCount(Lookup(before, PagesKey)) + 1;
    state := before[PagesKey := Int(pages)];
    var recent := RecentPages(Lookup(state, RecentKey));
    RecentDigestLength(Lookup(before, RecentKey));
    KeptDigestLength(recent, lib.digest(fetched));
    state := FlagCycle(state, recent, lib.digest(next));
    recent := Last(recent + [lib.digest(fetched)], RECENT_LIMIT);
    state := state[RecentKey := Texts(recent)];
    if pages > MAXIMUM_PAGES {
      state := state[IssueKey := Text(PAGE_LIMIT)];
    }
    assert Lookup(state, PagesKey) == Int(pages) && Lookup(state, RecentKey) == Texts(recent);
  }

  lemma {:induction false} StoredDigestLength(items: seq<Element>)
    ensures AllDigests(StoredDigests(items))
  {
    if items == [] {
    } else {
      StoredDigestLength(items[1..]);
    }
  }

  lemma KeptDigestLength(recent: seq<string>, digest: string)
    requires |digest| == 64
    ensures AllDigests(recent) ==> AllDigests(Last(recent + [digest], RECENT_LIMIT))
  {
    var all := recent + [digest];
    assert AllDigests(recent) ==> AllDigests(all);
  }

  lemma RecentDigestLength(value: Json)
    ensures (value.Texts? ==> AllDigests(value.ts)) ==> AllDigests(RecentPages(value))
  {
    if value.List? {
      StoredDigestLength(value.items);
    }
  }

  /** The part of `setAdvisoryScanState` that ends a scan. */
  method CloseScan(lib: Library, before: ProviderState, now: int) returns (state: ProviderState)
    requires lib.Sound()
    ensures ViewScan(lib, state) == Scan(0, [], "", Some(now))
    ensures forall k: Key :: k.OtherKey? ==> Lookup(state, k) == Lookup(before, k)
    ensures Storable(state)
  {
    state := before - {StartedKey, PagesKey, RecentKey, IssueKey};
    state := state[CompletedKey := Text(lib.formatTime(now))];
  }

  /** The part of `setAdvisoryScanState` that starts or resumes a scan. */
  method OpenScan(lib: Library, before: ProviderState, now: int, newScan: bool) returns (state: ProviderState)
    ensures ViewScan(lib, state) ==
            if newScan then Scan(0, [], "", ViewScan(lib, before).completed) else ViewScan(lib, before)
    ensures forall k: Key :: k.OtherKey? ==> Lookup(state, k) == Lookup(before, k)
    ensures Lookup(state, StartedKey) != Null
    ensures Storable(before) ==> Storable(state)
  {
    state := before;
    if newScan {
      state := state[PagesKey := Int(0)][RecentKey := Texts([])] - {IssueKey};
    }
    if newScan || Lookup(state, StartedKey) == Null {
      state := state[StartedKey := Text(lib.formatTime(now))];
    }
  }

  /** `setAdvisoryScanState`: works on a copy of the state and touches only its own keys. */
  method SetAdvisoryScanState(lib: Library, checkpoint: Checkpoint, now: int, next: Url, newScan: bool, fetched: Url)
    returns (r: Checkpoint)
    requires lib.Sound()
    ensures View(lib, r) == View(lib, checkpoint).(scan := NextScan(lib, ViewScan(lib, checkpoint.state), now,
            next, newScan, fetched))
    ensures forall k: Key :: k.OtherKey? ==> Lookup(r.state, k) == Lookup(checkpoint.state, k)
    ensures
      && Storable(checkpoint.state)
      && (0 <= ViewScan(lib, checkpoint.state).pages <= MAXIMUM_PAGES || fetched == "")
      ==> Storable(r.state)
  {
    var state;
    if next == "" {
      state := CloseScan(lib, checkpoint.state, now);
    } else {
      state := OpenScan(lib, checkpoint.state, now, newScan);
      if fetched != "" {
        state := CountPage(lib, state, next, fetched);
      }
    }
    r := checkpoint.(state := state);
  }

  /** A scan that may go on has room for one more page. */
  predicate Counted(scan: Scan) {
    scan.issue == "" ==> 0 <= scan.pages <= MAXIMUM_PAGES
  }

  /** A checkpoint the scan can work on. */
  ghost predicate Usable(lib: Library, c: Checkpoint) {
    Storable(c.state) && Counted(ViewScan(lib, c.state))
  }

  /** The checkpoint a committed root page leads to. */
  method PrepareRoot(lib: Library, prior: Url, sent: Checkpoint, reply: Reply, now: int)
    returns (checkpoint: Checkpoint)
    requires lib.Sound() && Usable(lib, sent) && !reply.Failed? && sent.cursor == prior
    ensures View(lib, checkpoint) == AfterRoot(lib, View(lib, sent), View(lib, sent), reply, now)
    ensures Usable(lib, checkpoint)
  {
    checkpoint := sent.(etag := First(reply.etag, sent.etag), lastModified := First(reply.lastModified,
      sent.lastModified));
    if reply.NotModified? && prior == "" {
      return;
    }
    var cursor := if reply.Stored? && reply.next == "" then "" else if prior != "" then prior else reply.next;
    checkpoint := SetAdvisoryScanState(lib, checkpoint.(cursor := cursor), now, cursor, prior == "", "");
  }

  /** The root page: refreshes the validators and keeps, opens or closes the scan. */
  method PollRoot(lib: Library, stored: Checkpoint, now: int, exchange: Exchange)
    returns (checkpoint: Checkpoint, event: Event, goOn: bool)
    requires lib.Sound() && Usable(lib, stored)
    ensures RootStep(lib, View(lib, stored), now, exchange) == Outcome(View(lib, checkpoint), [event], goOn)
    ensures event.Root? ==>
              var completed := CompletedAt(lib, Lookup(stored.state, CompletedKey));
              var rested := completed.None? || now - completed.value >= 86_400_000_000_000;
              event.conditional <==> (stored.etag != "" || stored.lastModified != "") &&
                                     !(stored.cursor == "" && rested)
    ensures Usable(lib, checkpoint) && (goOn ==> View(lib, checkpoint).scan.issue == "")
  {
    var sent := stored;
    if ScanDue(View(lib, stored), now) {
      sent := stored.(etag := "", lastModified := "");
    }
    var conditional := sent.etag != "" || sent.lastModified != "";
    var reply := Answer(lib, lib.root, conditional, exchange.reply);
    if reply.Failed? || exchange.recording.RolledBack? {
      return stored, Lost(lib.root), false;
    }
    checkpoint := PrepareRoot(lib, stored.cursor, sent, reply, exchange.now);
    event := Root(reply, conditional, exchange.now);
    goOn := exchange.recording.Committed? && Issue(Lookup(checkpoint.state, IssueKey)) == "";
  }

  /** One continuation page. */
  method PollPage(lib: Library, checkpoint: Checkpoint, turn: Turn)
    returns (next: Checkpoint, events: seq<Event>, goOn: bool)
    requires lib.Sound() && Usable(lib, checkpoint)
    requires checkpoint.cursor != "" && View(lib, checkpoint).scan.issue == ""
    ensures PageStep(lib, View(lib, checkpoint), turn) == Outcome(View(lib, next), events, goOn)
    ensures Usable(lib, next) && (goOn ==> View(lib, next).scan.issue == "")
  {
    var url := checkpoint.cursor;
    var reply := Answer(lib, url, false, turn.exchange.reply);
    if turn.cancelled {
      return checkpoint, [], false;
    }
    if !reply.Stored? || turn.exchange.recording.RolledBack? {
      return checkpoint, [Lost(url)], false;
    }
    next := SetAdvisoryScanState(lib, checkpoint.(cursor := reply.next), turn.exchange.now, reply.next, false, url);
    var issue := Issue(Lookup(next.state, IssueKey));
    events := [Page(url, reply.next, issue, turn.exchange.now)];
    goOn := turn.exchange.recording.Committed? && issue == "";
  }

  /** The worker with its durable checkpoint.  The ledger is what the runs are judged by. */
  class Poller {
    const lib: Library
    var stored: Checkpoint
    ghost var ledger: seq<Event>

    ghost predicate Valid()
      reads this
    {
      lib.Sound() && Usable(lib, stored)
    }

    constructor (lib: Library)
      requires lib.Sound()
      ensures Valid() && this.lib == lib && View(lib, stored) == START && ledger == []
    {
      this.lib := lib;
      stored := Checkpoint("", "", "", map[]);
      ledger := [];
    }

    /** `RecordFetch`: the page and the checkpoint are written together. */
    method Record(checkpoint: Checkpoint, ghost events: seq<Event>)
      requires lib.Sound() && Usable(lib, checkpoint)
      modifies this
      ensures Valid() && View(lib, stored) == View(lib, checkpoint) && ledger == old(ledger) + events
    {
      PersistKeepsView(lib, checkpoint);
      stored := Persist(checkpoint);
      ledger := ledger + events;
    }

    /** `pollGlobalAdvisories`. */
    method Poll(input: PollInput)
      requires Valid() && Complete(input)
      modifies this
      ensures Valid()
      ensures View(lib, stored) == AdvisoryScan.Poll(lib, old(View(lib, stored)), input).progress
      ensures ledger == old(ledger) + AdvisoryScan.Poll(lib, old(View(lib, stored)), input).events
    {
      hide RootStep, PagesStep, ViewScan;
      if stored.cursor != "" && !lib.isPage(stored.cursor) {
        assert ledger + [] == ledger;
        return;
      }
      var checkpoint, event, goOn := PollRoot(lib, stored, input.now, input.root);
      Record(checkpoint, [event]);
      if goOn {
        ghost var pages := PagesStep(lib, View(lib, stored), input.turns);
        Continue(checkpoint, input.turns);
        assert old(ledger) + [event] + pages.events == old(ledger) + ([event] + pages.events);
      }
    }

    /** The continuation loop; `initial` is the in-memory form of what is stored. */
    method Continue(initial: Checkpoint, turns: seq<Turn>)
      requires Valid() && Usable(lib, initial) && View(lib, initial) == View(lib, stored)
      requires View(lib, stored).scan.issue == ""
      modifies this
      ensures Valid()
      ensures View(lib, stored) == PagesStep(lib, old(View(lib, stored)), turns).progress
      ensures ledger == old(ledger) + PagesStep(lib, old(View(lib, stored)), turns).events
    {
      hide PageStep, ViewScan, Usable;
      var checkpoint, page := initial, 0;
      ghost var whole := PagesStep(lib, View(lib, stored), turns);
      ghost var done: seq<Event> := [];
      while page < |turns| && checkpoint.cursor != ""
        invariant 0 <= page <= |turns|
        invariant Valid() && Usable(lib, checkpoint) && View(lib, checkpoint) == View(lib, stored)
        invariant View(lib, stored).scan.issue == "" && ledger == old(ledger) + done
        invariant Remaining(lib, whole, done, View(lib, stored), turns[page..])
      {
        ghost var prior, rest := View(lib, stored), turns[page..];
        var next, events, goOn := PollPage(lib, checkpoint, turns[page]);
        assert old(ledger) + (done + events) == old(ledger) + done + events;
        Record(next, events);
        RemainingStep(lib, whole, done, prior, rest);
        done := done + events;
        if !goOn {
          return;
        }
        checkpoint, page := next, page + 1;
      }
    }
  }

  /** What is left of a loop whose whole effect is `whole` once `done` has happened. */
  ghost predicate Remaining(lib: Library, whole: Outcome, done: seq<Event>, p: Progress, turns: seq<Turn>) {
    var rest := PagesStep(lib, p, turns);
    whole.progress == rest.progress && whole.events == done + rest.events
  }

  lemma RemainingStep(lib: Library, whole: Outcome, done: seq<Event>, p: Progress, turns: seq<Turn>)
    requires turns != [] && p.cursor != "" && Remaining(lib, whole, done, p, turns)
    ensures var one := PageStep(lib, p, turns[0]);
            && (one.goOn ==> Remaining(lib, whole, done + one.events, one.progress, turns[1..]))
            && (!one.goOn ==> whole.progress == one.progress && whole.events == done + one.events)
  {
    var one := PageStep(lib, p, turns[0]);
    if one.goOn {
      var rest := PagesStep(lib, one.progress, turns[1..]);
      assert done + (one.events + rest.events) == done + one.events + rest.events;
    }
  }

  /** A worker that polls from an empty checkpoint produces exactly the runs of `AdvisoryRuns`. */
  method Drive(lib: Library, inputs: seq<PollInput>) returns (poller: Poller)
    requires lib.Sound() && forall i :: 0 <= i < |inputs| ==> Complete(inputs[i])
    ensures fresh(poller) && poller.lib == lib
    ensures (View(lib, poller.stored), poller.ledger) == Run(lib, inputs)
  {
    poller := new Poller(lib);
    for i := 0 to |inputs|
      invariant fresh(poller) && poller.Valid() && poller.lib == lib
      invariant (View(lib, poller.stored), poller.ledger) == Run(lib, inputs[..i])
    {
      assert inputs[..i + 1][..i] == inputs[..i];
      poller.Poll(inputs[i]);
    }
    assert inputs[..|inputs|] == inputs;
  }

  // ---- A state that something else has written ----

  /**
   A page count that is no number counts from zero, a fraction counts as the pages it is
   made of, and a count that no scan can have stops the scan at its next page.
   */
  lemma {:induction false} ForeignCount(lib: Library, state: ProviderState, now: int, next: Url, fetched: Url)
    requires next != "" && fetched != ""
    ensures var value := Lookup(state, PagesKey);
            var after := NextScan(lib, ViewScan(lib, state), now, next, false, fetched);
            && (value in {Null, Other} || value.Text? || value.Texts? || value.List? ==> after.pages == 1)
            && (value.Number? && 0.0 <= value.x < 10_001.0 ==> after.pages == value.x.Floor + 1)
            && (value.Number? && (value.x < 0.0 || value.x > 10_001.0) ==> after.pages == 10_002)
            && (value.Number? && (value.x < 0.0 || value.x >= 10_000.0) ==> after.issue == "page_limit")
  {
  }

  /** Of a stored list the texts of 64 characters are digests, and nothing else is. */
  lemma {:induction false} ForeignDigests(items: seq<Element>, x: string)
    ensures x in StoredDigests(items) <==> |x| == 64 && Word(x) in items
  {
    if items == [] {
    } else {
      ForeignDigests(items[1..], x);
      assert items == [items[0]] + items[1..];
    }
  }
}

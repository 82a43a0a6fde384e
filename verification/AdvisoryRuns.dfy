/**
 What every run of polls keeps, whatever the provider, the store and the clock do.

 The statements are about the ledger of fetches alone.  A `Reading` is what a
 ledger says about the current scan; it never looks at a checkpoint.
 */
module AdvisoryRuns {
  import opened Wrappers
  import opened AdvisoryScan
  import LinkHeader
  import LinkRoundTrip

  /**
   The continuation pages committed since the last completion, the link to follow
   next, whether an issue is holding the scan, when a scan was last completed, and the
   validators of the root page.
   */
  datatype Reading = Reading(
    visited: seq<Url>, link: Url, held: bool,
    completed: Option<int>, etag: string, lastModified: string)

  const BLANK := Reading([], "", false, None, "", "")

  /** The scan is over: a committed page had no next link. */
  predicate Completes(e: Event) {
    (e.Root? && e.reply.Stored? && e.reply.next == "") || (e.Page? && e.next == "")
  }

  /** A validator that the root page sends; without one the old one stays if the request carried it. */
  function Renewed(sent: string, kept: string, conditional: bool): string {
    if sent != "" then sent else if conditional then kept else ""
  }

  function Observe(r: Reading, e: Event): Reading {
    match e
    case Root(reply, conditional, at) =>
      if reply.Failed? then r
      else
        var s := r.(etag := Renewed(reply.etag, r.etag, conditional),
                    lastModified := Renewed(reply.lastModified, r.lastModified, conditional));
        if Completes(e) then s.(visited := [], link := "", held := false, completed := Some(at))
        else if reply.Stored? && r.link == "" then s.(link := reply.next)
        else s
    case Page(url, next, issue, at) =>
      if Completes(e) then r.(visited := [], link := "", held := false, completed := Some(at))
      else r.(visited := r.visited + [url], link := next, held := r.held || issue != "")
    case Lost(_) => r
  }

  /** The reading after more events. */
  function Read(r: Reading, events: seq<Event>): Reading
    decreases |events|
  {
    if events == [] then r else Read(Observe(r, events[0]), events[1..])
  }

  function Digests(lib: Library, urls: seq<Url>): (d: seq<string>)
    ensures |d| == |urls| && forall i :: 0 <= i < |urls| ==> d[i] == lib.digest(urls[i])
  {
    seq(|urls|, i requires 0 <= i < |urls| => lib.digest(urls[i]))
  }

  /** A fetch of a continuation page, committed or lost. */
  predicate Continues(lib: Library, e: Event) {
    e.Page? || (e.Lost? && e.url != lib.root)
  }

  /** The provider names no next page, or a reviewed page that is not the first and starts after another place. */
  predicate Follows(lib: Library, url: Url, next: Url) {
    next != "" ==> lib.isPage(next) && next != lib.root && lib.after(next) != lib.after(url)
  }

  /** One of the last 32 pages has the digest of `url`. */
  predicate Recent(lib: Library, scan: seq<Url>, url: Url) {
    exists x :: 0 <= x < |scan| && |scan| - 32 <= x && lib.digest(scan[x]) == lib.digest(url)
  }

  /** The issue that a page with this next link raises. */
  function IssueOf(lib: Library, r: Reading, next: Url): string {
    if next == "" then ""
    else if |r.visited| >= 10_000 then "page_limit"
    else if Recent(lib, r.visited, next) then "cursor_cycle"
    else ""
  }

  lemma RecentDigests(lib: Library, scan: seq<Url>, url: Url)
    ensures lib.digest(url) in Last(Digests(lib, scan), RECENT_LIMIT) <==> Recent(lib, scan, url)
  {
    var d := Last(Digests(lib, scan), RECENT_LIMIT);
    var skipped := |scan| - |d|;
    if lib.digest(url) in d {
      var i :| 0 <= i < |d| && d[i] == lib.digest(url);
      assert lib.digest(scan[skipped + i]) == lib.digest(url);
    }
    if x :| 0 <= x < |scan| && |scan| - 32 <= x && lib.digest(scan[x]) == lib.digest(url) {
      assert d[x - skipped] == lib.digest(url);
    }
  }

  /** What an event may be after a ledger with reading `r`. */
  ghost predicate Allowed(lib: Library, r: Reading, e: Event) {
    match e
    case Root(reply, conditional, _) =>
      && !reply.Failed?
      && (reply.NotModified? ==> conditional)
      && (conditional ==> r.etag != "" || r.lastModified != "")
      && (reply.Stored? ==> Follows(lib, lib.root, reply.next))
    case Lost(url) => url == lib.root || (url == r.link != "" && !r.held)
    case Page(url, next, issue, _) =>
      && url == r.link != ""
      && url != lib.root
      && !r.held
      && |r.visited| <= MAXIMUM_PAGES
      && Follows(lib, url, next)
      && issue == IssueOf(lib, r, next)
  }

  ghost predicate Lawful(lib: Library, r: Reading, events: seq<Event>)
    decreases |events|
  {
    events == [] || (Allowed(lib, r, events[0]) && Lawful(lib, Observe(r, events[0]), events[1..]))
  }

  /** The checkpoint says exactly what the ledger says. */
  ghost predicate Agrees(lib: Library, p: Progress, r: Reading) {
    && p.cursor == r.link
    && p.etag == r.etag && p.lastModified == r.lastModified && p.scan.completed == r.completed
    && p.scan.pages == |r.visited|
    && p.scan.recent == Last(Digests(lib, r.visited), RECENT_LIMIT)
    && (p.scan.issue != "" <==> r.held)
    && (r.link == "" ==> r.visited == [] && !r.held)
    && (r.link != "" ==> lib.isPage(r.link) && r.link != lib.root)
    && (!r.held ==> |r.visited| <= MAXIMUM_PAGES)
  }

  lemma {:induction false} ReadJoin(lib: Library, r: Reading, a: seq<Event>, b: seq<Event>)
    ensures Read(r, a + b) == Read(Read(r, a), b)
    ensures Lawful(lib, r, a + b) <==> Lawful(lib, r, a) && Lawful(lib, Read(r, a), b)
    decreases |a|
  {
    if a == [] {
      assert a + b == b;
    } else {
      ReadJoin(lib, Observe(r, a[0]), a[1..], b);
      assert (a + b)[1..] == a[1..] + b;
    }
  }

  // ---- One poll keeps the agreement ----

  lemma RootKeeps(lib: Library, p: Progress, now: int, exchange: Exchange, r: Reading)
    requires Agrees(lib, p, r)
    ensures var out := RootStep(lib, p, now, exchange);
            && |out.events| == 1 && Allowed(lib, r, out.events[0])
            && Agrees(lib, out.progress, Observe(r, out.events[0]))
            && (out.goOn ==> out.progress.scan.issue == "")
  {
  }

  lemma PageKeeps(lib: Library, p: Progress, turn: Turn, r: Reading)
    requires Agrees(lib, p, r) && p.cursor != "" && p.scan.issue == "" && !turn.cancelled
    ensures var out := PageStep(lib, p, turn);
            && |out.events| == 1 && Allowed(lib, r, out.events[0]) && Continues(lib, out.events[0])
            && Agrees(lib, out.progress, Observe(r, out.events[0]))
            && (out.goOn ==> out.progress.scan.issue == "")
  {
    if turn.exchange.reply.Stored? {
      RecentDigests(lib, r.visited, turn.exchange.reply.next);
    }
    hide Recent;
  }

  lemma {:induction false} PagesKeep(lib: Library, p: Progress, turns: seq<Turn>, r: Reading)
    requires Agrees(lib, p, r) && p.scan.issue == ""
    ensures var out := PagesStep(lib, p, turns);
            && Lawful(lib, r, out.events) && Agrees(lib, out.progress, Read(r, out.events))
            && forall e :: e in out.events ==> Continues(lib, e)
    decreases |turns|
  {
    if turns != [] && p.cursor != "" && !turns[0].cancelled {
      var one := PageStep(lib, p, turns[0]);
      var e := one.events[0];
      PageKeeps(lib, p, turns[0], r);
      assert one.events == [e];
      if one.goOn {
        PagesKeep(lib, one.progress, turns[1..], Observe(r, e));
        ReadJoin(lib, r, one.events, PagesStep(lib, one.progress, turns[1..]).events);
      }
    }
  }

  lemma PollKeeps(lib: Library, p: Progress, input: PollInput, r: Reading)
    requires Agrees(lib, p, r)
    ensures var out := Poll(lib, p, input);
            && Lawful(lib, r, out.events) && Agrees(lib, out.progress, Read(r, out.events))
            && forall k :: 0 <= k < |out.events| ==> (Continues(lib, out.events[k]) <==> k > 0)
  {
    if p.cursor == "" || lib.isPage(p.cursor) {
      var root := RootStep(lib, p, input.now, input.root);
      var e := root.events[0];
      RootKeeps(lib, p, input.now, input.root, r);
      assert root.events == [e];
      if root.goOn {
        PagesKeep(lib, root.progress, input.turns, Observe(r, e));
        ReadJoin(lib, r, root.events, PagesStep(lib, root.progress, input.turns).events);
      }
    }
  }

  /** After any polls the durable checkpoint is the one the ledger of fetches implies. */
  lemma {:induction false} RunKeeps(lib: Library, inputs: seq<PollInput>)
    ensures var (p, trace) := Run(lib, inputs); Lawful(lib, BLANK, trace) && Agrees(lib, p, Read(BLANK, trace))
  {
    if inputs == [] {
    } else {
      var before, input := inputs[..|inputs| - 1], inputs[|inputs| - 1];
      var (p, trace) := Run(lib, before);
      RunKeeps(lib, before);
      PollKeeps(lib, p, input, Read(BLANK, trace));
      ReadJoin(lib, BLANK, trace, Poll(lib, p, input).events);
    }
  }

  // ---- The ledger decides what is fetched ----

  /** A response that the fetch hands on and the store keeps. */
  predicate Kept(lib: Library, url: Url, conditional: bool, x: Exchange) {
    && !x.recording.RolledBack?
    && match x.reply
       case Failed => false
       case NotModified(_, _) => conditional
       case Stored(next, _, _) => Follows(lib, url, next)
  }

  /** The scan rests: there is nothing to follow, and no scan was completed within the last 24 hours. */
  predicate Rested(r: Reading, now: int) {
    r.link == "" && (r.completed.None? || now - r.completed.value >= 86_400_000_000_000)
  }

  /** The continuations that should be fetched after a ledger with reading `r`. */
  function PagesToFetch(lib: Library, r: Reading, turns: seq<Turn>): seq<Event>
    decreases |turns|
  {
    if turns == [] || r.link == "" || r.held || turns[0].cancelled then []
    else
      var x := turns[0].exchange;
      if !x.reply.Stored? || !Kept(lib, r.link, false, x) then [Lost(r.link)]
      else
        var e := Page(r.link, x.reply.next, IssueOf(lib, r, x.reply.next), x.now);
        [e] + if x.recording.Committed? then PagesToFetch(lib, Observe(r, e), turns[1..]) else []
  }

  /**
   What a poll should fetch: the root page, with the validators unless a new scan is to
   begin, and while all goes well the pages that the links lead to.
   */
  function ToFetch(lib: Library, r: Reading, input: PollInput): seq<Event> {
    var conditional := (r.etag != "" || r.lastModified != "") && !Rested(r, input.now);
    if !Kept(lib, lib.root, conditional, input.root) then [Lost(lib.root)]
    else
      var e := Root(input.root.reply, conditional, input.root.now);
      [e] + if input.root.recording.Committed? then PagesToFetch(lib, Observe(r, e), input.turns) else []
  }

  /** The ledger that follows from itself, without any checkpoint. */
  function Ledger(lib: Library, inputs: seq<PollInput>): seq<Event> {
    if inputs == [] then []
    else
      var before := Ledger(lib, inputs[..|inputs| - 1]);
      before + ToFetch(lib, Read(BLANK, before), inputs[|inputs| - 1])
  }

  lemma {:induction false} PagesAreFetched(lib: Library, p: Progress, turns: seq<Turn>, r: Reading)
    requires Agrees(lib, p, r) && p.scan.issue == ""
    ensures PagesStep(lib, p, turns).events == PagesToFetch(lib, r, turns)
    decreases |turns|
  {
    if turns != [] && p.cursor != "" && !turns[0].cancelled {
      PageKeeps(lib, p, turns[0], r);
      var one := PageStep(lib, p, turns[0]);
      if one.goOn {
        PagesAreFetched(lib, one.progress, turns[1..], Observe(r, one.events[0]));
      }
    }
  }

  lemma {:induction false} PollIsFetched(lib: Library, p: Progress, input: PollInput, r: Reading)
    requires Agrees(lib, p, r)
    ensures Poll(lib, p, input).events == ToFetch(lib, r, input)
  {
    RootKeeps(lib, p, input.now, input.root, r);
    var root := RootStep(lib, p, input.now, input.root);
    if root.goOn {
      PagesAreFetched(lib, root.progress, input.turns, Observe(r, root.events[0]));
    }
  }

  /**
   The checkpoint with its page counter and its 32 digests does as well as the whole
   ledger: every run fetches what the ledger, read from its beginning, asks for.
   */
  lemma {:induction false} RunsFollowTheLedger(lib: Library, inputs: seq<PollInput>)
    ensures Run(lib, inputs).1 == Ledger(lib, inputs)
  {
    if inputs == [] {
    } else {
      var before, input := inputs[..|inputs| - 1], inputs[|inputs| - 1];
      RunsFollowTheLedger(lib, before);
      RunKeeps(lib, before);
      PollIsFetched(lib, Run(lib, before).0, input, Read(BLANK, Ledger(lib, before)));
    }
  }

  // ---- Scans are bounded and do not revisit recent pages ----

  /** Entries at most 33 places apart differ, that is, any 34 consecutive ones are pairwise distinct. */
  ghost predicate Spaced(urls: seq<Url>) {
    forall x, y :: 0 <= x < y < |urls| && y - x <= 33 ==> urls[x] != urls[y]
  }

  /** No two recent pages are equal, and the next link is none of the last 33 while the scan may go on. */
  ghost predicate Fresh(r: Reading) {
    && Spaced(r.visited)
    && |r.visited| <= MAXIMUM_PAGES + 1
    && (r.link == "" ==> r.visited == [])
    && (!r.held && r.link != "" ==> r.link !in Last(r.visited, RECENT_LIMIT + 1))
  }

  lemma NextIsFresh(lib: Library, w: seq<Url>, url: Url, next: Url)
    requires next != url && !Recent(lib, w, next)
    ensures next !in Last(w + [url], RECENT_LIMIT + 1)
  {
    RecentDigests(lib, w, next);
    var d, r, v := Last(Digests(lib, w), RECENT_LIMIT), Last(w, RECENT_LIMIT), Last(w + [url], RECENT_LIMIT + 1);
    forall i | 0 <= i < |v|
      ensures v[i] != next
    {
      if i < |v| - 1 {
        assert v[i] == r[i] && d[i] == lib.digest(r[i]);
      }
    }
  }

  lemma SpacedAppend(w: seq<Url>, url: Url)
    requires Spaced(w) && url !in Last(w, RECENT_LIMIT + 1)
    ensures Spaced(w + [url])
  {
    var l := Last(w, RECENT_LIMIT + 1);
    forall x | 0 <= x < |w| && |w| - x <= RECENT_LIMIT + 1
      ensures w[x] != url
    {
      assert w[x] == l[x - (|w| - |l|)];
    }
  }

  lemma FreshStep(lib: Library, r: Reading, e: Event)
    requires Fresh(r) && Allowed(lib, r, e)
    ensures Fresh(Observe(r, e))
    ensures e.Page? ==> Spaced(r.visited + [e.url])
  {
    if e.Page? {
      SpacedAppend(r.visited, e.url);
      if e.next != "" && e.issue == "" {
        NextIsFresh(lib, r.visited, e.url, e.next);
      }
    }
  }

  lemma {:induction false} FreshAll(lib: Library, r: Reading, events: seq<Event>)
    requires Fresh(r) && Lawful(lib, r, events)
    ensures Fresh(Read(r, events))
    decreases |events|
  {
    if events == [] {
    } else {
      FreshStep(lib, r, events[0]);
      FreshAll(lib, Observe(r, events[0]), events[1..]);
    }
  }

  /** A ledger cut in two: the reading between the parts is fresh, and the rest is lawful from there. */
  lemma CutAt(lib: Library, inputs: seq<PollInput>, i: nat)
    requires i <= |Run(lib, inputs).1|
    ensures var trace := Run(lib, inputs).1; var r := Read(BLANK, trace[..i]);
            && Fresh(r) && Lawful(lib, r, trace[i..])
            && (i < |trace| ==> Allowed(lib, r, trace[i]))
  {
    var trace := Run(lib, inputs).1;
    RunKeeps(lib, inputs);
    assert trace == trace[..i] + trace[i..];
    ReadJoin(lib, BLANK, trace[..i], trace[i..]);
    FreshAll(lib, BLANK, trace[..i]);
  }

  /** The continuation pages committed in a stretch of the ledger, in order. */
  function PageUrls(events: seq<Event>): seq<Url> {
    if events == [] then []
    else if events[0].Page? then [events[0].url] + PageUrls(events[1..])
    else PageUrls(events[1..])
  }

  /** The stretch lies within one scan: only its final event may complete one. */
  predicate OneScan(events: seq<Event>) {
    |events| <= 1 || (!Completes(events[0]) && OneScan(events[1..]))
  }

  lemma VisitedUnfolds(r: Reading, events: seq<Event>)
    requires events != [] && !Completes(events[0])
    ensures r.visited + PageUrls(events) == Observe(r, events[0]).visited + PageUrls(events[1..])
  {
  }

  lemma {:induction false} StretchFacts(lib: Library, r: Reading, events: seq<Event>)
    requires Fresh(r) && Lawful(lib, r, events) && OneScan(events)
    ensures Spaced(r.visited + PageUrls(events))
    ensures |r.visited + PageUrls(events)| <= MAXIMUM_PAGES + 1
    decreases |events|
  {
    if events == [] {
      assert r.visited + [] == r.visited;
    } else {
      FreshStep(lib, r, events[0]);
      if |events| == 1 {
        assert PageUrls(events[1..]) == [];
        assert r.visited + PageUrls(events) == if events[0].Page? then r.visited + [events[0].url] else r.visited;
      } else {
        StretchFacts(lib, Observe(r, events[0]), events[1..]);
        VisitedUnfolds(r, events);
      }
    }
  }

  lemma SpacedSuffix(a: seq<Url>, b: seq<Url>)
    requires Spaced(a + b)
    ensures Spaced(b)
  {
    forall x, y | 0 <= x < y < |b| && y - x <= RECENT_LIMIT + 1
      ensures b[x] != b[y]
    {
      assert (a + b)[|a| + x] == b[x] && (a + b)[|a| + y] == b[y];
    }
  }

  /**
   Over any run, one scan commits at most 10001 continuation pages and any 34 of
   them in a row are pairwise distinct.
   */
  lemma ScansBoundedAndSpaced(lib: Library, inputs: seq<PollInput>, i: nat, j: nat)
    requires i <= j <= |Run(lib, inputs).1| && OneScan(Run(lib, inputs).1[i..j])
    ensures var pages := PageUrls(Run(lib, inputs).1[i..j]);
            |pages| <= 10_001 && Spaced(pages)
  {
    hide Run, Spaced, OneScan, PageUrls;
    var trace := Run(lib, inputs).1;
    CutAt(lib, inputs, i);
    var r, stretch, rest := Read(BLANK, trace[..i]), trace[i..j], trace[j..];
    assert trace[i..] == stretch + rest;
    ReadJoin(lib, r, stretch, rest);
    StretchFacts(lib, r, stretch);
    SpacedSuffix(r.visited, PageUrls(stretch));
  }

  // ---- An issue holds the scan ----

  predicate RootCompletes(e: Event) {
    e.Root? && e.reply.Stored? && e.reply.next == ""
  }

  lemma {:induction false} HeldBlocks(lib: Library, r: Reading, events: seq<Event>, k: nat)
    requires Lawful(lib, r, events) && r.held && k < |events| && Continues(lib, events[k])
    ensures exists j :: 0 <= j < k && RootCompletes(events[j])
    decreases k
  {
    if !RootCompletes(events[0]) {
      HeldBlocks(lib, Observe(r, events[0]), events[1..], k - 1);
      var j :| 0 <= j < k - 1 && RootCompletes(events[1..][j]);
      assert RootCompletes(events[j + 1]);
    }
  }

  /**
   Once a page is committed with an issue, the next continuation that the run fetches,
   whether it is then committed, rolled back or fails, comes only after the root page was
   stored without a next link.
   */
  lemma IssueStopsContinuations(lib: Library, inputs: seq<PollInput>, i: nat, k: nat)
    requires i < k < |Run(lib, inputs).1|
    requires var e := Run(lib, inputs).1[i]; e.Page? && e.next != "" && e.issue != ""
    requires Continues(lib, Run(lib, inputs).1[k])
    ensures exists j :: i < j < k && RootCompletes(Run(lib, inputs).1[j])
  {
    CutAt(lib, inputs, i);
    var trace := Run(lib, inputs).1;
    var j := IssueBlocks(lib, Read(BLANK, trace[..i]), trace[i..], k - i);
    assert RootCompletes(trace[i + j]);
  }

  lemma IssueBlocks(lib: Library, r: Reading, events: seq<Event>, k: nat) returns (j: nat)
    requires Lawful(lib, r, events) && 0 < k < |events| && Continues(lib, events[k])
    requires events[0].Page? && events[0].next != "" && events[0].issue != ""
    ensures 0 < j < k && RootCompletes(events[j])
  {
    var rest := events[1..];
    HeldBlocks(lib, Observe(r, events[0]), rest, k - 1);
    j :| 0 <= j < k - 1 && RootCompletes(rest[j]);
    j := j + 1;
  }

  /**
   Exactly when a page raises an issue: its next link is one of the last 32 pages of
   the scan (up to digest collisions), or it is the 10001st page.
   */
  lemma IssueExactlyWhen(lib: Library, inputs: seq<PollInput>, k: nat)
    requires k < |Run(lib, inputs).1|
    requires var e := Run(lib, inputs).1[k]; e.Page? && e.next != ""
    ensures var e := Run(lib, inputs).1[k]; var scan := Read(BLANK, Run(lib, inputs).1[..k]).visited;
            && (e.issue == "page_limit" <==> |scan| == 10_000)
            && (e.issue == "cursor_cycle" <==> |scan| != 10_000 && Recent(lib, scan, e.next))
            && e.issue in {"", "page_limit", "cursor_cycle"}
  {
    CutAt(lib, inputs, k);
    var e, scan := Run(lib, inputs).1[k], Read(BLANK, Run(lib, inputs).1[..k]).visited;
  }

  // ---- No page of a scan is skipped ----

  predicate Offers(e: Event, link: Url) {
    (e.Page? && e.next == link) || (e.Root? && e.reply.Stored? && e.reply.next == link)
  }

  /** Event `j` offers `link`, and nothing after it belongs to another page or another scan. */
  ghost predicate Origin(trace: seq<Event>, j: nat, link: Url) {
    && j < |trace|
    && Offers(trace[j], link)
    && (Read(BLANK, trace).visited != [] ==> trace[j].Page?)
    && forall k :: j < k < |trace| ==> !trace[k].Page? && !Completes(trace[k])
  }

  lemma {:induction false} NoLinkNothingVisited(lib: Library, trace: seq<Event>)
    requires Read(BLANK, trace).link == ""
    ensures Read(BLANK, trace).visited == []
  {
    if trace == [] {
    } else {
      var n := |trace| - 1;
      LastEvent(lib, trace);
      if !Completes(trace[n]) {
        NoLinkNothingVisited(lib, trace[..n]);
      }
    }
  }

  lemma LastEvent(lib: Library, trace: seq<Event>)
    requires trace != []
    ensures Read(BLANK, trace) == Observe(Read(BLANK, trace[..|trace| - 1]), trace[|trace| - 1])
  {
    var n := |trace| - 1;
    assert trace == trace[..n] + [trace[n]];
    ReadJoin(lib, BLANK, trace[..n], [trace[n]]);
  }

  lemma {:induction false} LinkHasOrigin(lib: Library, trace: seq<Event>) returns (j: nat)
    requires Read(BLANK, trace).link != ""
    ensures Origin(trace, j, Read(BLANK, trace).link)
  {
    j := |trace| - 1;
    var e, before := trace[j], trace[..j];
    LastEvent(lib, trace);
    if !e.Page? {
      if e.Root? && Read(BLANK, before).link == "" {
        NoLinkNothingVisited(lib, before);
      } else {
        j := LinkHasOrigin(lib, before);
        assert forall k :: j <= k < |before| ==> before[k] == trace[k];
      }
    }
  }

  /**
   Every continuation fetched follows the link of the page committed just before it in the
   same scan, or the link of the root page that opened the scan.  So a scan that
   completes has walked the whole chain, across all failures and restarts.
   */
  lemma NoPageSkipped(lib: Library, inputs: seq<PollInput>, i: nat)
    requires i < |Run(lib, inputs).1| && Continues(lib, Run(lib, inputs).1[i])
    ensures exists j :: Origin(Run(lib, inputs).1[..i], j, Run(lib, inputs).1[i].url)
  {
    CutAt(lib, inputs, i);
    var j := LinkHasOrigin(lib, Run(lib, inputs).1[..i]);
  }

  // ---- Fetches per poll, validators, daily restart ----

  predicate RootFetch(lib: Library, e: Event) {
    e.Root? || e == Lost(lib.root)
  }

  /** In every run the first fetch of a poll is the only one of the root page. */
  lemma {:induction false} RootIsFetchedOnce(lib: Library, inputs: seq<PollInput>, input: PollInput)
    ensures var events := Poll(lib, Run(lib, inputs).0, input).events;
            forall k :: 0 <= k < |events| ==> (RootFetch(lib, events[k]) <==> k == 0)
  {
    hide Poll, Run, Agrees;
    var (p, trace) := Run(lib, inputs);
    RunKeeps(lib, inputs);
    PollKeeps(lib, p, input, Read(BLANK, trace));
  }

  lemma {:induction false} PagesFetch(lib: Library, p: Progress, turns: seq<Turn>)
    ensures |PagesStep(lib, p, turns).events| <= |turns|
    ensures forall e :: e in PagesStep(lib, p, turns).events ==> !e.Root?
    ensures PagesStep(lib, p, turns).progress.etag == p.etag
    ensures PagesStep(lib, p, turns).progress.lastModified == p.lastModified
    decreases |turns|
  {
    if turns != [] && p.cursor != "" && PageStep(lib, p, turns[0]).goOn {
      PagesFetch(lib, PageStep(lib, p, turns[0]).progress, turns[1..]);
    }
  }

  /** A poll fetches the root page first and then at most two other pages. */
  lemma PollFetches(lib: Library, p: Progress, input: PollInput)
    requires Complete(input)
    ensures |Poll(lib, p, input).events| <= 3
    ensures Poll(lib, p, input).events != [] ==> RootFetch(lib, Poll(lib, p, input).events[0])
    ensures forall k :: 1 <= k < |Poll(lib, p, input).events| ==> !Poll(lib, p, input).events[k].Root?
  {
    PagesFetch(lib, RootStep(lib, p, input.now, input.root).progress, input.turns);
  }

  /** Validators come from root responses only. */
  ghost predicate FromRoot(p: Progress, trace: seq<Event>) {
    && (p.etag != "" ==>
          exists i ::
            0 <= i < |trace| && trace[i].Root? && !trace[i].reply.Failed? && trace[i].reply.etag == p.etag)
    && (p.lastModified != "" ==>
          exists i ::
            && 0 <= i < |trace| && trace[i].Root? && !trace[i].reply.Failed?
            && trace[i].reply.lastModified == p.lastModified)
  }

  lemma FromRootGrows(p: Progress, q: Progress, trace: seq<Event>, more: seq<Event>)
    requires FromRoot(p, trace) && q.etag == p.etag && q.lastModified == p.lastModified
    ensures FromRoot(q, trace + more)
  {
    var t := trace + more;
    assert forall i :: 0 <= i < |trace| ==> t[i] == trace[i];
  }

  lemma RootValidators(lib: Library, p: Progress, now: int, exchange: Exchange, trace: seq<Event>)
    requires FromRoot(p, trace)
    ensures var out := RootStep(lib, p, now, exchange); FromRoot(out.progress, trace + out.events)
  {
    var out := RootStep(lib, p, now, exchange);
    var t := trace + out.events;
    assert forall i :: 0 <= i < |trace| ==> t[i] == trace[i];
    assert t[|trace|] == out.events[0];
  }

  lemma PollValidators(lib: Library, p: Progress, input: PollInput, trace: seq<Event>)
    requires FromRoot(p, trace)
    ensures var out := Poll(lib, p, input); FromRoot(out.progress, trace + out.events)
  {
    var root := RootStep(lib, p, input.now, input.root);
    RootValidators(lib, p, input.now, input.root, trace);
    FromRootGrows(p, p, trace, []);
    if root.goOn {
      var pages := PagesStep(lib, root.progress, input.turns);
      PagesFetch(lib, root.progress, input.turns);
      FromRootGrows(root.progress, pages.progress, trace + root.events, pages.events);
      assert trace + (root.events + pages.events) == trace + root.events + pages.events;
    }
  }

  /** The stored validators are always ones that some committed root response carried. */
  lemma {:induction false} ValidatorsComeFromRoot(lib: Library, inputs: seq<PollInput>)
    ensures var (p, trace) := Run(lib, inputs); FromRoot(p, trace)
  {
    if inputs == [] {
    } else {
      var before := inputs[..|inputs| - 1];
      ValidatorsComeFromRoot(lib, before);
      PollValidators(lib, Run(lib, before).0, inputs[|inputs| - 1], Run(lib, before).1);
    }
  }

  /**
   The daily restart: a poll of an idle scan 24 hours after its completion asks for the
   root page unconditionally, so what it commits is a stored page and never a 304; every
   other poll with a stored validator asks conditionally.
   */
  lemma {:induction false} RestartIsUnconditional(lib: Library, p: Progress, input: PollInput)
    ensures forall e :: e in Poll(lib, p, input).events && e.Root? ==>
              var day := 24 * 3600 * 1_000_000_000;
              var restart := p.cursor == "" && (p.scan.completed.None? || input.now - p.scan.completed.value >= day);
              && (e.conditional <==> (p.etag != "" || p.lastModified != "") && !restart)
              && (!e.conditional ==> e.reply.Stored?)
  {
    PagesFetch(lib, RootStep(lib, p, input.now, input.root).progress, input.turns);
  }

  /** The time of completion is that of the last event that completed a scan. */
  lemma {:induction false} CompletedByLast(lib: Library, inputs: seq<PollInput>, j: nat)
    requires var trace := Run(lib, inputs).1;
             j < |trace| && Completes(trace[j]) && forall k :: j < k < |trace| ==> !Completes(trace[k])
    ensures Run(lib, inputs).0.scan.completed == Some(Run(lib, inputs).1[j].at)
  {
    hide Run;
    RunKeeps(lib, inputs);
    LastCompletion(lib, Run(lib, inputs).1, j);
  }

  lemma {:induction false} LastCompletion(lib: Library, trace: seq<Event>, j: nat)
    requires j < |trace| && Completes(trace[j]) && forall k :: j < k < |trace| ==> !Completes(trace[k])
    ensures Read(BLANK, trace).completed == Some(trace[j].at)
  {
    var n := |trace| - 1;
    LastEvent(lib, trace);
    if j < n {
      LastCompletion(lib, trace[..n], j);
    }
  }

  lemma {:induction false} NeverCompleted(lib: Library, inputs: seq<PollInput>)
    requires forall e :: e in Run(lib, inputs).1 ==> !Completes(e)
    ensures Run(lib, inputs).0.scan.completed == None
  {
    hide Run;
    RunKeeps(lib, inputs);
    NoCompletion(lib, Run(lib, inputs).1);
  }

  lemma {:induction false} NoCompletion(lib: Library, trace: seq<Event>)
    requires forall e :: e in trace ==> !Completes(e)
    ensures Read(BLANK, trace).completed == None
  {
    if trace == [] {
    } else {
      var n := |trace| - 1;
      LastEvent(lib, trace);
      assert trace[n] in trace;
      NoCompletion(lib, trace[..n]);
    }
  }

  /** Every next page the Link header scanner returns is one the scan may follow. */
  lemma NextPageIsAcceptable(lib: Library, url: Url, header: string)
    ensures var r := LinkHeader.NextPage(lib.Pages(), url, header); r.Ok? ==> Acceptable(lib, url, r.value)
  {
    LinkRoundTrip.NextPageIsSafe(lib.Pages(), url, header);
  }
}

/**
 The reviewed-advisory scan of `internal/ingestion/ingestion.go`.

 Each poll refreshes the pinned first page and then follows at most two
 continuation links.  The position of the scan lives in a checkpoint that is
 written in the same transaction as the page it belongs to, so a scan stretches
 over many polls and survives failures between them.

 This module holds what one poll does to the decoded checkpoint.  The untyped
 provider state that stores it is in `AdvisoryPoller`, the facts about whole runs
 are in `AdvisoryRuns`.
 */
module AdvisoryScan {
  import opened Wrappers
  import opened Checkpoints
  import LinkHeader

  /** A page address.  The empty string stands for "no link", as in the source. */
  type Url = string

  const CONTINUATIONS_PER_POLL := 2
  const MAXIMUM_PAGES := 10000
  const RECENT_LIMIT := 32
  const CURSOR_CYCLE := "cursor_cycle"
  const PAGE_LIMIT := "page_limit"
  /** Instants are nanoseconds. */
  const ONE_DAY := 24 * 3600 * 1_000_000_000

  /**
   What the scan takes from outside: the pinned first page, SHA-256 in hex, RFC 3339 time text, and
   URL inspection.
   */
  datatype Library = Library(
    root: Url,
    digest: string -> string,
    formatTime: int -> string,
    parseTime: string -> Option<int>,
    isPage: Url -> bool,
    after: Url -> string)
  {
    function Pages(): LinkHeader.Pages {
      LinkHeader.Pages(root, isPage, after)
    }

    ghost predicate Sound() {
      && (forall u :: |digest(u)| == 64)
      && (forall t :: parseTime(formatTime(t)) == Some(t))
    }
  }

  /** What the provider state says about the scan. */
  datatype Scan = Scan(pages: int, recent: seq<string>, issue: string, completed: Option<int>)

  /** A decoded checkpoint. */
  datatype Progress = Progress(cursor: Url, etag: string, lastModified: string, scan: Scan)

  const START := Progress("", "", "", Scan(0, [], "", None))

  /** What the provider answers.  `Stored` carries the next link found in the response. */
  datatype Reply =
    | Stored(next: Url, etag: string, lastModified: string)
    | NotModified(etag: string, lastModified: string)
    | Failed

  /**
   How writing the result ends.  A provenance conflict commits the transaction and
   still reports an error, hence three outcomes.
   */
  datatype Recording = Committed | CommittedWithError | RolledBack

  datatype Exchange = Exchange(reply: Reply, recording: Recording, now: int)

  datatype Turn = Turn(cancelled: bool, exchange: Exchange)

  /** Everything the outside world decides during one poll. */
  datatype PollInput = PollInput(now: int, root: Exchange, turns: seq<Turn>)

  ghost predicate Complete(input: PollInput) {
    |input.turns| == CONTINUATIONS_PER_POLL
  }

  /** One fetch as the ledger sees it, with the time it was recorded; `Lost` left the checkpoint alone. */
  datatype Event =
    | Root(reply: Reply, conditional: bool, at: int)
    | Page(url: Url, next: Url, issue: string, at: int)
    | Lost(url: Url)

  datatype Outcome = Outcome(progress: Progress, events: seq<Event>, goOn: bool)

  /** The last `n` elements. */
  function Last<T>(s: seq<T>, n: nat): seq<T> {
    if |s| <= n then s else s[|s| - n..]
  }

  predicate ScanDue(p: Progress, now: int) {
    p.cursor == "" && (p.scan.completed == None || now >= p.scan.completed.value + ONE_DAY)
  }

  /** The scan record after a checkpoint update; `fetched` is "" for the root page. */
  function NextScan(lib: Library, scan: Scan, now: int, next: Url, newScan: bool, fetched: Url): Scan {
    if next == "" then
      Scan(0, [], "", Some(now))
    else
      var s := if newScan then Scan(0, [], "", scan.completed) else scan;
      if fetched == "" then s
      else
        Scan(s.pages + 1,
             Last(s.recent + [lib.digest(fetched)], RECENT_LIMIT),
             if s.pages + 1 > MAXIMUM_PAGES then PAGE_LIMIT
             else if lib.digest(next) in s.recent then CURSOR_CYCLE
             else s.issue,
             s.completed)
  }

  /** The fetcher rejects a link that leaves the reviewed pages or repeats the page it is on. */
  predicate Acceptable(lib: Library, url: Url, next: Url) {
    next == "" || LinkHeader.Continuation(lib.Pages(), url, next)
  }

  /**
   The reply as the fetcher hands it on.  A 304 counts only for a request that sent
   a validator, and a link that is not acceptable fails the fetch.
   */
  function Answer(lib: Library, url: Url, conditional: bool, reply: Reply): Reply {
    if reply.NotModified? && !conditional then Failed
    else if reply.Stored? && !Acceptable(lib, url, reply.next) then Failed
    else reply
  }

  /** The checkpoint the root page leads to. */
  function AfterRoot(lib: Library, p: Progress, sent: Progress, reply: Reply, now: int): Progress
    requires !reply.Failed?
  {
    var q := sent.(etag := First(reply.etag, sent.etag), lastModified := First(reply.lastModified, sent.lastModified));
    if reply.NotModified? && p.cursor == "" then q
    else
      var cursor := if reply.Stored? && reply.next == "" then ""
                    else if p.cursor != "" then p.cursor
                    else reply.next;
      q.(cursor := cursor, scan := NextScan(lib, q.scan, now, cursor, p.cursor == "", ""))
  }

  function RootStep(lib: Library, p: Progress, now: int, exchange: Exchange): Outcome {
    var sent := if ScanDue(p, now) then p.(etag := "", lastModified := "") else p;
    var conditional := sent.etag != "" || sent.lastModified != "";
    var reply := Answer(lib, lib.root, conditional, exchange.reply);
    if reply.Failed? || exchange.recording.RolledBack? then
      Outcome(p, [Lost(lib.root)], false)
    else
      var q := AfterRoot(lib, p, sent, reply, exchange.now);
      Outcome(q, [Root(reply, conditional, exchange.now)], exchange.recording.Committed? && q.scan.issue == "")
  }

  /** One continuation; the caller has checked that there is a cursor. */
  function PageStep(lib: Library, p: Progress, turn: Turn): Outcome {
    var reply := Answer(lib, p.cursor, false, turn.exchange.reply);
    if turn.cancelled then
      Outcome(p, [], false)
    else if !reply.Stored? || turn.exchange.recording.RolledBack? then
      Outcome(p, [Lost(p.cursor)], false)
    else
      var q := p.(cursor := reply.next,
                  scan := NextScan(lib, p.scan, turn.exchange.now, reply.next, false, p.cursor));
      Outcome(q, [Page(p.cursor, reply.next, q.scan.issue, turn.exchange.now)],
              turn.exchange.recording.Committed? && q.scan.issue == "")
  }

  /** The continuation loop over the turns that are left. */
  function PagesStep(lib: Library, p: Progress, turns: seq<Turn>): Outcome
    decreases |turns|
  {
    if turns == [] || p.cursor == "" then Outcome(p, [], true)
    else
      var one := PageStep(lib, p, turns[0]);
      if !one.goOn then one
      else
        var rest := PagesStep(lib, one.progress, turns[1..]);
        Outcome(rest.progress, one.events + rest.events, rest.goOn)
  }

  /** One poll. */
  function Poll(lib: Library, p: Progress, input: PollInput): Outcome {
    if p.cursor != "" && !lib.isPage(p.cursor) then Outcome(p, [], false)
    else
      var root := RootStep(lib, p, input.now, input.root);
      if !root.goOn then root
      else
        var pages := PagesStep(lib, root.progress, input.turns);
        Outcome(pages.progress, root.events + pages.events, pages.goOn)
  }

  /** Polls, one after the other, from an empty checkpoint: the checkpoint reached and the ledger written. */
  function Run(lib: Library, inputs: seq<PollInput>): (Progress, seq<Event>) {
    if inputs == [] then (START, [])
    else
      var before := Run(lib, inputs[..|inputs| - 1]);
      var poll := Poll(lib, before.0, inputs[|inputs| - 1]);
      (poll.progress, before.1 + poll.events)
  }
}

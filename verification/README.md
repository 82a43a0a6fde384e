# Relantern in Dafny

Relantern fetches sources on a schedule, parses them into evidence, removes duplicates,
ranks and matches what is left, and serves it to readers. Between its database and its
HTTP code lies deterministic logic whose guarantees range over whole runs. This project
models that logic and proves those guarantees. `dafny verify dfyconfig.toml` checks it.

| part | files |
|---|---|
| reviewed-advisory scan over many polls | `Checkpoints`, `AdvisoryScan`, `AdvisoryPoller`, `AdvisoryRuns` |
| local-time schedule and its reconciler | `Schedule`, `ScheduleZones`, `Reconciler`, `ReconcilerRuns`, `ReconcilerRows`, `ReconcilerCommits` |
| host limiter: token bucket and permits | `TokenBucket`, `Permits` |
| fetch loop with its object store | `FetchLoop` |
| text: UTF-8, space, lengths | `Utf8`, `Utf8Encoding`, `Texts`, `TextFacts` |
| evidence offsets and spans | `Normalize`, `EvidenceSpans`, `EvidenceFacts` |
| Link header scanner | `LinkHeader`, `LinkRoundTrip`, `LinkGrammar` |
| live event stream | `LiveReplay`, `LiveProgress`, `LiveReconnect` |
| duplicate decision | `Ordering`, `StableSort`, `StableOrder`, `Dedupe` |
| reading state | `ReadingState`, `ReadingRuns`, `ReadingFacts` |
| search fusion, digest selection | `Fusion`, `DigestSelect` |
| version ranges and advisory matches | `Versions`, `VersionRanges`, `RangeFacts`, `AlertMatch` |
| robots policy | `Robots`, `RobotsFacts`, `RobotsGroups` |

Where the source loops and updates, the model has a method with a loop, proved equal to
a function or a declarative predicate; what is promised over all inputs, runs or
interleavings is then a lemma about that function. What such a function computes is also
stated without it: by a grammar, a table, a ledger or the numbers themselves. What the
outside world decides (the network, the store, the clock, the queue) is a parameter that
ranges over everything.

Some promises turned out not to hold as such. The model keeps the code as it is, shows
where it fails, and proves exactly when it holds:

- Span building cuts after the bytes 0x85 and 0xA0 even inside a character. A span ends
  inside a character if and only if the last space-like byte in the second half of its
  window is in the interior of a character (`LongSpanExactly`). All spans are valid if and
  only if no window met from the start of a block is of that kind
  (`SpansAreValidExactly`), and a document without an outline is refused if and only if
  the first such cut leaves more than one span (`RefusedExactly`); one with an outline, if
  and only if that happens in some block or the blocks need more than 200 spans
  (`OutlineRefusedExactly`). Both happen (`CharacterCanBeSplit`, `DocumentCanBeRefused`).
- The duplicate comparison is an order on the matches if and only if no three of them beat
  each other in a circle (`OrderExactlyWhen`), and nobody beats the chosen match if and
  only if some match is beaten by nobody (`NobodyBeatsTheChoice`). Every arrangement then
  decides for the same item, and with up to twenty matches, or fewer than twenty of each
  item, only then (`OrderMattersExactlyWhen`). Three candidates with the entry of one document can form
  such a circle (`CycleHasNoBest`).
- The next-occurrence search finds the least occurrence after every instant if and only if
  every enabled date that the clock shows has an occurrence and is resolved before the
  clock first shows a later date (`LeastExactlyWhen`); it fails exactly when it meets a date
  shown without one (`NextFailsExactly`). America/Nuuk skips the last hour of a Saturday
  each March, and a daily schedule in that hour has no next occurrence on the Friday before
  (`NuukHasNoNext`). A date that a zone skips whole, as Pacific/Apia did in December 2011,
  does no harm (`ApiaMissesNothing`). That the order of dates matters is shown by a zone
  that is in no time zone database (`RegressingDateIsMissed`).
- A reconciler run that holds the lock and claims schedules reduces the backlog if and only
  if none of them reaches such a date within the hundred occurrences of the run; otherwise
  the whole batch is rolled back (`RunShrinksBacklog`), and again by every later run that
  claims it (`StuckForever`). One schedule of the Nuuk kind keeps everything claimed with
  it unpaid (`NuukBlocksTheBatch`), and as the claim query takes the oldest schedules first
  it is claimed again and again (`OneBlocksAll`).
- A read of the live log from a known event, and a stream of such reads, shows every event
  up to its last one if and only if no event of the log is older than both an event before
  it and an event after it (`WholeExactlyWhenSteady`, `StreamsExactlyWhenSteady`). Creation
  times are taken before the publication lock, so a log need not be like that
  (`OlderSuccessorIsPassedOver`).
- The robots groups are those of section 2.2.1 of RFC 9309 if and only if no agent line has
  only empty rules before the next agent line (`GroupsExactlyWhen`). The readers for whom
  the rules differ are exactly those on whom such a merge imposes a rule that the standard
  does not give them (`RulesDifferExactly`, `DecidedOtherwiseExactly`): the agent that an empty `Disallow:` was meant
  for is bound by the rules of the next one (`EmptyRuleMergesGroups`).

## Model

| member | source | states |
|---|---|---|
| AdvisoryPoller.PersistKeepsView | internal/ingestion/ingestion.go:296-331 | Writing the scan state as JSON and reading it back, with numbers turned into floats and lists into untyped elements, does not change what the scan sees. |
| AdvisoryPoller.ForeignCount | internal/ingestion/ingestion.go:296-307 | A stored page count that is no number counts from zero, a fraction is rounded down, and one that no scan can have ends the scan at its next page. |
| AdvisoryPoller.ForeignDigests | internal/ingestion/ingestion.go:309-328 | Of a stored list exactly the texts of 64 characters count as recent pages. |
| AdvisoryPoller.SetAdvisoryScanState | internal/ingestion/ingestion.go:250-294 | The update of the untyped state map moves the decoded scan by exactly one step of the specification and leaves every key of other owners alone. |
| AdvisoryPoller.PollRoot | internal/ingestion/ingestion.go:173-207 | The first-page exchange on the stored checkpoint refines the specified root step, the scan goes on only without an issue, and the request carries the validators unless the stored scan is at rest for 24 hours. |
| AdvisoryPoller.PollPage | internal/ingestion/ingestion.go:208-231 | One continuation page on the stored checkpoint refines the specified page step, on every reply, cancellation and recording outcome. |
| AdvisoryPoller.Poller.Poll | internal/ingestion/ingestion.go:173-236 | A poll of the worker changes its durable checkpoint and its ledger of fetches exactly as the specified poll does. |
| AdvisoryPoller.Poller.Continue | internal/ingestion/ingestion.go:208-235 | The continuation loop refines the specified pages, stopping where they stop. |
| AdvisoryPoller.Drive | internal/ingestion/ingestion.go:147-236 | Any number of polls from an empty checkpoint give exactly the runs the theorems below speak about. |
| AdvisoryRuns.RunKeeps | internal/ingestion/ingestion.go:173-294 | After any polls, with any failures, 304s and restarts, the durable checkpoint is the one implied by the ledger of committed fetches alone. |
| AdvisoryRuns.RunsFollowTheLedger | internal/ingestion/ingestion.go:165-294 | Every run fetches exactly what the whole ledger, read from its beginning without any checkpoint, asks for next: the counter, the 32 digests and the stored times lose nothing. |
| AdvisoryRuns.ScansBoundedAndSpaced | internal/ingestion/ingestion.go:250-294 | Within one scan of any run at most 10001 continuation pages are committed, and any 34 in a row are pairwise distinct. |
| AdvisoryRuns.IssueStopsContinuations | internal/ingestion/ingestion.go:186-231 | After a page that raised an issue no continuation is fetched, not even one that then fails or is rolled back, until a stored root page without a next link. |
| AdvisoryRuns.IssueExactlyWhen | internal/ingestion/ingestion.go:272-291 | A page raises `page_limit` if and only if it is the 10001st of its scan, and else `cursor_cycle` if and only if its next link is, by digest, one of the last 32 pages. |
| AdvisoryRuns.NoPageSkipped | internal/ingestion/ingestion.go:173-236 | Every continuation that any run fetches, committed or lost, follows the link of the page committed just before it in the scan, or of the root page that opened it. |
| AdvisoryRuns.PollFetches | internal/ingestion/ingestion.go:173-236 | A poll makes at most three fetches, the first of them of the root page. |
| AdvisoryRuns.RootIsFetchedOnce | internal/ingestion/ingestion.go:173-236 | In every run the first fetch of a poll, and no other, is of the root page, so lost fetches of other pages are exactly the lost continuations. |
| AdvisoryRuns.ValidatorsComeFromRoot | internal/ingestion/ingestion.go:179-220 | In every run the stored validators are ones that a committed root response carried. |
| AdvisoryRuns.RestartIsUnconditional | internal/ingestion/ingestion.go:179-248 | The root page is asked for with validators exactly when there are any and the scan is not at rest for 24 hours or more; an unconditional answer that is committed is a stored page, never a 304. |
| AdvisoryRuns.CompletedByLast | internal/ingestion/ingestion.go:238-264 | In every run the 24 hours count from the last recorded page without a next link. |
| AdvisoryRuns.NeverCompleted | internal/ingestion/ingestion.go:238-248 | Before the first such page no completion is stored. |
| AdvisoryRuns.NextPageIsAcceptable | internal/sources/global_advisories.go:77-107 | Every next page the header scanner returns is one the scan accepts. |
| Schedule.NewDefinition | internal/scheduler/schedule.go:22-46 | A definition is accepted exactly for a known zone, a time of day and a nonempty list of ISO weekdays, and holds those weekdays. |
| Schedule.WeekdayOfDay | internal/scheduler/schedule.go:121-126 | Monday 1970-01-05 is day 1 of the week, and the days follow each other from there in both directions. |
| Schedule.ScanCoversDate | internal/scheduler/schedule.go:82-92 | For offsets within fourteen hours the scan sees every instant that shows the local date at or after the minute. |
| Schedule.ScanIsTight | internal/scheduler/schedule.go:82-92 | Zones at plus and minus fourteen hours resolve at the first and at the last but one minute of the scan. |
| Schedule.ResolveLocalMinute | internal/scheduler/schedule.go:82-119 | The minute loop returns the specified instant of the date, or nothing exactly when the date shows no such or later minute. |
| Schedule.FoldsAndGaps | internal/scheduler/schedule.go:95-118 | A folded minute resolves to its first instant; a skipped minute to the smallest later reading of the date. |
| Schedule.NextOccurrence | internal/scheduler/schedule.go:48-80 | The loop over noons returns what the specified search returns; a result is after the given instant, at or after the minute, and on a day that lies a listed number of days after a Monday. |
| Schedule.NextDecides | internal/scheduler/schedule.go:48-80 | The search ends within ten days when no date of them is skipped and within seventeen in every zone that shows noon of each date it shows and one of any two dates a week apart; it fails only on an enabled date that is shown but cannot be resolved, and the "within one year" error is unreachable. |
| Schedule.OneYearExactly | internal/scheduler/schedule.go:55-80 | In any zone the error "within one year" stands for exactly 370 noons at none of which the search can end. |
| Schedule.NextFailsExactly | internal/scheduler/schedule.go:48-80 | The search fails if and only if an enabled date that is shown without an occurrence comes before every occurrence after the given instant. |
| Schedule.NextIsLeast | internal/scheduler/schedule.go:48-80 | The result is the least resolved instant after the given one over all enabled dates, when each of those that is shown has an occurrence and is resolved before a later date is shown. |
| Schedule.LeastExactlyWhen | internal/scheduler/schedule.go:48-80 | The search finds the least occurrence after every instant if and only if that holds of every enabled date the clock shows. |
| Schedule.NondecreasingIsInOrder | internal/scheduler/schedule.go:48-80 | Zones whose local date never goes back resolve every date before a later one is shown. |
| ScheduleZones.ApiaSkipsADate | internal/scheduler/schedule.go:53-58 | A zone that jumps from -10:00 to +14:00, as Pacific/Apia did, never shows one date; the noon built for it lies on the next date. |
| ScheduleZones.NoonIsTwelve | internal/scheduler/schedule.go:55-64 | A date that a zone shows from 12:01 on only is taken for the next one, as its noon is not shown. |
| ScheduleZones.ApiaMissesNothing | internal/scheduler/schedule.go:48-80 | There every daily schedule still finds its least occurrence after every instant. |
| ScheduleZones.ApiaGoesOn | internal/scheduler/schedule.go:48-80 | From the occurrence before the skipped date the search returns the one on the date after it. |
| ScheduleZones.NuukHasNoNext | internal/scheduler/schedule.go:48-119 | A zone that skips the last hour of a day, as America/Nuuk does each March: every daily schedule in that hour gets an error instead of its next occurrence the day before. |
| ScheduleZones.RegressingDateIsMissed | internal/scheduler/schedule.go:48-80 | A zone, in no time zone database, that shows a date for ten minutes before the date preceding it, for which the search returns a later occurrence than the least. |
| Reconciler.ReconcileOccurrence | internal/scheduler/reconciler.go:214-309 | One occurrence: an existing final row is left alone; a new one is skipped, enqueued in time, enqueued late or missed as skip request, policy and grace say; an enqueued row has its one job, which counts as queued only if the queue did not hold it already. |
| Reconciler.CatchUpSchedule | internal/scheduler/reconciler.go:163-196 | The catch-up loop of one schedule refines the specified stretch of at most a hundred occurrences and counts what it wrote. |
| Reconciler.AdvanceSchedule | internal/scheduler/reconciler.go:163-206 | The loop and the row update together refine the specified advance. |
| Reconciler.AdvanceClaimed | internal/scheduler/reconciler.go:162-206 | The outer loop advances the claimed schedules one after the other. |
| Reconciler.Store.Reconcile | internal/scheduler/reconciler.go:77-212 | A run without the lock or with any failure changes no table; a failure with the lock means that the queue refused, a claimed definition is invalid or the specified advance fails; a committed one resumes, advances the claimed schedules and reports exactly the rows and jobs added. |
| ReconcilerRuns.CatchUpSettlesStretch | internal/scheduler/reconciler.go:167-196 | Catching up settles a gap-free stretch of the occurrence chain that starts at the due instant and ends where nothing is due or the cap is met. |
| ReconcilerRuns.SettledRow | internal/scheduler/reconciler.go:214-309 | A final row never changes. A new one is skipped exactly if asked to be, enqueued in time or late within the grace of a catch-up policy, and missed otherwise; one left due keeps its trigger only if it is enqueued. |
| ReconcilerRows.RunWrites | internal/scheduler/reconciler.go:77-309 | The same for whole runs: every row stays, and every new one belongs to a claimed schedule, is due and fits its skip request, policy and grace. |
| ReconcilerRows.ClaimedRowMoves | internal/scheduler/reconciler.go:95-206 | A committed run moves a claimed schedule to a later occurrence, ends its pause, counts its changes and touches nothing else but the skip request. |
| ReconcilerRows.ClaimableExactly | internal/scheduler/reconciler.go:95-128 | A schedule may be claimed exactly if it is enabled, due, and not paused or paused until a time that has come. |
| ReconcilerRows.PausedIsLeftAlone | internal/scheduler/reconciler.go:95-212 | A disabled schedule and one whose pause has not ended are as before after any run, without a new row. |
| ReconcilerRuns.RunsWriteTheChain | internal/scheduler/reconciler.go:77-309 | Over any sequence of runs and skip requests the rows of a schedule are exactly its chain from the first due instant to the current one, and jobs are exactly the enqueued rows. |
| ReconcilerRuns.JobsAreDistinct | internal/scheduler/reconciler.go:267-291 | No occurrence is queued twice. |
| ReconcilerRuns.RunsCoverEveryOccurrence | internal/scheduler/reconciler.go:162-206 | For a regular clock the rows are exactly the local-time occurrences between the first and the current due instant. |
| ReconcilerRuns.SkipIsSpentOnItsOccurrence | internal/scheduler/reconciler.go:167-206 | A run marks an occurrence skipped exactly when it is the requested one, and then clears the request. |
| ReconcilerRuns.AdvancePays | internal/scheduler/reconciler.go:162-206 | Advancing a schedule pays its whole backlog or a hundred occurrences of it and leaves all others alone. |
| ReconcilerRuns.CommittedRunPays | internal/scheduler/reconciler.go:77-212 | Every committed run pays each claimed schedule its backlog or a hundred occurrences of it. |
| ReconcilerCommits.CatchUpFailsExactly | internal/scheduler/reconciler.go:163-196 | Catching up fails if and only if the due occurrences lead, within the cap, to a date shown without an occurrence. |
| ReconcilerCommits.BatchCommitsExactly | internal/scheduler/reconciler.go:162-206 | A claimed batch commits if and only if no claimed schedule has such a date ahead of it. |
| ReconcilerCommits.RunShrinksBacklog | internal/scheduler/reconciler.go:77-212 | A run with the lock that claims a schedule leaves strictly fewer due occurrences than it found, despite the cap, if and only if no claimed schedule has such a date ahead; otherwise it changes nothing. |
| ReconcilerCommits.ShownIsNotStuck | internal/scheduler/reconciler.go:163-196 | A schedule all of whose dates have occurrences is never an obstacle. |
| ReconcilerCommits.StuckForever | internal/scheduler/reconciler.go:77-212 | A schedule with such a date ahead waits for the same occurrence after any later runs and skip requests, whatever batches the runs claim; as long as every run claims it, no row or job is written. |
| ReconcilerCommits.OneBlocksAll | internal/scheduler/reconciler.go:77-212 | With the batches of the claim query, the first hundred due by instant and identity, and no pause that ends by itself: once in a batch it is in every later one, so no schedule moves on and no row or job is written any more. |
| ReconcilerCommits.NuukBlocksTheBatch | internal/scheduler/reconciler.go:77-212 | A due daily schedule in the hour that America/Nuuk skips leaves every schedule claimed with it unpaid, whatever those are. |
| TokenBucket.TokensStayInRange | internal/fetcher/limiter.go:79-115 | Over any sequence of attempts, at any times, tokens stay between zero and capacity. |
| TokenBucket.RateIsBounded | internal/fetcher/limiter.go:79-115 | In any stretch of an execution within an interval of length T at most capacity + T / gap requests are granted. |
| TokenBucket.RateIsReached | internal/fetcher/limiter.go:79-115 | The bound cannot be lowered: for every capacity and every length T some requests within an interval of length T get capacity + floor(T / gap) grants. |
| TokenBucket.DelayIsEnough | internal/fetcher/limiter.go:99-104 | A request that sleeps the computed delay finds a token if nobody took it. |
| TokenBucket.HostsAreIndependent | internal/fetcher/limiter.go:63-77 | In any interleaving a host's grants depend on its own requests only. |
| TokenBucket.EveryHostIsLimited | internal/fetcher/limiter.go:63-115 | From an empty limiter, for every interleaving, host and interval of length T, at most perHost + T / minimumGap grants. |
| TokenBucket.HostLimit.Attempt | internal/fetcher/limiter.go:84-100 | The critical section takes one step of the bucket and computes the missing time when it does not grant. |
| TokenBucket.HostLimit.Wait | internal/fetcher/limiter.go:79-115 | A waiting request takes at most one token, exactly when it is admitted, and gives up only when its context ends. |
| Permits.StepConserves | internal/fetcher/limiter.go:41-61 | Every step of every request, cancellations included, conserves the permit accounts. |
| Permits.MayMoveExactly | internal/fetcher/limiter.go:41-61 | A slot is taken exactly while fewer requests than its limit use one, cancellation is possible exactly while waiting, and nothing else waits. |
| Permits.PermitsAreConserved | internal/fetcher/fetcher.go:146-197 | In every interleaving global slots in use equal holders plus requests waiting for a host slot, no limit is exceeded, and each acquired permit is released at most once and never early. |
| Permits.SomeoneCanMove | internal/fetcher/limiter.go:41-61 | While a request is unfinished some request can take a step that is not a cancellation. |
| Permits.StepsRunOut | internal/fetcher/release.go:18-22 | Every step brings the system closer to its end, except a repeated close, which changes nothing. |
| Permits.EverythingCanFinish | internal/fetcher/limiter.go:41-61 | From every reachable state all requests can finish without cancellation. |
| Permits.FinishedIsClean | internal/fetcher/release.go:18-22 | When all have finished no slot is used and every permit was returned exactly once. |
| FetchLoop.BooksBalance | internal/fetcher/fetcher.go:279-303 | A log that the books accept has as many releases as acquisitions and as many commits and aborts as staged objects, up to the one in hand. |
| FetchLoop.SizeFault | internal/fetcher/fetcher.go:322-333 | A body passes exactly when it is within the limit compressed and decompressed and within the ratio; a size error is never retried. |
| FetchLoop.VerdictMeans | internal/fetcher/fetcher.go:146-339 | Which answers are good, which failures may pass (no capacity, no connection, 429 and 5xx, a broken body, the store) and what each error is called, as conditions on the answer. |
| FetchLoop.PauseMeans | internal/fetcher/fetcher.go:341-346 | The wait is until the time the server names, or 1, 2, 4 or 8 backoffs and the jitter. |
| FetchLoop.Request | internal/fetcher/fetcher.go:146-197 | The permit is kept exactly when there is a response; every failure records its code. |
| FetchLoop.Store | internal/fetcher/fetcher.go:279-303 | Whatever fails after staging, the object is committed once or aborted once, and nothing stays staged. |
| FetchLoop.ProcessResponse | internal/fetcher/fetcher.go:226-320 | The response is accepted exactly if it is good, an error is retryable exactly if it may pass and has the name of the first check that fails, the permit is given back, and no error follows a successful commit. |
| FetchLoop.WaitToRetry | internal/fetcher/fetcher.go:341-353 | No permit is held while sleeping, and no sleep exceeds the maximum delay. |
| FetchLoop.Fetch | internal/fetcher/fetcher.go:96-144 | For every behaviour of network and store: it tries again exactly while the failure may pass, attempts are left and the wait is short enough; it succeeds exactly if the last answer is good; error, outcome, records, validators, page and body handed on are those of the answers; the sleeps are those waits; nothing stays held or staged, and the store gains exactly the object of a stored outcome within the limits. |
| Normalize.LocateIsExact | internal/parsing/normalize.go:189-203 | A location is approximate exactly when the text is nowhere in the source; otherwise it is a true place. |
| Normalize.LocateLooksAhead | internal/parsing/normalize.go:189-203 | A place at or after the search offset is preferred, and of those the first. |
| Normalize.OccursExactly | internal/parsing/normalize.go:189-203 | A text occurs at a place exactly if the source is what precedes it, the text and what follows. |
| Normalize.Build | internal/parsing/normalize.go:67-96 | Blocks are laid out in order, nonempty, separated by exactly two bytes, each with its location in the source. |
| Normalize.SourceOrderIsKept | internal/parsing/normalize.go:85-88 | When the source holds the blocks in order, all are located exactly, in that order and without overlap, however often their texts recur. |
| Normalize.ValidateResult | internal/parsing/normalize.go:262-305 | No error if and only if every check holds, and each error names a check that fails. |
| Normalize.FlawedExactly | internal/parsing/normalize.go:262-281 | What is wrong with an offset entry: its bounds, a character that is cut, or a source that is known by half. |
| Normalize.OwnChecksHold | internal/parsing/normalize.go:262-305 | None of the offset checks can fail on what finalize builds. |
| Normalize.LocatedTextAgrees | internal/parsing/normalize.go:85-95 | A located block reads the same in the source and in the normalized text. |
| Normalize.Finalize | internal/parsing/normalize.go:47-122 | A result is laid out, mapped and passes its own validation; an offset error is never returned. |
| Normalize.SpansAcceptOutline | internal/extraction/spans.go:33-39 | Span building never rejects the offsets of a finalized document. |
| Normalize.KeptExactly | internal/parsing/normalize.go:47-66 | Exactly the blocks with text are kept. |
| Utf8Encoding.ValidExactly | internal/extraction/spans.go:20-39 | The validity test accepts exactly the encodings of sequences of Unicode scalar values. |
| TextFacts.SpaceExactly | internal/extraction/spans.go:77-81 | The space characters are the 25 with the property White_Space. |
| TextFacts.TrimExactly | internal/alert/match.go:119-124 | Trimming takes space off both ends and leaves a text that has none there. |
| TextFacts.BytesAreEncoded | internal/alert/match.go:122-124 | The length of a text is that of its UTF-8 encoding. |
| EvidenceSpans.BoundedSpanEnd | internal/extraction/spans.go:69-83 | A block of up to 1600 bytes is one span; a longer one is cut right after the last byte of 0x09 to 0x0D, 0x20, 0x85 and 0xA0 in the second half of the longest valid window of 1600 bytes, or at its end if there is none. |
| EvidenceSpans.BuildEvidenceSpans | internal/extraction/spans.go:19-67 | The nested loops terminate on every input and return the specified cuts with their texts, identifiers and the section paths of the blocks they come from (`/document` without an outline), or the specified error. |
| EvidenceSpans.SpanIdOnce | internal/extraction/spans.go:49-55 | Different span numbers give different identifiers. |
| EvidenceFacts.IdentifierReads | internal/extraction/spans.go:49-50 | An identifier is `span_` and the number of the span in four digits. |
| EvidenceFacts.TextRefusedExactly | internal/extraction/spans.go:20-23 | A text is refused for itself exactly if it is empty, longer than 100000 bytes or not UTF-8. |
| EvidenceFacts.OutOfSequenceFails | internal/extraction/spans.go:32-40 | Accepted blocks follow each other, are not empty, lie in the text and cut no character, and only an outline that is not like that is refused for its offsets. |
| EvidenceFacts.AsciiSpansEndAfterBlank | internal/extraction/spans.go:69-83 | In ASCII text a span that is not the last of its block ends after a blank whenever the second half of its window has one, and after exactly 1600 bytes otherwise. |
| EvidenceFacts.SpansTile | internal/extraction/spans.go:19-67 | Returned spans tile each block exactly, in order, nonempty, of at most 1600 bytes, with distinct identifiers, for every text and outline. |
| EvidenceFacts.LongSpanExactly | internal/extraction/spans.go:69-83 | A span cut from a longer block ends inside a character if and only if the last space-like byte in the second half of its window lies inside a character; in any case it exceeds 800 bytes. |
| EvidenceFacts.BlockFate | internal/extraction/spans.go:47-60 | A block is cut between characters if and only if no window met from its start is a trap; it is refused for a trap that leaves more than one span, and within the length bound for nothing else. |
| EvidenceFacts.SpansAreValidExactly | internal/extraction/spans.go:19-67 | The spans of a document are all valid UTF-8 if and only if no window met in its blocks is a trap. |
| EvidenceFacts.RefusedExactly | internal/extraction/spans.go:19-67 | A valid document of admissible size without an outline is refused if and only if its first trap leaves more than 1600 bytes. |
| EvidenceFacts.BlockFailsExactly | internal/extraction/spans.go:41-60 | A block fails if and only if its first trap leaves more than one span or it needs more spans than are left, and otherwise takes exactly what it needs. |
| EvidenceFacts.OutlineRefusedExactly | internal/extraction/spans.go:19-67 | A valid document with an orderly outline is refused if and only if the first trap of some block leaves more than 1600 bytes or the blocks together need more than 200 spans. |
| EvidenceFacts.CleanBlock | internal/extraction/spans.go:47-60 | In clean text all cuts fall between characters and all spans of a block but its last exceed 800 bytes. |
| EvidenceFacts.CleanSpansAreValid | internal/extraction/spans.go:19-67 | In clean text every span is valid UTF-8. |
| EvidenceFacts.CleanTextFits | internal/extraction/spans.go:19-67 | Clean text up to 100000 bytes without an outline is never refused and needs at most 125 spans. |
| EvidenceFacts.CharacterCanBeSplit | internal/extraction/spans.go:69-83 | A family of valid texts whose spans split a character. |
| EvidenceFacts.DocumentCanBeRefused | internal/extraction/spans.go:47-60 | A family of valid texts of admissible size that are refused. |
| LinkHeader.SplitLinks | internal/sources/global_advisories.go:116-169 | The splitting loop returns the specified link texts or the specified error. |
| LinkHeader.ScanParameter | internal/sources/global_advisories.go:222-243 | The parameter loop ends at the first semicolon outside quotes. |
| LinkHeader.ReadParameterValue | internal/sources/global_advisories.go:264-284 | Tokens are taken as they are, quoted values without quotes and escapes. |
| LinkHeader.ParseLink | internal/sources/global_advisories.go:171-220 | The parser of one link returns the specified target and mark. |
| LinkHeader.GlobalAdvisoryNextPage | internal/sources/global_advisories.go:77-107 | The choice of the next page refines the specified choice. |
| LinkGrammar.SplitsExactly | internal/sources/global_advisories.go:116-169 | A header is split into these links if and only if it is written as pieces with closed brackets and quotes and no control character, with commas between them, each link a piece without the space around it. |
| LinkGrammar.ParameterExactly | internal/sources/global_advisories.go:222-243 | The parameter at the front of a text is what stands before the first semicolon outside quotes, with closed quotes and trimmed. |
| LinkGrammar.ValueExactly | internal/sources/global_advisories.go:264-284 | A value is read if and only if it is a token or a quoted string whose quotes and backslashes are escaped. |
| LinkGrammar.FieldsExactly | internal/sources/global_advisories.go:204-217 | The relations of a value are its words, whatever space is around them. |
| LinkGrammar.TargetExactly | internal/sources/global_advisories.go:171-220 | A link is read if and only if it is a nonempty target in brackets, without brackets inside, and parameters that can be read. |
| LinkGrammar.TokenExactly | internal/sources/global_advisories.go:245-262 | Tokens are made of letters, digits, hyphen and underscore. |
| LinkGrammar.FoldExactly | internal/sources/global_advisories.go:204-217 | `rel` and `next` are recognized in any case and nothing else is taken for them. |
| LinkGrammar.HeaderLimits | internal/sources/global_advisories.go:77-86 | A header for a foreign page or of more than 8192 bytes is refused, and an empty one names no page. |
| LinkRoundTrip.SplitHeader | internal/sources/global_advisories.go:116-169 | Joining written links with commas and splitting the header gives the same texts, whatever delimiters stand in targets and values. |
| LinkRoundTrip.ReadsLink | internal/sources/global_advisories.go:171-284 | A written link is read as what its parameters mean. |
| LinkRoundTrip.HeaderRoundTrip | internal/sources/global_advisories.go:116-284 | Every list of links with bracket-free targets, token keys and any printable values survives writing, joining, splitting and parsing with its targets and next marks. |
| LinkRoundTrip.NextExactlyWhen | internal/sources/global_advisories.go:204-217 | A link is the next page if and only if its one rel parameter names next once; a second rel, an empty one or a repeated next is an error. |
| LinkRoundTrip.NextPageIsSafe | internal/sources/global_advisories.go:91-107 | A returned page is a page of the scan, not the first one, and not the page just read. |
| LinkRoundTrip.NextOfHeader | internal/sources/global_advisories.go:77-107 | The next page of any written header is the target of its one next link, nothing without one, an error with two or with a page that may not follow. |
| Dedupe.RankIsStrongestRule | internal/dedupe/decision.go:65-131 | A candidate matches if and only if one of eight separately stated rules holds; its rank is the strongest of them, and outcome, distance and similarity are those of that rule. |
| Dedupe.DecisionMeans | internal/dedupe/decision.go:17-63 | Something new is decided if and only if the thresholds make no sense or no candidate meets a rule; else the decision is for a candidate that meets the first rule any candidate meets. |
| Dedupe.TierExactly | internal/dedupe/decision.go:162-175 | The four tiers are recognized in either case and come before everything else. |
| Dedupe.OrderExactlyWhen | internal/dedupe/decision.go:43-61 | The comparison is a strict weak order on the matches if and only if no two clashing revisions have a candidate of another item between them. |
| Dedupe.ClashExactlyWhenCycle | internal/dedupe/decision.go:43-61 | Two candidates clash if and only if some candidate of another item closes a cycle with them. |
| Dedupe.Decide | internal/dedupe/decision.go:17-63 | The loop and the sort choose the first of the sorted matches, or to create when there are none or the configuration is invalid. |
| Dedupe.MatchedExactlyWhen | internal/dedupe/decision.go:26-39 | The matches are exactly the candidates that a rule accepts. |
| StableSort.LeadersComeFirst | internal/dedupe/decision.go:43-61 | For any comparison and length: if some elements beat all others and are beaten by none of them, the sort puts one of them first, and the first of them if they do not beat each other. |
| StableOrder.SliceStableSorts | internal/dedupe/decision.go:43-61 | For a comparison that is a weak order the sort, insertion blocks and in-place merges included, leaves nothing out of order. |
| StableSort.FirstBlockHolds | internal/dedupe/decision.go:43-61 | What the first block of twenty puts in front stays in front through all merges, if later elements beat it only where any of them may take its place. |
| StableSort.StableKeeps | internal/dedupe/decision.go:43-61 | For any comparison the sort, merges included, is a rearrangement. |
| StableSort.ShortIsInsertion | internal/dedupe/decision.go:43-61 | Up to twenty elements the sort is an insertion sort. |
| StableSort.TwoBlocksAreMerged | internal/dedupe/decision.go:43-61 | From twenty-one to forty elements it is one merge of two insertion sorts, of the first twenty and the others. |
| Dedupe.StrongestRankWins | internal/dedupe/decision.go:43-62 | The winner has the strongest rank of any match, with or without cycles, for any number of matches. |
| Dedupe.NobodyBeatsTheChoice | internal/dedupe/decision.go:43-62 | Nobody beats the winner if and only if some match is beaten by nobody; the winner is then the first such match and beats every match before it. |
| Dedupe.AcyclicHasBest | internal/dedupe/decision.go:43-62 | Matches without a cycle have one that nobody beats. |
| Dedupe.OrderDoesNotMatter | internal/dedupe/decision.go:17-63 | When some match is beaten by nobody, neither order nor repetition of candidates changes outcome, method or item. |
| Dedupe.OrderMattersExactlyWhen | internal/dedupe/decision.go:43-62 | Every arrangement of the matches decides for one item if some match is beaten by nobody, and with up to twenty matches in all or fewer than twenty of each item only then. |
| Dedupe.CycleHasNoBest | internal/dedupe/decision.go:17-63 | For every document with an entry, three candidates with that entry for which every match is beaten and rotating the list changes the item decided for. |
| LiveReplay.Serve | internal/api/live.go:59-134 | The handler loop sends what the specified session sends, from the given cursor or the latest one. |
| LiveReplay.WriteBatch | internal/api/live.go:97-102 | The cursor follows each event that was written, also when a write fails. |
| LiveProgress.ReadMeans | internal/intelligence/pgstore/live.go:69-120 | A read resets exactly if the event of its cursor is no longer shown; else it gives the next events above the cursor that are shown, up to a hundred, and says exactly whether there are more. |
| LiveProgress.StreamCatchesUp | internal/api/live.go:82-134 | A stream that nothing disturbs sends a hundred events a turn until all that are shown are sent, and does not end on its own. |
| LiveReplay.SessionKeeps | internal/api/live.go:59-134 | However the log grows and wherever the stream ends, the client has the events of (start, cursor] in order, each once, and misses only what was too old for some read; a reset means its cursor expired. |
| LiveReplay.StreamIsTheSegment | internal/api/live.go:59-134 | In a steady log, growing while the stream runs, a stream from a known event sends exactly the segment (start, cursor]. |
| LiveReplay.StreamFromNothing | internal/api/live.go:59-134 | A stream from cursor zero, which an empty log also gives, sends in a steady log exactly the segment that begins with its first event. |
| LiveReplay.WholeExactlyWhenSteady | internal/intelligence/pgstore/live.go:69-120 | Every read from a known event shows the whole log up to its last event, or resets, if and only if no event is older than both an event before it and an event after it. |
| LiveReplay.DipIsPassedOver | internal/intelligence/pgstore/live.go:73-93 | For every such event of every log there is a cursor and a time at which a read sends later events, passes over this one and does not reset, whatever the limit of a read hides. |
| LiveReplay.StreamsExactlyWhenSteady | internal/api/live.go:59-134 | The same condition is exact for whole streams. |
| LiveReplay.WaitsOnlyWhenDone | internal/intelligence/pgstore/live.go:86-119 | A stream waits only when a read at its cursor would show nothing more. |
| LiveReconnect.ReconnectsAreOneStream | internal/api/live.go:43-134 | Over any number of sessions of the handler, each resumed from the last event that arrived and each cut off anywhere, the client of a steady log holds exactly the segment from its first cursor to its last event. |
| LiveReconnect.ReconnectsFromNothing | internal/api/live.go:43-134 | The same over all sessions of a client that starts at zero, from the first event that arrived. |
| LiveReconnect.ReconnectKeeps | internal/api/live.go:43-134 | In any log what arrives over all sessions is in order, each event once, and misses only what was older than a floor that some read of some session used. |
| LiveReconnect.NoLostWakeup | internal/api/live.go:59-129 | In every interleaving of publishing, subscribing, reading and waiting, a waiting stream has a notification for every event it has not read. |
| LiveReconnect.NoSpuriousWakeup | internal/api/live.go:103-129 | A stream is woken once for each event published since it subscribed, and waits exactly after a read that found no more. |
| LiveReconnect.LateCommitIsLost | internal/research/pgstore/store.go:713-716 | However many reads a stream makes and whatever is published meanwhile, nothing at or below its cursor is sent: an event that becomes visible below it is lost to all later reads, which is why publication is serialized. |
| LiveReconnect.OlderSuccessorIsPassedOver | internal/intelligence/pgstore/live.go:73-93 | A retained cursor does not protect a later event with an older creation time from being passed over. |
| ReadingState.Apply | internal/readingstate/transition.go:29-143 | The action-by-action code gives the state whose fields are each specified by themselves, or an error exactly when the command is refused or the result not accepted. |
| ReadingFacts.SucceedsExactly | internal/readingstate/transition.go:29-143 | A command succeeds on a reachable state exactly under the stated condition of its action, such as a snooze of at most 366 days. |
| ReadingFacts.CommandDoes | internal/readingstate/transition.go:29-143 | What holds of a story right after each of the sixteen actions. |
| ReadingFacts.NewStory | internal/readingstate/transition.go:18-27 | A new story is in the inbox, unread, without progress, star, tags or history. |
| ReadingFacts.RejectedExactly | internal/readingstate/transition.go:145-167 | What the closing validation turns down. |
| ReadingFacts.LastCommandDecides | internal/readingstate/transition.go:29-143 | Over any run, place, star and reading mark are what the last successful command of their kind made them. |
| ReadingRuns.NextIsSound | internal/readingstate/transition.go:29-167 | Every command that is not refused keeps the full invariant: positions only in Later, reasons only in the archive, tags a sorted set. |
| ReadingRuns.FailsExactlyWhenRefused | internal/readingstate/transition.go:137-167 | On such states the closing validation never rejects: a command fails if and only if it is refused on its own terms. |
| ReadingRuns.ReachableIsSound | internal/readingstate/transition.go:18-167 | After any commands from the default state the invariant holds and the version counts the commands that took effect. |
| ReadingRuns.AxesCommute | internal/readingstate/transition.go:29-143 | Star, tag and progress commands commute with commands on other axes at one time, failures included. |
| ReadingRuns.DifferentTagsCommute | internal/readingstate/transition.go:112-127 | Adding and removing different tags commute; the list depends on the set of tags only. |
| ReadingRuns.SnoozeThenReturn | internal/readingstate/transition.go:56-79 | Snoozing, any commands that do not move the story, and returning restore its location and Later position, unread and awake. |
| Fusion.Fuse | internal/search/search.go:28-78 | It fails exactly on a constant outside 1 to 1000 or a bad list; else the result holds each identity of the union once, with its ranks in the lists, the sum of 1/(k+rank) over them, by score, better rank and name. |
| Fusion.AddList | internal/search/search.go:33-59 | A list is accepted exactly when its entries are named, ranked from one and distinct, and then every identity has its fused rank in the map. |
| Fusion.OnlyRanksMatter | internal/search/search.go:28-78 | The result is determined by the ranks alone. |
| Fusion.PermutedRanks | internal/search/search.go:28-59 | Permuting a valid list changes no rank. |
| Fusion.SwappedLists | internal/search/search.go:28-78 | Exchanging the lists exchanges the two ranks of every entry and nothing else. |
| Fusion.BetterComesFirst | internal/search/search.go:66-77 | An identity at least as good in both lists and better in one precedes the other. |
| DigestSelect.Select | internal/digest/rank.go:57-115 | The loops select what the five specified draws select from some ranking of the eligible candidates; ties are open, as in the source. |
| DigestSelect.RankedBy | internal/digest/rank.go:65-82 | Candidates are ranked by score, then the order of the categories, then the later sighting, then kind and identity. |
| DigestSelect.KeyExactly | internal/digest/rank.go:85-114 | Two candidates have one key exactly if kind and identity are the same. |
| DigestSelect.EligibleExactly | internal/digest/rank.go:57-64 | Exactly the candidates that reach the minimum are ranked. |
| DigestSelect.AppendCategory | internal/digest/rank.go:85-98 | The pass of a category draws the first new items of it up to quota and room. |
| DigestSelect.SelectionIsFull | internal/digest/rank.go:83-114 | Exactly min(maximum, number of distinct keys) items, each key once, for any ranked list. |
| DigestSelect.QuotaIsMet | internal/digest/rank.go:85-102 | A pass takes its quota unless the digest is full or no new key of the category is left, and leaves nothing that ranks above what it takes. |
| DigestSelect.QuotasAreMet | internal/digest/rank.go:99-114 | The digest holds at least min(2, room, keys) security items, and likewise four release, two coming-soon and two radar items as far as the passes before leave room and keys. |
| DigestSelect.DigestIsBest | internal/digest/rank.go:57-115 | A candidate that reaches the minimum is left out only from a full digest, and ranks no higher than anything taken in the final fill. |
| Versions.SplitJoin | internal/alert/match.go:125-128 | Splitting undoes joining for parts without the separator. |
| Versions.ParseNumericVersion | internal/alert/match.go:119-145 | The loops accept one to three canonical 32-bit components within 32 bytes and nothing else. |
| Versions.VersionRoundTrip | internal/alert/match.go:119-145 | Every triple of 32-bit components written canonically is within the limit and parses back to itself. |
| Versions.ParsesExactly | internal/alert/match.go:119-145 | A text parses to a version if and only if, trimmed and without one leading v, it is one to three canonical 32-bit decimals joined by dots, missing ones being zero. |
| Versions.LengthIsTight | internal/alert/match.go:122-124 | The largest version needs all 32 bytes. |
| VersionRanges.CompareIsNumeric | internal/alert/match.go:147-157 | Comparing versions is comparing the numbers whose digits are the components. |
| VersionRanges.ClauseRoundTrip | internal/alert/match.go:170-182 | Every operator with every version, written out, is read back. |
| RangeFacts.ClauseExactly | internal/alert/match.go:170-182 | A clause is read if and only if the trimmed text is its operator and a version. |
| RangeFacts.ClauseMeans | internal/alert/match.go:183-196 | A clause holds if and only if the version, as a number in base 2^32, compares with the bound as the operator says. |
| RangeFacts.RangeMeans | internal/alert/match.go:159-198 | A written range of up to eight clauses and 200 bytes is supported and affects a version if and only if its number meets every bound. |
| RangeFacts.RangeLimits | internal/alert/match.go:159-169 | Beyond these limits, and for an unreadable version, nothing is guessed. |
| VersionRanges.VersionInRange | internal/alert/match.go:159-198 | Supported if and only if the version and all of at most eight clauses are readable, and then affected if and only if all clauses hold. |
| VersionRanges.RangeIsConvex | internal/alert/match.go:159-198 | Every version between two affected versions is affected. |
| VersionRanges.ClauseOrderDoesNotMatter | internal/alert/match.go:159-198 | Permuting the clauses of a range changes neither support nor result, limits included. |
| AlertMatch.Match | internal/alert/match.go:45-81 | Nothing for a doubtful advisory; else each watch identity at most once, exactly those that some admissible vulnerability affects, each with the first that does, in the order in which they are found. |
| AlertMatch.ConfirmedExactly | internal/alert/match.go:72-101 | An advisory is acted on exactly if nothing makes it doubtful: its identifier, severity, withdrawal, dates, state, kind or number of vulnerabilities. |
| Robots.GroupLength | internal/ingestion/network.go:194-202 | The loop over the names of a group finds its closest fit to the reader. |
| Robots.FitIsClosest | internal/ingestion/network.go:194-202 | That fit is the greatest of the names and is attained by one of them. |
| RobotsFacts.CloserName | internal/ingestion/network.go:194-202 | A name is for the reader if it is `*` or begins the reader's name; the longer of two is closer, and any is closer than `*`. |
| RobotsFacts.StarsDoNotCount | internal/ingestion/network.go:216 | A star adds nothing to the length of a rule. |
| RobotsFacts.PlainLength | internal/ingestion/network.go:216 | Without stars the length is that of the text, but for one end mark. |
| Robots.Gather | internal/ingestion/network.go:191-209 | The rules gathered are exactly those of all groups with the closest fit. |
| Robots.Decide | internal/ingestion/network.go:210-222 | Denied if and only if some matching disallow rule is strictly longer than every matching allow rule. |
| Robots.GroupOrderDoesNotMatter | internal/ingestion/network.go:191-222 | Reordering or repeating groups, names and rules changes neither the fit nor the rules that speak. |
| RobotsGroups.Disallows | internal/ingestion/network.go:153-223 | Denied exactly by the rules linked, line by line and without groups, to an agent line of the closest fit. |
| RobotsGroups.ReadGroups | internal/ingestion/network.go:162-190 | The line loop forms the specified groups. |
| RobotsGroups.ScanAgrees | internal/ingestion/network.go:162-190 | An agent and a rule share a group if and only if no rule followed by an agent line stands between them. |
| RobotsGroups.GroupsExactlyWhen | internal/ingestion/network.go:162-190 | The groups are those of section 2.2.1 of RFC 9309 if and only if no agent line has only empty rules before the next agent line that a rule follows. |
| RobotsGroups.DecidesAsTheStandard | internal/ingestion/network.go:153-223 | No rule of the standard's grouping is missed, and without such a merge every path is decided as that grouping decides it. |
| RobotsGroups.RulesDifferExactly | internal/ingestion/network.go:153-223 | A reader's rules differ from the standard's if and only if a merge imposes on it a rule that no standard link gives it. |
| RobotsGroups.DecidedOtherwiseExactly | internal/ingestion/network.go:153-223 | A path is decided otherwise than by the standard's grouping if and only if an additional rule that matches tips it: a disallow longer than every matching allow, or an allow as long as every matching disallow. |
| RobotsGroups.ReadersDecidedOtherwise | internal/ingestion/network.go:153-223 | For a reader some matching of patterns is decided otherwise if and only if an additional rule forbids a pattern that no rule permits, or permits one as long as a pattern the standard only forbids. |
| RobotsGroups.EmptyRuleMergesGroups | internal/ingestion/network.go:173-186 | A family of documents in which a reader told "Disallow:" is denied what only the next agent is denied. |

## Left out

- Databases, the job queue, S3 and the HTTP and TLS layers: only the outcomes the code above reacts to are modelled.
- SHA-256, URL parsing, RFC 3339 times, MIME types, Unicode normalization and metadata normalization: parameters that range over all functions with the properties stated where they are used.
- Integer width: durations, counters and products of sizes are unbounded integers; `compressed * ratio`, `k + rank` and the Retry-After multiplication are not checked for overflow.
- Floating point: scores, tokens, similarities and reading progress are reals.
- Advisory scan: two workers polling the endpoint at once, and JSON text itself; a state is the untyped tree that decoding yields.
- Schedule: seconds and below; zones whose offset exceeds fourteen hours, that skip the noon of a date they show, or that skip two dates a week apart.
- Reconciler: rows written by other operations (`run_now`, pausing, workers finishing a job) and changes of a definition between runs; rows that another transaction has locked.
- Fetch loop: header construction, redirects and address policy (an attempt's outcome is a parameter), and the contents of bodies.
- Normalize: text normalization, removal of embedded instructions, language, warnings and metadata; `navigationOnly` and the blank test are parameters.
- EvidenceSpans.BuildEvidenceSpans: decoding of the outline JSON.
- Link header: header text is code points instead of bytes, which agree on valid UTF-8; what makes an address a page is a parameter.
- Live stream: event payloads, authentication, the limit of four streams, and the parsing of the cursor text.
- Dedupe: how SimHash distances and embedding similarities are computed.
- Dedupe.OrderMattersExactlyWhen: the only-if half leaves out more than twenty matches with twenty or more of one item, which do not fit into the first block of the sort.
- DigestSelect: how scores are computed.
- Reading state: the five dismissal reasons and trimming are parameters.
- Robots: splitting text into statements and matching a pattern against a path are parameters.
- Configuration, the source registry, model clients, notification channels and the web applications: long lists of independent checks or thin wrappers.

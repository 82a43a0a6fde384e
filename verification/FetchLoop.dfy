/**
 The retry loop of `internal/fetcher/fetcher.go`: request, read, stage, commit.

 What the network, the object store and the clock answer is a script indexed by the
 attempt number.  What a fetch does to the limiter and the store is a log of events,
 and `Keep` is the book-keeping that such a log must satisfy: a permit is given back
 before the next is taken, and a staged object is committed or aborted once.
 */
module FetchLoop {
  import opened Wrappers
  import opened Checkpoints

  datatype Code =
    | InvalidUrl | DestinationDenied | Dns | Transport | UnexpectedStatus | ContentType
    | UnsupportedEncoding | CompressedTooLarge | BodyTooLarge | CompressionRatio
    | ObjectStorage | InvalidPaginationLink

  datatype Fault = Fault(code: Code, retryable: bool)

  datatype Outcome = Stored | MetadataOnly | NotModified | Failed

  datatype Config = Config(attempts: int, baseBackoff: int, maximumDelay: int, ratio: int) {
    /** What `New` demands. */
    predicate Valid() {
      1 <= attempts <= 5 && 0 < baseBackoff <= maximumDelay && ratio >= 1
    }
  }

  datatype Endpoint = Endpoint(
    url: string,
    advisory: bool,
    metadataOnly: bool,
    maximum: int,
    allows: string -> bool)

  const NO_CHECKPOINT := Checkpoint("", "", "", map[])

  /** What reading the body and asking the store come to. */
  datatype Body = Body(
    opening: Option<Fault>,
    compressed: nat,
    bytes: nat,
    digest: string,
    broken: bool,
    stages: bool,
    key: Option<string>,
    commits: bool)

  datatype Reply =
    | NoCapacity
    | BadRequest
    | NoResponse(fault: Fault)
    | Response(
        status: int, url: string, contentType: string, declared: int,
        etag: string, lastModified: string, retryAfter: Option<int>,
        next: Option<string>, body: Body)

  /** Everything the outside world decides during one attempt and the wait after it. */
  datatype Turn = Turn(reply: Reply, now: int, jitter: int, interrupted: bool)

  datatype Attempt = Attempt(
    status: int, url: string, compressed: int, bytes: int, code: Option<Code>,
    retryAfter: Option<int>, etag: string, lastModified: string)

  datatype FetchResult = FetchResult(
    outcome: Outcome, attempts: seq<Attempt>, checkpoint: Checkpoint,
    next: string, key: string, digest: string, bytes: int)

  // ---- Book-keeping ----

  datatype Event =
    | Acquire
    | Release
    | Stage(id: int, bytes: int, compressed: int)
    | Commit(id: int, key: string)
    | CommitFailed(id: int)
    | Abort(id: int)
    | Sleep(delay: int)

  datatype Staged = Staged(id: int, bytes: int, compressed: int)

  datatype Object = Object(key: string, staged: Staged)

  datatype Ledger = Ledger(held: bool, pending: Option<Staged>, objects: seq<Object>, discarded: seq<int>, slept: int)

  const IDLE := Ledger(false, None, [], [], 0)

  /** The books after one more event, or nothing when the event is out of order. */
  function Enter(l: Ledger, e: Event): Option<Ledger> {
    match e
    case Acquire => if l.held then None else Some(l.(held := true))
    case Release => if !l.held || l.pending.Some? then None else Some(l.(held := false))
    case Stage(id, bytes, compressed) =>
      if !l.held || l.pending.Some? then None else Some(l.(pending := Some(Staged(id, bytes, compressed))))
    case Commit(id, key) =>
      if l.pending.None? || l.pending.value.id != id then None
      else Some(l.(pending := None, objects := l.objects + [Object(key, l.pending.value)]))
    case CommitFailed(id) => if l.pending.None? || l.pending.value.id != id then None else Some(l)
    case Abort(id) =>
      if l.pending.None? || l.pending.value.id != id then None
      else Some(l.(pending := None, discarded := l.discarded + [id]))
    case Sleep(delay) => if l.held then None else Some(l.(slept := l.slept + delay))
  }

  function Keep(log: seq<Event>): Option<Ledger> {
    if log == [] then Some(IDLE)
    else
      match Keep(log[..|log| - 1])
      case None => None
      case Some(l) => Enter(l, log[|log| - 1])
  }

  lemma {:induction false} KeepOne(log: seq<Event>, e: Event)
    ensures Keep(log + [e]) == if Keep(log).None? then None else Enter(Keep(log).value, e)
  {
    assert (log + [e])[..|log|] == log;
  }

  function Count(log: seq<Event>, f: Event -> bool): nat {
    if log == [] then 0 else Count(log[..|log| - 1], f) + if f(log[|log| - 1]) then 1 else 0
  }

  /** What kept books mean: permits and staged objects are conserved, up to the one that is in hand. */
  lemma {:induction false} BooksBalance(log: seq<Event>)
    requires Keep(log).Some?
    ensures var l := Keep(log).value;
            && Count(log, (e: Event) => e.Acquire?) == Count(log, (e: Event) => e.Release?) + (if l.held then 1 else 0)
            && Count(log, (e: Event) => e.Stage?) ==
               Count(log, (e: Event) => e.Commit?) + Count(log,
                 (e: Event) => e.Abort?) + (if l.pending.Some? then 1 else 0)
            && Count(log, (e: Event) => e.Commit?) == |l.objects| && Count(log, (e: Event) => e.Abort?) == |l.discarded|
  {
    if log == [] {
    } else {
      BooksBalance(log[..|log| - 1]);
    }
  }

  // ---- What an attempt should come to ----

  /** Within the body limit, compressed or not, and within the compression ratio. */
  predicate WithinLimits(config: Config, maximum: int, bytes: int, compressed: int) {
    compressed <= maximum && bytes <= maximum && (compressed == 0 || bytes <= compressed * config.ratio)
  }

  function SizeFault(config: Config, maximum: int, bytes: int, compressed: int): (f: Option<Fault>)
    requires compressed >= 0
    ensures f.None? <==> WithinLimits(config, maximum, bytes, compressed)
    ensures f.Some? ==> !f.value.retryable
  {
    if compressed > maximum then Some(Fault(CompressedTooLarge, false))
    else if bytes > maximum then Some(Fault(BodyTooLarge, false))
    else if compressed > 0 && bytes > compressed * config.ratio then Some(Fault(CompressionRatio, false))
    else None
  }

  predicate Success(status: int) {
    200 <= status < 300
  }

  /** Why a response is turned down before its body is read; a 304 is never turned down. */
  function HeadFault(endpoint: Endpoint, r: Reply): Option<Fault>
    requires r.Response?
  {
    if endpoint.advisory && r.url != endpoint.url then Some(Fault(InvalidPaginationLink, false))
    else if r.status == 304 then None
    else if !Success(r.status) then Some(Fault(UnexpectedStatus, r.status == 429 || r.status >= 500))
    else if endpoint.advisory && r.status != 200 then Some(Fault(UnexpectedStatus, false))
    else if endpoint.advisory && r.next.None? then Some(Fault(InvalidPaginationLink, false))
    else if !endpoint.allows(r.contentType) then Some(Fault(ContentType, false))
    else if r.declared > endpoint.maximum then Some(Fault(CompressedTooLarge, false))
    else r.body.opening
  }

  /** Whether the body of this attempt is handed to the object store and staged there. */
  predicate Stages(endpoint: Endpoint, r: Reply) {
    r.Response? && HeadFault(endpoint, r).None? && r.status != 304 && !endpoint.metadataOnly && r.body.stages
  }

  /** The verdict on one attempt. */
  function Judge(config: Config, endpoint: Endpoint, r: Reply): Result<Outcome, Fault> {
    match r
    case NoCapacity => Err(Fault(Transport, true))
    case BadRequest => Err(Fault(InvalidUrl, false))
    case NoResponse(fault) => Err(fault)
    case Response(_, _, _, _, _, _, _, _, body) =>
      if HeadFault(endpoint, r).Some? then Err(HeadFault(endpoint, r).value)
      else if r.status == 304 then Ok(NotModified)
      else if !endpoint.metadataOnly && !body.stages then Err(Fault(ObjectStorage, true))
      else if endpoint.metadataOnly && body.broken then Err(Fault(Transport, true))
      else
        var size := SizeFault(config, endpoint.maximum, body.bytes, body.compressed);
        if size.Some? then Err(size.value)
        else if endpoint.metadataOnly then Ok(MetadataOnly)
        else if body.key.None? then Err(Fault(ObjectStorage, false))
        else if !body.commits then Err(Fault(ObjectStorage, true))
        else Ok(Stored)
  }

  function FaultOf(verdict: Result<Outcome, Fault>): Option<Fault> {
    if verdict.Ok? then None else Some(verdict.error)
  }

  function Power(n: nat): (p: nat)
    ensures p >= 1
  {
    if n == 0 then 1 else 2 * Power(n - 1)
  }

  /** How long to wait after attempt `n`: what the server asks for, or a doubled backoff with jitter. */
  function Delay(config: Config, n: nat, retryAfter: Option<int>, turn: Turn): int
    requires n >= 1
  {
    if retryAfter.Some? && retryAfter.value > turn.now then retryAfter.value - turn.now
    else Power(n - 1) * config.baseBackoff + turn.jitter
  }

  function RetryAfter(r: Reply): Option<int> {
    if r.Response? then r.retryAfter else None
  }

  /** How long the wait after attempt `n` takes: all of the delay, or nothing if it is too long. */
  function Slept(config: Config, n: nat, turn: Turn): int
    requires n >= 1
  {
    var delay := Delay(config, n, RetryAfter(turn.reply), turn);
    if delay > config.maximumDelay then 0 else delay
  }

  /** Why the loop cannot wait for another attempt. */
  function WaitFault(config: Config, n: nat, turn: Turn): Option<Fault>
    requires n >= 1
  {
    if Delay(config, n, RetryAfter(turn.reply), turn) > config.maximumDelay then Some(Fault(UnexpectedStatus, true))
    else if turn.interrupted then Some(Fault(Transport, true))
    else None
  }

  /** Whether attempt `n` ends the fetch. */
  predicate Final(config: Config, endpoint: Endpoint, n: nat, turn: Turn)
    requires n >= 1
  {
    var verdict := Judge(config, endpoint, turn.reply);
    verdict.Ok? || !verdict.error.retryable || n == config.attempts || WaitFault(config, n, turn).Some?
  }

  /** The error of a fetch that ends with attempt `n`. */
  function FinalFault(config: Config, endpoint: Endpoint, n: nat, turn: Turn): Option<Fault>
    requires n >= 1
  {
    match Judge(config, endpoint, turn.reply)
    case Ok(_) => None
    case Err(fault) =>
      if !fault.retryable || n == config.attempts then Some(fault) else WaitFault(config, n, turn)
  }

  /**
   The recorded attempt tells the verdict: an error code exactly when it failed, sizes exactly when
   a body was kept.
   */
  ghost predicate Records(config: Config, endpoint: Endpoint, r: Reply, attempt: Attempt) {
    var verdict := Judge(config, endpoint, r);
    && attempt.code == (if verdict.Ok? then None else Some(verdict.error.code))
    && attempt.status == (if r.Response? then r.status else 0)
    && attempt.url == (if r.Response? then r.url else "")
    && attempt.etag == (if r.Response? then r.etag else "")
    && attempt.lastModified == (if r.Response? then r.lastModified else "")
    && attempt.retryAfter == RetryAfter(r)
    && (attempt.bytes, attempt.compressed) ==
       if r.Response? && (verdict == Ok(Stored) || verdict == Ok(MetadataOnly)) then (r.body.bytes,
         r.body.compressed) else (0, 0)
  }

  /** A result that carries the accepted response and nothing of the attempts before it. */
  ghost predicate Carries(prior: Checkpoint, endpoint: Endpoint, r: Reply, outcome: Outcome, p: Processed) {
    && r.Response? && p.outcome == outcome
    && p.checkpoint == prior.(etag := First(r.etag, prior.etag), lastModified := First(r.lastModified,
      prior.lastModified))
    && p.next == (if endpoint.advisory && !outcome.NotModified? && r.next.Some? then r.next.value else "")
    && p.bytes == (if outcome.NotModified? then 0 else r.body.bytes)
    && p.digest == (if outcome.NotModified? then "" else r.body.digest)
    && p.key == (if outcome.Stored? && r.body.key.Some? then r.body.key.value else "")
  }

  datatype Processed = Processed(
    attempt: Attempt, outcome: Outcome, checkpoint: Checkpoint,
    next: string, key: string, digest: string, bytes: int)

  // ---- The code ----

  /** `request`: on success the permit stays with the response body. */
  method Request(before: seq<Event>, r: Reply) returns (attempt: Attempt, fault: Option<Fault>, log: seq<Event>)
    requires Idle(before)
    ensures fault.None? <==> r.Response?
    ensures Keep(log) == Some(Keep(before).value.(held := r.Response?))
    ensures attempt.retryAfter == RetryAfter(r)
    ensures fault.Some? ==> forall config, endpoint ::
      Judge(config, endpoint, r) == Err(fault.value) && Records(config, endpoint, r, attempt)
    ensures r.Response? ==> attempt == Attempt(r.status, r.url, 0, 0, None, r.retryAfter, r.etag, r.lastModified)
  {
    var none := Attempt(0, "", 0, 0, None, None, "", "");
    if r.NoCapacity? {
      return none.(code := Some(Transport)), Some(Fault(Transport, true)), before;
    }
    log := before + [Acquire];
    KeepOne(before, Acquire);
    if !r.Response? {
      KeepOne(log, Release);
      log := log + [Release];
    }
    match r
    case BadRequest =>
      return none.(code := Some(InvalidUrl)), Some(Fault(InvalidUrl, false)), log;
    case NoResponse(f) =>
      return none.(code := Some(f.code)), Some(f), log;
    case Response(status, url, _, _, etag, lastModified, retryAfter, _, _) =>
      return Attempt(status, url, 0, 0, None, retryAfter, etag, lastModified), None, log;
  }

  /** The middle of `processResponse`: stage, validate, commit, with an abort on every way out but the last. */
  method Store(config: Config, endpoint: Endpoint, id: int, body: Body, before: seq<Event>)
    returns (fault: Option<Fault>, key: string, log: seq<Event>)
    requires Keep(before).Some? && Keep(before).value.held && Keep(before).value.pending.None?
    ensures fault ==
      if !body.stages then Some(Fault(ObjectStorage, true))
      else if SizeFault(config, endpoint.maximum, body.bytes, body.compressed).Some?
      then SizeFault(config, endpoint.maximum, body.bytes, body.compressed)
      else if body.key.None? then Some(Fault(ObjectStorage, false))
      else if !body.commits then Some(Fault(ObjectStorage, true))
      else None
    ensures fault.None? ==> Some(key) == body.key
    ensures Keep(log) == Some(Closed(Keep(before).value, id, body, fault.None?, key))
  {
    if !body.stages {
      return Some(Fault(ObjectStorage, true)), "", before;
    }
    var stage := Stage(id, body.bytes, body.compressed);
    KeepOne(before, stage);
    log := before + [stage];
    var size := SizeFault(config, endpoint.maximum, body.bytes, body.compressed);
    if size.Some? {
      KeepOne(log, Abort(id));
      return size, "", log + [Abort(id)];
    }
    if body.key.None? {
      KeepOne(log, Abort(id));
      return Some(Fault(ObjectStorage, false)), "", log + [Abort(id)];
    }
    key := body.key.value;
    if !body.commits {
      KeepOne(log, CommitFailed(id));
      log := log + [CommitFailed(id)];
      KeepOne(log, Abort(id));
      return Some(Fault(ObjectStorage, true)), "", log + [Abort(id)];
    }
    KeepOne(log, Commit(id, key));
    return None, key, log + [Commit(id, key)];
  }

  /**
   The books after the store has dealt with a body: nothing is pending, and a staged body is an
   object or discarded.
   */
  function Closed(l: Ledger, id: int, body: Body, kept: bool, key: string): Ledger {
    if !body.stages then l
    else if kept then l.(objects := l.objects + [Object(key, Staged(id, body.bytes, body.compressed))])
    else l.(discarded := l.discarded + [id])
  }

  /** The books after an attempt that got a response. */
  function Settled(config: Config, endpoint: Endpoint, l: Ledger, id: int, r: Reply): Ledger {
    if !Stages(endpoint, r) then l.(held := false)
    else
      Closed(l.(held := false), id, r.body, Judge(config, endpoint, r).Ok?,
        if r.body.key.Some? then r.body.key.value else "")
  }

  /** `processResponse`: the permit goes back whatever happens. */
  method ProcessResponse(config: Config, endpoint: Endpoint, prior: Checkpoint, id: int, r: Reply,
      attempt: Attempt, before: seq<Event>)
    returns (p: Processed, fault: Option<Fault>, log: seq<Event>)
    requires Keep(before).Some? && Keep(before).value.held && Keep(before).value.pending.None?
    requires r.Response? && attempt == Attempt(r.status, r.url, 0, 0, None, r.retryAfter, r.etag, r.lastModified)
    ensures fault == FaultOf(Judge(config, endpoint, r))
    ensures fault.None? <==> Good(config, endpoint, r)
    ensures fault.Some? ==>
              (fault.value.retryable <==> Passing(config, endpoint, r)) && Named(config, endpoint, r, fault.value.code)
    ensures Records(config, endpoint, r, p.attempt)
    ensures fault.None? ==> Carries(prior, endpoint, r, Judge(config, endpoint, r).value, p)
    ensures Keep(log) == Some(Settled(config, endpoint, Keep(before).value, id, r))
  {
    p := Processed(attempt, Failed, prior.(etag := First(attempt.etag, prior.etag),
      lastModified := First(attempt.lastModified, prior.lastModified)),
                   "", "", "", 0);
    var next: string, stop: Option<Fault> := ReadHead(endpoint, r);
    p := p.(next := next);
    log := before;
    if stop.Some? || r.status == 304 {
      fault := stop;
      if stop.None? {
        p := p.(outcome := NotModified);
      }
    } else {
      p := p.(digest := r.body.digest, bytes := r.body.bytes);
      if endpoint.metadataOnly {
        p := p.(outcome := MetadataOnly);
        fault := if r.body.broken then Some(Fault(Transport, true)) else None;
      } else {
        var key;
        fault, key, log := Store(config, endpoint, id, r.body, log);
        p := p.(key := key, outcome := if fault.None? then Stored else Failed);
      }
      if fault.None? {
        // After a commit this repeats the test that let it through.
        fault := SizeFault(config, endpoint.maximum, p.bytes, r.body.compressed);
        if fault.None? {
          p := p.(attempt := p.attempt.(compressed := r.body.compressed, bytes := p.bytes));
        }
      }
    }
    if fault.Some? {
      p := p.(attempt := p.attempt.(code := Some(fault.value.code)));
    }
    KeepOne(log, Release);
    log := log + [Release];
    VerdictMeans(config, endpoint, r);
    hide Good, Passing, Named;
  }

  /** The checks before the body is opened, in the order the code makes them. */
  method ReadHead(endpoint: Endpoint, r: Reply) returns (next: string, fault: Option<Fault>)
    requires r.Response?
    ensures fault == HeadFault(endpoint, r)
    ensures fault.None? ==> next == if endpoint.advisory && r.status != 304 && r.next.Some? then r.next.value else ""
  {
    if endpoint.advisory && r.url != endpoint.url {
      return "", Some(Fault(InvalidPaginationLink, false));
    }
    if r.status == 304 {
      return "", None;
    }
    if r.status < 200 || r.status >= 300 {
      return "", Some(Fault(UnexpectedStatus, r.status == 429 || r.status >= 500));
    }
    next := "";
    if endpoint.advisory {
      if r.status != 200 {
        return "", Some(Fault(UnexpectedStatus, false));
      }
      if r.next.None? {
        return "", Some(Fault(InvalidPaginationLink, false));
      }
      next := r.next.value;
    }
    if !endpoint.allows(r.contentType) {
      return next, Some(Fault(ContentType, false));
    }
    if r.declared > endpoint.maximum {
      return next, Some(Fault(CompressedTooLarge, false));
    }
    return next, r.body.opening;
  }

  /** `waitToRetry`: no permit is held while sleeping. */
  method WaitToRetry(config: Config, n: nat, retryAfter: Option<int>, turn: Turn, before: seq<Event>)
    returns (fault: Option<Fault>, log: seq<Event>)
    requires config.Valid() && n >= 1 && retryAfter == RetryAfter(turn.reply)
    requires Idle(before)
    ensures fault == WaitFault(config, n, turn)
    ensures Idle(log) && Keep(log).value == Keep(before).value.(slept := Keep(log).value.slept)
    ensures Keep(log).value.slept <= Keep(before).value.slept + config.maximumDelay
    ensures Keep(log).value.slept == Keep(before).value.slept + Slept(config, n, turn)
  {
    log := before;
    var delay := Power(n - 1) * config.baseBackoff;
    if retryAfter.Some? && retryAfter.value > turn.now {
      delay := retryAfter.value - turn.now;
    } else {
      delay := delay + turn.jitter;
    }
    if delay > config.maximumDelay {
      return Some(Fault(UnexpectedStatus, true)), before;
    }
    KeepOne(before, Sleep(delay));
    log := before + [Sleep(delay)];
    fault := if turn.interrupted then Some(Fault(Transport, true)) else None;
  }

  /** Nothing is held and nothing waits to be committed or aborted. */
  ghost predicate Idle(log: seq<Event>) {
    Keep(log).Some? && !Keep(log).value.held && Keep(log).value.pending.None?
  }

  /** One pass of the loop: an object is added exactly when the verdict is `Stored`, and it is within the limits. */
  method Try(config: Config, endpoint: Endpoint, prior: Checkpoint, n: nat, r: Reply, before: seq<Event>)
    returns (p: Processed, fault: Option<Fault>, log: seq<Event>)
    requires Idle(before)
    ensures fault == FaultOf(Judge(config, endpoint, r))
    ensures Records(config, endpoint, r, p.attempt)
    ensures p.attempt.retryAfter == RetryAfter(r)
    ensures fault.None? ==> Carries(prior, endpoint, r, Judge(config, endpoint, r).value, p)
    ensures fault.None? ==> p.outcome == Judge(config, endpoint, r).value && p.outcome != Failed
    ensures Idle(log) && Keep(log).value.slept == Keep(before).value.slept
    ensures Keep(log).value.objects == Keep(before).value.objects +
            if fault.None? && p.outcome == Stored then [Object(p.key, Staged(n, p.bytes, p.attempt.compressed))] else []
    ensures fault.None? && p.outcome == Stored ==> WithinLimits(config, endpoint.maximum, p.bytes, p.attempt.compressed)
  {
    var attempt;
    attempt, fault, log := Request(before, r);
    p := Processed(attempt, Failed, prior, "", "", "", 0);
    if fault.None? {
      p, fault, log := ProcessResponse(config, endpoint, prior, n, r, attempt, log);
    }
  }

  lemma NothingYet(config: Config, endpoint: Endpoint, script: nat -> Turn)
    ensures Keep([]) == Some(IDLE)
    ensures Undecided(config, endpoint, script, 1) && Recorded(config, endpoint, script, [])
  {
  }

  lemma RecordedSoFar(config: Config, endpoint: Endpoint, script: nat -> Turn, attempts: seq<Attempt>, attempt: Attempt)
    requires Recorded(config, endpoint, script, attempts)
    requires Records(config, endpoint, script(|attempts| + 1).reply, attempt)
    ensures Recorded(config, endpoint, script, attempts + [attempt])
  {
  }

  lemma UndecidedSoFar(config: Config, endpoint: Endpoint, script: nat -> Turn, n: nat)
    requires n >= 1 && Undecided(config, endpoint, script, n) && !Final(config, endpoint, n, script(n))
    ensures Undecided(config, endpoint, script, n + 1)
  {
  }

  /** The most that `n` waits can take. */
  function Budget(config: Config, n: int): int {
    n * config.maximumDelay
  }

  lemma BudgetGrows(config: Config, a: int, b: int)
    requires 0 <= a <= b && config.Valid()
    ensures 0 <= Budget(config, a) <= Budget(config, b)
    ensures Budget(config, a + 1) == Budget(config, a) + config.maximumDelay
  {
  }

  /** Attempt `n` is the first that ends the fetch, every attempt is recorded, and the result is that of the last. */
  ghost predicate Decided(config: Config, endpoint: Endpoint, prior: Checkpoint, script: nat -> Turn,
      result: FetchResult, fault: Option<Fault>) {
    var n := |result.attempts|;
    && 1 <= n <= config.attempts
    && Final(config, endpoint, n, script(n))
    && Undecided(config, endpoint, script, n)
    && Recorded(config, endpoint, script, result.attempts)
    && fault == FinalFault(config, endpoint, n, script(n))
    && (fault.Some? ==> result.(attempts := []) == FetchResult(Failed, [], prior, "", "", "", 0))
    && (fault.None? ==>
          Carries(prior, endpoint, script(n).reply, Judge(config, endpoint, script(n).reply).value,
                  Processed(result.attempts[n - 1], result.outcome, result.checkpoint, result.next, result.key,
                    result.digest, result.bytes)))
  }

  ghost predicate Undecided(config: Config, endpoint: Endpoint, script: nat -> Turn, n: nat) {
    forall i :: 1 <= i < n ==> !Final(config, endpoint, i, script(i))
  }

  ghost predicate Recorded(config: Config, endpoint: Endpoint, script: nat -> Turn, attempts: seq<Attempt>) {
    forall i :: 1 <= i <= |attempts| ==> Records(config, endpoint, script(i).reply, attempts[i - 1])
  }

  lemma DecidedByAnswer(config: Config, endpoint: Endpoint, prior: Checkpoint, script: nat -> Turn,
      attempts: seq<Attempt>, p: Processed)
    requires 1 <= |attempts| <= config.attempts && attempts[|attempts| - 1] == p.attempt
    requires Undecided(config, endpoint, script, |attempts|) && Recorded(config, endpoint, script, attempts)
    requires var r := script(|attempts|).reply;
             Judge(config, endpoint, r).Ok? && Carries(prior, endpoint, r, Judge(config, endpoint, r).value, p)
    ensures Decided(config, endpoint, prior, script,
                    FetchResult(p.outcome, attempts, p.checkpoint, p.next, p.key, p.digest, p.bytes), None)
  {
    hide Judge, Carries, Undecided, Recorded;
    assert p == Processed(attempts[|attempts| - 1], p.outcome, p.checkpoint, p.next, p.key, p.digest, p.bytes);
  }

  lemma DecidedByFault(config: Config, endpoint: Endpoint, prior: Checkpoint, script: nat -> Turn,
      attempts: seq<Attempt>, fault: Fault)
    requires 1 <= |attempts| <= config.attempts
    requires Undecided(config, endpoint, script, |attempts|) && Recorded(config, endpoint, script, attempts)
    requires Final(config, endpoint, |attempts|, script(|attempts|))
    requires FinalFault(config, endpoint, |attempts|, script(|attempts|)) == Some(fault)
    ensures Decided(config, endpoint, prior, script, FetchResult(Failed, attempts, prior, "", "", "", 0), Some(fault))
  {
    hide Judge, WaitFault, Undecided, Recorded;
  }

  // ---- What the verdicts mean ----

  /** The response is the one that was asked for: an advisory page must not be redirected. */
  predicate Asked(endpoint: Endpoint, r: Reply) {
    r.Response? && (endpoint.advisory ==> r.url == endpoint.url)
  }

  /** A response whose body may be read: a success of an allowed type and size, and an advisory page with a link. */
  predicate Readable(endpoint: Endpoint, r: Reply) {
    && Asked(endpoint, r) && 200 <= r.status <= 299
    && (endpoint.advisory ==> r.status == 200 && r.next.Some?)
    && endpoint.allows(r.contentType) && r.declared <= endpoint.maximum
  }

  /** Compressed and decompressed within the limit, and not more than `ratio` times as large decompressed. */
  predicate Moderate(config: Config, endpoint: Endpoint, body: Body) {
    && body.compressed <= endpoint.maximum && body.bytes <= endpoint.maximum
    && (body.compressed > 0 ==> body.bytes <= body.compressed * config.ratio)
  }

  /** The answers that a fetch accepts. */
  predicate Good(config: Config, endpoint: Endpoint, r: Reply) {
    || (Asked(endpoint, r) && r.status == 304)
    || (&& Readable(endpoint, r) && r.body.opening.None? && Moderate(config, endpoint, r.body)
        && (if endpoint.metadataOnly then !r.body.broken else r.body.stages && r.body.key.Some? && r.body.commits))
  }

  /** The failures that another attempt may mend: no capacity or connection, overload, a broken body, the store. */
  predicate Passing(config: Config, endpoint: Endpoint, r: Reply) {
    || r.NoCapacity?
    || (r.NoResponse? && r.fault.retryable)
    || (Asked(endpoint, r) && (r.status == 429 || r.status >= 500))
    || (Readable(endpoint, r) && r.body.opening.Some? && r.body.opening.value.retryable)
    || (&& Readable(endpoint, r) && r.body.opening.None?
        && if endpoint.metadataOnly then r.body.broken
           else !r.body.stages || (Moderate(config, endpoint, r.body) && r.body.key.Some? && !r.body.commits))
  }

  /** The errors by name: what a failed attempt is called. */
  ghost predicate Named(config: Config, endpoint: Endpoint, r: Reply, code: Code) {
    && (r.NoCapacity? ==> code == Transport)
    && (r.BadRequest? ==> code == InvalidUrl)
    && (r.NoResponse? ==> code == r.fault.code)
    && (r.Response? && !Asked(endpoint, r) ==> code == InvalidPaginationLink)
    && (Asked(endpoint, r) && r.status != 304 && !(200 <= r.status <= 299) ==> code == UnexpectedStatus)
    && (Asked(endpoint, r) && 200 <= r.status <= 299 ==> NamedSuccess(config, endpoint, r, code))
  }

  /** A success that is turned down, by the first of the checks that it fails. */
  ghost predicate NamedSuccess(config: Config, endpoint: Endpoint, r: Reply, code: Code)
    requires r.Response?
  {
    var linked := endpoint.advisory ==> r.status == 200 && r.next.Some?;
    && (endpoint.advisory && r.status != 200 ==> code == UnexpectedStatus)
    && (endpoint.advisory && r.status == 200 && r.next.None? ==> code == InvalidPaginationLink)
    && (linked && !endpoint.allows(r.contentType) ==> code == ContentType)
    && (linked && endpoint.allows(r.contentType) && r.declared > endpoint.maximum ==> code == CompressedTooLarge)
    && (Readable(endpoint, r) && r.body.opening.Some? ==> code == r.body.opening.value.code)
    && (Readable(endpoint, r) && r.body.opening.None? ==> NamedBody(config, endpoint, r.body, code))
  }

  ghost predicate NamedBody(config: Config, endpoint: Endpoint, body: Body, code: Code) {
    if endpoint.metadataOnly && body.broken then code == Transport
    else if !endpoint.metadataOnly && !body.stages then code == ObjectStorage
    else
      && (body.compressed > endpoint.maximum ==> code == CompressedTooLarge)
      && (body.compressed <= endpoint.maximum < body.bytes ==> code == BodyTooLarge)
      && (body.compressed <= endpoint.maximum && body.bytes <= endpoint.maximum && !Moderate(config, endpoint, body) ==>
            code == CompressionRatio)
      && (Moderate(config, endpoint, body) ==> code == ObjectStorage)
  }

  lemma {:induction false} VerdictMeans(config: Config, endpoint: Endpoint, r: Reply)
    ensures var verdict := Judge(config, endpoint, r);
            && (verdict.Ok? <==> Good(config, endpoint, r))
            && (verdict.Err? ==>
                  && (verdict.error.retryable <==> Passing(config, endpoint, r))
                  && Named(config, endpoint, r, verdict.error.code))
            && (verdict.Ok? ==>
                  verdict.value == if r.status == 304 then NotModified
                                   else if endpoint.metadataOnly then MetadataOnly else Stored)
  {
  }

  /** The wait after attempt `n`: until the time the server names, or 1, 2, 4 or 8 backoffs and the jitter. */
  function Pause(config: Config, n: nat, turn: Turn): int
    requires 1 <= n <= 4
  {
    if turn.reply.Response? && turn.reply.retryAfter.Some? && turn.now < turn.reply.retryAfter.value
    then turn.reply.retryAfter.value - turn.now
    else [1, 2, 4, 8][n - 1] * config.baseBackoff + turn.jitter
  }

  lemma {:induction false} PauseMeans(config: Config, n: nat, turn: Turn)
    requires 1 <= n <= 4
    ensures Delay(config, n, RetryAfter(turn.reply), turn) == Pause(config, n, turn)
  {
    assert Power(0) == 1 && Power(1) == 2;
    assert Power(2) == 4;
    assert Power(3) == 8;
  }

  /** Attempt `n` is followed by another: the failure may pass, attempts are left, and the wait is short enough. */
  ghost predicate TriesAgain(config: Config, endpoint: Endpoint, n: nat, turn: Turn) {
    && Passing(config, endpoint, turn.reply) && 1 <= n < config.attempts && n <= 4
    && Pause(config, n, turn) <= config.maximumDelay && !turn.interrupted
  }

  /** The waits before attempt `n`, each as long as it should be. */
  function Pauses(config: Config, script: nat -> Turn, n: nat): int
    requires 1 <= n <= 5
  {
    if n == 1 then 0 else Pauses(config, script, n - 1) + Pause(config, n - 1, script(n - 1))
  }

  /** What a fetch of `n` attempts has slept: all waits, and the last one too if it was begun and interrupted. */
  ghost predicate Rested(config: Config, endpoint: Endpoint, script: nat -> Turn, n: nat, slept: int) {
    && 1 <= n <= 5
    && slept == Pauses(config, script, n) +
         if Passing(config, endpoint, script(n).reply) && n < config.attempts && n <= 4 &&
            Pause(config, n, script(n)) <= config.maximumDelay
         then Pause(config, n, script(n)) else 0
  }

  /** The error of a fetch that ends with attempt `n`: that of the attempt, or of the wait that was to follow. */
  ghost predicate EndsWith(config: Config, endpoint: Endpoint, n: nat, turn: Turn, fault: Fault) {
    if Passing(config, endpoint, turn.reply) && 1 <= n < config.attempts && n <= 4 then
      fault == Fault(if Pause(config, n, turn) > config.maximumDelay then UnexpectedStatus else Transport, true)
    else Named(config, endpoint, turn.reply, fault.code) && (fault.retryable <==> Passing(config, endpoint, turn.reply))
  }

  /**
   What a fetch comes to: it tries again exactly while the answers ask for it, is without
   error exactly if the last answer is good, and then the outcome says which kind it was.
   */
  ghost predicate Meant(config: Config, endpoint: Endpoint, script: nat -> Turn, result: FetchResult,
      fault: Option<Fault>) {
    var n := |result.attempts|;
    && 1 <= n <= config.attempts
    && (forall i :: 1 <= i < n ==> TriesAgain(config, endpoint, i, script(i)))
    && !TriesAgain(config, endpoint, n, script(n))
    && (fault.None? <==> Good(config, endpoint, script(n).reply))
    && (fault.Some? ==> EndsWith(config, endpoint, n, script(n), fault.value))
    && (fault.None? ==>
          result.outcome == if script(n).reply.status == 304 then NotModified
                            else if endpoint.metadataOnly then MetadataOnly else Stored)
    && (forall i :: 1 <= i <= n ==> Reported(config, endpoint, script(i).reply, result.attempts[i - 1]))
  }

  /** The record of an attempt: an error by its name exactly if the answer was not good. */
  ghost predicate Reported(config: Config, endpoint: Endpoint, r: Reply, attempt: Attempt) {
    && (attempt.code.None? <==> Good(config, endpoint, r))
    && (attempt.code.Some? ==> Named(config, endpoint, r, attempt.code.value))
  }

  lemma {:induction false} AgainMeans(config: Config, endpoint: Endpoint, n: nat, turn: Turn)
    requires config.Valid() && 1 <= n <= config.attempts
    ensures Final(config, endpoint, n, turn) <==> !TriesAgain(config, endpoint, n, turn)
  {
    VerdictMeans(config, endpoint, turn.reply);
    hide Judge, Passing, Good, Named, Pause, Delay;
    if Good(config, endpoint, turn.reply) {
      GoodIsFinal(config, endpoint, turn.reply);
    }
    if n <= 4 {
      PauseMeans(config, n, turn);
    }
  }

  lemma GoodIsFinal(config: Config, endpoint: Endpoint, r: Reply)
    requires Good(config, endpoint, r)
    ensures !Passing(config, endpoint, r)
  {
  }

  lemma {:induction false} FaultMeans(config: Config, endpoint: Endpoint, n: nat, turn: Turn)
    requires config.Valid() && 1 <= n <= config.attempts && Final(config, endpoint, n, turn)
    ensures var fault := FinalFault(config, endpoint, n, turn);
            && (fault.None? <==> Good(config, endpoint, turn.reply))
            && (fault.Some? ==> EndsWith(config, endpoint, n, turn, fault.value))
  {
    VerdictMeans(config, endpoint, turn.reply);
    hide Judge, Passing, Good, Named, Pause, Delay;
    if n <= 4 {
      PauseMeans(config, n, turn);
    }
  }

  lemma {:induction false} DecidedMeans(config: Config, endpoint: Endpoint, prior: Checkpoint, script: nat -> Turn,
      result: FetchResult, fault: Option<Fault>)
    requires config.Valid() && Decided(config, endpoint, prior, script, result, fault)
    ensures Meant(config, endpoint, script, result, fault)
  {
    hide Judge, Good, Named, TriesAgain, EndsWith, FinalFault, Final;
    var n := |result.attempts|;
    forall i | 1 <= i <= n
      ensures Reported(config, endpoint, script(i).reply, result.attempts[i - 1])
      ensures Final(config, endpoint, i, script(i)) <==> !TriesAgain(config, endpoint, i, script(i))
    {
      VerdictMeans(config, endpoint, script(i).reply);
      AgainMeans(config, endpoint, i, script(i));
    }
    FaultMeans(config, endpoint, n, script(n));
    VerdictMeans(config, endpoint, script(n).reply);
  }

  lemma NoPauses(config: Config, script: nat -> Turn)
    ensures Pauses(config, script, 1) == 0
  {
  }

  /** An attempt that is not followed by a wait. */
  lemma {:induction false} RestsOnce(config: Config, endpoint: Endpoint, script: nat -> Turn, n: nat, slept: int)
    requires 1 <= n <= config.attempts <= 5 && slept == Pauses(config, script, n)
    requires var verdict := Judge(config, endpoint, script(n).reply);
             verdict.Ok? || !verdict.error.retryable || n == config.attempts
    ensures Rested(config, endpoint, script, n, slept)
  {
    hide Judge, Passing, Good, Named, Pause, Pauses;
    VerdictMeans(config, endpoint, script(n).reply);
    if Good(config, endpoint, script(n).reply) {
      GoodIsFinal(config, endpoint, script(n).reply);
    }
  }

  /** An attempt that is followed by a wait. */
  lemma {:induction false} RestsMore(config: Config, endpoint: Endpoint, script: nat -> Turn, n: nat, slept: int)
    requires 1 <= n < config.attempts <= 5 && slept == Pauses(config, script, n)
    requires var verdict := Judge(config, endpoint, script(n).reply); verdict.Err? && verdict.error.retryable
    ensures Rested(config, endpoint, script, n, slept + Slept(config, n, script(n)))
    ensures WaitFault(config, n, script(n)).None? ==>
              slept + Slept(config, n, script(n)) == Pauses(config, script, n + 1)
  {
    hide Judge, Passing, Good, Named, Pause, Delay;
    VerdictMeans(config, endpoint, script(n).reply);
    PauseMeans(config, n, script(n));
  }

  lemma {:induction false} GoesOn(config: Config, endpoint: Endpoint, script: nat -> Turn, n: nat)
    requires 1 <= n < config.attempts <= 5 && Undecided(config, endpoint, script, n)
    requires var verdict := Judge(config, endpoint, script(n).reply); verdict.Err? && verdict.error.retryable
    requires WaitFault(config, n, script(n)).None?
    ensures Undecided(config, endpoint, script, n + 1)
    ensures Pauses(config, script, n) + Slept(config, n, script(n)) == Pauses(config, script, n + 1)
  {
    hide Judge, WaitFault, Undecided, Pauses, Slept, Rested;
    RestsMore(config, endpoint, script, n, Pauses(config, script, n));
    UndecidedSoFar(config, endpoint, script, n);
  }

  /**
   What a fetch hands on: after an error nothing new; else the validators of the answer, or
   the old ones where it has none, and what it says of the next page and the body.
   */
  ghost predicate HandedOn(endpoint: Endpoint, prior: Checkpoint, r: Reply, result: FetchResult, failed: bool) {
    && result.checkpoint.cursor == prior.cursor && result.checkpoint.state == prior.state
    && (failed ==>
          && result.checkpoint == prior
          && (result.next, result.key, result.digest, result.bytes) == ("", "", "", 0))
    && (!failed ==>
          && r.Response?
          && (result.checkpoint.etag == if r.etag == "" then prior.etag else r.etag)
          && (result.checkpoint.lastModified == if r.lastModified == "" then prior.lastModified else r.lastModified)
          && (r.status == 304 ==> (result.next, result.key, result.digest, result.bytes) == ("", "", "", 0))
          && (r.status != 304 ==>
                && result.digest == r.body.digest && result.bytes == r.body.bytes
                && (endpoint.advisory ==> Some(result.next) == r.next) && (!endpoint.advisory ==> result.next == "")
                && (endpoint.metadataOnly ==> result.key == "")
                && (!endpoint.metadataOnly ==> Some(result.key) == r.body.key)))
  }

  lemma {:induction false} HandsOn(config: Config, endpoint: Endpoint, prior: Checkpoint, script: nat -> Turn,
      result: FetchResult, fault: Option<Fault>)
    requires config.Valid() && Decided(config, endpoint, prior, script, result, fault)
    ensures HandedOn(endpoint, prior, script(|result.attempts|).reply, result, fault.Some?)
  {
    var n := |result.attempts|;
    var r := script(n).reply;
    FaultMeans(config, endpoint, n, script(n));
    VerdictMeans(config, endpoint, r);
    hide Judge, Recorded, Undecided, Final, FinalFault, Passing, Named, EndsWith;
  }

  /** All that is promised of a fetch that ends with this result after sleeping so long. */
  ghost predicate Concluded(config: Config, endpoint: Endpoint, prior: Checkpoint, script: nat -> Turn,
      result: FetchResult, fault: Option<Fault>, slept: int) {
    && Decided(config, endpoint, prior, script, result, fault)
    && Meant(config, endpoint, script, result, fault)
    && HandedOn(endpoint, prior, script(|result.attempts|).reply, result, fault.Some?)
    && Rested(config, endpoint, script, |result.attempts|, slept)
  }

  lemma {:induction false} ConcludedByAnswer(config: Config, endpoint: Endpoint, prior: Checkpoint,
      script: nat -> Turn, attempts: seq<Attempt>, p: Processed, slept: int)
    requires config.Valid() && 1 <= |attempts| <= config.attempts && attempts[|attempts| - 1] == p.attempt
    requires Undecided(config, endpoint, script, |attempts|) && Recorded(config, endpoint, script, attempts)
    requires var r := script(|attempts|).reply;
             Judge(config, endpoint, r).Ok? && Carries(prior, endpoint, r, Judge(config, endpoint, r).value, p)
    requires slept == Pauses(config, script, |attempts|)
    ensures var result := FetchResult(p.outcome, attempts, p.checkpoint, p.next, p.key, p.digest, p.bytes);
            Concluded(config, endpoint, prior, script, result, None, slept)
  {
    hide Judge, Carries, Undecided, Recorded, Decided, Meant, Rested, Pauses, HandedOn;
    DecidedByAnswer(config, endpoint, prior, script, attempts, p);
    var result := FetchResult(p.outcome, attempts, p.checkpoint, p.next, p.key, p.digest, p.bytes);
    DecidedMeans(config, endpoint, prior, script, result, None);
    HandsOn(config, endpoint, prior, script, result, None);
    RestsOnce(config, endpoint, script, |attempts|, slept);
  }

  /** The last attempt failed for good, or the wait after it did. */
  lemma {:induction false} ConcludedByFault(config: Config, endpoint: Endpoint, prior: Checkpoint,
      script: nat -> Turn, attempts: seq<Attempt>, fault: Fault, slept: int)
    requires config.Valid() && 1 <= |attempts| <= config.attempts
    requires Undecided(config, endpoint, script, |attempts|) && Recorded(config, endpoint, script, attempts)
    requires var n := |attempts|;
             var verdict := Judge(config, endpoint, script(n).reply);
             && verdict.Err?
             && (if !verdict.error.retryable || n == config.attempts
                 then fault == verdict.error && slept == Pauses(config, script, n)
                 else WaitFault(config, n, script(n)) == Some(fault) &&
                      slept == Pauses(config, script, n) + Slept(config, n, script(n)))
    ensures Concluded(config, endpoint, prior, script, FetchResult(Failed, attempts, prior, "", "", "", 0), Some(fault),
                      slept)
  {
    hide Judge, WaitFault, Undecided, Recorded, Decided, Meant, Rested, Pauses, Slept, HandedOn;
    var n := |attempts|;
    var verdict := Judge(config, endpoint, script(n).reply);
    DecidedByFault(config, endpoint, prior, script, attempts, fault);
    var result := FetchResult(Failed, attempts, prior, "", "", "", 0);
    DecidedMeans(config, endpoint, prior, script, result, Some(fault));
    HandsOn(config, endpoint, prior, script, result, Some(fault));
    if !verdict.error.retryable || n == config.attempts {
      RestsOnce(config, endpoint, script, n, slept);
    } else {
      RestsMore(config, endpoint, script, n, Pauses(config, script, n));
    }
  }

  /** The store holds what the result names, within the limits, and nothing else. */
  ghost predicate Holds(config: Config, endpoint: Endpoint, result: FetchResult, objects: seq<Object>) {
    var n := |result.attempts|;
    if result.outcome == Stored && n > 0 then
      && objects == [Object(result.key, Staged(n, result.bytes, result.attempts[n - 1].compressed))]
      && WithinLimits(config, endpoint.maximum, result.bytes, result.attempts[n - 1].compressed)
    else objects == []
  }

  lemma HoldsNothing(config: Config, endpoint: Endpoint, prior: Checkpoint, attempts: seq<Attempt>)
    ensures Holds(config, endpoint, FetchResult(Failed, attempts, prior, "", "", "", 0), [])
  {
  }

  lemma HoldsOne(config: Config, endpoint: Endpoint, p: Processed, attempts: seq<Attempt>, objects: seq<Object>)
    requires attempts != [] && attempts[|attempts| - 1] == p.attempt
    requires objects ==
             if p.outcome == Stored then [Object(p.key, Staged(|attempts|, p.bytes, p.attempt.compressed))] else []
    requires p.outcome == Stored ==> WithinLimits(config, endpoint.maximum, p.bytes, p.attempt.compressed)
    ensures var r := FetchResult(p.outcome, attempts, p.checkpoint, p.next, p.key, p.digest, p.bytes);
            Holds(config, endpoint, r, objects)
  {
  }

  /** What holds before attempt `n`: nothing is decided, held, staged or stored, and all waits were slept. */
  ghost predicate Underway(config: Config, endpoint: Endpoint, script: nat -> Turn, n: nat, attempts: seq<Attempt>,
      log: seq<Event>) {
    && 1 <= n <= config.attempts && |attempts| == n - 1 && config.Valid()
    && Undecided(config, endpoint, script, n) && Recorded(config, endpoint, script, attempts)
    && Idle(log) && Keep(log).value.objects == [] && Keep(log).value.slept == Pauses(config, script, n)
  }

  /** One pass of the loop of `Fetch`: an attempt and, if it may pass, the wait for the next. */
  method Pass(config: Config, endpoint: Endpoint, prior: Checkpoint, script: nat -> Turn, n: nat,
      attempts: seq<Attempt>, before: seq<Event>)
    returns (done: bool, result: FetchResult, fault: Option<Fault>, log: seq<Event>)
    requires Underway(config, endpoint, script, n, attempts, before)
    ensures Idle(log) && Keep(log).value.slept <= Keep(before).value.slept + (if n < config.attempts then
              config.maximumDelay else 0)
    ensures done ==>
              && Holds(config, endpoint, result, Keep(log).value.objects)
              && Concluded(config, endpoint, prior, script, result, fault, Keep(log).value.slept)
              && (result.outcome == Failed <==> fault.Some?)
    ensures !done ==> Underway(config, endpoint, script, n + 1, result.attempts, log)
  {
    hide Judge, Records, Carries, WithinLimits, WaitFault, Keep, Recorded, Undecided, Concluded, Pauses, Slept;
    hide Rested, Final, Delay, RetryAfter, Holds;
    var turn := script(n);
    var p;
    p, fault, log := Try(config, endpoint, prior, n, turn.reply, before);
    RecordedSoFar(config, endpoint, script, attempts, p.attempt);
    var all := attempts + [p.attempt];
    result := FetchResult(Failed, all, prior, "", "", "", 0);
    HoldsNothing(config, endpoint, prior, all);
    if fault.None? {
      HoldsOne(config, endpoint, p, all, Keep(log).value.objects);
      ConcludedByAnswer(config, endpoint, prior, script, all, p, Keep(log).value.slept);
      result := FetchResult(p.outcome, all, p.checkpoint, p.next, p.key, p.digest, p.bytes);
      return true, result, None, log;
    }
    if !fault.value.retryable || n == config.attempts {
      ConcludedByFault(config, endpoint, prior, script, all, fault.value, Keep(log).value.slept);
      return true, result, fault, log;
    }
    var wait;
    wait, log := WaitToRetry(config, n, p.attempt.retryAfter, turn, log);
    if wait.Some? {
      ConcludedByFault(config, endpoint, prior, script, all, wait.value, Keep(log).value.slept);
      return true, result, wait, log;
    }
    GoesOn(config, endpoint, script, n);
    return false, result, fault, log;
  }

  /**
   `Fetch`.  The first attempt that ends the fetch decides it, as `Meant` says; nothing
   stays staged or held; an object is in the store exactly when the outcome is `Stored`, it
   is within the limits and it is the one the result names; an error leaves the checkpoint
   alone and no object behind.
   */
  method Fetch(config: Config, endpoint: Endpoint, prior: Checkpoint, refusal: Option<Fault>, script: nat -> Turn)
    returns (result: FetchResult, fault: Option<Fault>, log: seq<Event>)
    requires config.Valid()
    ensures refusal.Some? ==> fault == refusal && log == [] && result.attempts == []
    ensures Idle(log) && Holds(config, endpoint, result, Keep(log).value.objects)
    ensures refusal.None? ==> Concluded(config, endpoint, prior, script, result, fault, Keep(log).value.slept)
    ensures result.outcome == Failed <==> fault.Some?
    ensures Keep(log).value.slept <= Budget(config, config.attempts - 1)
  {
    hide Judge, Keep, Budget, Recorded, Undecided, Concluded, Pauses, Holds;
    log := [];
    NothingYet(config, endpoint, script);
    NoPauses(config, script);
    BudgetGrows(config, 0, config.attempts - 1);
    HoldsNothing(config, endpoint, NO_CHECKPOINT, []);
    if refusal.Some? {
      return FetchResult(Failed, [], NO_CHECKPOINT, "", "", "", 0), refusal, [];
    }
    result := FetchResult(Failed, [], prior, "", "", "", 0);
    var n := 1;
    while n <= config.attempts
      invariant Underway(config, endpoint, script, n, result.attempts, log)
      invariant Keep(log).value.slept <= Budget(config, n - 1)
    {
      var done;
      BudgetGrows(config, n - 1, config.attempts - 1);
      done, result, fault, log := Pass(config, endpoint, prior, script, n, result.attempts, log);
      if done {
        if n < config.attempts {
          BudgetGrows(config, n, config.attempts - 1);
        }
        return;
      }
      n := n + 1;
    }
    assert false;
  }
}

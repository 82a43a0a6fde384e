/**
 The per-host request rate of `internal/fetcher/limiter.go`.

 Time and tokens are reals.  A bucket is touched only inside the critical section of
 `hostLimit.wait`, so an execution is the sequence of those sections.
 */
module TokenBucket {

  type Host = string

  datatype Bucket = Bucket(capacity: real, tokens: real, updatedAt: real) {
    predicate Valid() {
      capacity >= 1.0 && 0.0 <= tokens <= capacity
    }
  }

  function Refill(b: Bucket, now: real, gap: real): Bucket
    requires gap > 0.0
  {
    if now - b.updatedAt > 0.0 then
      var tokens := b.tokens + (now - b.updatedAt) / gap;
      b.(tokens := if tokens > b.capacity then b.capacity else tokens, updatedAt := now)
    else b
  }

  predicate Granted(b: Bucket, now: real, gap: real)
    requires gap > 0.0
  {
    Refill(b, now, gap).tokens >= 1.0
  }

  /** The bucket after one critical section. */
  function Step(b: Bucket, now: real, gap: real): Bucket
    requires gap > 0.0
  {
    var r := Refill(b, now, gap);
    if r.tokens >= 1.0 then r.(tokens := r.tokens - 1.0) else r
  }

  function Run(b: Bucket, times: seq<real>, gap: real): Bucket
    requires gap > 0.0
    decreases |times|
  {
    if times == [] then b else Run(Step(b, times[0], gap), times[1..], gap)
  }

  /** How many of these critical sections grant a request. */
  function Grants(b: Bucket, times: seq<real>, gap: real): nat
    requires gap > 0.0
    decreases |times|
  {
    if times == [] then 0
    else (if Granted(b, times[0], gap) then 1 else 0) + Grants(Step(b, times[0], gap), times[1..], gap)
  }

  lemma DivideSum(a: real, b: real, gap: real)
    requires gap > 0.0
    ensures (a + b) / gap == a / gap + b / gap
  {
  }

  lemma DivideMonotone(a: real, b: real, gap: real)
    requires gap > 0.0 && a <= b
    ensures a / gap <= b / gap
    ensures a >= 0.0 ==> a / gap >= 0.0
  {
    DivideSum(a, b - a, gap);
    assert (b - a) / gap >= 0.0;
  }

  lemma MultiplyDivide(x: real, gap: real)
    requires gap > 0.0
    ensures (x * gap) / gap == x
    ensures x > 0.0 ==> x * gap > 0.0
  {
  }

  lemma RefillStaysValid(b: Bucket, now: real, gap: real)
    requires b.Valid() && gap > 0.0
    ensures Refill(b, now, gap).Valid()
    ensures Refill(b, now, gap).updatedAt >= now && Refill(b, now, gap).updatedAt >= b.updatedAt
    ensures Step(b, now, gap).Valid()
  {
    if now > b.updatedAt {
      DivideMonotone(0.0, now - b.updatedAt, gap);
    }
  }

  /** Tokens never leave [0, capacity]. */
  lemma {:induction false} TokensStayInRange(b: Bucket, times: seq<real>, gap: real)
    requires b.Valid() && gap > 0.0
    ensures Run(b, times, gap).Valid() && Run(b, times, gap).capacity == b.capacity
    decreases |times|
  {
    if times == [] {
    } else {
      RefillStaysValid(b, times[0], gap);
      TokensStayInRange(Step(b, times[0], gap), times[1..], gap);
    }
  }

  /** What may still be granted up to time `end`: the tokens at hand and those that flow in until then. */
  function Budget(b: Bucket, end: real, gap: real): real
    requires gap > 0.0
  {
    b.tokens + (if end > b.updatedAt then (end - b.updatedAt) / gap else 0.0)
  }

  lemma RefillKeepsBudget(b: Bucket, now: real, end: real, gap: real)
    requires b.Valid() && gap > 0.0 && now <= end
    ensures Budget(Refill(b, now, gap), end, gap) <= Budget(b, end, gap)
  {
    if now > b.updatedAt {
      DivideSum(now - b.updatedAt, end - now, gap);
    }
  }

  lemma {:induction false} GrantsWithinBudget(b: Bucket, times: seq<real>, end: real, gap: real)
    requires b.Valid() && gap > 0.0
    requires forall i :: 0 <= i < |times| ==> times[i] <= end
    ensures Grants(b, times, gap) as real <= Budget(b, end, gap)
    decreases |times|
  {
    if times == [] {
      DivideMonotone(0.0, if end > b.updatedAt then end - b.updatedAt else 0.0, gap);
    } else {
      RefillStaysValid(b, times[0], gap);
      RefillKeepsBudget(b, times[0], end, gap);
      GrantsWithinBudget(Step(b, times[0], gap), times[1..], end, gap);
    }
  }

  lemma RefillTwice(b: Bucket, now: real, gap: real)
    requires gap > 0.0
    ensures Refill(Refill(b, now, gap), now, gap) == Refill(b, now, gap)
  {
  }

  /**
   In any stretch of an execution whose times lie in an interval of length T, at most
   capacity + T / gap requests are granted, whatever happened before.
   */
  lemma RateIsBounded(b: Bucket, times: seq<real>, start: real, end: real, gap: real)
    requires b.Valid() && gap > 0.0 && start <= end
    requires forall i :: 0 <= i < |times| ==> start <= times[i] <= end
    ensures Grants(b, times, gap) as real <= b.capacity + (end - start) / gap
  {
    DivideMonotone(0.0, end - start, gap);
    if times != [] {
      var r := Refill(b, times[0], gap);
      RefillStaysValid(b, times[0], gap);
      RefillTwice(b, times[0], gap);
      GrantsWithinBudget(r, times, end, gap);
      assert Grants(r, times, gap) == Grants(b, times, gap);
      if end > r.updatedAt {
        DivideMonotone(end - r.updatedAt, end - start, gap);
      }
    }
  }

  /** A request that waits the computed delay finds a token, if no other request took it. */
  lemma DelayIsEnough(b: Bucket, now: real, later: real, gap: real)
    requires b.Valid() && gap > 0.0 && !Granted(b, now, gap)
    requires var r := Refill(b, now, gap); later >= r.updatedAt + (1.0 - r.tokens) * gap
    ensures Granted(Step(b, now, gap), later, gap)
  {
    var r := Refill(b, now, gap);
    RefillStaysValid(b, now, gap);
    var delay := (1.0 - r.tokens) * gap;
    MultiplyDivide(1.0 - r.tokens, gap);
    DivideMonotone(delay, later - r.updatedAt, gap);
  }

  // ---- The bound is reached ----

  function Ticks(at: real, n: nat, gap: real): seq<real>
    decreases n
  {
    if n == 0 then [] else [at] + Ticks(at + gap, n - 1, gap)
  }

  function Zeros(n: nat): seq<real> {
    if n == 0 then [] else [0.0] + Zeros(n - 1)
  }

  lemma {:induction false} GrantsJoin(b: Bucket, first: seq<real>, second: seq<real>, gap: real)
    requires gap > 0.0
    ensures Grants(b, first + second, gap) == Grants(b, first, gap) + Grants(Run(b, first, gap), second, gap)
    decreases |first|
  {
    if first == [] {
      assert first + second == second;
    } else {
      assert (first + second)[1..] == first[1..] + second;
      GrantsJoin(Step(b, first[0], gap), first[1..], second, gap);
    }
  }

  lemma {:induction false} BurstIsGranted(capacity: real, n: nat, gap: real)
    requires gap > 0.0 && capacity >= 1.0
    ensures Grants(Bucket(capacity, n as real, 0.0), Zeros(n), gap) == n
    ensures Run(Bucket(capacity, n as real, 0.0), Zeros(n), gap) == Bucket(capacity, 0.0, 0.0)
  {
    if n == 0 {
    } else {
      assert Zeros(n)[1..] == Zeros(n - 1);
      assert Step(Bucket(capacity, n as real, 0.0), 0.0, gap) == Bucket(capacity, (n - 1) as real, 0.0);
      BurstIsGranted(capacity, n - 1, gap);
    }
  }

  lemma {:induction false} TicksAreGranted(capacity: real, at: real, n: nat, gap: real)
    requires gap > 0.0 && capacity >= 1.0
    ensures Grants(Bucket(capacity, 0.0, at - gap), Ticks(at, n, gap), gap) == n
    decreases n
  {
    if n == 0 {
    } else {
      var b := Bucket(capacity, 0.0, at - gap);
      assert at - b.updatedAt == gap;
      assert Refill(b, at, gap) == Bucket(capacity, 1.0, at);
      assert Ticks(at, n, gap)[1..] == Ticks(at + gap, n - 1, gap);
      TicksAreGranted(capacity, at + gap, n - 1, gap);
    }
  }

  lemma OneGapMore(n: nat, gap: real)
    requires gap > 0.0
    ensures (n + 1) as real * gap == n as real * gap + gap && n as real * gap >= 0.0
  {
  }

  /** The ticks end `n - 1` gaps after the first. */
  lemma {:induction false} TicksAreWithin(at: real, n: nat, gap: real)
    requires gap > 0.0 && n >= 1
    ensures forall t :: t in Ticks(at, n, gap) ==> at <= t <= at + (n - 1) as real * gap
    decreases n
  {
    if n == 1 {
      assert Ticks(at + gap, 0, gap) == [];
    } else {
      TicksAreWithin(at + gap, n - 1, gap);
      OneGapMore(n - 2, gap);
    }
  }

  lemma {:induction false} TicksLength(at: real, n: nat, gap: real)
    ensures |Ticks(at, n, gap)| == n
    decreases n
  {
    if n == 0 {
    } else {
      TicksLength(at + gap, n - 1, gap);
    }
  }

  lemma {:induction false} ZerosAreZero(n: nat)
    ensures |Zeros(n)| == n && forall i :: 0 <= i < n ==> Zeros(n)[i] == 0.0
  {
    if n == 0 {
    } else {
      ZerosAreZero(n - 1);
    }
  }

  lemma WholeGaps(length: real, gap: real) returns (n: nat)
    requires gap > 0.0 && length >= 0.0
    ensures n == (length / gap).Floor && n as real * gap <= length
  {
    var q := length / gap;
    assert q >= 0.0;
    n := q.Floor;
    assert n as real <= q && q * gap == length;
    assert (q - n as real) * gap >= 0.0;
  }

  /**
   The rate bound cannot be lowered: for every capacity and every length some requests
   within an interval of that length get as many grants as the bound allows.
   */
  lemma {:induction false} RateIsReached(capacity: nat, length: real, gap: real) returns (times: seq<real>)
    requires gap > 0.0 && capacity >= 1 && length >= 0.0
    ensures forall i :: 0 <= i < |times| ==> 0.0 <= times[i] <= length
    ensures Grants(Bucket(capacity as real, capacity as real, 0.0), times, gap) == capacity + (length / gap).Floor
  {
    hide Grants, Run, Ticks, Zeros;
    var n := WholeGaps(length, gap);
    var burst, ticks := Zeros(capacity), Ticks(gap, n, gap);
    times := burst + ticks;
    BurstIsGranted(capacity as real, capacity, gap);
    TicksAreGranted(capacity as real, gap, n, gap);
    GrantsJoin(Bucket(capacity as real, capacity as real, 0.0), burst, ticks, gap);
    ZerosAreZero(capacity);
    TicksLength(gap, n, gap);
    if n >= 1 {
      TicksAreWithin(gap, n, gap);
      OneGapMore(n - 1, gap);
    }
    forall i | 0 <= i < |times|
      ensures 0.0 <= times[i] <= length
    {
      assert i >= capacity ==> times[i] in ticks;
    }
  }
  // ---- All hosts together ----

  /** One critical section: some request for this host at this time. */
  datatype Event = Event(host: Host, at: real)

  /** `forHost`: a host that is met for the first time starts with a full bucket. */
  function BucketOf(buckets: map<Host, Bucket>, host: Host, at: real, capacity: real): Bucket {
    if host in buckets then buckets[host] else Bucket(capacity, capacity, at)
  }

  function StepAll(buckets: map<Host, Bucket>, e: Event, capacity: real, gap: real): map<Host, Bucket>
    requires gap > 0.0
  {
    buckets[e.host := Step(BucketOf(buckets, e.host, e.at, capacity), e.at, gap)]
  }

  function RunAll(buckets: map<Host, Bucket>, events: seq<Event>, capacity: real, gap: real): map<Host, Bucket>
    requires gap > 0.0
    decreases |events|
  {
    if events == [] then buckets else RunAll(StepAll(buckets, events[0], capacity, gap), events[1..], capacity, gap)
  }

  /** Grants to one host in an interleaving of requests to all hosts. */
  function HostGrants(buckets: map<Host, Bucket>, events: seq<Event>, host: Host, capacity: real, gap: real): nat
    requires gap > 0.0
    decreases |events|
  {
    if events == [] then 0
    else
      var e := events[0];
      (if e.host == host && Granted(BucketOf(buckets, host, e.at, capacity), e.at, gap) then 1 else 0) +
      HostGrants(StepAll(buckets, e, capacity, gap), events[1..], host, capacity, gap)
  }

  ghost predicate AllValid(buckets: map<Host, Bucket>, capacity: real) {
    forall h :: h in buckets ==> buckets[h].Valid() && buckets[h].capacity == capacity
  }

  function TimesOf(events: seq<Event>, host: Host): seq<real> {
    if events == [] then []
    else if events[0].host == host then [events[0].at] + TimesOf(events[1..], host)
    else TimesOf(events[1..], host)
  }

  lemma {:induction false} RunAllStaysValid(buckets: map<Host, Bucket>, events: seq<Event>, capacity: real, gap: real)
    requires gap > 0.0 && capacity >= 1.0 && AllValid(buckets, capacity)
    ensures AllValid(RunAll(buckets, events, capacity, gap), capacity)
    decreases |events|
  {
    if events == [] {
    } else {
      RefillStaysValid(BucketOf(buckets, events[0].host, events[0].at, capacity), events[0].at, gap);
      RunAllStaysValid(StepAll(buckets, events[0], capacity, gap), events[1..], capacity, gap);
    }
  }

  /** A host sees only its own requests. */
  lemma {:induction false} HostsAreIndependent(buckets: map<Host, Bucket>, events: seq<Event>, host: Host,
      capacity: real, gap: real)
    requires gap > 0.0 && host in buckets
    ensures HostGrants(buckets, events, host, capacity, gap) == Grants(buckets[host], TimesOf(events, host), gap)
    decreases |events|
  {
    if events == [] {
    } else {
      HostsAreIndependent(StepAll(buckets, events[0], capacity, gap), events[1..], host, capacity, gap);
      if events[0].host == host {
        assert TimesOf(events, host)[1..] == TimesOf(events[1..], host);
      }
    }
  }

  lemma {:induction false} TimesAreTimes(events: seq<Event>, host: Host, start: real, end: real)
    requires forall i :: 0 <= i < |events| ==> start <= events[i].at <= end
    ensures forall i :: 0 <= i < |TimesOf(events, host)| ==> start <= TimesOf(events, host)[i] <= end
  {
    if events == [] {
    } else {
      TimesAreTimes(events[1..], host, start, end);
    }
  }

  lemma {:induction false} FreshHostGrants(buckets: map<Host, Bucket>, events: seq<Event>, host: Host, start: real,
      end: real, capacity: real, gap: real)
    requires gap > 0.0 && capacity >= 1.0 && AllValid(buckets, capacity) && start <= end
    requires forall i :: 0 <= i < |events| ==> start <= events[i].at <= end
    ensures HostGrants(buckets, events, host, capacity, gap) as real <= capacity + (end - start) / gap
    decreases |events|
  {
    if host in buckets {
      HostsAreIndependent(buckets, events, host, capacity, gap);
      TimesAreTimes(events, host, start, end);
      RateIsBounded(buckets[host], TimesOf(events, host), start, end, gap);
    } else if events == [] {
      DivideMonotone(0.0, end - start, gap);
    } else if events[0].host == host {
      var full := Bucket(capacity, capacity, events[0].at);
      HostsAreIndependent(buckets[host := full], events, host, capacity, gap);
      TimesAreTimes(events, host, start, end);
      RateIsBounded(full, TimesOf(events, host), start, end, gap);
      assert buckets[host := full][host := Step(full, events[0].at, gap)] == buckets[host := Step(full,
        events[0].at, gap)];
    } else {
      RunAllStaysValid(buckets, [events[0]], capacity, gap);
      RefillStaysValid(BucketOf(buckets, events[0].host, events[0].at, capacity), events[0].at, gap);
      FreshHostGrants(StepAll(buckets, events[0], capacity, gap), events[1..], host, start, end, capacity, gap);
    }
  }

  /**
   From an empty limiter, for every interleaving of requests to any hosts, every host
   and every stretch of the execution inside an interval of length T: at most
   perHost + T / minimumGap requests to that host are granted.
   */
  lemma EveryHostIsLimited(events: seq<Event>, i: nat, j: nat, host: Host, start: real, end: real, perHost: nat,
      gap: real)
    requires gap > 0.0 && perHost >= 1 && start <= end && i <= j <= |events|
    requires forall k :: i <= k < j ==> start <= events[k].at <= end
    ensures var before := RunAll(map[], events[..i], perHost as real, gap);
            HostGrants(before, events[i..j], host, perHost as real,
              gap) as real <= perHost as real + (end - start) / gap
  {
    RunAllStaysValid(map[], events[..i], perHost as real, gap);
    FreshHostGrants(RunAll(map[], events[..i], perHost as real, gap), events[i..j], host, start, end,
      perHost as real, gap);
  }

  // ---- The limiter as it executes ----

  datatype WaitResult = Admitted | Cancelled

  class HostLimit {
    const capacity: real
    var tokens: real
    var updatedAt: real

    function View(): Bucket
      reads this
    {
      Bucket(capacity, tokens, updatedAt)
    }

    constructor (perHost: nat, now: real)
      requires perHost >= 1
      ensures View() == Bucket(perHost as real, perHost as real, now) && View().Valid()
    {
      capacity, tokens, updatedAt := perHost as real, perHost as real, now;
    }

    /** The critical section of `wait`: grants a request or computes how long to sleep. */
    method Attempt(now: real, gap: real) returns (granted: bool, delay: real)
      requires View().Valid() && gap > 0.0
      modifies this
      ensures View() == Step(old(View()), now, gap) && View().Valid()
      ensures granted == Granted(old(View()), now, gap)
      ensures !granted ==> delay == (1.0 - Refill(old(View()), now, gap).tokens) * gap > 0.0
    {
      RefillStaysValid(View(), now, gap);
      var elapsed := now - updatedAt;
      if elapsed > 0.0 {
        tokens := tokens + elapsed / gap;
        if tokens > capacity {
          tokens := capacity;
        }
        updatedAt := now;
      }
      granted, delay := tokens >= 1.0, 0.0;
      if granted {
        tokens := tokens - 1.0;
      } else {
        delay := (1.0 - tokens) * gap;
      }
    }

    /**
     `wait` of one request.  `clock` holds the times at which it enters the critical
     section before its context ends.
     */
    method Wait(clock: seq<real>, gap: real) returns (r: WaitResult, used: nat)
      requires View().Valid() && gap >= 0.0
      modifies this
      ensures View().Valid() && used <= |clock|
      ensures gap == 0.0 ==> r == Admitted && View() == old(View())
      ensures gap > 0.0 ==> View() == Run(old(View()), clock[..used], gap)
      ensures gap > 0.0 ==> Grants(old(View()), clock[..used], gap) == if r == Admitted then 1 else 0
      ensures gap > 0.0 && r == Cancelled ==> used == |clock|
    {
      used := 0;
      if gap == 0.0 {
        return Admitted, 0;
      }
      while used < |clock|
        invariant used <= |clock| && View().Valid()
        invariant View() == Run(old(View()), clock[..used], gap)
        invariant Grants(old(View()), clock[..used], gap) == 0
      {
        ghost var before, at := clock[..used], clock[used];
        assert clock[..used + 1] == before + [at];
        GrantsJoin(old(View()), before, [at], gap);
        RunJoin(old(View()), before, [at], gap);
        used := used + 1;
        var granted, _ := Attempt(clock[used - 1], gap);
        if granted {
          return Admitted, used;
        }
      }
      r := Cancelled;
    }
  }

  lemma {:induction false} RunJoin(b: Bucket, first: seq<real>, second: seq<real>, gap: real)
    requires gap > 0.0
    ensures Run(b, first + second, gap) == Run(Run(b, first, gap), second, gap)
    decreases |first|
  {
    if first == [] {
      assert first + second == second;
    } else {
      assert (first + second)[1..] == first[1..] + second;
      RunJoin(Step(b, first[0], gap), first[1..], second, gap);
    }
  }
}

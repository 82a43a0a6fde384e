/**
 The two semaphores of `HostLimiter.Acquire` and the way a fetch gives its permit
 back (`internal/fetcher/limiter.go`, `fetcher.go`, `release.go`), as a step system.

 Every channel operation is one step, so any interleaving of the requests, with
 cancellation at any point where the code listens for it, is a sequence of steps.
 */
module Permits {

  type Host = string

  /** `NewHostLimiter` accepts exactly these limits. */
  datatype Limits = Limits(global: int, perHost: int) {
    predicate Valid() {
      1 <= perHost <= global
    }
  }

  /**
   Where one request stands.  `Cancelled` never held a permit; `Closed` has held one
   and returned it.  `Freeing` has returned its host slot and not yet its global one.
   */
  datatype Phase = WantsGlobal | WantsHost | Sending | Reading | Freeing | Closed | Cancelled

  /** `hosts[r]` is the host of request `r`; `releases[r]` counts the calls of its release function. */
  datatype State = State(phases: seq<Phase>, globalUsed: int, hostUsed: map<Host, int>, releases: seq<int>)

  datatype Step =
    | TakeGlobal(r: nat)
    | GiveUpGlobal(r: nat)
    | TakeHost(r: nat)
    | GiveUpHost(r: nat)
    | FailRequest(r: nat)
    | Respond(r: nat)
    | CloseBody(r: nat)
    | FreeGlobal(r: nat)

  function HostUse(s: State, host: Host): int {
    if host in s.hostUsed then s.hostUsed[host] else 0
  }

  predicate Enabled(limits: Limits, hosts: seq<Host>, s: State, step: Step)
    requires |hosts| == |s.phases|
  {
    step.r < |s.phases| &&
    match step
    case TakeGlobal(r) => s.phases[r] == WantsGlobal && s.globalUsed < limits.global
    case GiveUpGlobal(r) => s.phases[r] == WantsGlobal
    case TakeHost(r) => s.phases[r] == WantsHost && HostUse(s, hosts[r]) < limits.perHost
    case GiveUpHost(r) => s.phases[r] == WantsHost
    case FailRequest(r) => s.phases[r] == Sending
    case Respond(r) => s.phases[r] == Sending
    case CloseBody(r) => s.phases[r] in {Reading, Freeing, Closed}
    case FreeGlobal(r) => s.phases[r] == Freeing
  }

  /** The release function frees the host slot first; a body runs it on its first `Close` only. */
  function ReleaseHost(hosts: seq<Host>, s: State, r: nat): State
    requires r < |hosts| == |s.phases| == |s.releases|
  {
    s.(phases := s.phases[r := Freeing],
       hostUsed := s.hostUsed[hosts[r] := HostUse(s, hosts[r]) - 1],
       releases := s.releases[r := s.releases[r] + 1])
  }

  function Apply(hosts: seq<Host>, s: State, step: Step): State
    requires step.r < |hosts| == |s.phases| == |s.releases|
  {
    var r := step.r;
    match step
    case TakeGlobal(_) => s.(phases := s.phases[r := WantsHost], globalUsed := s.globalUsed + 1)
    case GiveUpGlobal(_) => s.(phases := s.phases[r := Cancelled])
    case TakeHost(_) =>
      s.(phases := s.phases[r := Sending], hostUsed := s.hostUsed[hosts[r] := HostUse(s, hosts[r]) + 1])
    case GiveUpHost(_) => s.(phases := s.phases[r := Cancelled], globalUsed := s.globalUsed - 1)
    case FailRequest(_) => ReleaseHost(hosts, s, r)
    case Respond(_) => s.(phases := s.phases[r := Reading])
    case CloseBody(_) => if s.phases[r] == Reading then ReleaseHost(hosts, s, r) else s
    case FreeGlobal(_) => s.(phases := s.phases[r := Closed], globalUsed := s.globalUsed - 1)
  }

  function Start(n: nat): State {
    State(seq(n, _ => WantsGlobal), 0, map[], seq(n, _ => 0))
  }

  /** The steps can be taken one after the other from `s` and lead to `t`. */
  ghost predicate Runs(limits: Limits, hosts: seq<Host>, s: State, steps: seq<Step>, t: State)
    requires |hosts| == |s.phases| == |s.releases|
    decreases |steps|
  {
    if steps == [] then s == t
    else Enabled(limits, hosts, s, steps[0]) && Runs(limits, hosts, Apply(hosts, s, steps[0]), steps[1..], t)
  }

  // ---- Conservation ----

  predicate UsesGlobal(p: Phase) {
    p == WantsHost || p == Sending || p == Reading || p == Freeing
  }

  predicate UsesHost(p: Phase) {
    p == Sending || p == Reading
  }

  /** Requests that hold a global slot: permit holders and those waiting for a host slot. */
  function GlobalUsers(phases: seq<Phase>): nat {
    if phases == [] then 0 else (if UsesGlobal(phases[0]) then 1 else 0) + GlobalUsers(phases[1..])
  }

  function HostUsers(phases: seq<Phase>, hosts: seq<Host>, host: Host): nat
    requires |hosts| == |phases|
  {
    if phases == [] then 0
    else (if UsesHost(phases[0]) && hosts[0] == host then 1 else 0) + HostUsers(phases[1..], hosts[1..], host)
  }

  ghost predicate Conserved(limits: Limits, hosts: seq<Host>, s: State) {
    && |hosts| == |s.phases| == |s.releases|
    && s.globalUsed == GlobalUsers(s.phases) <= limits.global
    && (forall h :: HostUse(s, h) == HostUsers(s.phases, hosts, h) <= limits.perHost)
    && (forall r :: 0 <= r < |hosts| ==> s.releases[r] == if s.phases[r] in {Freeing, Closed} then 1 else 0)
  }

  /**
   What every request may do next, by the requests that are under way: a slot is taken
   exactly while fewer requests than the limit use one, and nothing else has to wait.
   */
  lemma MayMoveExactly(limits: Limits, hosts: seq<Host>, s: State, r: nat)
    requires Conserved(limits, hosts, s) && r < |hosts|
    ensures Enabled(limits, hosts, s, TakeGlobal(r)) <==>
            s.phases[r] == WantsGlobal && GlobalUsers(s.phases) < limits.global
    ensures Enabled(limits, hosts, s, TakeHost(r)) <==>
            s.phases[r] == WantsHost && HostUsers(s.phases, hosts, hosts[r]) < limits.perHost
    ensures Enabled(limits, hosts, s, GiveUpGlobal(r)) <==> s.phases[r] == WantsGlobal
    ensures Enabled(limits, hosts, s, GiveUpHost(r)) <==> s.phases[r] == WantsHost
    ensures s.phases[r] == Sending <==>
            Enabled(limits, hosts, s, FailRequest(r)) && Enabled(limits, hosts, s, Respond(r))
    ensures Enabled(limits, hosts, s, CloseBody(r)) <==> s.phases[r] in {Reading, Freeing, Closed}
    ensures Enabled(limits, hosts, s, FreeGlobal(r)) <==> s.phases[r] == Freeing
  {
    assert HostUse(s, hosts[r]) == HostUsers(s.phases, hosts, hosts[r]);
  }

  lemma {:induction false} GlobalUsersUpdate(phases: seq<Phase>, r: nat, p: Phase)
    requires r < |phases|
    ensures GlobalUsers(phases[r := p]) ==
            GlobalUsers(phases) - (if UsesGlobal(phases[r]) then 1 else 0) + (if UsesGlobal(p) then 1 else 0)
  {
    if r == 0 {
      assert phases[r := p][1..] == phases[1..];
    } else {
      assert phases[r := p][1..] == phases[1..][r - 1 := p];
      GlobalUsersUpdate(phases[1..], r - 1, p);
    }
  }

  lemma {:induction false} HostUsersUpdate(phases: seq<Phase>, hosts: seq<Host>, host: Host, r: nat, p: Phase)
    requires r < |phases| == |hosts|
    ensures HostUsers(phases[r := p], hosts, host) ==
            HostUsers(phases, hosts, host) +
            (if hosts[r] == host then (if UsesHost(p) then 1 else 0) - (if UsesHost(phases[r]) then 1 else 0) else 0)
  {
    if r == 0 {
      assert phases[r := p][1..] == phases[1..];
    } else {
      assert phases[r := p][1..] == phases[1..][r - 1 := p];
      HostUsersUpdate(phases[1..], hosts[1..], host, r - 1, p);
    }
  }

  lemma StepConserves(limits: Limits, hosts: seq<Host>, s: State, step: Step)
    requires Conserved(limits, hosts, s) && Enabled(limits, hosts, s, step)
    ensures Conserved(limits, hosts, Apply(hosts, s, step))
  {
    var t := Apply(hosts, s, step);
    GlobalUsersUpdate(s.phases, step.r, t.phases[step.r]);
    forall h
      ensures HostUse(t, h) == HostUsers(t.phases, hosts, h) <= limits.perHost
    {
      assert HostUse(s, h) == HostUsers(s.phases, hosts, h);
      HostUsersUpdate(s.phases, hosts, h, step.r, t.phases[step.r]);
      assert s.phases[step.r := s.phases[step.r]] == s.phases;
    }
  }

  lemma {:induction false} RunConserves(limits: Limits, hosts: seq<Host>, s: State, steps: seq<Step>, t: State)
    requires Conserved(limits, hosts, s) && Runs(limits, hosts, s, steps, t)
    ensures Conserved(limits, hosts, t)
    decreases |steps|
  {
    if steps == [] {
    } else {
      StepConserves(limits, hosts, s, steps[0]);
      RunConserves(limits, hosts, Apply(hosts, s, steps[0]), steps[1..], t);
    }
  }

  lemma {:induction false} NobodyUses(phases: seq<Phase>, hosts: seq<Host>, host: Host)
    requires |phases| == |hosts|
    requires forall r :: 0 <= r < |phases| ==> !UsesGlobal(phases[r]) && !UsesHost(phases[r])
    ensures GlobalUsers(phases) == 0 && HostUsers(phases, hosts, host) == 0
  {
    if phases == [] {
    } else {
      NobodyUses(phases[1..], hosts[1..], host);
    }
  }

  lemma StartConserves(limits: Limits, hosts: seq<Host>)
    requires limits.Valid()
    ensures Conserved(limits, hosts, Start(|hosts|))
  {
    forall h
      ensures HostUsers(Start(|hosts|).phases, hosts, h) == 0 && GlobalUsers(Start(|hosts|).phases) == 0
    {
      NobodyUses(Start(|hosts|).phases, hosts, h);
    }
    NobodyUses(Start(|hosts|).phases, hosts, "");
  }

  /**
   In every interleaving: the global slots in use are the permit holders plus the
   requests waiting for a host slot, no limit is exceeded, and a release function has
   run once for each request past its permit and never for any other.
   */
  lemma PermitsAreConserved(limits: Limits, hosts: seq<Host>, steps: seq<Step>, t: State)
    requires limits.Valid() && Runs(limits, hosts, Start(|hosts|), steps, t)
    ensures Conserved(limits, hosts, t)
  {
    StartConserves(limits, hosts);
    RunConserves(limits, hosts, Start(|hosts|), steps, t);
  }

  // ---- Progress ----

  predicate Finished(p: Phase) {
    p == Closed || p == Cancelled
  }

  lemma {:induction false} SomeGlobalUser(phases: seq<Phase>) returns (r: nat)
    requires GlobalUsers(phases) > 0
    ensures r < |phases| && UsesGlobal(phases[r])
  {
    if UsesGlobal(phases[0]) {
      r := 0;
    } else {
      var k := SomeGlobalUser(phases[1..]);
      r := k + 1;
    }
  }

  lemma {:induction false} SomeHostUser(phases: seq<Phase>, hosts: seq<Host>, host: Host) returns (r: nat)
    requires |phases| == |hosts| && HostUsers(phases, hosts, host) > 0
    ensures r < |phases| && UsesHost(phases[r])
  {
    if UsesHost(phases[0]) && hosts[0] == host {
      r := 0;
    } else {
      var k := SomeHostUser(phases[1..], hosts[1..], host);
      r := k + 1;
    }
  }

  /** A step that a holder of a global slot, or someone it waits for, can take without being cancelled. */
  lemma HolderCanMove(limits: Limits, hosts: seq<Host>, s: State, r: nat) returns (step: Step)
    requires limits.Valid() && Conserved(limits, hosts, s) && r < |hosts| && UsesGlobal(s.phases[r])
    ensures Enabled(limits, hosts, s, step) && !step.GiveUpGlobal? && !step.GiveUpHost? && !Finished(s.phases[step.r])
    ensures step.CloseBody? ==> s.phases[step.r] == Reading
  {
    match s.phases[r]
    case Sending => step := Respond(r);
    case Reading => step := CloseBody(r);
    case Freeing => step := FreeGlobal(r);
    case WantsHost =>
      assert HostUse(s, hosts[r]) == HostUsers(s.phases, hosts, hosts[r]);
      if HostUse(s, hosts[r]) < limits.perHost {
        step := TakeHost(r);
      } else {
        var k := SomeHostUser(s.phases, hosts, hosts[r]);
        step := if s.phases[k] == Sending then Respond(k) else CloseBody(k);
      }
  }

  /** No deadlock: while a request is unfinished, some request can take a step that is not a cancellation. */
  lemma SomeoneCanMove(limits: Limits, hosts: seq<Host>, s: State, r: nat) returns (step: Step)
    requires limits.Valid() && Conserved(limits, hosts, s) && r < |hosts| && !Finished(s.phases[r])
    ensures Enabled(limits, hosts, s, step) && !step.GiveUpGlobal? && !step.GiveUpHost? && !Finished(s.phases[step.r])
    ensures step.CloseBody? ==> s.phases[step.r] == Reading
  {
    if UsesGlobal(s.phases[r]) {
      step := HolderCanMove(limits, hosts, s, r);
    } else if s.globalUsed < limits.global {
      step := TakeGlobal(r);
    } else {
      var k := SomeGlobalUser(s.phases);
      step := HolderCanMove(limits, hosts, s, k);
    }
  }

  /** Distance to the end of a request. */
  function Rank(p: Phase): nat {
    match p
    case WantsGlobal => 5
    case WantsHost => 4
    case Sending => 3
    case Reading => 2
    case Freeing => 1
    case Closed => 0
    case Cancelled => 0
  }

  function TotalRank(phases: seq<Phase>): nat {
    if phases == [] then 0 else Rank(phases[0]) + TotalRank(phases[1..])
  }

  lemma {:induction false} TotalRankUpdate(phases: seq<Phase>, r: nat, p: Phase)
    requires r < |phases|
    ensures TotalRank(phases[r := p]) == TotalRank(phases) - Rank(phases[r]) + Rank(p)
  {
    if r == 0 {
      assert phases[r := p][1..] == phases[1..];
    } else {
      assert phases[r := p][1..] == phases[1..][r - 1 := p];
      TotalRankUpdate(phases[1..], r - 1, p);
    }
  }

  /** Every step but a repeated `Close` brings the system closer to its end; a repeated `Close` changes nothing. */
  lemma StepsRunOut(limits: Limits, hosts: seq<Host>, s: State, step: Step)
    requires Conserved(limits, hosts, s) && Enabled(limits, hosts, s, step)
    ensures Apply(hosts, s, step) == s || TotalRank(Apply(hosts, s, step).phases) < TotalRank(s.phases)
    ensures Apply(hosts, s, step) == s ==> step.CloseBody? && s.phases[step.r] != Reading
  {
    TotalRankUpdate(s.phases, step.r, Apply(hosts, s, step).phases[step.r]);
  }

  ghost predicate AllFinished(s: State) {
    forall r :: 0 <= r < |s.phases| ==> Finished(s.phases[r])
  }

  /**
   From every reachable state the requests can run to their end without any
   cancellation, and then every slot is free again.
   */
  lemma {:induction false} EverythingCanFinish(limits: Limits, hosts: seq<Host>, s: State)
    returns (steps: seq<Step>, t: State)
    requires limits.Valid() && Conserved(limits, hosts, s)
    ensures Runs(limits, hosts, s, steps, t) && AllFinished(t) && Conserved(limits, hosts, t)
    ensures forall i :: 0 <= i < |steps| ==> !steps[i].GiveUpGlobal? && !steps[i].GiveUpHost?
    ensures |steps| <= TotalRank(s.phases)
    decreases TotalRank(s.phases)
  {
    if AllFinished(s) {
      steps, t := [], s;
    } else {
      var r :| 0 <= r < |s.phases| && !Finished(s.phases[r]);
      var step := SomeoneCanMove(limits, hosts, s, r);
      StepConserves(limits, hosts, s, step);
      StepsRunOut(limits, hosts, s, step);
      var rest;
      rest, t := EverythingCanFinish(limits, hosts, Apply(hosts, s, step));
      steps := [step] + rest;
      assert steps[1..] == rest;
    }
  }

  /** When all requests have finished, no slot is in use and every permit was returned once. */
  lemma FinishedIsClean(limits: Limits, hosts: seq<Host>, s: State)
    requires Conserved(limits, hosts, s) && AllFinished(s)
    ensures s.globalUsed == 0 && forall h :: HostUse(s, h) == 0
    ensures forall r :: 0 <= r < |hosts| ==> s.releases[r] == if s.phases[r] == Closed then 1 else 0
  {
    forall h
      ensures HostUse(s, h) == 0 && s.globalUsed == 0
    {
      NobodyUses(s.phases, hosts, h);
      assert HostUse(s, h) == HostUsers(s.phases, hosts, h);
    }
    NobodyUses(s.phases, hosts, "");
  }
}

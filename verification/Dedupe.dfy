/**
 The choice between duplicate candidates in `internal/dedupe/decision.go`.

 The comparison that sorts the matches looks at observation times for two candidates
 of one item and at tier and age for all others, so three candidates can beat each other
 in a circle.  It is an order exactly when no such circle is among the matches.
 */
module Dedupe {
  import opened Wrappers
  import opened Ordering
  import opened StableSort

  /** Instants are nanoseconds; `ZERO` is the unset time. */
  const ZERO := 0
  const ONE_YEAR := 365 * 24 * 3600 * 1_000_000_000

  /** The tie-break fields apart, the fields of a document that the rules compare. */
  datatype Document = Document(
    sourceId: string, entryId: string, url: string, title: string, author: string,
    packageName: string, version: string, raw: string, normalized: string, simHash: nat,
    published: int, firstSeen: int)

  datatype Candidate = Candidate(
    item: string, cluster: string, revision: string, tier: string,
    sourceId: string, entryId: string, url: string, title: string, author: string,
    packageName: string, version: string, raw: string, normalized: string, simHash: nat,
    published: int, firstSeen: int, observed: int, embedding: real)

  datatype Config = Config(distance: int, embedding: real, maximumAge: int) {
    predicate Valid() {
      0 <= distance <= 64 && 0.0 < embedding <= 1.0 && 0 < maximumAge <= ONE_YEAR
    }
  }

  /** Metadata normalization and the Hamming distance of two hashes. */
  datatype Library = Library(normalize: string -> string, hamming: (nat, nat) -> nat) {
    ghost predicate Sound() {
      forall a, b :: hamming(a, b) <= 64
    }
  }

  datatype Outcome = Create | Revision | Duplicate | Cluster

  datatype Basis = New | SameEntry | CanonicalUrl | Raw | Normalized | Metadata | SimHash | Embedding | PackageVersion

  datatype Decision = Decision(
    outcome: Outcome, basis: Basis, item: string, revision: string, cluster: string, distance: int, similarity: real)

  const CREATE := Decision(Create, New, "", "", "", 0, 1.0)

  datatype Ranked = Ranked(decision: Decision, candidate: Candidate, rank: nat)

  // ---- The rules ----

  function OrElse(t: int, u: int): int {
    if t == ZERO then u else t
  }

  predicate DatesWithin(d: Document, c: Candidate, maximumAge: int) {
    var first, second := OrElse(d.published, d.firstSeen), OrElse(c.published, c.firstSeen);
    first != ZERO && second != ZERO && -maximumAge <= first - second <= maximumAge
  }

  /** Both name something and it differs. */
  predicate Conflict(a: string, b: string) {
    a != "" && b != "" && a != b
  }

  predicate MetadataCompatible(packageName: string, version: string, c: Candidate) {
    !Conflict(packageName, c.packageName) && !Conflict(version, c.version)
  }

  predicate SamePackage(packageName: string, version: string, c: Candidate) {
    packageName != "" && version != "" && packageName == c.packageName && version == c.version
  }

  /** Both have a date, of publication or else of the first sighting, and the two are at most `age` apart. */
  predicate Near(d: Document, c: Candidate, age: int) {
    && (d.published != 0 || d.firstSeen != 0) && (c.published != 0 || c.firstSeen != 0)
    && var first := if d.published != 0 then d.published else d.firstSeen;
       var second := if c.published != 0 then c.published else c.firstSeen;
       first <= second + age && second <= first + age
  }

  /** Of package and version, each is the same or left open by one of the two. */
  predicate Fitting(packageName: string, version: string, c: Candidate) {
    && (packageName in {"", c.packageName} || c.packageName == "")
    && (version in {"", c.version} || c.version == "")
  }

  /** What each of the eight rules says by itself. */
  predicate Rule(lib: Library, config: Config, d: Document, c: Candidate, k: nat) {
    var title, author := lib.normalize(d.title), lib.normalize(d.author);
    var packageName, version := lib.normalize(d.packageName), lib.normalize(d.version);
    var recent := Near(d, c, config.maximumAge);
    match k
    case 0 => d.entryId == c.entryId && (d.entryId != "" || (d.sourceId == c.sourceId && d.url == c.url))
    case 1 => d.url == c.url
    case 2 => d.raw == c.raw
    case 3 => d.normalized == c.normalized
    case 4 =>
      recent && title != "" && title == c.title && ((author != "" && author == c.author) ||
        SamePackage(packageName, version, c))
    case 5 =>
      && recent && Fitting(packageName, version, c) && d.simHash != 0 && c.simHash != 0
      && lib.hamming(d.simHash, c.simHash) <= config.distance
    case 6 => recent && Fitting(packageName, version, c) && config.embedding <= c.embedding <= 1.0
    case 7 => recent && SamePackage(packageName, version, c)
    case _ => false
  }

  /** `compareCandidate`, with its arguments normalized by the caller. */
  function Compare(lib: Library, d: Document, title: string, author: string, packageName: string, version: string,
      c: Candidate, config: Config): Option<Ranked> {
    var base := Decision(Create, New, c.item, c.revision, c.cluster, 0, 1.0);
    if d.entryId != "" && d.entryId == c.entryId then
      Some(Ranked(base.(outcome := Revision, basis := SameEntry), c, 0))
    else if d.entryId == "" && c.entryId == "" && d.sourceId == c.sourceId && d.url == c.url then
      Some(Ranked(base.(outcome := Revision, basis := SameEntry), c, 0))
    else if d.url == c.url then
      Some(Ranked(base.(outcome := Duplicate, basis := CanonicalUrl), c, 1))
    else if d.raw == c.raw then
      Some(Ranked(base.(outcome := Duplicate, basis := Raw), c, 2))
    else if d.normalized == c.normalized then
      Some(Ranked(base.(outcome := Duplicate, basis := Normalized), c, 3))
    else
      var recent := DatesWithin(d, c, config.maximumAge);
      var metadata := title != "" && title == c.title &&
                      ((author != "" && author == c.author) ||
                       (packageName != "" && version != "" && packageName == c.packageName && version == c.version));
      var distance := lib.hamming(d.simHash, c.simHash);
      if recent && metadata then
        Some(Ranked(base.(outcome := Duplicate, basis := Metadata), c, 4))
      else if recent && MetadataCompatible(packageName, version, c) && d.simHash != 0 && c.simHash != 0 &&
        distance <= config.distance then
        Some(Ranked(base.(outcome := Duplicate, basis := SimHash, distance := distance,
          similarity := 1.0 - distance as real / 64.0), c, 5))
      else if recent && MetadataCompatible(packageName, version, c) && c.embedding >= config.embedding &&
        c.embedding <= 1.0 then
        Some(Ranked(base.(outcome := Cluster, basis := Embedding, similarity := c.embedding), c, 6))
      else if recent && packageName != "" && version != "" && packageName == c.packageName && version == c.version then
        var similarity := 1.0 - distance as real / 64.0;
        Some(Ranked(base.(outcome := Cluster, basis := PackageVersion, distance := distance,
          similarity := if similarity < 0.0 then 0.0 else similarity), c, 7))
      else None
  }

  function Assess(lib: Library, config: Config, d: Document, c: Candidate): Option<Ranked> {
    Compare(lib, d, lib.normalize(d.title), lib.normalize(d.author), lib.normalize(d.packageName),
      lib.normalize(d.version), c, config)
  }

  function OutcomeOf(rank: nat): Outcome {
    if rank == 0 then Revision else if rank <= 5 then Duplicate else Cluster
  }

  function BasisOf(rank: nat): Basis {
    match rank
    case 0 => SameEntry
    case 1 => CanonicalUrl
    case 2 => Raw
    case 3 => Normalized
    case 4 => Metadata
    case 5 => SimHash
    case 6 => Embedding
    case _ => PackageVersion
  }

  lemma NearExactly(d: Document, c: Candidate, age: int)
    ensures DatesWithin(d, c, age) <==> Near(d, c, age)
  {
  }

  lemma FittingExactly(packageName: string, version: string, c: Candidate)
    ensures MetadataCompatible(packageName, version, c) <==> Fitting(packageName, version, c)
  {
  }

  /** A candidate is ranked by the strongest rule that holds, and matched when one holds. */
  lemma {:induction false} RankIsStrongestRule(lib: Library, config: Config, d: Document, c: Candidate)
    requires lib.Sound() && config.Valid()
    ensures Assess(lib, config, d, c).None? <==> forall k: nat :: !Rule(lib, config, d, c, k)
    ensures Assess(lib, config, d, c).Some? ==>
      var r := Assess(lib, config, d, c).value;
      && Rule(lib, config, d, c, r.rank) && (forall k: nat :: k < r.rank ==> !Rule(lib, config, d, c, k))
      && r.candidate == c && r.decision.item == c.item && r.decision.revision == c.revision &&
        r.decision.cluster == c.cluster
      && r.decision.outcome == OutcomeOf(r.rank) && r.decision.basis == BasisOf(r.rank)
      && 0.0 <= r.decision.similarity <= 1.0 && (r.rank < 5 ==> r.decision.similarity == 1.0)
      && (r.rank in {5, 7} ==> r.decision.similarity == 1.0 - lib.hamming(d.simHash, c.simHash) as real / 64.0)
      && (r.rank == 6 ==> r.decision.similarity == c.embedding)
      && r.decision.distance == if r.rank in {5, 7} then lib.hamming(d.simHash, c.simHash) else 0
  {
    NearExactly(d, c, config.maximumAge);
    FittingExactly(lib.normalize(d.packageName), lib.normalize(d.version), c);
    hide DatesWithin, MetadataCompatible, Near, Fitting;
    var r := Assess(lib, config, d, c);
    if r.None? {
      forall k: nat
        ensures !Rule(lib, config, d, c, k)
      {
        assert k < 8 ==> k in {0, 1, 2, 3, 4, 5, 6, 7};
      }
    } else {
      assert Rule(lib, config, d, c, r.value.rank);
      forall k: nat | k < r.value.rank
        ensures !Rule(lib, config, d, c, k)
      {
        assert k in {0, 1, 2, 3, 4, 5, 6, 7};
      }
    }
  }

  // ---- The comparison ----

  function TierRank(tier: string): nat {
    if |tier| == 2 && (tier[0] == 'T' || tier[0] == 't') && '0' <= tier[1] <= '3' then (tier[1] - '0') as int else 4
  }

  /** The four tiers in either case; whatever else is named comes after them. */
  lemma TierExactly(tier: string)
    ensures TierRank(tier) == 0 <==> tier in {"T0", "t0"}
    ensures TierRank(tier) == 1 <==> tier in {"T1", "t1"}
    ensures TierRank(tier) == 2 <==> tier in {"T2", "t2"}
    ensures TierRank(tier) == 3 <==> tier in {"T3", "t3"}
    ensures TierRank(tier) <= 4
  {
    if |tier| == 2 {
      assert tier == [tier[0], tier[1]];
    }
  }

  /** The comparison the matches are sorted by. */
  predicate Before(a: Ranked, b: Ranked) {
    if a.rank != b.rank then a.rank < b.rank
    else if a.rank == 0 && a.candidate.item == b.candidate.item && a.candidate.observed != b.candidate.observed
    then a.candidate.observed > b.candidate.observed
    else if TierRank(a.candidate.tier) != TierRank(b.candidate.tier)
    then TierRank(a.candidate.tier) < TierRank(b.candidate.tier)
    else if a.candidate.firstSeen != b.candidate.firstSeen then a.candidate.firstSeen < b.candidate.firstSeen
    else Less(a.candidate.item, b.candidate.item)
  }

  /** `a` has the better tier, or the same tier and an earlier first sighting. */
  predicate Better(a: Candidate, b: Candidate) {
    TierRank(a.tier) < TierRank(b.tier) || (TierRank(a.tier) == TierRank(b.tier) && a.firstSeen < b.firstSeen)
  }

  /** Two revisions of one item where the older observation has the better standing. */
  predicate Clash(a: Ranked, b: Ranked) {
    && a.rank == 0 && b.rank == 0 && a.candidate.item == b.candidate.item
    && a.candidate.observed > b.candidate.observed && Better(b.candidate, a.candidate)
  }

  /** The clash matters: a candidate of another item stands between the two. */
  predicate Cycle(a: Ranked, b: Ranked, c: Ranked) {
    Clash(a, b) && c.candidate.item != a.candidate.item && Before(b, c) && Before(c, a)
  }

  ghost predicate Acyclic(s: seq<Ranked>) {
    forall a, b, c :: a in s && b in s && c in s ==> !Cycle(a, b, c)
  }

  lemma {:induction false} BeforeIsAsymmetric(a: Ranked, b: Ranked)
    ensures !(Before(a, b) && Before(b, a))
  {
    hide TierRank, Less;
    LessIsTotal(a.candidate.item, b.candidate.item);
  }

  /** Where the comparison fails to be an order there is a cycle of the same three. */
  lemma {:induction false} BrokenIsCycle(a: Ranked, b: Ranked, c: Ranked)
    requires Before(a, c) && !Before(a, b) && !Before(b, c)
    ensures Cycle(a, c, b) || Cycle(b, a, c) || Cycle(c, b, a)
  {
    hide TierRank, Less;
    var x, y, z := a.candidate.item, b.candidate.item, c.candidate.item;
    LessIsTotal(x, y);
    LessIsTotal(y, z);
    LessIsTotal(x, z);
    if Less(z, y) && Less(y, x) {
      LessIsTransitive(z, y, x);
    }
  }

  lemma {:induction false} CycleIsBroken(a: Ranked, b: Ranked, c: Ranked)
    requires Cycle(a, b, c)
    ensures Before(a, b) && !Before(a, c) && !Before(c, b)
  {
    hide TierRank, Less;
    BeforeIsAsymmetric(a, c);
    BeforeIsAsymmetric(b, c);
  }

  /** The comparison is an order on the matches if and only if no three of them form a cycle. */
  lemma {:induction false} OrderExactlyWhen(s: seq<Ranked>)
    ensures Weak(Before, s) <==> Acyclic(s)
  {
    hide Before, Cycle;
    if Acyclic(s) {
      forall a, b | a in s && b in s && Before(a, b)
        ensures !Before(b, a)
      {
        BeforeIsAsymmetric(a, b);
      }
      forall a, b, c | a in s && b in s && c in s && Before(a, c)
        ensures Before(a, b) || Before(b, c)
      {
        if !Before(a, b) && !Before(b, c) {
          BrokenIsCycle(a, b, c);
        }
      }
    } else {
      var a, b, c :| a in s && b in s && c in s && Cycle(a, b, c);
      CycleIsBroken(a, b, c);
    }
  }

  /**
   A clash is exactly what lets some third candidate close a cycle: each of the three
   then beats the next.
   */
  lemma {:induction false} ClashExactlyWhenCycle(a: Ranked, b: Ranked)
    requires a.rank == 0 && b.rank == 0 && a.candidate.item == b.candidate.item
    requires a.candidate.observed > b.candidate.observed
    ensures Before(a, b)
    ensures Clash(a, b) <==> exists c: Ranked ::
      c.rank == 0 && c.candidate.item != a.candidate.item && Before(b, c) && Before(c, a)
  {
    hide TierRank, Less;
    if Clash(a, b) {
      var item := b.candidate.item + "0";
      LessThanLonger(b.candidate.item, "0");
      var c := b.(candidate := b.candidate.(item := item));
      assert c.rank == 0 && c.candidate.item != a.candidate.item && Before(b, c) && Before(c, a);
    } else {
      forall c: Ranked | c.rank == 0 && c.candidate.item != a.candidate.item && Before(b, c)
        ensures !Before(c, a)
      {
        LessIsTotal(b.candidate.item, c.candidate.item);
      }
    }
  }

  // ---- The choice ----

  function Matches(lib: Library, config: Config, d: Document, cs: seq<Candidate>): seq<Ranked> {
    if cs == [] then []
    else
      var init := Matches(lib, config, d, cs[..|cs| - 1]);
      match Assess(lib, config, d, cs[|cs| - 1])
      case None => init
      case Some(r) => init + [r]
  }

  /** The match that comes first. */
  function Winner(matches: seq<Ranked>): Option<Ranked> {
    var sorted := SliceStable(Before, matches);
    if sorted == [] then None else Some(sorted[0])
  }

  function Choice(matches: seq<Ranked>): Decision {
    if Winner(matches).None? then CREATE else Winner(matches).value.decision
  }

  /** What the thresholds may be: at most 64 bits, a similarity of at most one, at most a year. */
  predicate Sensible(config: Config) {
    && 0 <= config.distance <= 64 && 0.0 < config.embedding <= 1.0
    && 0 < config.maximumAge <= 31_536_000_000_000_000
  }

  method Decide(lib: Library, config: Config, d: Document, cs: seq<Candidate>) returns (decision: Decision)
    ensures decision == if config.Valid() then Choice(Matches(lib, config, d, cs)) else CREATE
  {
    hide Compare, SliceStable;
    if !config.Valid() {
      return CREATE;
    }
    var title, author := lib.normalize(d.title), lib.normalize(d.author);
    var packageName, version := lib.normalize(d.packageName), lib.normalize(d.version);
    var decisions := [];
    for i := 0 to |cs|
      invariant decisions == Matches(lib, config, d, cs[..i])
    {
      var r := Compare(lib, d, title, author, packageName, version, cs[i], config);
      assert cs[..i + 1][..i] == cs[..i] && cs[..i + 1][i] == cs[i];
      if r.Some? {
        decisions := decisions + [r.value];
      }
    }
    assert cs[..|cs|] == cs;
    StableKeeps(Before, decisions);
    if decisions == [] {
      return CREATE;
    }
    var sorted := SliceStable(Before, decisions);
    return sorted[0].decision;
  }

  lemma {:induction false} MatchedExactlyWhen(lib: Library, config: Config, d: Document, cs: seq<Candidate>, r: Ranked)
    ensures r in Matches(lib, config, d, cs) <==> r.candidate in cs && Assess(lib, config, d, r.candidate) == Some(r)
  {
    hide Compare;
    if cs == [] {
    } else {
      var init, last := cs[..|cs| - 1], cs[|cs| - 1];
      assert cs == init + [last];
      MatchedExactlyWhen(lib, config, d, init, r);
      AssessKeeps(lib, config, d, last);
    }
  }

  lemma AssessKeeps(lib: Library, config: Config, d: Document, c: Candidate)
    ensures var r := Assess(lib, config, d, c); r.Some? ==>
      r.value.candidate == c && r.value.decision.item == c.item &&
      r.value.decision.outcome == OutcomeOf(r.value.rank) && r.value.decision.basis == BasisOf(r.value.rank)
  {
    hide DatesWithin, MetadataCompatible;
  }

  // ---- Strongest rank, with or without coherence ----

  lemma {:induction false} SomeLeastRank(matches: seq<Ranked>) returns (least: nat)
    requires matches != []
    ensures forall r :: r in matches ==> least <= r.rank
    ensures exists r :: r in matches && r.rank == least
  {
    var init, last := matches[..|matches| - 1], matches[|matches| - 1];
    assert matches == init + [last];
    least := last.rank;
    if init == [] {
      assert last in matches;
    } else {
      var before := SomeLeastRank(init);
      if before < least {
        least := before;
        var r :| r in init && r.rank == least;
        assert r in matches;
      } else {
        assert last in matches;
      }
    }
  }

  /** The decision comes from a match of the strongest rank, whatever the candidates. */
  lemma {:induction false} StrongestRankWins(matches: seq<Ranked>)
    requires matches != []
    ensures var winner := Winner(matches);
            winner.Some? && winner.value in matches && forall r :: r in matches ==> winner.value.rank <= r.rank
  {
    hide SliceStable;
    var sorted := SliceStable(Before, matches);
    var least := SomeLeastRank(matches);
    var top := (r: Ranked) => r.rank == least;
    assert Leading(Before, top, false, matches);
    hide Before;
    LeadersComeFirst(Before, top, false, matches);
    FirstTopIs(top, matches);
    SameElement(sorted, matches, sorted[0]);
  }

  /** No candidate meets a rule before rule `k`. */
  ghost predicate NoneBefore(lib: Library, config: Config, d: Document, cs: seq<Candidate>, k: nat) {
    forall c, j: nat :: c in cs && j < k ==> !Rule(lib, config, d, c, j)
  }

  /** The decision is for this candidate, by rule `k`. */
  ghost predicate DecidedBy(lib: Library, config: Config, d: Document, c: Candidate, k: nat, r: Decision) {
    && Rule(lib, config, d, c, k) && r.item == c.item && r.revision == c.revision && r.cluster == c.cluster
    && r.outcome == OutcomeOf(k) && r.basis == BasisOf(k)
  }

  /**
   What is decided, by the rules alone: something new if no candidate meets a rule or the
   thresholds make no sense, and else one that meets the first rule any candidate meets.
   */
  lemma {:induction false} DecisionMeans(lib: Library, config: Config, d: Document, cs: seq<Candidate>)
    requires lib.Sound()
    ensures var r := if config.Valid() then Choice(Matches(lib, config, d, cs)) else CREATE;
            if Sensible(config) && !NoneBefore(lib, config, d, cs, 8)
            then exists c, k: nat :: c in cs && DecidedBy(lib, config, d, c, k, r) && NoneBefore(lib, config, d, cs, k)
            else r == Decision(Create, New, "", "", "", 0, 1.0)
  {
    hide Assess, Before, Rule, SliceStable;
    var matches := Matches(lib, config, d, cs);
    if config.Valid() {
      forall c | c in cs
        ensures Assess(lib, config, d, c).Some? ==> Assess(lib, config, d, c).value in matches
        ensures Assess(lib, config, d, c).None? <==> forall k: nat :: !Rule(lib, config, d, c, k)
        ensures forall k: nat :: Rule(lib, config, d, c, k) ==> k < 8
      {
        RankIsStrongestRule(lib, config, d, c);
        AssessKeeps(lib, config, d, c);
        EightRules(lib, config, d, c);
        if r :| Assess(lib, config, d, c) == Some(r) {
          MatchedExactlyWhen(lib, config, d, cs, r);
        }
      }
      if matches == [] {
        NoWinner();
      } else {
        StrongestRankWins(matches);
        var w := Winner(matches).value;
        MatchedExactlyWhen(lib, config, d, cs, w);
        RankIsStrongestRule(lib, config, d, w.candidate);
        forall c, j: nat | c in cs && j < w.rank
          ensures !Rule(lib, config, d, c, j)
        {
          RankIsStrongestRule(lib, config, d, c);
        }
        assert NoneBefore(lib, config, d, cs, w.rank) && Choice(matches) == w.decision && w.candidate in cs;
        assert DecidedBy(lib, config, d, w.candidate, w.rank, Choice(matches));
      }
    }
  }

  lemma EightRules(lib: Library, config: Config, d: Document, c: Candidate)
    ensures forall k: nat :: Rule(lib, config, d, c, k) ==> k < 8
  {
  }

  // ---- The best match ----

  ghost predicate Unbeaten(matches: seq<Ranked>, x: Ranked) {
    forall r :: r in matches ==> !Before(r, x)
  }

  ghost predicate HasBest(matches: seq<Ranked>) {
    exists x :: x in matches && Unbeaten(matches, x)
  }

  /** Candidates that do not beat each other look the same to every other candidate. */
  lemma {:induction false} TiesAreAlike(a: Ranked, b: Ranked, c: Ranked)
    requires !Before(a, b) && !Before(b, a)
    ensures a.rank == b.rank && a.candidate.item == b.candidate.item
    ensures Before(c, a) <==> Before(c, b)
  {
    hide TierRank, Less;
    LessIsTotal(a.candidate.item, b.candidate.item);
  }

  /** An unbeaten match beats whatever is beaten. */
  lemma {:induction false} UnbeatenBeats(matches: seq<Ranked>, x: Ranked, y: Ranked)
    requires Unbeaten(matches, x) && y in matches && !Unbeaten(matches, y)
    ensures Before(x, y)
  {
    hide Before;
    if !Before(x, y) {
      forall r | r in matches
        ensures !Before(r, y)
      {
        TiesAreAlike(x, y, r);
      }
    }
  }

  /**
   Nobody beats the winner if and only if some match is beaten by nobody; it is then the
   first such match.
   */
  lemma {:induction false} NobodyBeatsTheChoice(matches: seq<Ranked>)
    requires matches != []
    ensures Winner(matches).Some?
    ensures Unbeaten(matches, Winner(matches).value) <==> HasBest(matches)
    ensures HasBest(matches) ==>
      exists i :: 0 <= i < |matches| && matches[i] == Winner(matches).value &&
        forall j :: 0 <= j < i ==> Before(matches[i], matches[j])
  {
    hide Before, SliceStable;
    StrongestRankWins(matches);
    if HasBest(matches) {
      var top := (r: Ranked) => Unbeaten(matches, r);
      forall x, y | x in matches && y in matches && top(x)
        ensures (!top(y) ==> Before(x, y) && !Before(y, x)) && !Before(y, x)
      {
        if !top(y) {
          UnbeatenBeats(matches, x, y);
        }
      }
      LeadersComeFirst(Before, top, true, matches);
      FirstTopIs(top, matches);
      var i := FirstTopAt(top, matches);
      forall j | 0 <= j < i
        ensures Before(matches[i], matches[j])
      {
        UnbeatenBeats(matches, matches[i], matches[j]);
      }
    }
  }

  /** Matches without a cycle have a best one. */
  lemma {:induction false} AcyclicHasBest(matches: seq<Ranked>)
    requires matches != [] && Acyclic(matches)
    ensures HasBest(matches)
  {
    hide Before, Sort, Acyclic;
    OrderExactlyWhen(matches);
    var i := SortPutsLeastFirst(Before, matches);
    forall r | r in matches
      ensures !Before(r, matches[i])
    {
      var j :| 0 <= j < |matches| && matches[j] == r;
      assert matches[i] in matches;
      assert j < i ==> Before(matches[i], r);
    }
    assert matches[i] in matches && Unbeaten(matches, matches[i]);
  }

  /**
   When some match is beaten by nobody, neither the order nor repetition of the
   candidates changes what is decided and for which item.
   */
  lemma {:induction false} OrderDoesNotMatter(lib: Library, config: Config, d: Document, cs: seq<Candidate>,
      ds: seq<Candidate>)
    requires forall c :: c in cs <==> c in ds
    requires var p := Matches(lib, config, d, cs); p == [] || HasBest(p)
    ensures var a, b := Choice(Matches(lib, config, d, cs)), Choice(Matches(lib, config, d, ds));
            a.outcome == b.outcome && a.basis == b.basis && a.item == b.item
  {
    hide Before, Sort, Compare, Winner, Assess;
    var p, q := Matches(lib, config, d, cs), Matches(lib, config, d, ds);
    forall r: Ranked
      ensures r in p <==> r in q
    {
      MatchedExactlyWhen(lib, config, d, cs, r);
      MatchedExactlyWhen(lib, config, d, ds, r);
    }
    assert (q != [] ==> q[0] in q) && (p != [] ==> p[0] in p);
    if p == [] {
      NoWinner();
    } else {
      var x :| x in p && Unbeaten(p, x);
      assert x in q && Unbeaten(q, x);
      NobodyBeatsTheChoice(p);
      NobodyBeatsTheChoice(q);
      StrongestRankWins(p);
      StrongestRankWins(q);
      var a, b := Winner(p).value, Winner(q).value;
      TiesAreAlike(a, b, a);
      MatchedExactlyWhen(lib, config, d, cs, a);
      MatchedExactlyWhen(lib, config, d, ds, b);
      AssessKeeps(lib, config, d, a.candidate);
      AssessKeeps(lib, config, d, b.candidate);
    }
  }

  lemma NoWinner()
    ensures Winner([]) == None
  {
  }

  // ---- When the order matters ----

  /**
   If `blocker` is among the first `n` matches, and no match of an item that is `barred`
   beats it, then such an item cannot come to the front any more.
   */
  lemma {:induction false} Blocked(q: seq<Ranked>, n: nat, blocker: Ranked, barred: string -> bool)
    requires 0 < n <= |q| && blocker in q[..n]
    requires forall x :: x in q && barred(x.candidate.item) ==> !Before(x, blocker)
    requires Sort(Before, q[..n]) != [] && !barred(Sort(Before, q[..n])[0].candidate.item)
    ensures Sort(Before, q) != [] && !barred(Sort(Before, q)[0].candidate.item)
    decreases |q|
  {
    hide Before;
    if n == |q| {
      assert q[..n] == q;
    } else {
      var init, last := q[..|q| - 1], q[|q| - 1];
      assert init[..n] == q[..n];
      Blocked(init, n, blocker, barred);
      var sorted := Sort(Before, init);
      SortKeeps(Before, init);
      assert blocker in init by {
        assert forall x :: x in q[..n] ==> x in init;
      }
      SameElement(sorted, init, blocker);
      InsertHeadCases(Before, sorted, last, blocker);
    }
  }

  function ToFront(s: seq<Ranked>, i: nat): seq<Ranked>
    requires i < |s|
  {
    [s[i]] + s[..i] + s[i + 1..]
  }

  lemma {:induction false} ToFrontKeeps(s: seq<Ranked>, i: nat)
    requires i < |s|
    ensures multiset(ToFront(s, i)) == multiset(s) && forall x :: x in ToFront(s, i) <==> x in s
  {
    assert s == s[..i] + [s[i]] + s[i + 1..];
    forall x: Ranked
      ensures x in ToFront(s, i) <==> x in s
    {
      SameElement(ToFront(s, i), s, x);
    }
  }

  /** The match with all observation times forgotten. */
  function Timeless(r: Ranked): Ranked {
    r.(candidate := r.candidate.(observed := 0))
  }

  /** Some match is beaten by nobody once the observation times are forgotten. */
  lemma {:induction false} BestTimeless(matches: seq<Ranked>) returns (i: nat)
    requires matches != []
    ensures i < |matches| && forall r :: r in matches ==> !Before(Timeless(r), Timeless(matches[i]))
  {
    var t := seq(|matches|, j requires 0 <= j < |matches| => Timeless(matches[j]));
    assert Acyclic(t) by {
      assert forall r :: r in t ==> r.candidate.observed == 0;
    }
    AcyclicHasBest(t);
    var x :| x in t && Unbeaten(t, x);
    i :| 0 <= i < |t| && t[i] == x;
    forall r | r in matches
      ensures !Before(Timeless(r), t[i])
    {
      var j :| 0 <= j < |matches| && matches[j] == r;
      assert t[j] in t;
    }
  }

  lemma TimelessAcrossItems(a: Ranked, b: Ranked)
    requires a.candidate.item != b.candidate.item
    ensures Before(a, b) <==> Before(Timeless(a), Timeless(b))
  {
    hide TierRank, Less;
  }

  /** Some match is beaten by matches of its own item only. */
  lemma {:induction false} SomeLeader(matches: seq<Ranked>) returns (i: nat)
    requires matches != []
    ensures i < |matches|
    ensures forall r :: r in matches && Before(r, matches[i]) ==> r.candidate.item == matches[i].candidate.item
  {
    hide Before, Timeless;
    i := BestTimeless(matches);
    forall r | r in matches && r.candidate.item != matches[i].candidate.item
      ensures !Before(r, matches[i])
    {
      TimelessAcrossItems(r, matches[i]);
    }
  }

  /** The matches of one item. */
  function OfItem(matches: seq<Ranked>, item: string): seq<Ranked> {
    if matches == [] then []
    else (if matches[0].candidate.item == item then [matches[0]] else []) + OfItem(matches[1..], item)
  }

  lemma {:induction false} OfItemHas(matches: seq<Ranked>, item: string, x: Ranked)
    ensures x in OfItem(matches, item) <==> x in matches && x.candidate.item == item
  {
    if matches == [] {
    } else {
      OfItemHas(matches[1..], item, x);
      assert matches == [matches[0]] + matches[1..];
    }
  }

  /** Within one item some match is beaten by nobody. */
  lemma {:induction false} BestOfItem(matches: seq<Ranked>, m: Ranked) returns (a: Ranked)
    requires m in matches
    ensures a in matches && a.candidate.item == m.candidate.item
    ensures forall r :: r in matches && r.candidate.item == m.candidate.item ==> !Before(r, a)
  {
    hide Before;
    var own := OfItem(matches, m.candidate.item);
    forall x: Ranked
      ensures x in own <==> x in matches && x.candidate.item == m.candidate.item
    {
      OfItemHas(matches, m.candidate.item, x);
    }
    assert m in own;
    assert Acyclic(own);
    AcyclicHasBest(own);
    a :| a in own && Unbeaten(own, a);
  }

  /** With such a match in front, its item is decided for. */
  lemma {:induction false} DecidesFor(matches: seq<Ranked>, i: nat) returns (p: seq<Ranked>)
    requires i < |matches|
    requires forall r :: r in matches && Before(r, matches[i]) ==> r.candidate.item == matches[i].candidate.item
    requires |matches| <= BLOCK
    ensures multiset(p) == multiset(matches)
    ensures Winner(p).Some? && Winner(p).value.candidate.item == matches[i].candidate.item
  {
    hide Before, Sort;
    var m := matches[i];
    var item := m.candidate.item;
    p := ToFront(matches, i);
    ToFrontKeeps(matches, i);
    assert p[..1] == [m];
    hide ToFront;
    SortOne(m);
    Blocked(p, 1, m, (s: string) => s != item);
    InsertionWins(p, matches);
  }

  /** With the best of an item behind one that beats it, the item is not decided for. */
  lemma {:induction false} DecidesAgainst(matches: seq<Ranked>, c: Ranked, a: Ranked, item: string)
    returns (q: seq<Ranked>)
    requires c in matches && a in matches && Before(c, a) && c.candidate.item != item
    requires forall r :: r in matches && r.candidate.item == item ==> !Before(r, a)
    requires |matches| <= BLOCK
    ensures multiset(q) == multiset(matches)
    ensures Winner(q).Some? && Winner(q).value.candidate.item != item
  {
    hide Before, Sort;
    q := PairInFront(matches, c, a);
    assert q[..2] == [c, a];
    BeforeIsAsymmetric(c, a);
    SortTwo(c, a);
    Blocked(q, 2, a, (s: string) => s == item);
    InsertionWins(q, matches);
  }

  /** Up to twenty matches the winner is the first of an insertion sort. */
  lemma InsertionWins(p: seq<Ranked>, matches: seq<Ranked>)
    requires multiset(p) == multiset(matches) && |matches| <= BLOCK && Sort(Before, p) != []
    ensures Winner(p) == Some(Sort(Before, p)[0])
  {
    hide Before, Sort, SliceStable;
    SameSize(p, matches);
    ShortIsInsertion(Before, p);
  }

  /** Somebody beats a match when there is no best one. */
  lemma Beater(matches: seq<Ranked>, a: Ranked) returns (c: Ranked)
    requires a in matches && !HasBest(matches)
    ensures c in matches && Before(c, a)
  {
    hide Before;
    assert !Unbeaten(matches, a);
    c :| c in matches && Before(c, a);
  }

  lemma {:induction false} PairInFront(matches: seq<Ranked>, c: Ranked, a: Ranked) returns (q: seq<Ranked>)
    requires c in matches && a in matches && Before(c, a)
    ensures multiset(q) == multiset(matches) && (forall x :: x in q <==> x in matches)
    ensures |q| >= 2 && q[0] == c && q[1] == a
  {
    BeforeIsAsymmetric(a, a);
    assert c != a;
    hide Before;
    var j :| 0 <= j < |matches| && matches[j] == a;
    var s := ToFront(matches, j);
    ToFrontKeeps(matches, j);
    assert c in s && s[0] == a;
    var k :| 0 <= k < |s| && s[k] == c;
    q := ToFront(s, k);
    ToFrontKeeps(s, k);
  }

  lemma SortOne(a: Ranked)
    ensures Sort(Before, [a]) == [a]
  {
    assert [a][..0] == [];
  }

  lemma SortTwo(a: Ranked, b: Ranked)
    requires !Before(b, a)
    ensures Sort(Before, [a, b]) == [a, b]
  {
    hide Before;
    assert [a, b][..1] == [a];
    SortOne(a);
  }

  // ---- More matches than one block ----

  function NotOfItem(matches: seq<Ranked>, item: string): seq<Ranked> {
    if matches == [] then []
    else (if matches[0].candidate.item != item then [matches[0]] else []) + NotOfItem(matches[1..], item)
  }

  lemma {:induction false} Parted(matches: seq<Ranked>, item: string)
    ensures multiset(OfItem(matches, item) + NotOfItem(matches, item)) == multiset(matches)
    ensures forall x :: x in NotOfItem(matches, item) ==> x.candidate.item != item
  {
    if matches == [] {
    } else {
      Parted(matches[1..], item);
      assert matches == [matches[0]] + matches[1..];
    }
  }

  /** How many matches an item has depends on no arrangement. */
  lemma {:induction false} OfItemCounts(matches: seq<Ranked>, item: string, x: Ranked)
    ensures multiset(OfItem(matches, item))[x] == if x.candidate.item == item then multiset(matches)[x] else 0
  {
    if matches == [] {
    } else {
      OfItemCounts(matches[1..], item, x);
      assert matches == [matches[0]] + matches[1..];
    }
  }

  lemma {:induction false} SameOfItem(p: seq<Ranked>, q: seq<Ranked>, item: string)
    requires multiset(p) == multiset(q)
    ensures |OfItem(p, item)| == |OfItem(q, item)|
  {
    forall x: Ranked
      ensures multiset(OfItem(p, item))[x] == multiset(OfItem(q, item))[x]
    {
      OfItemCounts(p, item, x);
      OfItemCounts(q, item, x);
    }
    assert multiset(OfItem(p, item)) == multiset(OfItem(q, item));
    SameSize(OfItem(p, item), OfItem(q, item));
  }

  /** An arrangement with two given matches in front and all others of the item of one of them next. */
  lemma {:induction false} ItemInFront(matches: seq<Ranked>, a: Ranked, b: Ranked, item: string)
    returns (q: seq<Ranked>)
    requires a in matches && b in matches && Before(a, b) && |OfItem(matches, item)| < BLOCK < |matches|
    requires a.candidate.item == item || b.candidate.item == item
    ensures multiset(q) == multiset(matches) && |q| == |matches| && (forall x :: x in q <==> x in matches)
    ensures q[0] == a && q[1] == b && forall x :: x in q[BLOCK..] ==> x.candidate.item != item
  {
    hide Before;
    var p := PairInFront(matches, a, b);
    var tail := p[2..];
    assert p == [a, b] + tail;
    var own, others := OfItem(tail, item), NotOfItem(tail, item);
    Parted(tail, item);
    q := [a, b] + (own + others);
    SamePrefix([a, b], own + others, tail);
    SameSize(q, matches);
    SameOfItem(p, matches, item);
    OwnIsShorter(a, b, tail, item);
    hide OfItem, NotOfItem;
    forall x: Ranked
      ensures x in q <==> x in matches
    {
      SameElement(q, matches, x);
    }
    assert q[BLOCK..] == others[BLOCK - 2 - |own|..];
  }

  lemma SamePrefix(front: seq<Ranked>, p: seq<Ranked>, q: seq<Ranked>)
    requires multiset(p) == multiset(q)
    ensures multiset(front + p) == multiset(front + q)
  {
  }

  lemma OwnIsShorter(a: Ranked, b: Ranked, tail: seq<Ranked>, item: string)
    requires a.candidate.item == item || b.candidate.item == item
    ensures |OfItem(tail, item)| + 1 <= |OfItem([a, b] + tail, item)|
  {
    var p := [a, b] + tail;
    assert p[1..] == [b] + tail;
    assert p[1..][1..] == tail;
  }

  /** Who beats the first of two cannot pass the second. */
  lemma {:induction false} HeadStays(q: seq<Ranked>, x: Ranked, c: Ranked)
    requires |q| >= 2 && q[0] == x && q[1] == c && !Before(c, x)
    requires forall y :: y in q && Before(y, x) ==> !Before(y, c)
    ensures Sort(Before, q) != [] && Sort(Before, q)[0] == x
  {
    hide Before;
    if |q| == 2 {
      assert q == [x, c];
      SortTwo(x, c);
    } else {
      var init, last := q[..|q| - 1], q[|q| - 1];
      assert q == init + [last];
      HeadStays(init, x, c);
      SortKeeps(Before, init);
      assert init[1] in init && init[0] in init;
      SameElement(Sort(Before, init), init, c);
      SameElement(Sort(Before, init), init, x);
      InsertHeadCases(Before, Sort(Before, init), last, c);
      InsertHeadCases(Before, Sort(Before, init), last, x);
    }
  }

  /** At most twenty matches, or of each item fewer than twenty. */
  ghost predicate FewOfEach(matches: seq<Ranked>) {
    |matches| <= 20 || forall item :: |OfItem(matches, item)| < 20
  }

  function Only(keep: Ranked -> bool, s: seq<Ranked>): seq<Ranked> {
    if s == [] then [] else (if keep(s[0]) then [s[0]] else []) + Only(keep, s[1..])
  }

  lemma {:induction false} OnlyHas(keep: Ranked -> bool, s: seq<Ranked>, x: Ranked)
    ensures x in Only(keep, s) <==> x in s && keep(x)
  {
    if s == [] {
    } else {
      OnlyHas(keep, s[1..], x);
      assert s == [s[0]] + s[1..];
    }
  }

  /** No match of another item beats `x`. */
  ghost predicate Leads(matches: seq<Ranked>, x: Ranked) {
    forall r :: r in matches && Before(r, x) ==> r.candidate.item == x.candidate.item
  }

  /** What beats a match of another item beats it as well if it comes from a better match. */
  lemma {:induction false} BetterBeats(c: Ranked, z: Ranked, y: Ranked)
    requires !Before(Timeless(z), Timeless(c)) && Before(z, y)
    requires z.candidate.item != y.candidate.item && c.candidate.item != y.candidate.item
    ensures Before(c, y)
  {
    hide TierRank, Less;
    var i, j, k := c.candidate.item, z.candidate.item, y.candidate.item;
    LessIsTotal(i, j);
    LessIsTotal(i, k);
    if Less(i, j) && Less(j, k) {
      LessIsTransitive(i, j, k);
    }
  }

  /** The best of the matches of an item that lead. */
  lemma {:induction false} BestLeader(matches: seq<Ranked>) returns (x: Ranked)
    requires matches != []
    ensures x in matches && Leads(matches, x)
    ensures forall y :: y in matches && Before(y, x) ==> !Leads(matches, y)
  {
    hide Before;
    var i := SomeLeader(matches);
    var item := matches[i].candidate.item;
    var leading := Only((r: Ranked) => Leads(matches, r) && r.candidate.item == item, matches);
    forall y: Ranked
      ensures y in leading <==> y in matches && Leads(matches, y) && y.candidate.item == item
    {
      OnlyHas((r: Ranked) => Leads(matches, r) && r.candidate.item == item, matches, y);
    }
    assert matches[i] in leading;
    x := BestOfItem(leading, matches[i]);
  }

  /** The best of the other items, observation times aside. */
  lemma {:induction false} BestOther(matches: seq<Ranked>, item: string, z: Ranked) returns (c: Ranked)
    requires z in matches && z.candidate.item != item
    ensures c in matches && c.candidate.item != item
    ensures forall r :: r in matches && r.candidate.item != item ==> !Before(Timeless(r), Timeless(c))
  {
    hide Before, Timeless;
    var others := Only((r: Ranked) => r.candidate.item != item, matches);
    forall r: Ranked
      ensures r in others <==> r in matches && r.candidate.item != item
    {
      OnlyHas((r: Ranked) => r.candidate.item != item, matches, r);
    }
    assert z in others;
    var k := BestTimeless(others);
    c := others[k];
    assert c in others;
  }

  /** A leader, and a match of another item that holds back whatever beats the leader. */
  lemma {:induction false} GuardedLeader(matches: seq<Ranked>) returns (x: Ranked, c: Ranked)
    requires matches != [] && !HasBest(matches)
    ensures x in matches && c in matches && c.candidate.item != x.candidate.item
    ensures Leads(matches, x) && Before(x, c)
    ensures forall y :: y in matches && Before(y, x) ==> !Before(y, c)
  {
    hide Before, Timeless, HasBest, Leads;
    x := BestLeader(matches);
    var b := Beater(matches, x);
    var z := Outsider(matches, x, b);
    c := BestOther(matches, x.candidate.item, z);
    forall y | y in matches && Before(y, x)
      ensures !Before(y, c)
    {
      var w := Outsider(matches, x, y);
      BetterBeats(c, w, y);
      BeforeIsAsymmetric(c, y);
    }
    LeaderBeats(matches, x, c);
  }

  lemma Outsider(matches: seq<Ranked>, x: Ranked, y: Ranked) returns (z: Ranked)
    requires y in matches && Leads(matches, x) && Before(y, x) && !Leads(matches, y)
    ensures y.candidate.item == x.candidate.item
    ensures z in matches && Before(z, y) && z.candidate.item != x.candidate.item
  {
    hide Before;
    z :| z in matches && Before(z, y) && z.candidate.item != y.candidate.item;
  }

  lemma LeaderBeats(matches: seq<Ranked>, x: Ranked, c: Ranked)
    requires Leads(matches, x) && c in matches && c.candidate.item != x.candidate.item
    ensures Before(x, c)
  {
    hide Before;
    if !Before(x, c) {
      TiesAreAlike(x, c, x);
    }
  }

  /** With the two in front and all of the item in the first block, the item is decided for. */
  lemma {:induction false} StaysFor(matches: seq<Ranked>, x: Ranked, c: Ranked) returns (p: seq<Ranked>)
    requires |matches| > BLOCK && |OfItem(matches, x.candidate.item)| < BLOCK
    requires x in matches && c in matches && Leads(matches, x) && Before(x, c)
    requires forall y :: y in matches && Before(y, x) ==> !Before(y, c)
    ensures multiset(p) == multiset(matches)
    ensures Winner(p).Some? && Winner(p).value.candidate.item == x.candidate.item
  {
    BeforeIsAsymmetric(x, c);
    hide Before, Sort, SliceStable;
    var item := x.candidate.item;
    p := ItemInFront(matches, x, c, item);
    var first := p[..BLOCK];
    assert forall y :: y in first ==> y in p;
    assert forall y :: y in p[BLOCK..] ==> y in p;
    HeadStays(first, x, c);
    FirstBlockHolds(Before, (r: Ranked) => r == x, (r: Ranked) => r in matches && r.candidate.item != item, p);
  }

  /** With the best of an item behind one that beats it and all of it in the first block, it is not decided for. */
  lemma {:induction false} StaysAgainst(matches: seq<Ranked>, c: Ranked, a: Ranked, item: string)
    returns (q: seq<Ranked>)
    requires |matches| > BLOCK && |OfItem(matches, item)| < BLOCK
    requires c in matches && a in matches && Before(c, a) && c.candidate.item != item == a.candidate.item
    requires forall r :: r in matches && r.candidate.item == item ==> !Before(r, a)
    ensures multiset(q) == multiset(matches)
    ensures Winner(q).Some? && Winner(q).value.candidate.item != item
  {
    BeforeIsAsymmetric(c, a);
    hide Before, Sort, SliceStable;
    q := ItemInFront(matches, c, a, item);
    var first := q[..BLOCK];
    assert first[..2] == [c, a];
    assert forall y :: y in first ==> y in q;
    SortTwo(c, a);
    Blocked(first, 2, a, (s: string) => s == item);
    FirstBlockHolds(Before, (r: Ranked) => r.candidate.item != item, (r: Ranked) => r.candidate.item != item, q);
  }

  /** Without a best match there is an arrangement that decides for one item and one that does not. */
  lemma {:induction false} OrderMatters(matches: seq<Ranked>) returns (p: seq<Ranked>, q: seq<Ranked>)
    requires matches != [] && !HasBest(matches) && FewOfEach(matches)
    ensures multiset(p) == multiset(matches) && multiset(q) == multiset(matches)
    ensures Winner(p).Some? && Winner(q).Some?
    ensures Winner(p).value.candidate.item != Winner(q).value.candidate.item
  {
    hide Before, Winner, HasBest;
    if |matches| <= BLOCK {
      var i := SomeLeader(matches);
      var a := BestOfItem(matches, matches[i]);
      var c := Beater(matches, a);
      p := DecidesFor(matches, i);
      q := DecidesAgainst(matches, c, a, matches[i].candidate.item);
    } else {
      var x, c := GuardedLeader(matches);
      var a := BestOfItem(matches, x);
      var d := Beater(matches, a);
      p := StaysFor(matches, x, c);
      q := StaysAgainst(matches, d, a, x.candidate.item);
    }
  }

  ghost predicate SameItemInEveryOrder(matches: seq<Ranked>) {
    forall p, q :: multiset(p) == multiset(matches) && multiset(q) == multiset(matches) ==> SameItem(p, q)
  }

  predicate SameItem(p: seq<Ranked>, q: seq<Ranked>) {
    Winner(p).Some? && Winner(q).Some? && Winner(p).value.candidate.item == Winner(q).value.candidate.item
  }

  /**
   Every arrangement of the matches decides for one item if some match is beaten by nobody,
   and with up to twenty matches, or fewer than twenty of each item, only then.
   */
  lemma {:induction false} OrderMattersExactlyWhen(matches: seq<Ranked>)
    requires matches != []
    ensures HasBest(matches) ==> SameItemInEveryOrder(matches)
    ensures FewOfEach(matches) ==> (SameItemInEveryOrder(matches) <==> HasBest(matches))
  {
    hide Before, Sort, Winner, Unbeaten, HasBest;
    if HasBest(matches) {
      forall p, q | multiset(p) == multiset(matches) && multiset(q) == multiset(matches)
        ensures SameItem(p, q)
      {
        SameWinners(matches, p, q);
      }
    } else if FewOfEach(matches) {
      var p, q := OrderMatters(matches);
      assert !SameItem(p, q);
    }
  }

  lemma {:induction false} SameWinners(matches: seq<Ranked>, p: seq<Ranked>, q: seq<Ranked>)
    requires matches != [] && HasBest(matches) && multiset(p) == multiset(matches) && multiset(q) == multiset(matches)
    ensures SameItem(p, q)
  {
    hide Before, Sort, Winner;
    SameSize(p, matches);
    SameSize(q, matches);
    forall x: Ranked
      ensures (x in p <==> x in matches) && (x in q <==> x in matches)
    {
      SameElement(p, matches, x);
      SameElement(q, matches, x);
    }
    var x :| x in matches && Unbeaten(matches, x);
    assert x in p && Unbeaten(p, x) && x in q && Unbeaten(q, x);
    NobodyBeatsTheChoice(p);
    NobodyBeatsTheChoice(q);
    StrongestRankWins(p);
    StrongestRankWins(q);
    TiesAreAlike(Winner(p).value, Winner(q).value, x);
  }

  // ---- A cycle that documents can meet ----

  /** A candidate with the entry of a document is a revision of it. */
  lemma SameEntryIsRevision(lib: Library, config: Config, d: Document, c: Candidate)
    requires d.entryId != "" && c.entryId == d.entryId
    ensures Assess(lib, config, d, c) ==
            Some(Ranked(Decision(Revision, SameEntry, c.item, c.revision, c.cluster, 0, 1.0), c, 0))
  {
  }

  lemma ThreeMatches(lib: Library, config: Config, d: Document, a: Candidate, b: Candidate, c: Candidate)
    requires Assess(lib, config, d, a).Some? && Assess(lib, config, d, b).Some? && Assess(lib, config, d, c).Some?
    ensures Matches(lib, config, d, [a, b, c]) ==
            [Assess(lib, config, d, a).value, Assess(lib, config, d, b).value, Assess(lib, config, d, c).value]
  {
    hide Assess;
    var x, y, z := Assess(lib, config, d, a).value, Assess(lib, config, d, b).value, Assess(lib, config, d, c).value;
    assert [a, b, c][..2] == [a, b] && [a, b][..1] == [a] && [a][..0] == [];
    assert Matches(lib, config, d, [a][..0]) == [] && [] + [x] == [x];
    assert Matches(lib, config, d, [a]) == [x];
    assert Matches(lib, config, d, [a, b]) == [x, y];
    assert [x, y] + [z] == [x, y, z];
  }

  /**
   Three candidates that share the entry of a document, two of them of one item, beat each
   other in a circle: the choice is beaten, and turning the list changes the chosen item.
   */
  lemma {:induction false} CycleHasNoBest(lib: Library, config: Config, d: Document, blank: Candidate)
    requires d.entryId != ""
    ensures var a := blank.(entryId := d.entryId, item := "a", tier := "T2", firstSeen := 1, observed := 9);
            var b := a.(tier := "T0", observed := 5);
            var c := a.(item := "b", tier := "T1");
            var p, q := Matches(lib, config, d, [a, b, c]), Matches(lib, config, d, [c, a, b]);
            !HasBest(p) && Choice(p).item == "a" && Choice(q).item == "b"
  {
    var a := blank.(entryId := d.entryId, item := "a", tier := "T2", firstSeen := 1, observed := 9);
    var b := a.(tier := "T0", observed := 5);
    var c := a.(item := "b", tier := "T1");
    SameEntryIsRevision(lib, config, d, a);
    SameEntryIsRevision(lib, config, d, b);
    SameEntryIsRevision(lib, config, d, c);
    var x, y, z := Assess(lib, config, d, a).value, Assess(lib, config, d, b).value, Assess(lib, config, d, c).value;
    ThreeMatches(lib, config, d, a, b, c);
    ThreeMatches(lib, config, d, c, a, b);
    assert Before(x, y) && Before(y, z) && Before(z, x);
    hide Before, Assess, Matches;
    CircleHasNoBest(x, y, z);
  }

  lemma {:induction false} CircleHasNoBest(x: Ranked, y: Ranked, z: Ranked)
    requires Before(x, y) && Before(y, z) && Before(z, x)
    ensures !HasBest([x, y, z])
    ensures Winner([x, y, z]) == Some(x) && Winner([z, x, y]) == Some(z)
  {
    BeforeIsAsymmetric(x, y);
    BeforeIsAsymmetric(y, z);
    BeforeIsAsymmetric(z, x);
    hide Before, SliceStable, Sort;
    SortThree(x, y, z);
    SortThree(z, x, y);
    InsertionWins([x, y, z], [x, y, z]);
    InsertionWins([z, x, y], [z, x, y]);
  }

  lemma SortThree(a: Ranked, b: Ranked, c: Ranked)
    requires !Before(b, a) && !Before(c, b)
    ensures Sort(Before, [a, b, c]) == [a, b, c]
  {
    hide Before;
    assert [a, b, c][..2] == [a, b];
    SortTwo(a, b);
  }
}

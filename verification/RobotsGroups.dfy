/** How lines form groups, said without groups: which agent line and which rule line belong together. */
module RobotsGroups {
  import opened Robots

  // ---- The code ----

  datatype Scan = Scan(groups: seq<Group>, agents: seq<string>, rules: seq<Rule>)

  /** One line of the loop; the source's `hasRules` is whether the current group has any. */
  function Take(s: Scan, line: Line): Scan {
    match line
    case Agent(name) =>
      if s.rules != [] then Scan(s.groups + [Group(s.agents, s.rules)], [name], [])
      else s.(agents := s.agents + [name])
    case Says(rule) =>
      if s.agents == [] || rule.pattern == "" then s else s.(rules := s.rules + [rule])
    case Other => s
  }

  function ScanAll(lines: seq<Line>): Scan {
    if lines == [] then Scan([], [], []) else Take(ScanAll(lines[..|lines| - 1]), lines[|lines| - 1])
  }

  function GroupsOf(s: Scan): seq<Group> {
    if s.agents == [] then s.groups else s.groups + [Group(s.agents, s.rules)]
  }

  /** The loop over the lines. */
  method ReadGroups(lines: seq<Line>) returns (groups: seq<Group>)
    ensures groups == GroupsOf(ScanAll(lines))
  {
    groups := [];
    var current, hasRules := Group([], []), false;
    for i := 0 to |lines|
      invariant Scan(groups, current.agents, current.rules) == ScanAll(lines[..i])
      invariant hasRules <==> current.rules != []
    {
      assert lines[..i + 1][..i] == lines[..i];
      match lines[i]
      case Agent(name) =>
        if hasRules {
          groups := groups + [current];
          current := Group([], []);
          hasRules := false;
        }
        current := current.(agents := current.agents + [name]);
      case Says(rule) =>
        if current.agents != [] && rule.pattern != "" {
          current := current.(rules := current.rules + [rule]);
          hasRules := true;
        }
      case Other =>
    }
    assert lines[..|lines|] == lines;
    if current.agents != [] {
      groups := groups + [current];
    }
  }

  /** `robotsDisallows`. */
  method Disallows(matches: string -> bool, reader: string, lines: seq<Line>) returns (denied: bool)
    ensures denied <==> Denies(matches, RulesFor(reader, lines))
  {
    hide ScanAll, GroupsOf, Denies, SpokenFor, Closest;
    var groups := ReadGroups(lines);
    var rules := Gather(reader, groups);
    GatheredIsByLines(reader, lines, rules);
    denied := Decide(matches, rules);
    assert (iset r | r in rules) == RulesFor(reader, lines);
  }

  // ---- The same by lines ----

  /** The closest fit of any agent line. */
  function Closest(reader: string, lines: seq<Line>): int {
    if lines == [] then -1
    else
      var last := lines[|lines| - 1];
      Larger(Closest(reader, lines[..|lines| - 1]), if last.Agent? then AgentLength(reader, last.name) else -1)
  }

  predicate Effective(line: Line) {
    line.Says? && line.rule.pattern != ""
  }

  /** Between line `i` and line `n` a rule is followed by an agent line: a new group has begun. */
  ghost predicate Break(lines: seq<Line>, i: nat, n: nat)
    requires n <= |lines|
  {
    exists k, m :: i < k < m < n && Effective(lines[k]) && lines[m].Agent?
  }

  /** The agent at line `i` and the rule at line `j` are in one group. */
  ghost predicate Linked(lines: seq<Line>, i: nat, j: nat) {
    i < j < |lines| && lines[i].Agent? && Effective(lines[j]) && !Break(lines, i, j)
  }

  /** The rules that speak for a reader: those linked to an agent line of the closest fit. */
  ghost function RulesFor(reader: string, lines: seq<Line>): iset<Rule> {
    iset r | Closest(reader, lines) >= 0 && SpokenFor(reader, lines, r)
  }

  ghost predicate SpokenFor(reader: string, lines: seq<Line>, r: Rule) {
    exists i: nat, j: nat :: Linked(lines, i, j) && lines[j].rule == r &&
      AgentLength(reader, lines[i].name) == Closest(reader, lines)
  }

  // ---- Why they agree ----

  /** Agent line `i` is in the group being read. */
  ghost predicate Current(lines: seq<Line>, i: nat) {
    i < |lines| && lines[i].Agent? && !Break(lines, i, |lines|)
  }

  /** A rule that no agent line follows, after some agent line. */
  ghost predicate Ruled(lines: seq<Line>, i: nat, k: nat) {
    && i < k < |lines| && lines[i].Agent? && Effective(lines[k])
    && forall m :: k < m < |lines| ==> !lines[m].Agent?
  }

  ghost predicate Together(groups: seq<Group>, a: string, r: Rule) {
    exists g :: g in groups && a in g.agents && r in g.rules
  }

  ghost predicate LinkedBy(lines: seq<Line>, a: string, r: Rule) {
    exists i: nat, j: nat :: Linked(lines, i, j) && lines[i].name == a && lines[j].rule == r
  }

  ghost predicate CurrentName(lines: seq<Line>, a: string) {
    exists i: nat :: Current(lines, i) && lines[i].name == a
  }

  ghost predicate HasRuled(lines: seq<Line>) {
    exists i: nat, k: nat :: Ruled(lines, i, k)
  }

  lemma {:induction false} BreakMore(lines: seq<Line>, x: Line, i: nat, n: nat)
    requires n <= |lines|
    ensures Break(lines + [x], i, n) <==> Break(lines, i, n)
    ensures Break(lines + [x], i, |lines| + 1) <==>
            Break(lines, i, |lines|) || (x.Agent? && exists k :: i < k < |lines| && Effective(lines[k]))
  {
    var more := lines + [x];
    if Break(lines, i, n) {
      var k, m :| i < k < m < n && Effective(lines[k]) && lines[m].Agent?;
      assert Effective(more[k]) && more[m].Agent?;
    }
    if Break(lines, i, |lines|) {
      var k, m :| i < k < m < |lines| && Effective(lines[k]) && lines[m].Agent?;
      assert Effective(more[k]) && more[m].Agent?;
    }
    if x.Agent? && exists k :: i < k < |lines| && Effective(lines[k]) {
      var k :| i < k < |lines| && Effective(lines[k]);
      assert Effective(more[k]) && more[|lines|].Agent?;
    }
  }

  /** In the current group the rules come after the agent lines. */
  lemma {:induction false} RulesFollow(lines: seq<Line>, i: nat)
    requires Current(lines, i)
    ensures HasRuled(lines) <==> exists k :: i < k < |lines| && Effective(lines[k])
  {
    if HasRuled(lines) {
      var i': nat, k: nat :| Ruled(lines, i', k);
      assert i < k;
    }
    forall k: nat | i < k < |lines| && Effective(lines[k])
      ensures Ruled(lines, i, k)
    {
    }
  }

  /** An agent line joins the current group only while that group has no rule. */
  lemma {:induction false} CurrentMore(lines: seq<Line>, x: Line, i: nat)
    ensures Current(lines + [x], i) <==>
            (i == |lines| && x.Agent?) || (Current(lines, i) && (x.Agent? ==> !HasRuled(lines)))
  {
    var more := lines + [x];
    BreakMore(lines, x, i, |lines|);
    if Current(lines, i) {
      RulesFollow(lines, i);
    }
    if i == |lines| {
      assert more[i] == x;
    }
  }

  lemma {:induction false} RuledMore(lines: seq<Line>, x: Line)
    ensures HasRuled(lines + [x]) <==>
            if x.Agent? then false
            else HasRuled(lines) || (Effective(x) && exists i :: 0 <= i < |lines| && lines[i].Agent?)
  {
    var more := lines + [x];
    assert more[|lines|] == x;
    if HasRuled(more) {
      var i: nat, k: nat :| Ruled(more, i, k);
      assert lines[i] == more[i];
      if k < |lines| {
        assert lines[k] == more[k];
        assert forall m :: k < m < |lines| ==> more[m] == lines[m];
        assert !x.Agent?;
        assert Ruled(lines, i, k);
      }
    }
    if !x.Agent? && HasRuled(lines) {
      var i: nat, k: nat :| Ruled(lines, i, k);
      assert forall m :: k < m < |more| ==> m == |lines| || more[m] == lines[m];
      assert Ruled(more, i, k);
    }
    if !x.Agent? && Effective(x) && exists i :: 0 <= i < |lines| && lines[i].Agent? {
      var i :| 0 <= i < |lines| && lines[i].Agent?;
      assert Ruled(more, i, |lines|);
    }
  }

  lemma {:induction false} LinkedMore(lines: seq<Line>, x: Line, i: nat, j: nat)
    ensures Linked(lines + [x], i, j) <==>
            Linked(lines, i, j) || (j == |lines| && Effective(x) && Current(lines, i))
  {
    var more := lines + [x];
    if j <= |lines| {
      BreakMore(lines, x, i, j);
    }
    assert i < |lines| ==> more[i] == lines[i];
    assert j < |lines| ==> more[j] == lines[j];
    assert more[|lines|] == x;
  }

  ghost predicate Agrees(lines: seq<Line>, s: Scan) {
    && (forall a :: a in s.agents <==> CurrentName(lines, a))
    && (s.rules != [] <==> HasRuled(lines))
    && (s.agents != [] <==> exists i :: 0 <= i < |lines| && lines[i].Agent?)
    && (forall a, r :: Together(s.groups + [Group(s.agents, s.rules)], a, r) <==> LinkedBy(lines, a, r))
  }

  lemma {:induction false} TakeNames(lines: seq<Line>, x: Line, s: Scan, a: string)
    requires Agrees(lines, s)
    ensures a in Take(s, x).agents <==> CurrentName(lines + [x], a)
  {
    hide Break, Together, LinkedBy, HasRuled;
    var more := lines + [x];
    if CurrentName(more, a) {
      var i: nat :| Current(more, i) && more[i].name == a;
      CurrentMore(lines, x, i);
      if i < |lines| {
        assert CurrentName(lines, a);
      }
    }
    if CurrentName(lines, a) && (x.Agent? ==> !HasRuled(lines)) {
      var i: nat :| Current(lines, i) && lines[i].name == a;
      CurrentMore(lines, x, i);
      assert more[i].name == a;
    }
    if x.Agent? && x.name == a {
      CurrentMore(lines, x, |lines|);
      assert more[|lines|].name == a;
    }
  }

  lemma {:induction false} LinkedByMore(lines: seq<Line>, x: Line, a: string, r: Rule)
    ensures LinkedBy(lines + [x], a, r) <==>
            LinkedBy(lines, a, r) || (Effective(x) && x.rule == r && CurrentName(lines, a))
  {
    var more := lines + [x];
    if LinkedBy(more, a, r) {
      var i: nat, j: nat :| Linked(more, i, j) && more[i].name == a && more[j].rule == r;
      LinkedMore(lines, x, i, j);
      assert more[i] == lines[i] && (j < |lines| ==> more[j] == lines[j]);
      if Linked(lines, i, j) {
        assert LinkedBy(lines, a, r);
      } else {
        assert CurrentName(lines, a);
      }
    }
    if LinkedBy(lines, a, r) {
      var i: nat, j: nat :| Linked(lines, i, j) && lines[i].name == a && lines[j].rule == r;
      LinkedMore(lines, x, i, j);
      assert more[i] == lines[i] && more[j] == lines[j];
    }
    if Effective(x) && x.rule == r && CurrentName(lines, a) {
      var i: nat :| Current(lines, i) && lines[i].name == a;
      LinkedMore(lines, x, i, |lines|);
      assert more[i] == lines[i] && more[|lines|] == x;
    }
  }

  lemma {:induction false} TakePairs(s: Scan, x: Line, a: string, r: Rule)
    requires s.rules != [] ==> s.agents != []
    ensures var t := Take(s, x);
            Together(t.groups + [Group(t.agents, t.rules)], a, r) <==>
            Together(s.groups + [Group(s.agents, s.rules)], a, r) || (Effective(x) && x.rule == r && a in s.agents)
  {
    var t := Take(s, x);
  }

  /** What the scan holds is what the lines say. */
  lemma {:induction false} ScanAgrees(lines: seq<Line>)
    ensures Agrees(lines, ScanAll(lines))
  {
    if lines == [] {
      EmptyAgrees();
    } else {
      hide Current, Together, LinkedBy, HasRuled, CurrentName;
      var init, x := lines[..|lines| - 1], lines[|lines| - 1];
      assert lines == init + [x];
      var s := ScanAll(init);
      ScanAgrees(init);
      RuledMore(init, x);
      forall a: string
        ensures a in Take(s, x).agents <==> CurrentName(lines, a)
      {
        TakeNames(init, x, s, a);
      }
      forall a: string, r: Rule
        ensures var t := Take(s, x); Together(t.groups + [Group(t.agents, t.rules)], a, r) <==> LinkedBy(lines, a, r)
      {
        TakePairs(s, x, a, r);
        LinkedByMore(init, x, a, r);
      }
      AgentsMore(init, x);
    }
  }

  lemma AgentsMore(lines: seq<Line>, x: Line)
    ensures (exists i :: 0 <= i < |lines + [x]| && (lines + [x])[i].Agent?) <==>
            x.Agent? || exists i :: 0 <= i < |lines| && lines[i].Agent?
  {
    var more := lines + [x];
    assert more[|lines|] == x;
    assert forall i :: 0 <= i < |lines| ==> more[i] == lines[i];
  }

  lemma EmptyAgrees()
    ensures Agrees([], Scan([], [], []))
  {
    forall a: string, r: Rule
      ensures !Together([] + [Group([], [])], a, r)
    {
    }
  }

  // ---- The closest fit ----

  lemma {:induction false} BestFitOfLines(reader: string, lines: seq<Line>)
    ensures BestFit(reader, GroupsOf(ScanAll(lines))) == Closest(reader, lines) && Closest(reader, lines) >= -1
  {
    if lines == [] {
    } else {
      var init, x := lines[..|lines| - 1], lines[|lines| - 1];
      var s := ScanAll(init);
      BestFitOfLines(reader, init);
      ScanAgrees(init);
      hide Agrees, HasRuled;
      BestFitTakes(reader, s, x);
    }
  }

  lemma {:induction false} BestFitTakes(reader: string, s: Scan, x: Line)
    requires s.rules != [] ==> s.agents != []
    ensures BestFit(reader, GroupsOf(Take(s, x))) ==
            Larger(BestFit(reader, GroupsOf(s)), if x.Agent? then AgentLength(reader, x.name) else -1)
  {
    hide BestFit, Fit, AgentLength;
    var t, g := Take(s, x), Group(s.agents, s.rules);
    NoFit(reader);
    FitIsClosest(reader, s.agents);
    BestFitLast(reader, s.groups, g);
    BestFitLast(reader, t.groups, Group(t.agents, t.rules));
    FitAtLeast(reader, s.groups);
    if x.Agent? {
      FitLast(reader, s.agents, x.name);
      assert [] + [x.name] == [x.name];
      FitLast(reader, [], x.name);
    }
  }

  lemma NoFit(reader: string)
    ensures Fit(reader, []) == -1
  {
  }

  lemma BestFitLast(reader: string, groups: seq<Group>, g: Group)
    ensures BestFit(reader, groups + [g]) == Larger(BestFit(reader, groups), Fit(reader, g.agents))
  {
    assert (groups + [g])[..|groups|] == groups;
  }

  lemma FitLast(reader: string, agents: seq<string>, a: string)
    ensures Fit(reader, agents + [a]) == Larger(Fit(reader, agents), AgentLength(reader, a))
  {
    assert (agents + [a])[..|agents|] == agents;
  }

  lemma {:induction false} FitAtLeast(reader: string, groups: seq<Group>)
    ensures BestFit(reader, groups) >= -1
  {
    if groups == [] {
    } else {
      FitAtLeast(reader, groups[..|groups| - 1]);
    }
  }

  // ---- The rules that speak ----

  lemma {:induction false} GatheredIsByLines(reader: string, lines: seq<Line>, rules: seq<Rule>)
    requires var groups := GroupsOf(ScanAll(lines));
             forall r ::
               r in rules <==>
               BestFit(reader, groups) >= 0 && Speaks(reader, groups, BestFit(reader, groups), r)
    ensures forall r :: r in rules <==> r in RulesFor(reader, lines)
  {
    hide Linked, Fit, BestFit, AgentLength;
    var s := ScanAll(lines);
    var best := Closest(reader, lines);
    BestFitOfLines(reader, lines);
    ScanAgrees(lines);
    if best >= 0 {
      forall r: Rule
        ensures Speaks(reader, GroupsOf(s), best, r) <==> SpokenFor(reader, lines, r)
      {
        SpeaksIsSpokenFor(reader, lines, s, r);
      }
    }
  }

  lemma {:induction false} SpeaksIsSpokenFor(reader: string, lines: seq<Line>, s: Scan, r: Rule)
    requires Agrees(lines, s) && BestFit(reader, GroupsOf(s)) == Closest(reader, lines) >= 0
    ensures Speaks(reader, GroupsOf(s), Closest(reader, lines), r) <==> SpokenFor(reader, lines, r)
  {
    hide Break, Fit, BestFit, AgentLength, CurrentName, HasRuled;
    var best, groups, all := Closest(reader, lines), GroupsOf(s), s.groups + [Group(s.agents, s.rules)];
    if Speaks(reader, groups, best, r) {
      var g :| g in groups && Fit(reader, g.agents) == best && r in g.rules;
      FitIsClosest(reader, g.agents);
      var a :| a in g.agents && AgentLength(reader, a) == best;
      assert g in all;
      assert Together(all, a, r);
      var i: nat, j: nat :| Linked(lines, i, j) && lines[i].name == a && lines[j].rule == r;
    }
    if SpokenFor(reader, lines, r) {
      var i: nat, j: nat :| Linked(lines, i, j) && lines[j].rule == r && AgentLength(reader, lines[i].name) == best;
      var a := lines[i].name;
      assert LinkedBy(lines, a, r);
      assert Together(all, a, r);
      var g :| g in all && a in g.agents && r in g.rules;
      assert g in groups;
      FitIsClosest(reader, g.agents);
      BestFitIsBest(reader, groups);
    }
  }

  // ---- The grouping of the standard ----

  /** Between line `i` and line `n` a rule line, empty or not, is followed by an agent line. */
  ghost predicate StandardBreak(lines: seq<Line>, i: nat, n: nat)
    requires n <= |lines|
  {
    exists k, m :: i < k < m < n && lines[k].Says? && lines[m].Agent?
  }

  /**
   One group in the sense of section 2.2.1 of RFC 9309, where an empty pattern is a rule
   like any other.
   */
  ghost predicate StandardLinked(lines: seq<Line>, i: nat, j: nat) {
    i < j < |lines| && lines[i].Agent? && Effective(lines[j]) && !StandardBreak(lines, i, j)
  }

  /** Only empty rules stand between an agent line and a later one, and an effective rule follows. */
  predicate Merges(lines: seq<Line>, i: nat, k: nat, m: nat, j: nat) {
    && i < k < m < j < |lines|
    && lines[i].Agent? && lines[k].Says? && !Effective(lines[k]) && lines[m].Agent? && Effective(lines[j])
    && forall n :: i < n < m ==> !Effective(lines[n])
  }

  ghost predicate Merged(lines: seq<Line>) {
    exists i: nat, k: nat, m: nat, j: nat :: Merges(lines, i, k, m, j)
  }

  lemma StandardLinkIsLink(lines: seq<Line>, i: nat, j: nat)
    requires StandardLinked(lines, i, j)
    ensures Linked(lines, i, j)
  {
  }

  lemma {:induction false} ExtraLinkIsMerge(lines: seq<Line>, i: nat, j: nat) returns (k: nat, m: nat)
    requires Linked(lines, i, j) && !StandardLinked(lines, i, j)
    ensures Merges(lines, i, k, m, j)
  {
    k, m :| i < k < m < j && lines[k].Says? && lines[m].Agent?;
  }

  lemma {:induction false} FirstEffective(lines: seq<Line>, m: nat, j: nat) returns (n: nat)
    requires m < j < |lines| && Effective(lines[j])
    ensures m < n <= j && Effective(lines[n]) && forall e :: m < e < n ==> !Effective(lines[e])
  {
    if e: nat :| m < e < j && Effective(lines[e]) {
      n := FirstEffective(lines, m, e);
    } else {
      n := j;
    }
  }

  lemma {:induction false} MergeIsExtraLink(lines: seq<Line>, i: nat, k: nat, m: nat, j: nat) returns (n: nat)
    requires Merges(lines, i, k, m, j)
    ensures Linked(lines, i, n) && !StandardLinked(lines, i, n)
  {
    n := FirstEffective(lines, m, j);
    assert forall e :: i < e < n ==> !Effective(lines[e]);
    assert StandardBreak(lines, i, n);
  }

  /** The code groups as the standard does if and only if no agent line has only empty rules before the next one. */
  lemma {:induction false} GroupsExactlyWhen(lines: seq<Line>)
    ensures (forall i: nat, j: nat :: Linked(lines, i, j) <==> StandardLinked(lines, i, j)) <==> !Merged(lines)
  {
    hide Linked, StandardLinked;
    if Merged(lines) {
      var i: nat, k: nat, m: nat, j: nat :| Merges(lines, i, k, m, j);
      var n := MergeIsExtraLink(lines, i, k, m, j);
    } else {
      forall i: nat, j: nat
        ensures Linked(lines, i, j) <==> StandardLinked(lines, i, j)
      {
        if StandardLinked(lines, i, j) {
          StandardLinkIsLink(lines, i, j);
        } else if Linked(lines, i, j) {
          var k, m := ExtraLinkIsMerge(lines, i, j);
        }
      }
    }
  }

  ghost predicate StandardSpokenFor(reader: string, lines: seq<Line>, r: Rule) {
    exists i: nat, j: nat ::
      StandardLinked(lines, i, j) && lines[j].rule == r && AgentLength(reader, lines[i].name) == Closest(reader, lines)
  }

  /** The rules that speak for a reader in the standard's grouping. */
  ghost function StandardRulesFor(reader: string, lines: seq<Line>): iset<Rule> {
    iset r | Closest(reader, lines) >= 0 && StandardSpokenFor(reader, lines, r)
  }

  /**
   The code never misses a rule that the standard applies, and without a merge it applies
   no other, so it decides every path as the standard does.
   */
  lemma {:induction false} DecidesAsTheStandard(matches: string -> bool, reader: string, lines: seq<Line>)
    ensures StandardRulesFor(reader, lines) <= RulesFor(reader, lines)
    ensures !Merged(lines) ==> (Denies(matches, RulesFor(reader, lines)) <==>
            Denies(matches, StandardRulesFor(reader, lines)))
  {
    hide Merged, Denies;
    forall r | StandardSpokenFor(reader, lines, r)
      ensures SpokenFor(reader, lines, r)
    {
      var i: nat, j: nat :| StandardLinked(lines, i, j) && lines[j].rule == r &&
        AgentLength(reader, lines[i].name) == Closest(reader, lines);
      StandardLinkIsLink(lines, i, j);
    }
    if !Merged(lines) {
      GroupsExactlyWhen(lines);
      forall r | SpokenFor(reader, lines, r)
        ensures StandardSpokenFor(reader, lines, r)
      {
        var i: nat, j: nat :| Linked(lines, i, j) && lines[j].rule == r &&
          AgentLength(reader, lines[i].name) == Closest(reader, lines);
        assert StandardLinked(lines, i, j);
      }
      assert RulesFor(reader, lines) == StandardRulesFor(reader, lines);
    }
  }

  /**
   A merge that hands the agent at line `i`, who fits the reader closest, a rule that does
   not speak for it otherwise.
   */
  ghost predicate Imposes(reader: string, lines: seq<Line>, i: nat, k: nat, m: nat, j: nat) {
    && Merges(lines, i, k, m, j) && !Break(lines, i, j)
    && AgentLength(reader, lines[i].name) == Closest(reader, lines) >= 0
    && lines[j].rule !in StandardRulesFor(reader, lines)
  }

  /** For which readers the rules differ: exactly those on whom a merge imposes a rule. */
  lemma {:induction false} RulesDifferExactly(reader: string, lines: seq<Line>)
    ensures RulesFor(reader, lines) != StandardRulesFor(reader, lines) <==>
            exists i: nat, k: nat, m: nat, j: nat :: Imposes(reader, lines, i, k, m, j)
  {
    DecidesAsTheStandard(_ => true, reader, lines);
    var code, standard := RulesFor(reader, lines), StandardRulesFor(reader, lines);
    if code != standard {
      var r :| r in code && r !in standard;
      var i: nat, j: nat :| Linked(lines, i, j) && lines[j].rule == r &&
        AgentLength(reader, lines[i].name) == Closest(reader, lines);
      assert !StandardLinked(lines, i, j);
      var k, m := ExtraLinkIsMerge(lines, i, j);
      assert Imposes(reader, lines, i, k, m, j);
    }
    if i: nat, k: nat, m: nat, j: nat :| Imposes(reader, lines, i, k, m, j) {
      assert Linked(lines, i, j);
      assert SpokenFor(reader, lines, lines[j].rule);
    }
  }

  /**
   A rule that the standard does not give the reader tips the decision: it matches, the
   standard decides otherwise, and no matching rule of the code outweighs it.
   */
  ghost predicate Tips(matches: string -> bool, code: iset<Rule>, standard: iset<Rule>, r: Rule) {
    && r in code && r !in standard && matches(r.pattern) && (r.allow <==> Denies(matches, standard))
    && (r.allow ==>
          forall d :: d in code && !d.allow && matches(d.pattern) ==> RuleLength(d.pattern) <= RuleLength(r.pattern))
    && (!r.allow ==> Outweighs(matches, code, r))
  }

  ghost predicate IsTipped(matches: string -> bool, code: iset<Rule>, standard: iset<Rule>) {
    exists r :: Tips(matches, code, standard, r)
  }

  /** Every rule is on one of the first `n` lines. */
  ghost predicate Listed(lines: seq<Line>, n: nat, rules: iset<Rule>)
    requires n <= |lines|
  {
    forall r :: r in rules ==> exists j :: 0 <= j < n && lines[j] == Says(r)
  }

  /** Of rules on finitely many lines one is the longest. */
  lemma {:induction false} Longest(lines: seq<Line>, n: nat, rules: iset<Rule>, d: Rule) returns (top: Rule)
    requires n <= |lines| && Listed(lines, n, rules) && d in rules
    ensures top in rules && forall r :: r in rules ==> RuleLength(r.pattern) <= RuleLength(top.pattern)
    decreases n
  {
    hide RuleLength;
    assert n > 0;
    var last := lines[n - 1];
    var others := iset r | r in rules && last != Says(r);
    assert forall r :: r in rules ==> r in others || last.rule == r;
    if e :| e in others {
      assert Listed(lines, n - 1, others);
      top := Longest(lines, n - 1, others, e);
      if last.Says? && last.rule in rules && RuleLength(last.rule.pattern) > RuleLength(top.pattern) {
        top := last.rule;
      }
    } else {
      assert d !in others;
      top := last.rule;
    }
  }

  lemma RulesAreListed(reader: string, lines: seq<Line>)
    ensures Listed(lines, |lines|, RulesFor(reader, lines))
  {
    forall r | r in RulesFor(reader, lines)
      ensures exists j :: 0 <= j < |lines| && lines[j] == Says(r)
    {
      var i: nat, j: nat :| Linked(lines, i, j) && lines[j].rule == r &&
        AgentLength(reader, lines[i].name) == Closest(reader, lines);
      assert lines[j] == Says(r);
    }
  }

  /** More rules decide otherwise if and only if one of them tips the decision. */
  lemma {:induction false} TippedExactly(
    matches: string -> bool, lines: seq<Line>, code: iset<Rule>, standard: iset<Rule>)
    requires standard <= code && Listed(lines, |lines|, code)
    ensures (Denies(matches, code) <==> Denies(matches, standard)) <==> !IsTipped(matches, code, standard)
  {
    hide RuleLength;
    if Denies(matches, code) && !Denies(matches, standard) {
      var d :| d in code && Outweighs(matches, code, d);
      assert d in standard ==> Outweighs(matches, standard, d);
      assert Tips(matches, code, standard, d);
    }
    if !Denies(matches, code) && Denies(matches, standard) {
      var r := Overruled(matches, lines, code, standard);
      assert Tips(matches, code, standard, r);
    }
    if r :| Tips(matches, code, standard, r) {
      if r.allow {
        assert forall d :: d in code ==> !Outweighs(matches, code, d);
      } else {
        assert Denies(matches, code);
      }
    }
  }

  /** What permits a path that the standard denies is as long as every rule that would deny it. */
  lemma {:induction false} Overruled(
    matches: string -> bool, lines: seq<Line>, code: iset<Rule>, standard: iset<Rule>) returns (r: Rule)
    requires standard <= code && Listed(lines, |lines|, code)
    requires !Denies(matches, code) && Denies(matches, standard)
    ensures Tips(matches, code, standard, r)
  {
    hide RuleLength;
    var d :| d in standard && Outweighs(matches, standard, d);
    var against := iset x | x in code && !x.allow && matches(x.pattern);
    var top := Longest(lines, |lines|, against, d);
    assert !Outweighs(matches, code, top);
    r :| r in code && r.allow && matches(r.pattern) && RuleLength(r.pattern) >= RuleLength(top.pattern);
  }

  /** A path is decided otherwise if and only if a rule that a merge imposes tips the decision. */
  lemma {:induction false} DecidedOtherwiseExactly(matches: string -> bool, reader: string, lines: seq<Line>)
    ensures var code, standard := RulesFor(reader, lines), StandardRulesFor(reader, lines);
            (Denies(matches, code) <==> Denies(matches, standard)) <==> !IsTipped(matches, code, standard)
  {
    hide RulesFor, StandardRulesFor, Denies, IsTipped, Listed;
    DecidesAsTheStandard(matches, reader, lines);
    RulesAreListed(reader, lines);
    TippedExactly(matches, lines, RulesFor(reader, lines), StandardRulesFor(reader, lines));
  }

  /**
   The additional rules can matter: one forbids a pattern that no rule permits, or permits
   one at least as long as a pattern that the standard forbids and does not permit.
   */
  ghost predicate Matters(code: iset<Rule>, standard: iset<Rule>) {
    || (exists p :: Forbids(code, p) && Rule(p, false) !in standard)
    || (exists p, q :: Rule(p, true) in code && Rule(p, true) !in standard && Forbids(standard, q) &&
          RuleLength(q) <= RuleLength(p))
  }

  predicate Forbids(rules: iset<Rule>, p: string) {
    Rule(p, false) in rules && Rule(p, true) !in rules
  }

  ghost predicate Disagree(code: iset<Rule>, standard: iset<Rule>) {
    exists matches: string -> bool :: !(Denies(matches, code) <==> Denies(matches, standard))
  }

  /** For which readers some set of matching patterns is decided otherwise. */
  lemma {:induction false} ReadersDecidedOtherwise(reader: string, lines: seq<Line>)
    ensures var code, standard := RulesFor(reader, lines), StandardRulesFor(reader, lines);
            Disagree(code, standard) <==> Matters(code, standard)
  {
    hide RulesFor, StandardRulesFor;
    DecidesAsTheStandard(_ => true, reader, lines);
    var code, standard := RulesFor(reader, lines), StandardRulesFor(reader, lines);
    if Matters(code, standard) {
      MatteringIsSeen(code, standard);
    }
    if matches :| !(Denies(matches, code) <==> Denies(matches, standard)) {
      DecidedOtherwiseExactly(matches, reader, lines);
      var r :| Tips(matches, code, standard, r);
      TippingMatters(matches, code, standard, r);
    }
  }

  lemma {:induction false} TippingMatters(matches: string -> bool, code: iset<Rule>, standard: iset<Rule>, r: Rule)
    requires standard <= code && Tips(matches, code, standard, r)
    ensures Matters(code, standard)
  {
    hide RuleLength;
    if r.allow {
      var q :| q in standard && Outweighs(matches, standard, q);
      assert Forbids(standard, q.pattern) && r == Rule(r.pattern, true);
    } else {
      assert Forbids(code, r.pattern) && r == Rule(r.pattern, false);
    }
  }

  lemma {:induction false} MatteringIsSeen(code: iset<Rule>, standard: iset<Rule>)
    requires standard <= code && Matters(code, standard)
    ensures Disagree(code, standard)
  {
    hide RuleLength;
    if p :| Forbids(code, p) && Rule(p, false) !in standard {
      var matches := (s: string) => s == p;
      assert Outweighs(matches, code, Rule(p, false));
      assert Denies(matches, code) && !Denies(matches, standard);
    } else {
      var p, q :| Rule(p, true) in code && Rule(p, true) !in standard && Forbids(standard, q) &&
        RuleLength(q) <= RuleLength(p);
      var matches := (s: string) => s == p || s == q;
      assert Outweighs(matches, standard, Rule(q, false));
      assert forall d :: d in code ==> !Outweighs(matches, code, d);
      assert Denies(matches, standard) && !Denies(matches, code);
    }
  }

  /** A reader that is told "Disallow:", which forbids nothing, is denied what the agent named next is denied. */
  lemma {:induction false} EmptyRuleMergesGroups(matches: string -> bool, reader: string, a: string, b: string,
      pattern: string)
    requires pattern != "" && matches(pattern) && AgentLength(reader, a) >= 0 && AgentLength(reader, b) < 0
    ensures var lines := [Agent(a), Says(Rule("", false)), Agent(b), Says(Rule(pattern, false))];
            Denies(matches, RulesFor(reader, lines)) && !Denies(matches, StandardRulesFor(reader, lines))
  {
    var rule := Rule(pattern, false);
    var lines := [Agent(a), Says(Rule("", false)), Agent(b), Says(rule)];
    ClosestOfFour(reader, a, b, rule);
    assert forall k :: 0 < k < 3 ==> !Effective(lines[k]);
    assert Linked(lines, 0, 3);
    assert SpokenFor(reader, lines, rule);
    assert RulesFor(reader, lines) == iset{rule};
    assert Outweighs(matches, iset{rule}, rule);
    assert StandardBreak(lines, 0, 3) by {
      assert lines[1].Says? && lines[2].Agent?;
    }
    assert forall i: nat, j: nat :: StandardLinked(lines, i, j) ==> i == 2;
    assert StandardRulesFor(reader, lines) == iset{};
  }

  lemma ClosestOfFour(reader: string, a: string, b: string, rule: Rule)
    requires AgentLength(reader, a) >= 0 && AgentLength(reader, b) < 0
    ensures Closest(reader, [Agent(a), Says(Rule("", false)), Agent(b), Says(rule)]) == AgentLength(reader, a)
  {
    hide AgentLength;
    var x, y, z, w := Agent(a), Says(Rule("", false)), Agent(b), Says(rule);
    assert [x, y, z, w][..3] == [x, y, z] && [x, y, z][..2] == [x, y] && [x, y][..1] == [x] && [x][..0] == [];
    assert Closest(reader, [x]) == AgentLength(reader, a);
    assert Closest(reader, [x, y]) == AgentLength(reader, a);
    assert Closest(reader, [x, y, z]) == AgentLength(reader, a);
  }
}

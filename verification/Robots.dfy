/**
 The robots policy of `internal/ingestion/network.go`: which group of rules speaks for
 the reader, and which rule of it decides (sections 2.2.1 and 2.2.2 of RFC 9309).

 A document is the sequence of its statements.  Whether a pattern matches a path is a
 parameter.
 */
module Robots {
  import opened Texts

  datatype Rule = Rule(pattern: string, allow: bool)

  /** A line after comments and spaces are gone: names are in lower case. */
  datatype Line = Agent(name: string) | Says(rule: Rule) | Other

  datatype Group = Group(agents: seq<string>, rules: seq<Rule>)

  // ---- Who is meant ----

  /** How closely an agent name fits the reader: -1 for another reader, 0 for everyone. */
  function AgentLength(reader: string, agent: string): int {
    if agent == "*" then 0 else if agent != "" && agent <= reader then ByteLength(agent) else -1
  }

  function Larger(a: int, b: int): int {
    if b > a then b else a
  }

  /** The closest fit among the names of a group. */
  function Fit(reader: string, agents: seq<string>): int {
    if agents == [] then -1 else Larger(Fit(reader, agents[..|agents| - 1]), AgentLength(reader, agents[|agents| - 1]))
  }

  lemma {:induction false} FitIsClosest(reader: string, agents: seq<string>)
    ensures Fit(reader, agents) >= -1
    ensures forall a :: a in agents ==> AgentLength(reader, a) <= Fit(reader, agents)
    ensures Fit(reader, agents) == -1 || exists a :: a in agents && AgentLength(reader, a) == Fit(reader, agents)
  {
    if agents == [] {
    } else {
      var init, last := agents[..|agents| - 1], agents[|agents| - 1];
      assert agents == init + [last];
      FitIsClosest(reader, init);
    }
  }

  method GroupLength(reader: string, agents: seq<string>) returns (n: int)
    ensures n == Fit(reader, agents)
  {
    n := -1;
    for i := 0 to |agents|
      invariant n == Fit(reader, agents[..i]) && n >= -1
    {
      var agent := agents[i];
      assert agents[..i + 1][..i] == agents[..i];
      if agent == "*" && n < 0 {
        n := 0;
      }
      if agent != "" && agent != "*" && agent <= reader && ByteLength(agent) > n {
        n := ByteLength(agent);
      }
    }
    assert agents[..|agents|] == agents;
  }

  // ---- Which rule decides ----

  function WithoutStars(s: string): string {
    if s == "" then "" else (if s[0] == '*' then "" else [s[0]]) + WithoutStars(s[1..])
  }

  /** How specific a pattern is: its length without wildcards and the end mark. */
  function RuleLength(pattern: string): nat {
    var plain := WithoutStars(pattern);
    ByteLength(if plain != "" && plain[|plain| - 1] == '$' then plain[..|plain| - 1] else plain)
  }

  /** Some matching disallow rule is strictly longer than every matching allow rule. */
  ghost predicate Denies(matches: string -> bool, rules: iset<Rule>) {
    exists d :: d in rules && Outweighs(matches, rules, d)
  }

  ghost predicate Outweighs(matches: string -> bool, rules: iset<Rule>, d: Rule) {
    && !d.allow && matches(d.pattern)
    && forall a :: a in rules && a.allow && matches(a.pattern) ==> RuleLength(a.pattern) < RuleLength(d.pattern)
  }

  /** What the rule loop remembers: the greatest length that matched and whether an allow rule has it. */
  ghost predicate Weighed(matches: string -> bool, rules: seq<Rule>, best: int, allowed: bool) {
    && (forall r :: r in rules && matches(r.pattern) ==> RuleLength(r.pattern) <= best)
    && (best == -1 ==> allowed)
    && (best != -1 ==>
          exists r :: r in rules && matches(r.pattern) && RuleLength(r.pattern) == best && r.allow == allowed)
    && (!allowed ==> forall r :: r in rules && matches(r.pattern) && r.allow ==> RuleLength(r.pattern) < best)
  }

  method Decide(matches: string -> bool, rules: seq<Rule>) returns (denied: bool)
    ensures denied <==> Denies(matches, iset r | r in rules)
  {
    var best: int, allowed := -1, true;
    for i := 0 to |rules|
      invariant best >= -1 && Weighed(matches, rules[..i], best, allowed)
    {
      var rule := rules[i];
      assert rules[..i + 1] == rules[..i] + [rule];
      if matches(rule.pattern) {
        var length := RuleLength(rule.pattern);
        if length > best || (length == best && rule.allow) {
          best, allowed := length, rule.allow;
          assert rule in rules[..i + 1];
        }
      }
    }
    assert rules[..|rules|] == rules;
    WeighedDecides(matches, rules, best, allowed);
    return !allowed;
  }

  lemma {:induction false} WeighedDecides(matches: string -> bool, rules: seq<Rule>, best: int, allowed: bool)
    requires Weighed(matches, rules, best, allowed)
    ensures !allowed <==> Denies(matches, iset r | r in rules)
  {
    var all := iset r | r in rules;
    if !allowed {
      var d :| d in rules && matches(d.pattern) && RuleLength(d.pattern) == best && d.allow == allowed;
      assert Outweighs(matches, all, d);
    } else {
      forall d | d in all
        ensures !Outweighs(matches, all, d)
      {
        assert matches(d.pattern) ==> best != -1;
      }
    }
  }

  // ---- Which groups speak ----

  function BestFit(reader: string, groups: seq<Group>): int {
    if groups == [] then -1 else Larger(BestFit(reader, groups[..|groups| - 1]), Fit(reader,
      groups[|groups| - 1].agents))
  }

  ghost predicate Speaks(reader: string, groups: seq<Group>, fit: int, r: Rule) {
    exists g :: g in groups && Fit(reader, g.agents) == fit && r in g.rules
  }

  /** The loop over groups: the rules of all groups with the closest fit. */
  method Gather(reader: string, groups: seq<Group>) returns (rules: seq<Rule>)
    ensures var best := BestFit(reader, groups);
            forall r :: r in rules <==> best >= 0 && Speaks(reader, groups, best, r)
  {
    var best: int := -1;
    rules := [];
    for i := 0 to |groups|
      invariant best == BestFit(reader, groups[..i]) && best >= -1
      invariant forall r :: r in rules <==> best >= 0 && Speaks(reader, groups[..i], best, r)
    {
      var group := groups[i];
      var length := GroupLength(reader, group.agents);
      FitIsClosest(reader, group.agents);
      OneMoreGroup(reader, groups[..i], group, best);
      assert groups[..i + 1] == groups[..i] + [group];
      if length > best {
        best := length;
        rules := group.rules;
      } else if length == best && length >= 0 {
        rules := rules + group.rules;
      }
    }
    assert groups[..|groups|] == groups;
  }

  lemma {:induction false} OneMoreGroup(reader: string, groups: seq<Group>, g: Group, best: int)
    requires best == BestFit(reader, groups)
    ensures var more, fit := groups + [g], Fit(reader, g.agents);
            && BestFit(reader, more) == Larger(best, fit)
            && forall r :: Speaks(reader, more, Larger(best, fit), r) <==>
                           (fit <= best && Speaks(reader, groups, best, r)) || (fit >= best && r in g.rules)
  {
    var more, fit := groups + [g], Fit(reader, g.agents);
    assert more[..|groups|] == groups;
    BestFitIsBest(reader, groups);
    forall r: Rule
      ensures Speaks(reader, more, Larger(best, fit), r) <==>
              (fit <= best && Speaks(reader, groups, best, r)) || (fit >= best && r in g.rules)
    {
      if Speaks(reader, groups, best, r) {
        var h :| h in groups && Fit(reader, h.agents) == best && r in h.rules;
        assert h in more;
      }
      assert g in more;
    }
  }

  lemma {:induction false} BestFitIsBest(reader: string, groups: seq<Group>)
    ensures forall g :: g in groups ==> Fit(reader, g.agents) <= BestFit(reader, groups)
  {
    if groups == [] {
    } else {
      var init, last := groups[..|groups| - 1], groups[|groups| - 1];
      assert groups == init + [last];
      BestFitIsBest(reader, init);
    }
  }

  // ---- Order ----

  ghost predicate SameGroup(g: Group, h: Group) {
    (forall a :: a in g.agents <==> a in h.agents) && (forall r :: r in g.rules <==> r in h.rules)
  }

  ghost predicate Covers(groups: seq<Group>, others: seq<Group>) {
    forall g :: g in others ==> exists h :: h in groups && SameGroup(g, h)
  }

  lemma {:induction false} SameFit(reader: string, g: Group, h: Group)
    requires SameGroup(g, h)
    ensures Fit(reader, g.agents) == Fit(reader, h.agents)
  {
    hide Fit;
    FitIsClosest(reader, g.agents);
    FitIsClosest(reader, h.agents);
  }

  lemma {:induction false} BestFitIsAttained(reader: string, groups: seq<Group>)
    ensures BestFit(reader, groups) == -1 || exists g :: g in groups && Fit(reader, g.agents) == BestFit(reader, groups)
    ensures BestFit(reader, groups) >= -1
  {
    if groups == [] {
    } else {
      var init, last := groups[..|groups| - 1], groups[|groups| - 1];
      assert groups == init + [last];
      BestFitIsAttained(reader, init);
    }
  }

  lemma {:induction false} CoveringFitsBetter(reader: string, groups: seq<Group>, others: seq<Group>)
    requires Covers(groups, others)
    ensures BestFit(reader, others) <= BestFit(reader, groups)
    ensures forall fit, r :: Speaks(reader, others, fit, r) ==> Speaks(reader, groups, fit, r)
  {
    hide Fit, BestFit;
    BestFitIsBest(reader, groups);
    BestFitIsAttained(reader, groups);
    BestFitIsAttained(reader, others);
    forall g | g in others
      ensures Fit(reader, g.agents) <= BestFit(reader, groups)
    {
      var h :| h in groups && SameGroup(g, h);
      SameFit(reader, g, h);
    }
    forall fit: int, r: Rule | Speaks(reader, others, fit, r)
      ensures Speaks(reader, groups, fit, r)
    {
      var g :| g in others && Fit(reader, g.agents) == fit && r in g.rules;
      var h :| h in groups && SameGroup(g, h);
      SameFit(reader, g, h);
    }
  }

  /**
   Reordering or repeating groups, and agents and rules within them, changes neither the fit nor
   the rules that speak.
   */
  lemma {:induction false} GroupOrderDoesNotMatter(reader: string, groups: seq<Group>, others: seq<Group>)
    requires Covers(groups, others) && Covers(others, groups)
    ensures BestFit(reader, groups) == BestFit(reader, others)
    ensures forall r :: Speaks(reader, groups, BestFit(reader, groups), r) <==>
            Speaks(reader, others, BestFit(reader, others), r)
  {
    hide Covers, BestFit, Speaks;
    CoveringFitsBetter(reader, groups, others);
    CoveringFitsBetter(reader, others, groups);
  }
}

/**
 The choice of digest items in `internal/digest/rank.go`: a ranked list is drawn from in
 five passes, four with a quota for one category and one for whatever room is left.
 */
module DigestSelect {
  import opened Ordering

  /** `Unlisted` is any other category text. */
  datatype Category = Security | Release | ComingSoon | Radar | Later | General | Unlisted(name: string)

  datatype Candidate = Candidate(kind: string, id: string, category: Category, score: real, observed: int)

  /** The identity under which an item is listed once. */
  function Key(c: Candidate): string {
    c.kind + ":" + c.id
  }

  function Keys(s: seq<Candidate>): set<string> {
    set c | c in s :: Key(c)
  }

  // ---- Ranking ----

  /** Categories without a priority of their own share that of `security`. */
  function Priority(category: Category): nat {
    match category
    case Security => 0
    case Release => 1
    case ComingSoon => 2
    case Radar => 3
    case Later => 4
    case General => 5
    case Unlisted(_) => 0
  }

  /** The sorting comparison of the source is negative. */
  predicate Before(a: Candidate, b: Candidate) {
    if a.score != b.score then a.score > b.score
    else if Priority(a.category) != Priority(b.category) then Priority(a.category) < Priority(b.category)
    else if a.observed != b.observed then a.observed > b.observed
    else if a.kind != b.kind then Less(a.kind, b.kind)
    else Less(a.id, b.id)
  }

  lemma {:induction false} BeforeIsWeak(a: Candidate, b: Candidate, c: Candidate)
    ensures Before(a, b) ==> !Before(b, a)
    ensures Before(a, c) ==> Before(a, b) || Before(b, c)
  {
    hide Less, Priority;
    LessIsTotal(a.kind, b.kind);
    LessIsTotal(b.kind, c.kind);
    LessIsTotal(a.kind, c.kind);
    LessIsTotal(a.id, b.id);
    LessIsTotal(b.id, c.id);
    if Less(a.kind, c.kind) && Less(c.kind, b.kind) {
      LessIsTransitive(a.kind, c.kind, b.kind);
    }
    if Less(b.kind, a.kind) && Less(a.kind, c.kind) {
      LessIsTransitive(b.kind, a.kind, c.kind);
    }
    if Less(b.id, a.id) && Less(a.id, c.id) {
      LessIsTransitive(b.id, a.id, c.id);
    }
  }

  lemma {:induction false} RankingIsWeak(s: seq<Candidate>)
    ensures Weak(Before, s)
  {
    hide Before;
    forall a, b | a in s && b in s && Before(a, b)
      ensures !Before(b, a)
    {
      BeforeIsWeak(a, b, b);
    }
    forall a, b, c | a in s && b in s && c in s && Before(a, c)
      ensures Before(a, b) || Before(b, c)
    {
      BeforeIsWeak(a, b, c);
    }
  }

  // ---- One pass ----

  /** The first `n` wanted items whose keys are new. */
  function Draw(s: seq<Candidate>, wanted: Candidate -> bool, n: int, seen: set<string>): seq<Candidate> {
    if s == [] || n <= 0 then []
    else if wanted(s[0]) && Key(s[0]) !in seen then [s[0]] + Draw(s[1..], wanted, n - 1, seen + {Key(s[0])})
    else Draw(s[1..], wanted, n, seen)
  }

  /** No key twice. */
  ghost predicate Distinct(s: seq<Candidate>) {
    forall i, j :: 0 <= i < j < |s| ==> Key(s[i]) != Key(s[j])
  }

  /** What is drawn is wanted, new and without repetition. */
  lemma {:induction false} DrawnIsNew(s: seq<Candidate>, wanted: Candidate -> bool, n: int, seen: set<string>)
    ensures var d := Draw(s, wanted, n, seen);
            Distinct(d) && Keys(d) !! seen && (forall c :: c in d ==> c in s && wanted(c)) &&
              |d| <= (if n > 0 then n else 0)
  {
    if s != [] && n > 0 {
      hide Distinct, Key;
      assert s == [s[0]] + s[1..];
      if wanted(s[0]) && Key(s[0]) !in seen {
        var more := seen + {Key(s[0])};
        DrawnIsNew(s[1..], wanted, n - 1, more);
      } else {
        DrawnIsNew(s[1..], wanted, n, seen);
      }
    } else {
      assert Keys([]) == {};
    }
  }

  /** A pass stops short only when no wanted key is left. */
  lemma {:induction false} DrawnIsEnough(s: seq<Candidate>, wanted: Candidate -> bool, n: int, seen: set<string>)
    requires n >= 0
    ensures var d := Draw(s, wanted, n, seen);
            |d| == n || forall c :: c in s && wanted(c) ==> Key(c) in seen + Keys(d)
  {
    if s != [] && n > 0 {
      hide Key;
      assert s == [s[0]] + s[1..];
      if wanted(s[0]) && Key(s[0]) !in seen {
        var more := seen + {Key(s[0])};
        DrawnIsEnough(s[1..], wanted, n - 1, more);
      } else {
        DrawnIsEnough(s[1..], wanted, n, seen);
      }
    }
  }

  /** A wanted item that a pass leaves out ranks no higher than any item it takes. */
  lemma {:induction false} DrawnIsBest(s: seq<Candidate>, wanted: Candidate -> bool, n: int, seen: set<string>,
      left: Candidate, taken: Candidate)
    requires Ordered(Before, s) && left in s && wanted(left)
    requires taken in Draw(s, wanted, n, seen) && Key(left) !in seen + Keys(Draw(s, wanted, n, seen))
    ensures !Before(left, taken)
  {
    hide Before, Key;
    var rest := s[1..];
    assert s == [s[0]] + rest;
    assert Ordered(Before, rest);
    if wanted(s[0]) && Key(s[0]) !in seen {
      var more := seen + {Key(s[0])};
      var d := Draw(rest, wanted, n - 1, more);
      assert left in rest;
      if taken in d {
        DrawnIsBest(rest, wanted, n - 1, more, left, taken);
      } else {
        var i :| 0 <= i < |rest| && rest[i] == left;
        assert s[i + 1] == left;
      }
    } else {
      assert left in rest;
      DrawnIsBest(rest, wanted, n, seen, left, taken);
    }
  }

  // ---- The five passes ----

  function Min(a: int, b: int): int {
    if a < b then a else b
  }

  function In(category: Category): Candidate -> bool {
    (c: Candidate) => c.category == category
  }

  function Any(): Candidate -> bool {
    (c: Candidate) => true
  }

  /** The selection after one more pass. */
  function AfterPass(eligible: seq<Candidate>, maximum: int, selected: seq<Candidate>, wanted: Candidate -> bool,
      quota: int): seq<Candidate> {
    selected + Draw(eligible, wanted, Min(quota, maximum - |selected|), Keys(selected))
  }

  function AfterQuotas(eligible: seq<Candidate>, maximum: int): seq<Candidate> {
    var a := AfterPass(eligible, maximum, [], In(Security), 2);
    var b := AfterPass(eligible, maximum, a, In(Release), 4);
    var c := AfterPass(eligible, maximum, b, In(ComingSoon), 2);
    AfterPass(eligible, maximum, c, In(Radar), 2)
  }

  function Selection(eligible: seq<Candidate>, maximum: int): seq<Candidate> {
    AfterPass(eligible, maximum, AfterQuotas(eligible, maximum), Any(), maximum)
  }

  // ---- The code ----

  function Eligible(cs: seq<Candidate>, minimum: real): seq<Candidate> {
    if cs == [] then []
    else Eligible(cs[..|cs| - 1], minimum) + if cs[|cs| - 1].score >= minimum then [cs[|cs| - 1]] else []
  }

  method AppendCategory(eligible: seq<Candidate>, maximum: int, before: seq<Candidate>, known: set<string>,
      category: Category, quota: int)
    returns (selected: seq<Candidate>, seen: set<string>)
    requires known == Keys(before)
    ensures selected == AfterPass(eligible, maximum, before, In(category), quota)
    ensures seen == Keys(selected)
  {
    hide Key;
    var limit := quota;
    selected, seen := before, known;
    ghost var wanted := In(category);
    ghost var target := AfterPass(eligible, maximum, before, wanted, quota);
    assert eligible[0..] == eligible;
    for i := 0 to |eligible|
      invariant seen == Keys(selected)
      invariant selected + Draw(eligible[i..], wanted, Min(limit, maximum - |selected|), seen) == target
    {
      var c := eligible[i];
      assert eligible[i..][0] == c && eligible[i..][1..] == eligible[i + 1..];
      if c.category != category || |selected| >= maximum || limit <= 0 {
        continue;
      }
      if Key(c) in seen {
        continue;
      }
      KeysLast(selected, c);
      ghost var rest := Draw(eligible[i + 1..], wanted, Min(limit, maximum - |selected|) - 1, seen + {Key(c)});
      assert selected + ([c] + rest) == selected + [c] + rest;
      selected := selected + [c];
      seen := seen + {Key(c)};
      limit := limit - 1;
    }
  }

  lemma KeysLast(s: seq<Candidate>, c: Candidate)
    ensures Keys(s + [c]) == Keys(s) + {Key(c)}
  {
    assert forall x :: x in s + [c] <==> x in s || x == c;
  }

  /** A ranking of the eligible candidates; the source leaves the order of ties open. */
  ghost predicate Ranking(cs: seq<Candidate>, minimum: real, ranked: seq<Candidate>) {
    multiset(ranked) == multiset(Eligible(cs, minimum)) && Ordered(Before, ranked)
  }

  /** `slices.SortFunc`, of which only this much is promised. */
  method Rank(s: seq<Candidate>) returns (ranked: seq<Candidate>)
    ensures multiset(ranked) == multiset(s) && Ordered(Before, ranked)
  {
    hide Before, Sort;
    RankingIsWeak(s);
    SortKeeps(Before, s);
    SortOrders(Before, s);
    return Sort(Before, s);
  }

  method Select(cs: seq<Candidate>, maximum: int, minimum: real)
    returns (selected: seq<Candidate>)
    ensures maximum <= 0 ==> selected == []
    ensures maximum > 0 ==> exists ranked :: Ranking(cs, minimum, ranked) && selected == Selection(ranked, maximum)
  {
    hide AfterPass, Sort, Before, Keys, In, Any;
    if maximum <= 0 {
      return [];
    }
    var eligible := [];
    for i := 0 to |cs|
      invariant eligible == Eligible(cs[..i], minimum)
    {
      assert cs[..i + 1][..i] == cs[..i];
      if cs[i].score >= minimum {
        eligible := eligible + [cs[i]];
      }
    }
    assert cs[..|cs|] == cs;
    eligible := Rank(eligible);
    assert Ranking(cs, minimum, eligible);
    var seen: set<string> := {};
    assert Keys([]) == {} by {
      NoKeys();
    }
    selected, seen := AppendCategory(eligible, maximum, [], seen, Security, 2);
    selected, seen := AppendCategory(eligible, maximum, selected, seen, Release, 4);
    selected, seen := AppendCategory(eligible, maximum, selected, seen, ComingSoon, 2);
    selected, seen := AppendCategory(eligible, maximum, selected, seen, Radar, 2);
    assert selected == AfterQuotas(eligible, maximum);
    selected := FillRoom(eligible, maximum, selected, seen);
  }

  lemma NoKeys()
    ensures Keys([]) == {}
  {
  }

  /** The last loop: whatever ranks highest, until the digest is full. */
  method FillRoom(eligible: seq<Candidate>, maximum: int, before: seq<Candidate>, known: set<string>)
    returns (selected: seq<Candidate>)
    requires known == Keys(before)
    ensures selected == AfterPass(eligible, maximum, before, Any(), maximum)
  {
    hide Key;
    assert Min(maximum, maximum - |before|) == maximum - |before|;
    var seen := known;
    selected := before;
    ghost var wanted := Any();
    ghost var target := AfterPass(eligible, maximum, before, wanted, maximum);
    assert eligible[0..] == eligible;
    for i := 0 to |eligible|
      invariant seen == Keys(selected)
      invariant selected + Draw(eligible[i..], wanted, maximum - |selected|, seen) == target
    {
      var c := eligible[i];
      assert eligible[i..][0] == c && eligible[i..][1..] == eligible[i + 1..];
      if |selected| >= maximum {
        break;
      }
      if Key(c) in seen {
        continue;
      }
      KeysLast(selected, c);
      ghost var rest := Draw(eligible[i + 1..], wanted, maximum - |selected| - 1, seen + {Key(c)});
      assert selected + ([c] + rest) == selected + [c] + rest;
      selected := selected + [c];
      seen := seen + {Key(c)};
    }
  }

  // ---- What is selected ----

  /** Items of the ranked list, no key twice, no more than there is room for. */
  ghost predicate Proper(eligible: seq<Candidate>, maximum: int, selected: seq<Candidate>) {
    Distinct(selected) && |selected| <= maximum && forall c :: c in selected ==> c in eligible
  }

  lemma {:induction false} PassKeeps(eligible: seq<Candidate>, maximum: int, selected: seq<Candidate>,
      wanted: Candidate -> bool, quota: int)
    requires Proper(eligible, maximum, selected) && quota >= 0
    ensures Proper(eligible, maximum, AfterPass(eligible, maximum, selected, wanted, quota))
  {
    hide Draw, Key;
    var n := Min(quota, maximum - |selected|);
    var d := Draw(eligible, wanted, n, Keys(selected));
    DrawnIsNew(eligible, wanted, n, Keys(selected));
    forall i, j | 0 <= i < j < |selected + d|
      ensures Key((selected + d)[i]) != Key((selected + d)[j])
    {
      if i < |selected| <= j {
        assert selected[i] in selected && d[j - |selected|] in d;
        assert Key(selected[i]) in Keys(selected) && Key(d[j - |selected|]) in Keys(d);
      }
    }
  }

  lemma {:induction false} QuotasKeep(eligible: seq<Candidate>, maximum: int)
    requires maximum >= 0
    ensures Proper(eligible, maximum, AfterQuotas(eligible, maximum)) &&
            Proper(eligible, maximum, Selection(eligible, maximum))
  {
    assert Proper(eligible, maximum, []);
    hide AfterPass, Proper;
    PassKeeps(eligible, maximum, [], In(Security), 2);
    var a := AfterPass(eligible, maximum, [], In(Security), 2);
    PassKeeps(eligible, maximum, a, In(Release), 4);
    var b := AfterPass(eligible, maximum, a, In(Release), 4);
    PassKeeps(eligible, maximum, b, In(ComingSoon), 2);
    var c := AfterPass(eligible, maximum, b, In(ComingSoon), 2);
    PassKeeps(eligible, maximum, c, In(Radar), 2);
    PassKeeps(eligible, maximum, AfterPass(eligible, maximum, c, In(Radar), 2), Any(), maximum);
  }

  /**
   A pass takes its quota of new items unless the digest is full or no new key of the
   category is left, and what it leaves of the category ranks no higher than what it takes.
   */
  lemma {:induction false} QuotaIsMet(eligible: seq<Candidate>, maximum: int, selected: seq<Candidate>,
      wanted: Candidate -> bool, quota: int)
    requires Proper(eligible, maximum, selected) && quota >= 0
    ensures var after := AfterPass(eligible, maximum, selected, wanted, quota);
            && selected <= after
            && (forall c :: c in after[|selected|..] ==> wanted(c))
            && (|after| == |selected| + quota || |after| == maximum ||
                forall c :: c in eligible && wanted(c) ==> Key(c) in Keys(after))
            && (Ordered(Before, eligible) ==>
                  forall left, taken ::
                    && left in eligible && wanted(left) && Key(left) !in Keys(after)
                    && taken in after[|selected|..]
                    ==> !Before(left, taken))
  {
    hide Draw, Key, Before, Distinct;
    var n := Min(quota, maximum - |selected|);
    var d := Draw(eligible, wanted, n, Keys(selected));
    var after := selected + d;
    assert after[|selected|..] == d;
    DrawnIsNew(eligible, wanted, n, Keys(selected));
    DrawnIsEnough(eligible, wanted, n, Keys(selected));
    if Ordered(Before, eligible) {
      forall left, taken | left in eligible && wanted(left) && Key(left) !in Keys(after) && taken in d
        ensures !Before(left, taken)
      {
        DrawnIsBest(eligible, wanted, n, Keys(selected), left, taken);
      }
    }
  }

  lemma {:induction false} DistinctKeys(s: seq<Candidate>)
    requires Distinct(s)
    ensures |Keys(s)| == |s|
  {
    if s == [] {
      NoKeys();
    } else {
      var init, last := s[..|s| - 1], s[|s| - 1];
      assert s == init + [last];
      DistinctKeys(init);
      KeysLast(init, last);
      assert Key(last) !in Keys(init);
    }
  }

  lemma SmallerSet<T>(a: set<T>, b: set<T>)
    requires a <= b
    ensures |a| <= |b|
  {
    if a != {} {
      var x :| x in a;
      SmallerSet(a - {x}, b - {x});
    }
  }

  /** As many items as there are keys, up to the maximum, each key once. */
  lemma {:induction false} SelectionIsFull(eligible: seq<Candidate>, maximum: int)
    requires maximum >= 0
    ensures var r := Selection(eligible, maximum);
            && Distinct(r) && (forall c :: c in r ==> c in eligible)
            && |r| == Min(maximum, |Keys(eligible)|)
  {
    var quotas, r := AfterQuotas(eligible, maximum), Selection(eligible, maximum);
    QuotasKeep(eligible, maximum);
    QuotaIsMet(eligible, maximum, quotas, Any(), maximum);
    DistinctKeys(r);
    assert Keys(r) <= Keys(eligible);
    SmallerSet(Keys(r), Keys(eligible));
    if |r| < maximum {
      hide AfterQuotas, AfterPass, Distinct, Key;
      assert forall c :: c in eligible && Any()(c) ==> Key(c) in Keys(r);
      assert Keys(eligible) == Keys(r);
    }
  }

  // ---- The quotas of a digest ----

  /** How many items of a selection are wanted. */
  function Tally(s: seq<Candidate>, wanted: Candidate -> bool): nat {
    if s == [] then 0 else Tally(s[..|s| - 1], wanted) + if wanted(s[|s| - 1]) then 1 else 0
  }

  /** The keys of the wanted items. */
  function KeysOf(s: seq<Candidate>, wanted: Candidate -> bool): set<string> {
    set c | c in s && wanted(c) :: Key(c)
  }

  lemma {:induction false} TallyJoin(a: seq<Candidate>, b: seq<Candidate>, wanted: Candidate -> bool)
    ensures Tally(a + b, wanted) == Tally(a, wanted) + Tally(b, wanted)
  {
    if b == [] {
      assert a + b == a;
    } else {
      assert (a + b)[..|a + b| - 1] == a + b[..|b| - 1];
      TallyJoin(a, b[..|b| - 1], wanted);
    }
  }

  lemma {:induction false} TallyAll(s: seq<Candidate>, wanted: Candidate -> bool)
    requires forall c :: c in s ==> wanted(c)
    ensures Tally(s, wanted) == |s|
  {
    if s == [] {
    } else {
      assert s[|s| - 1] in s && forall c :: c in s[..|s| - 1] ==> c in s;
      TallyAll(s[..|s| - 1], wanted);
    }
  }

  /** A draw takes as many items as it may and as there are new keys. */
  lemma {:induction false} DrawnCount(s: seq<Candidate>, wanted: Candidate -> bool, n: int, seen: set<string>)
    requires n >= 0
    ensures |Draw(s, wanted, n, seen)| == Min(n, |KeysOf(s, wanted) - seen|)
  {
    hide Draw, Key, Distinct;
    var d, left := Draw(s, wanted, n, seen), KeysOf(s, wanted) - seen;
    DrawnIsNew(s, wanted, n, seen);
    DrawnIsEnough(s, wanted, n, seen);
    DistinctKeys(d);
    assert Keys(d) <= left;
    SmallerSet(Keys(d), left);
    if |d| < n {
      assert left == Keys(d);
    }
  }

  /** A pass adds exactly as many wanted items as quota, room and new keys allow. */
  lemma {:induction false} PassAdds(
    eligible: seq<Candidate>, maximum: int, selected: seq<Candidate>, wanted: Candidate -> bool, quota: int)
    requires |selected| <= maximum && quota >= 0
    ensures var after := AfterPass(eligible, maximum, selected, wanted, quota);
            && selected <= after && |after| <= |selected| + quota
            && Tally(after, wanted) == Tally(selected, wanted) +
               Min(quota, Min(maximum - |selected|, |KeysOf(eligible, wanted) - Keys(selected)|))
  {
    hide Draw, KeysOf, Keys, Tally;
    var n := Min(quota, maximum - |selected|);
    var d := Draw(eligible, wanted, n, Keys(selected));
    DrawnCount(eligible, wanted, n, Keys(selected));
    DrawnIsNew(eligible, wanted, n, Keys(selected));
    TallyAll(d, wanted);
    TallyJoin(selected, d, wanted);
  }

  lemma {:induction false} TallyGrows(a: seq<Candidate>, b: seq<Candidate>, wanted: Candidate -> bool)
    requires a <= b
    ensures Tally(a, wanted) <= Tally(b, wanted)
  {
    assert b == a + b[|a|..];
    TallyJoin(a, b[|a|..], wanted);
  }

  /** The room and the keys that a selection leaves to a category. */
  function Allowance(eligible: seq<Candidate>, maximum: int, selected: seq<Candidate>, wanted: Candidate -> bool,
      quota: int): int {
    Min(quota, Min(maximum - |selected|, |KeysOf(eligible, wanted) - Keys(selected)|))
  }

  /** A digest holds its quota of every category, as far as the room and the keys left by the passes before allow. */
  lemma {:induction false} QuotasAreMet(eligible: seq<Candidate>, maximum: int)
    requires maximum >= 0
    ensures var a := AfterPass(eligible, maximum, [], In(Security), 2);
            var b := AfterPass(eligible, maximum, a, In(Release), 4);
            var c := AfterPass(eligible, maximum, b, In(ComingSoon), 2);
            var r := Selection(eligible, maximum);
            && |a| <= 2 && |b| <= 6 && |c| <= 8
            && Tally(r, In(Security)) >= Allowance(eligible, maximum, [], In(Security), 2)
            && Tally(r, In(Release)) >= Allowance(eligible, maximum, a, In(Release), 4)
            && Tally(r, In(ComingSoon)) >= Allowance(eligible, maximum, b, In(ComingSoon), 2)
            && Tally(r, In(Radar)) >= Allowance(eligible, maximum, c, In(Radar), 2)
  {
    hide AfterPass, KeysOf, In, Tally, Any, Keys, Allowance;
    var r := Selection(eligible, maximum);
    var a := AfterPass(eligible, maximum, [], In(Security), 2);
    var b := AfterPass(eligible, maximum, a, In(Release), 4);
    var c := AfterPass(eligible, maximum, b, In(ComingSoon), 2);
    var d := AfterPass(eligible, maximum, c, In(Radar), 2);
    PassGives(eligible, maximum, [], In(Security), 2);
    PassGives(eligible, maximum, a, In(Release), 4);
    PassGives(eligible, maximum, b, In(ComingSoon), 2);
    PassGives(eligible, maximum, c, In(Radar), 2);
    PassGives(eligible, maximum, d, Any(), maximum);
    TallyGrows(a, r, In(Security));
    TallyGrows(b, r, In(Release));
    TallyGrows(c, r, In(ComingSoon));
    TallyGrows(d, r, In(Radar));
  }

  lemma {:induction false} PassGives(
    eligible: seq<Candidate>, maximum: int, selected: seq<Candidate>, wanted: Candidate -> bool, quota: int)
    requires |selected| <= maximum && quota >= 0
    ensures var after := AfterPass(eligible, maximum, selected, wanted, quota);
            && selected <= after && |after| <= |selected| + quota && |after| <= maximum
            && Tally(after, wanted) >= Allowance(eligible, maximum, selected, wanted, quota)
  {
    hide KeysOf, Keys, Tally, Draw;
    PassAdds(eligible, maximum, selected, wanted, quota);
    DrawnIsNew(eligible, wanted, Min(quota, maximum - |selected|), Keys(selected));
  }

  lemma {:induction false} EligibleHas(cs: seq<Candidate>, minimum: real, c: Candidate)
    ensures c in Eligible(cs, minimum) <==> c in cs && c.score >= minimum
  {
    if cs == [] {
    } else {
      var init, last := cs[..|cs| - 1], cs[|cs| - 1];
      assert cs == init + [last];
      EligibleHas(init, minimum, c);
    }
  }

  lemma {:induction false} RankedHas(cs: seq<Candidate>, minimum: real, ranked: seq<Candidate>, c: Candidate)
    requires Ranking(cs, minimum, ranked)
    ensures c in ranked <==> c in cs && c.score >= minimum
  {
    hide Before;
    SameElement(ranked, Eligible(cs, minimum), c);
    EligibleHas(cs, minimum, c);
  }

  /**
   The digest holds candidates that reach the minimum, as many different ones as there
   are and fit.  A candidate that is left out although it reaches the minimum found the
   digest full, and ranks no higher than anything taken to fill the room after the quotas.
   */
  lemma {:induction false} DigestIsBest(cs: seq<Candidate>, maximum: int, minimum: real, eligible: seq<Candidate>)
    requires maximum > 0 && Ranking(cs, minimum, eligible)
    ensures var r := Selection(eligible, maximum);
            && Distinct(r) && (forall c :: c in r ==> c in cs && c.score >= minimum)
            && |r| == Min(maximum, |set c | c in cs && c.score >= minimum :: Key(c)|)
            && AfterQuotas(eligible, maximum) <= r
            && forall left :: left in cs && left.score >= minimum && Key(left) !in Keys(r) ==>
                 && |r| == maximum
                 && forall taken :: taken in r[|AfterQuotas(eligible, maximum)|..] ==> !Before(left, taken)
  {
    hide Sort, Before, Distinct, Key, AfterQuotas, AfterPass, Eligible;
    var quotas, r := AfterQuotas(eligible, maximum), Selection(eligible, maximum);
    forall c: Candidate
      ensures c in eligible <==> c in cs && c.score >= minimum
    {
      RankedHas(cs, minimum, eligible, c);
    }
    SelectionIsFull(eligible, maximum);
    assert Keys(eligible) == set c | c in cs && c.score >= minimum :: Key(c);
    QuotasKeep(eligible, maximum);
    QuotaIsMet(eligible, maximum, quotas, Any(), maximum);
    forall left | left in eligible && Key(left) !in Keys(r)
      ensures |r| == maximum && forall taken :: taken in r[|quotas|..] ==> !Before(left, taken)
    {
      assert Any()(left);
      assert Key(left) in Keys(eligible);
    }
  }

  // ---- What the ranking goes by ----

  /** Kinds without a colon and identities make up the key. */
  lemma {:induction false} KeyExactly(a: Candidate, b: Candidate)
    requires ':' !in a.kind && ':' !in b.kind
    ensures Key(a) == Key(b) <==> a.kind == b.kind && a.id == b.id
  {
    var x, y := Key(a), Key(b);
    assert x[|a.kind|] == ':' && y[|b.kind|] == ':';
    assert forall i :: 0 <= i < |a.kind| ==> x[i] == a.kind[i];
    assert forall i :: 0 <= i < |b.kind| ==> y[i] == b.kind[i];
    if x == y {
      assert |a.kind| == |b.kind|;
      assert a.kind == x[..|a.kind|] && b.kind == y[..|b.kind|];
      assert a.id == x[|a.kind| + 1..] && b.id == y[|b.kind| + 1..];
    }
  }

  const ORDER := [Security, Release, ComingSoon, Radar, Later, General]

  /** The place of a category in the order; an unlisted one is where security is. */
  ghost predicate Place(category: Category, i: nat) {
    i < 6 && (ORDER[i] == category || (i == 0 && category.Unlisted?))
  }

  /** A higher score, then the category that comes first, then the later sighting, then kind and identity. */
  lemma {:induction false} RankedBy(a: Candidate, b: Candidate, i: nat, j: nat)
    requires Place(a.category, i) && Place(b.category, j)
    ensures Before(a, b) <==>
            || a.score > b.score
            || (a.score == b.score && i < j)
            || (a.score == b.score && i == j && a.observed > b.observed)
            || (a.score == b.score && i == j && a.observed == b.observed && a.kind != b.kind && Less(a.kind, b.kind))
            || (a.score == b.score && i == j && a.observed == b.observed && a.kind == b.kind && Less(a.id, b.id))
  {
    hide Less;
    assert Priority(a.category) == i && Priority(b.category) == j;
  }

  lemma {:induction false} EligibleExactly(cs: seq<Candidate>, minimum: real, c: Candidate)
    ensures multiset(Eligible(cs, minimum))[c] == if c.score >= minimum then multiset(cs)[c] else 0
  {
    if cs == [] {
    } else {
      var init, last := cs[..|cs| - 1], cs[|cs| - 1];
      assert cs == init + [last];
      EligibleExactly(init, minimum, c);
    }
  }
}

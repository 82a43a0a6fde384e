/**
 Reciprocal-rank fusion of two result lists, `internal/search/search.go`.

 Scores are reals.  The result is described by the ranks alone: which identities appear,
 with which score, in which order; so neither the order of the input lists nor that of
 the map they are collected in can show.
 */
module Fusion {
  import opened Wrappers
  import opened Ordering

  const MAXIMUM_K := 1000
  const MAXIMUM_INT := 0x7FFF_FFFF_FFFF_FFFF

  datatype Ranked = Ranked(id: string, rank: int)

  datatype Fused = Fused(id: string, score: real, keyword: Option<int>, semantic: Option<int>)

  datatype Problem = InvalidRanking

  /** The rank a list gives to an identity. */
  function RankOf(list: seq<Ranked>, id: string): Option<int> {
    if list == [] then None
    else if list[|list| - 1].id == id then Some(list[|list| - 1].rank)
    else RankOf(list[..|list| - 1], id)
  }

  predicate WellRanked(trim: string -> string, r: Ranked) {
    trim(r.id) != "" && r.rank >= 1
  }

  ghost predicate ValidList(trim: string -> string, list: seq<Ranked>) {
    && (forall i :: 0 <= i < |list| ==> WellRanked(trim, list[i]))
    && (forall i, j :: 0 <= i < j < |list| ==> list[i].id != list[j].id)
  }

  /** What a rank adds to the score. */
  function Share(k: int, rank: Option<int>): real {
    if rank.Some? && k + rank.value > 0 then 1.0 / (k + rank.value) as real else 0.0
  }

  function FusedAt(k: int, keyword: Option<int>, semantic: Option<int>, id: string): Fused {
    Fused(id, Share(k, keyword) + Share(k, semantic), keyword, semantic)
  }

  function Smaller(best: int, rank: Option<int>): int {
    if rank.Some? && rank.value < best then rank.value else best
  }

  function BestRank(f: Fused): int {
    Smaller(Smaller(MAXIMUM_INT, f.keyword), f.semantic)
  }

  /** The order of the result. */
  predicate Precedes(a: Fused, b: Fused) {
    if a.score != b.score then a.score > b.score
    else if BestRank(a) != BestRank(b) then BestRank(a) < BestRank(b)
    else Less(a.id, b.id)
  }

  predicate Listed(a: seq<Ranked>, b: seq<Ranked>, id: string) {
    RankOf(a, id).Some? || RankOf(b, id).Some?
  }

  /** Every listed identity once, with the score its ranks give, in order. */
  ghost predicate IsFusion(k: int, a: seq<Ranked>, b: seq<Ranked>, r: seq<Fused>) {
    && (forall f :: f in r <==> Listed(a, b, f.id) && f == FusedAt(k, RankOf(a, f.id), RankOf(b, f.id), f.id))
    && Strict(Precedes, r)
  }

  // ---- The order is total ----

  lemma {:induction false} PrecedesIsTotal(a: Fused, b: Fused)
    ensures !(Precedes(a, b) && Precedes(b, a)) && (a.id != b.id ==> Precedes(a, b) || Precedes(b, a))
  {
    hide Less, BestRank;
    LessIsTotal(a.id, b.id);
  }

  lemma {:induction false} PrecedesIsWeak(a: Fused, b: Fused, c: Fused)
    ensures Precedes(a, c) ==> Precedes(a, b) || Precedes(b, c)
  {
    hide Less, BestRank;
    LessIsTotal(a.id, b.id);
    if Less(b.id, a.id) && Less(a.id, c.id) {
      LessIsTransitive(b.id, a.id, c.id);
    }
  }

  lemma {:induction false} PrecedesSorts(s: seq<Fused>)
    requires forall x, y :: x in s && y in s && x.id == y.id ==> x == y
    ensures Weak(Precedes, s) && Comparable(Precedes, s)
  {
    hide Precedes;
    forall x, y | x in s && y in s
      ensures (x == y || Precedes(x, y) || Precedes(y, x)) && !(Precedes(x, y) && Precedes(y, x))
    {
      PrecedesIsTotal(x, y);
    }
    forall x, y, z | x in s && y in s && z in s && Precedes(x, z)
      ensures Precedes(x, y) || Precedes(y, z)
    {
      PrecedesIsWeak(x, y, z);
    }
  }

  lemma {:induction false} PrecedesAsymmetric(s: seq<Fused>)
    ensures Asymmetric(Precedes, s)
  {
    hide Precedes;
    forall x, y | x in s && y in s && Precedes(x, y)
      ensures !Precedes(y, x)
    {
      PrecedesIsTotal(x, y);
    }
  }

  // ---- The code ----

  /** What the map of results holds: one fused rank per listed identity. */
  ghost predicate Tabulated(k: int, a: seq<Ranked>, b: seq<Ranked>, results: map<string, Fused>) {
    forall id :: (id in results <==> Listed(a, b, id)) &&
                 (id in results ==> results[id] == FusedAt(k, RankOf(a, id), RankOf(b, id), id))
  }

  /** The `add` closure: one list into the map, as keyword ranks or as semantic ranks. */
  method AddList(trim: string -> string, k: int, before: map<string, Fused>, ranked: seq<Ranked>,
      keywordList: bool, other: seq<Ranked>)
    returns (results: map<string, Fused>, ok: bool)
    requires 1 <= k <= MAXIMUM_K
    requires if keywordList then before == map[] && other == [] else Tabulated(k, other, [], before)
    ensures ok <==> ValidList(trim, ranked)
    ensures ok ==> if keywordList then Tabulated(k, ranked, [], results) else Tabulated(k, other, ranked, results)
  {
    hide Share, ValidList, WellRanked, Tabulated, RankOf;
    var seen: set<string> := {};
    results := before;
    assert ranked[..0] == [];
    EmptyIsValid(trim);
    NothingListed(k);
    for i := 0 to |ranked|
      invariant ValidList(trim, ranked[..i])
      invariant forall id :: id in seen <==> RankOf(ranked[..i], id).Some?
      invariant if keywordList then Tabulated(k, ranked[..i], [], results) else Tabulated(k, other, ranked[..i],
        results)
    {
      var c := ranked[i];
      assert ranked[..i] + [c] == ranked[..i + 1];
      if trim(c.id) == "" || c.rank < 1 {
        BadEntry(trim, ranked, i);
        return results, false;
      }
      if c.id in seen {
        var j := Occurrence(ranked[..i], c.id);
        BadRepeat(trim, ranked, j, i);
        return results, false;
      }
      NewIdentity(trim, ranked, i);
      seen := seen + {c.id};
      var result: Fused := if c.id in results then results[c.id] else Fused("", 0.0, None, None);
      result := result.(id := c.id, score := result.score + 1.0 / (k + c.rank) as real);
      if keywordList {
        result := result.(keyword := Some(c.rank));
        TableGrows(k, ranked[..i], [], results, c, result, true);
      } else {
        result := result.(semantic := Some(c.rank));
        TableGrows(k, other, ranked[..i], results, c, result, false);
      }
      SeenGrows(ranked, i, c.id);
      results := results[c.id := result];
    }
    assert ranked[..|ranked|] == ranked;
    ok := true;
  }

  lemma NothingListed(k: int)
    ensures Tabulated(k, [], [], map[]) && forall id :: RankOf([], id).None?
  {
  }

  lemma {:induction false} RankOfMore(list: seq<Ranked>, c: Ranked, id: string)
    ensures RankOf(list + [c], id) == if c.id == id then Some(c.rank) else RankOf(list, id)
  {
    assert (list + [c])[..|list|] == list;
  }

  lemma {:induction false} SeenGrows(ranked: seq<Ranked>, i: nat, c: string)
    requires i < |ranked| && c == ranked[i].id
    ensures forall id :: RankOf(ranked[..i + 1], id).Some? <==> id == c || RankOf(ranked[..i], id).Some?
  {
    hide RankOf;
    var part, more := ranked[..i], ranked[..i + 1];
    assert part + [ranked[i]] == more;
    forall id: string
      ensures RankOf(more, id).Some? <==> id == c || RankOf(part, id).Some?
    {
      RankOfMore(part, ranked[i], id);
    }
  }

  /** One identity more in one of the lists. */
  lemma {:induction false} TableGrows(k: int, a: seq<Ranked>, b: seq<Ranked>, table: map<string, Fused>, c: Ranked,
      f: Fused, first: bool)
    requires k >= 1 && c.rank >= 1 && Tabulated(k, a, b, table) && RankOf(if first then a else b, c.id).None?
    requires var old_ := if c.id in table then table[c.id] else Fused("", 0.0, None, None);
             f == Fused(c.id, old_.score + 1.0 / (k + c.rank) as real,
                        if first then Some(c.rank) else old_.keyword, if first then old_.semantic else Some(c.rank))
    ensures if first then Tabulated(k, a + [c], b, table[c.id := f]) else Tabulated(k, a, b + [c], table[c.id := f])
  {
    hide Share, RankOf;
    ShareIs(k, c.rank);
    var x, y := if first then a + [c] else a, if first then b else b + [c];
    forall id: string
      ensures (id in table[c.id := f] <==> Listed(x, y, id)) &&
              (id in table[c.id := f] ==> table[c.id := f][id] == FusedAt(k, RankOf(x, id), RankOf(y, id), id))
    {
      RankOfMore(a, c, id);
      RankOfMore(b, c, id);
    }
  }

  lemma EmptyIsValid(trim: string -> string)
    ensures ValidList(trim, [])
  {
  }

  lemma BadEntry(trim: string -> string, list: seq<Ranked>, i: nat)
    requires i < |list| && (trim(list[i].id) == "" || list[i].rank < 1)
    ensures !ValidList(trim, list)
  {
    assert !WellRanked(trim, list[i]);
  }

  lemma BadRepeat(trim: string -> string, list: seq<Ranked>, j: nat, i: nat)
    requires j < i < |list| && list[j].id == list[i].id
    ensures !ValidList(trim, list)
  {
  }

  lemma ShareIs(k: int, rank: int)
    requires k >= 1 && rank >= 1
    ensures Share(k, Some(rank)) == 1.0 / (k + rank) as real && Share(k, None) == 0.0
  {
  }

  lemma {:induction false} Occurrence(list: seq<Ranked>, id: string) returns (j: nat)
    requires RankOf(list, id).Some?
    ensures j < |list| && list[j].id == id && RankOf(list, id) == Some(list[j].rank)
  {
    if list[|list| - 1].id == id {
      j := |list| - 1;
    } else {
      j := Occurrence(list[..|list| - 1], id);
    }
  }

  lemma {:induction false} Occurs(list: seq<Ranked>, j: nat)
    requires j < |list|
    ensures RankOf(list, list[j].id).Some?
  {
    if j < |list| - 1 {
      Occurs(list[..|list| - 1], j);
    }
  }

  lemma {:induction false} NewIdentity(trim: string -> string, list: seq<Ranked>, i: nat)
    requires i < |list| && ValidList(trim, list[..i]) && RankOf(list[..i], list[i].id).None?
    requires trim(list[i].id) != "" && list[i].rank >= 1
    ensures ValidList(trim, list[..i + 1])
  {
    var part := list[..i];
    forall j | 0 <= j < i
      ensures list[j].id != list[i].id
    {
      Occurs(part, j);
      assert part[j] == list[j];
    }
    var whole := list[..i + 1];
    forall a, b | 0 <= a < b < |whole|
      ensures whole[a].id != whole[b].id
    {
      assert b < i ==> part[a].id != part[b].id;
    }
    forall a | 0 <= a < |whole|
      ensures WellRanked(trim, whole[a])
    {
      assert a < i ==> part[a] == list[a];
    }
  }

  /** The values of the map, in whatever order its keys come. */
  method Collect(results: map<string, Fused>) returns (s: seq<Fused>)
    requires forall id :: id in results ==> results[id].id == id
    ensures Once(s) && forall f :: f in s <==> f.id in results && results[f.id] == f
  {
    s := [];
    var left := results.Keys;
    while left != {}
      invariant left <= results.Keys && Once(s)
      invariant forall f :: f in s <==> f.id in results.Keys - left && results[f.id] == f
      decreases left
    {
      var id :| id in left;
      left := left - {id};
      assert results[id] !in s;
      s := s + [results[id]];
    }
  }

  /** `Fuse`: it fails exactly on a bad constant or a bad list, and else returns the fusion. */
  method Fuse(trim: string -> string, keyword: seq<Ranked>, semantic: seq<Ranked>, k: int)
    returns (r: Result<seq<Fused>, Problem>)
    ensures r.Ok? <==> 1 <= k <= 1000 && ValidList(trim, keyword) && ValidList(trim, semantic)
    ensures r.Ok? ==> IsFusion(k, keyword, semantic, r.value)
    ensures r.Ok? && Representable(keyword) && Representable(semantic) ==> Means(k, keyword, semantic, r.value)
  {
    if k < 1 || k > MAXIMUM_K {
      return Err(InvalidRanking);
    }
    hide ValidList, Precedes, Sort;
    var table, ok := AddList(trim, k, map[], keyword, true, []);
    if !ok {
      return Err(InvalidRanking);
    }
    table, ok := AddList(trim, k, table, semantic, false, keyword);
    if !ok {
      return Err(InvalidRanking);
    }
    var fused := Collect(table);
    assert forall f ::
        f in fused <==>
        Listed(keyword, semantic, f.id) && f == FusedAt(k, RankOf(keyword, f.id), RankOf(semantic, f.id), f.id);
    PrecedesSorts(fused);
    SortIsStrict(Precedes, fused);
    var sorted := Sort(Precedes, fused);
    hide Means, Representable;
    if Representable(keyword) && Representable(semantic) {
      FusionMeans(trim, k, keyword, semantic, sorted);
    }
    return Ok(sorted);
  }

  // ---- What the result depends on ----

  /** The result is determined by the ranks alone, so permuting a list changes nothing. */
  lemma {:induction false} OnlyRanksMatter(k: int, a: seq<Ranked>, b: seq<Ranked>, c: seq<Ranked>, d: seq<Ranked>,
      r: seq<Fused>, s: seq<Fused>)
    requires IsFusion(k, a, b, r) && IsFusion(k, c, d, s)
    requires forall id :: RankOf(a, id) == RankOf(c, id) && RankOf(b, id) == RankOf(d, id)
    ensures r == s
  {
    hide Precedes, Share, RankOf;
    PrecedesAsymmetric(r);
    StrictIsUnique(Precedes, r, s);
  }

  lemma {:induction false} PermutedRanks(trim: string -> string, a: seq<Ranked>, b: seq<Ranked>, id: string)
    requires ValidList(trim, a) && ValidList(trim, b) && forall x :: x in a <==> x in b
    ensures RankOf(a, id) == RankOf(b, id)
  {
    if RankOf(a, id).Some? {
      SameRank(trim, a, b, id);
    } else if RankOf(b, id).Some? {
      SameRank(trim, b, a, id);
    }
  }

  lemma {:induction false} SameRank(trim: string -> string, a: seq<Ranked>, b: seq<Ranked>, id: string)
    requires ValidList(trim, b) && (forall x :: x in a ==> x in b) && RankOf(a, id).Some?
    ensures RankOf(b, id) == RankOf(a, id)
  {
    var i := Occurrence(a, id);
    assert a[i] in b;
    var j :| 0 <= j < |b| && b[j] == a[i];
    Occurs(b, j);
    var m := Occurrence(b, id);
    assert m == j;
  }

  function Swap(f: Fused): Fused {
    f.(keyword := f.semantic, semantic := f.keyword)
  }

  /** Exchanging the two lists exchanges the two ranks of every entry and nothing else. */
  lemma {:induction false} SwappedLists(k: int, a: seq<Ranked>, b: seq<Ranked>, r: seq<Fused>)
    requires IsFusion(k, a, b, r)
    ensures IsFusion(k, b, a, seq(|r|, i requires 0 <= i < |r| => Swap(r[i])))
  {
    hide Share, RankOf, Less;
    var s := seq(|r|, i requires 0 <= i < |r| => Swap(r[i]));
    forall i, j | 0 <= i < j < |s|
      ensures Precedes(s[i], s[j])
    {
      assert Precedes(r[i], r[j]);
    }
    forall f: Fused
      ensures f in s <==> Swap(f) in r
    {
      if f in s {
        var i :| 0 <= i < |s| && s[i] == f;
        assert Swap(f) == r[i];
      }
      if Swap(f) in r {
        var i :| 0 <= i < |r| && r[i] == Swap(f);
        assert s[i] == f;
      }
    }
    forall f: Fused
      ensures f in s <==> Listed(b, a, f.id) && f == FusedAt(k, RankOf(b, f.id), RankOf(a, f.id), f.id)
    {
      assert Swap(f) in r <==> Listed(a, b, f.id) && Swap(f) == FusedAt(k, RankOf(a, f.id), RankOf(b, f.id), f.id);
    }
  }

  // ---- Dominance ----

  /** At least as good: listed wherever the other is, and at no worse a rank. */
  predicate AtLeast(a: Option<int>, b: Option<int>) {
    b.Some? ==> a.Some? && a.value <= b.value
  }

  lemma {:induction false} ShareGrows(k: int, a: Option<int>, b: Option<int>)
    requires k >= 1 && AtLeast(a, b) && (a.Some? ==> a.value >= 1) && (b.Some? ==> b.value >= 1)
    ensures Share(k, a) >= Share(k, b) && (a != b ==> Share(k, a) > Share(k, b))
  {
    if a.Some? && b.Some? {
      Reciprocal((k + a.value) as real, (k + b.value) as real);
    }
  }

  lemma Reciprocal(x: real, y: real)
    requires 0.0 < x <= y
    ensures 1.0 / x >= 1.0 / y && (x != y ==> 1.0 / x > 1.0 / y)
  {
    assert 1.0 / x - 1.0 / y == (y - x) / (x * y);
  }

  /** An identity at least as good in both lists and better in one comes first. */
  lemma {:induction false} BetterComesFirst(trim: string -> string, k: int, a: seq<Ranked>, b: seq<Ranked>,
      r: seq<Fused>, i: nat, j: nat)
    requires 1 <= k <= MAXIMUM_K && ValidList(trim, a) && ValidList(trim, b) && IsFusion(k, a, b, r) &&
            i < |r| && j < |r|
    requires AtLeast(RankOf(a, r[i].id), RankOf(a, r[j].id)) && AtLeast(RankOf(b, r[i].id), RankOf(b, r[j].id))
    requires RankOf(a, r[i].id) != RankOf(a, r[j].id) || RankOf(b, r[i].id) != RankOf(b, r[j].id)
    ensures i < j
  {
    var x, y := r[i], r[j];
    assert x in r && y in r;
    RanksArePositive(trim, a, x.id);
    RanksArePositive(trim, a, y.id);
    RanksArePositive(trim, b, x.id);
    RanksArePositive(trim, b, y.id);
    hide Share, RankOf, Less, BestRank;
    ShareGrows(k, RankOf(a, x.id), RankOf(a, y.id));
    ShareGrows(k, RankOf(b, x.id), RankOf(b, y.id));
    assert Precedes(x, y);
    PrecedesIsTotal(x, y);
  }

  lemma {:induction false} RanksArePositive(trim: string -> string, list: seq<Ranked>, id: string)
    requires ValidList(trim, list)
    ensures RankOf(list, id).Some? ==> RankOf(list, id).value >= 1
  {
    if RankOf(list, id).Some? {
      var j := Occurrence(list, id);
      assert WellRanked(trim, list[j]);
    }
  }

  // ---- What a fusion says ----

  /** The better of the ranks that an entry has. */
  function Better(f: Fused): int {
    match (f.keyword, f.semantic)
    case (Some(a), Some(b)) => if a < b then a else b
    case (Some(a), None) => a
    case (None, Some(b)) => b
    case (None, None) => 0
  }

  /** The first comes before the second: a higher score, or a better rank, or the smaller name. */
  predicate Leads(a: Fused, b: Fused) {
    || a.score > b.score
    || (a.score == b.score && Better(a) < Better(b))
    || (a.score == b.score && Better(a) == Better(b) && Less(a.id, b.id))
  }

  /** The fusion in terms of the entries of the lists. */
  ghost predicate Means(k: int, a: seq<Ranked>, b: seq<Ranked>, r: seq<Fused>) {
    && (forall x :: x in a || x in b ==> exists f :: f in r && f.id == x.id)
    && (forall i :: 0 <= i < |r| ==> Scored(k, a, b, r[i]))
    && (forall i, j :: 0 <= i < j < |r| ==> Leads(r[i], r[j]) && r[i].id != r[j].id)
  }

  /** The ranks are those of the lists, and the score is the sum of their reciprocals, shifted by `k`. */
  ghost predicate Scored(k: int, a: seq<Ranked>, b: seq<Ranked>, f: Fused) {
    && (f.keyword.Some? || f.semantic.Some?)
    && (forall n :: f.keyword == Some(n) <==> Ranked(f.id, n) in a)
    && (forall n :: f.semantic == Some(n) <==> Ranked(f.id, n) in b)
    && f.score == (if f.keyword.Some? && k + f.keyword.value > 0 then 1.0 / (k + f.keyword.value) as real else 0.0) +
                  (if f.semantic.Some? && k + f.semantic.value > 0 then 1.0 / (k + f.semantic.value) as real else 0.0)
  }

  lemma {:induction false} RankOfMeans(trim: string -> string, list: seq<Ranked>, id: string)
    requires ValidList(trim, list)
    ensures forall n :: RankOf(list, id) == Some(n) <==> Ranked(id, n) in list
    ensures RankOf(list, id).Some? ==> RankOf(list, id).value >= 1
  {
    if list == [] {
    } else {
      var init, last := list[..|list| - 1], list[|list| - 1];
      assert list == init + [last];
      assert WellRanked(trim, last);
      assert forall i :: 0 <= i < |init| ==> init[i] == list[i] && WellRanked(trim, init[i]);
      RankOfMeans(trim, init, id);
      assert last == Ranked(last.id, last.rank);
      forall x | x in init
        ensures x.id != last.id
      {
        var i :| 0 <= i < |init| && init[i] == x;
      }
    }
  }

  /** Ranks are machine integers. */
  ghost predicate Representable(list: seq<Ranked>) {
    forall x :: x in list ==> x.rank <= 0x7FFF_FFFF_FFFF_FFFF
  }

  lemma {:induction false} EntryMeans(trim: string -> string, k: int, a: seq<Ranked>, b: seq<Ranked>, f: Fused)
    requires ValidList(trim, a) && ValidList(trim, b) && Representable(a) && Representable(b)
    requires Listed(a, b, f.id) && f == FusedAt(k, RankOf(a, f.id), RankOf(b, f.id), f.id)
    ensures Scored(k, a, b, f) && BestRank(f) == Better(f)
  {
    RankOfMeans(trim, a, f.id);
    RankOfMeans(trim, b, f.id);
    hide ValidList, RankOf;
    assert f.keyword.Some? ==> Ranked(f.id, f.keyword.value) in a;
    assert f.semantic.Some? ==> Ranked(f.id, f.semantic.value) in b;
  }

  lemma LeadsWhenPrecedes(a: Fused, b: Fused)
    requires a.id == b.id ==> a == b
    requires Precedes(a, b) && BestRank(a) == Better(a) && BestRank(b) == Better(b)
    ensures Leads(a, b) && a.id != b.id
  {
    hide Less, BestRank, Better;
    LessIsTotal(a.id, b.id);
    BestOfSame(a, b);
  }

  lemma BestOfSame(a: Fused, b: Fused)
    requires Precedes(a, b)
    ensures a != b
  {
    LessIsTotal(a.id, a.id);
  }

  lemma {:induction false} FusionMeans(trim: string -> string, k: int, a: seq<Ranked>, b: seq<Ranked>, r: seq<Fused>)
    requires ValidList(trim, a) && ValidList(trim, b) && Representable(a) && Representable(b) && IsFusion(k, a, b, r)
    ensures Means(k, a, b, r)
  {
    hide ValidList, Representable, Less, Scored, Precedes, Leads, BestRank, Better;
    forall i | 0 <= i < |r|
      ensures Scored(k, a, b, r[i]) && BestRank(r[i]) == Better(r[i])
    {
      assert r[i] in r;
      EntryMeans(trim, k, a, b, r[i]);
    }
    forall x | x in a || x in b
      ensures exists f :: f in r && f.id == x.id
    {
      RankOfMeans(trim, a, x.id);
      RankOfMeans(trim, b, x.id);
      assert x == Ranked(x.id, x.rank);
      assert FusedAt(k, RankOf(a, x.id), RankOf(b, x.id), x.id) in r;
    }
    hide RankOf;
    forall i, j | 0 <= i < j < |r|
      ensures Leads(r[i], r[j]) && r[i].id != r[j].id
    {
      assert Precedes(r[i], r[j]);
      SameEntry(k, a, b, r, i, j);
      LeadsWhenPrecedes(r[i], r[j]);
    }
  }

  lemma SameEntry(k: int, a: seq<Ranked>, b: seq<Ranked>, r: seq<Fused>, i: nat, j: nat)
    requires IsFusion(k, a, b, r) && i < j < |r|
    ensures r[i].id == r[j].id ==> r[i] == r[j]
  {
    hide Precedes, RankOf;
    assert r[i] in r && r[j] in r;
  }
}

/** What version ranges mean in numbers, and which clause texts are read. */
module RangeFacts {
  import opened Wrappers
  import opened Texts
  import opened Versions
  import opened VersionRanges
  import TextFacts

  /** The version as a number in base 2^32. */
  function Number(v: Version): nat {
    v.major * 18_446_744_073_709_551_616 + v.minor * 4_294_967_296 + v.patch
  }

  predicate Meets(operator: Operator, installed: nat, bound: nat) {
    match operator
    case GreaterEqual => bound <= installed
    case LessEqual => installed <= bound
    case Greater => bound < installed
    case Smaller => installed < bound
    case Equal => installed == bound
  }

  lemma {:induction false} ClauseMeans(c: Clause, v: Version)
    requires c.bound.Valid() && v.Valid()
    ensures Holds(c, v) <==> Meets(c.operator, Number(v), Number(c.bound))
  {
    CompareIsNumeric(v, c.bound);
    assert Weight(v) == Number(v) && Weight(c.bound) == Number(c.bound);
    hide Weight, Number, Compare;
  }

  // ---- Clause texts ----

  lemma {:induction false} FirstStays(s: string)
    requires s != "" && !IsSpace(s[0])
    ensures Trim(s) != "" && Trim(s)[0] == s[0]
  {
    hide Trim, IsSpace;
    var left, right := TextFacts.TrimExactly(s);
    assert s == left + (Trim(s) + right);
    assert left == "" && s == Trim(s) + right;
    assert Trim(s) == "" ==> s == right;
  }

  lemma {:induction false} NoVersionAfterEquals(s: string)
    requires s != "" && s[0] == '='
    ensures ParseVersion(s).None?
  {
    hide ParseVersion, Trim;
    FirstStays(s);
    if ParseVersion(s).Some? {
      ParsesExactly(s, ParseVersion(s).value);
      var ns :| Written(s, ns);
      StartsWithDigit(ns);
    }
  }

  /** A clause is read from a text exactly if this is the operator, a version and space around the two. */
  lemma {:induction false} ClauseExactly(raw: string, c: Clause)
    ensures ReadClause(raw) == Some(c) <==>
            var text, symbol := Trim(raw), Symbol(c.operator);
            symbol <= text && ParseVersion(text[|symbol|..]) == Some(c.bound)
  {
    hide ParseVersion, Trim;
    var text := Trim(raw);
    if |text| >= 2 && text[1] == '=' {
      assert text[1..][0] == '=';
      NoVersionAfterEquals(text[1..]);
    }
  }

  // ---- Ranges ----

  function WriteClause(c: Clause): string {
    Symbol(c.operator) + " " + Canonical(c.bound)
  }

  function WriteClauses(cs: seq<Clause>): (r: seq<string>)
    ensures |r| == |cs| && forall i :: 0 <= i < |cs| ==> r[i] == WriteClause(cs[i])
  {
    seq(|cs|, i requires 0 <= i < |cs| => WriteClause(cs[i]))
  }

  lemma {:induction false} CommaFreeClause(c: Clause)
    ensures ',' !in WriteClause(c)
  {
    var a, b, d := Decimal(c.bound.major), Decimal(c.bound.minor), Decimal(c.bound.patch);
    hide Decimal;
    DecimalReads(c.bound.major);
    DecimalReads(c.bound.minor);
    DecimalReads(c.bound.patch);
    CanonicalIs(a, b, d);
    assert ',' !in a && ',' !in b && ',' !in d;
    hide Canonical;
    assert ',' !in Symbol(c.operator);
  }

  /** What a written range says: a version is affected exactly if its number meets every bound. */
  lemma {:induction false} RangeMeans(cs: seq<Clause>, v: Version)
    requires 1 <= |cs| <= 8 && v.Valid() && forall i :: 0 <= i < |cs| ==> cs[i].bound.Valid()
    requires ByteLength(Join(WriteClauses(cs), ',')) <= 200
    ensures var text := Join(WriteClauses(cs), ',');
            && Supported(Canonical(v), text)
            && (Affected(Canonical(v), text) <==>
                forall i :: 0 <= i < |cs| ==> Meets(cs[i].operator, Number(v), Number(cs[i].bound)))
  {
    hide ParseVersion, ReadClause, Canonical, Holds, Meets, Number, ByteLength, Join, Split;
    var texts := WriteClauses(cs);
    VersionRoundTrip(v);
    forall i | 0 <= i < |cs|
      ensures ReadClause(texts[i]) == Some(cs[i]) && ',' !in texts[i]
      ensures Holds(cs[i], v) <==> Meets(cs[i].operator, Number(v), Number(cs[i].bound))
    {
      ClauseRoundTrip(cs[i]);
      CommaFreeClause(cs[i]);
      ClauseMeans(cs[i], v);
    }
    SplitJoin(texts, ',');
    NonemptyRange(texts);
  }

  lemma {:induction false} NonemptyRange(texts: seq<string>)
    requires texts != [] && texts[0] != ""
    ensures Join(texts, ',') != ""
  {
  }

  /** Never guessed at: no range, one of more than 200 bytes or eight clauses, and an unreadable version. */
  lemma RangeLimits(version: string, range_: string)
    ensures range_ == "" || ByteLength(range_) > 200 || |Split(range_, ',')| > 8 || ParseVersion(version).None? ==>
              !Supported(version, range_)
  {
  }
}

/** Version ranges and the match of advisories against watches, `internal/alert/match.go`. */
module VersionRanges {
  import opened Wrappers
  import opened Versions
  import opened Texts

  // ---- The order of versions ----

  function Sign(a: nat, b: nat): int {
    if a < b then -1 else if a > b then 1 else 0
  }

  /** `compareVersion`: the first component that differs decides. */
  function Compare(a: Version, b: Version): int {
    if Sign(a.major, b.major) != 0 then Sign(a.major, b.major)
    else if Sign(a.minor, b.minor) != 0 then Sign(a.minor, b.minor)
    else Sign(a.patch, b.patch)
  }

  predicate AtMost(a: Version, b: Version) {
    Compare(a, b) <= 0
  }

  const BASE := MAXIMUM_COMPONENT + 1

  /** A version as one number, its components the digits. */
  function Weight(v: Version): nat {
    (v.major * BASE + v.minor) * BASE + v.patch
  }

  /** The comparison is that of the numbers. */
  lemma {:induction false} CompareIsNumeric(a: Version, b: Version)
    requires a.Valid() && b.Valid()
    ensures Compare(a, b) == Sign(Weight(a), Weight(b))
  {
    Digit(a.major, a.minor, b.major, b.minor);
    Digit(a.major * BASE + a.minor, a.patch, b.major * BASE + b.minor, b.patch);
  }

  lemma Digit(a: nat, x: nat, b: nat, y: nat)
    requires x < BASE && y < BASE
    ensures Sign(a * BASE + x, b * BASE + y) == if a == b then Sign(x, y) else Sign(a, b)
  {
    if a < b {
      assert (a + 1) * BASE <= b * BASE;
    } else if a > b {
      assert (b + 1) * BASE <= a * BASE;
    }
  }

  // ---- Clauses ----

  datatype Operator = GreaterEqual | LessEqual | Greater | Smaller | Equal

  datatype Clause = Clause(operator: Operator, bound: Version)

  predicate Holds(c: Clause, v: Version) {
    match c.operator
    case GreaterEqual => Compare(v, c.bound) >= 0
    case LessEqual => Compare(v, c.bound) <= 0
    case Greater => Compare(v, c.bound) > 0
    case Smaller => Compare(v, c.bound) < 0
    case Equal => Compare(v, c.bound) == 0
  }

  /** The operator a clause starts with, the two-character ones first. */
  function ReadOperator(s: string): Option<(Operator, nat)> {
    if |s| >= 2 && s[0] == '>' && s[1] == '=' then Some((GreaterEqual, 2))
    else if |s| >= 2 && s[0] == '<' && s[1] == '=' then Some((LessEqual, 2))
    else if s != "" && s[0] == '>' then Some((Greater, 1))
    else if s != "" && s[0] == '<' then Some((Smaller, 1))
    else if s != "" && s[0] == '=' then Some((Equal, 1))
    else None
  }

  function ReadClause(raw: string): Option<Clause> {
    var text := Trim(raw);
    match ReadOperator(text)
    case None => None
    case Some((operator, n)) =>
      if n > |text| then None
      else
        match ParseVersion(text[n..])
        case None => None
        case Some(bound) => Some(Clause(operator, bound))
  }

  function Symbol(operator: Operator): string {
    match operator
    case GreaterEqual => ">="
    case LessEqual => "<="
    case Greater => ">"
    case Smaller => "<"
    case Equal => "="
  }

  /** Every clause survives being written. */
  lemma {:induction false} ClauseRoundTrip(c: Clause)
    requires c.bound.Valid()
    ensures ReadClause(Symbol(c.operator) + " " + Canonical(c.bound)) == Some(c)
  {
    hide Split, Trim, Components, Canonical, ByteLength;
    var symbol, version := Symbol(c.operator), Canonical(c.bound);
    var text := symbol + " " + version;
    VersionRoundTrip(c.bound);
    CanonicalIsSolid(c.bound);
    TrimSolid(version);
    assert text == symbol + (" " + version) && text[0] == symbol[0] && text[|text| - 1] == version[|version| - 1];
    TrimSolid(text);
    assert text[|symbol|] == ' ' && text[|symbol|..] == " " + version;
    assert |symbol| == 2 ==> text[1] == symbol[1];
  }

  /** What a list of clause texts says of a version: nothing if one is unreadable, else whether all hold. */
  ghost predicate Readable(clauses: seq<string>) {
    forall i :: 0 <= i < |clauses| ==> ReadClause(clauses[i]).Some?
  }

  ghost predicate AllHold(clauses: seq<string>, v: Version) {
    forall i :: 0 <= i < |clauses| && ReadClause(clauses[i]).Some? ==> Holds(ReadClause(clauses[i]).value, v)
  }

  /** A supported range, or a version that is none, is never guessed at. */
  ghost predicate Supported(version: string, range_: string) {
    && ParseVersion(version).Some? && range_ != "" && ByteLength(range_) <= MAXIMUM_RANGE_LENGTH
    && |Split(range_, ',')| <= MAXIMUM_CLAUSES && Readable(Split(range_, ','))
  }

  ghost predicate Affected(version: string, range_: string) {
    Supported(version, range_) && AllHold(Split(range_, ','), ParseVersion(version).value)
  }

  /** `versionInRange`. */
  method VersionInRange(version: string, range_: string) returns (affected: bool, supported: bool)
    ensures supported <==> Supported(version, range_)
    ensures (affected && supported) <==> Affected(version, range_)
    ensures !supported ==> !affected
  {
    hide Split, ReadClause, ParseVersion, Holds;
    var installed := ParseNumericVersion(version);
    if installed.None? || range_ == "" || ByteLength(range_) > MAXIMUM_RANGE_LENGTH {
      return false, false;
    }
    var clauses := Split(range_, ',');
    if |clauses| > MAXIMUM_CLAUSES {
      return false, false;
    }
    affected := true;
    for i := 0 to |clauses|
      invariant forall j :: 0 <= j < i ==> ReadClause(clauses[j]).Some?
      invariant affected <==> forall j :: 0 <= j < i ==> Holds(ReadClause(clauses[j]).value, installed.value)
    {
      var clause := ParseClause(clauses[i]);
      if clause.None? {
        return false, false;
      }
      affected := affected && Test(clause.value, installed.value);
    }
    supported := true;
  }

  method ParseClause(raw: string) returns (r: Option<Clause>)
    ensures r == ReadClause(raw)
  {
    hide ParseVersion, Trim;
    var text := Trim(raw);
    var operator := ReadOperator(text);
    if operator.None? {
      return None;
    }
    var (op, n) := operator.value;
    var bound := ParseNumericVersion(text[n..]);
    if bound.None? {
      return None;
    }
    return Some(Clause(op, bound.value));
  }

  function Test(c: Clause, v: Version): (b: bool)
    ensures b <==> Holds(c, v)
  {
    var comparison := Compare(v, c.bound);
    match c.operator
    case GreaterEqual => comparison >= 0
    case LessEqual => comparison <= 0
    case Greater => comparison > 0
    case Smaller => comparison < 0
    case Equal => comparison == 0
  }

  // ---- Convexity ----

  lemma {:induction false} ClauseIsConvex(c: Clause, low: Version, mid: Version, high: Version)
    requires Holds(c, low) && Holds(c, high) && AtMost(low, mid) && AtMost(mid, high)
    ensures Holds(c, mid)
  {
  }

  /** A version between two affected versions is affected. */
  lemma {:induction false} RangeIsConvex(range_: string, low: string, mid: string, high: string)
    requires Affected(low, range_) && Affected(high, range_) && ParseVersion(mid).Some?
    requires AtMost(ParseVersion(low).value, ParseVersion(mid).value) &&
            AtMost(ParseVersion(mid).value, ParseVersion(high).value)
    ensures Affected(mid, range_)
  {
    hide ParseVersion, ReadClause, Split, Holds, AtMost;
    var clauses := Split(range_, ',');
    forall i | 0 <= i < |clauses|
      ensures Holds(ReadClause(clauses[i]).value, ParseVersion(mid).value)
    {
      ClauseIsConvex(ReadClause(clauses[i]).value, ParseVersion(low).value, ParseVersion(mid).value,
        ParseVersion(high).value);
    }
  }

  // ---- Order of the clauses ----

  function Lengths(clauses: seq<string>): nat {
    if clauses == [] then 0 else ByteLength(clauses[0]) + Lengths(clauses[1..])
  }

  lemma {:induction false} LengthsSplit(a: seq<string>, x: string, b: seq<string>)
    ensures Lengths(a + [x] + b) == ByteLength(x) + Lengths(a + b)
  {
    if a == [] {
      assert a + [x] + b == [x] + b && a + b == b && ([x] + b)[1..] == b;
    } else {
      LengthsSplit(a[1..], x, b);
      assert (a + [x] + b)[1..] == a[1..] + [x] + b && (a + b)[1..] == a[1..] + b;
    }
  }

  lemma TakenOut(b: seq<string>, i: nat)
    requires i < |b|
    ensures b == b[..i] + [b[i]] + b[i + 1..]
    ensures multiset(b[..i] + b[i + 1..]) == multiset(b) - multiset{b[i]}
  {
    assert b == b[..i] + [b[i]] + b[i + 1..];
  }

  lemma {:induction false} FoundAgain(a: seq<string>, b: seq<string>) returns (i: nat)
    requires multiset(a) == multiset(b) && a != []
    ensures i < |b| && b[i] == a[0] && multiset(a[1..]) == multiset(b[..i] + b[i + 1..])
  {
    assert a[0] in multiset(b);
    i :| 0 <= i < |b| && b[i] == a[0];
    TakenOut(a, 0);
    TakenOut(b, i);
    assert a[..0] + a[1..] == a[1..];
  }

  lemma {:induction false} LengthsPermute(a: seq<string>, b: seq<string>)
    requires multiset(a) == multiset(b)
    ensures Lengths(a) == Lengths(b) && |a| == |b|
  {
    hide ByteLength;
    if a == [] {
      assert b == [] by {
        assert |multiset(b)| == |b|;
      }
    } else {
      var i := FoundAgain(a, b);
      var l, r := b[..i], b[i + 1..];
      LengthsPermute(a[1..], l + r);
      assert b == l + [b[i]] + r;
      LengthsSplit(l, b[i], r);
    }
  }

  lemma {:induction false} JoinLength(clauses: seq<string>)
    requires clauses != []
    ensures ByteLength(Join(clauses, ',')) == Lengths(clauses) + |clauses| - 1
  {
    if |clauses| == 1 {
      assert Lengths(clauses[1..]) == 0;
    } else {
      var comma: string := ",";
      JoinLength(clauses[1..]);
      AsciiBytes(comma);
      BytesJoin(clauses[0], comma);
      BytesJoin(clauses[0] + comma, Join(clauses[1..], ','));
    }
  }

  ghost predicate CommaFree(clauses: seq<string>) {
    forall i :: 0 <= i < |clauses| ==> ',' !in clauses[i]
  }

  /** Rearranging the clauses of a range changes neither whether it is supported nor whom it affects. */
  lemma {:induction false} ClauseOrderDoesNotMatter(version: string, a: seq<string>, b: seq<string>)
    requires a != [] && multiset(a) == multiset(b) && CommaFree(a)
    ensures b != [] && (Supported(version, Join(a, ',')) <==> Supported(version, Join(b, ',')))
    ensures Affected(version, Join(a, ',')) <==> Affected(version, Join(b, ','))
  {
    hide ParseVersion, ReadClause, Split, Holds, Join;
    LengthsPermute(a, b);
    JoinLength(a);
    JoinLength(b);
    SameClauses(a, b);
    assert CommaFree(b);
    SplitJoin(a, ',');
    SplitJoin(b, ',');
    if ParseVersion(version).Some? {
      SaysTheSame(a, b, ParseVersion(version).value);
      SaysTheSame(b, a, ParseVersion(version).value);
    }
  }

  lemma {:induction false} SameClauses(a: seq<string>, b: seq<string>)
    requires multiset(a) == multiset(b)
    ensures forall i :: 0 <= i < |b| ==> b[i] in a
    ensures forall i :: 0 <= i < |a| ==> a[i] in b
  {
    forall i | 0 <= i < |b|
      ensures b[i] in a
    {
      assert b[i] in multiset(b);
    }
    forall i | 0 <= i < |a|
      ensures a[i] in b
    {
      assert a[i] in multiset(a);
    }
  }

  lemma {:induction false} SaysTheSame(a: seq<string>, b: seq<string>, v: Version)
    requires forall i :: 0 <= i < |b| ==> b[i] in a
    ensures Readable(a) ==> Readable(b)
    ensures AllHold(a, v) ==> AllHold(b, v)
  {
    hide ReadClause, Holds;
  }
}

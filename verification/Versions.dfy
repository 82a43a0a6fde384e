/**
 Numeric versions and version ranges of `internal/alert/match.go`: three 32-bit
 components in canonical decimal, and ranges of up to eight clauses.
 */
module Versions {
  import opened Wrappers
  import opened Texts

  const MAXIMUM_COMPONENT := 0xFFFF_FFFF
  const MAXIMUM_VERSION_LENGTH := 32
  const MAXIMUM_RANGE_LENGTH := 200
  const MAXIMUM_CLAUSES := 8

  datatype Version = Version(major: nat, minor: nat, patch: nat) {
    predicate Valid() {
      major <= MAXIMUM_COMPONENT && minor <= MAXIMUM_COMPONENT && patch <= MAXIMUM_COMPONENT
    }
  }

  // ---- Splitting and joining ----

  function Split(s: string, c: char): (r: seq<string>)
    ensures |r| >= 1
  {
    if s == "" then [""]
    else
      var rest := Split(s[1..], c);
      if s[0] == c then [""] + rest else [[s[0]] + rest[0]] + rest[1..]
  }

  function Join(parts: seq<string>, c: char): string
    requires parts != []
  {
    if |parts| == 1 then parts[0] else parts[0] + [c] + Join(parts[1..], c)
  }

  lemma {:induction false} SplitFirst(p: string, c: char, rest: string)
    requires c !in p
    ensures Split(p, c) == [p] && Split(p + [c] + rest, c) == [p] + Split(rest, c)
  {
    if p == "" {
      assert p + [c] + rest == [c] + rest && ([c] + rest)[1..] == rest;
    } else {
      var tail := p[1..];
      assert c !in tail;
      SplitFirst(tail, c, rest);
      assert p == [p[0]] + tail && p[0] in p;
      assert (p + [c] + rest)[1..] == tail + [c] + rest;
      assert ([tail] + Split(rest, c))[1..] == Split(rest, c);
    }
  }

  /** Splitting undoes joining. */
  lemma {:induction false} SplitJoin(parts: seq<string>, c: char)
    requires parts != [] && forall i :: 0 <= i < |parts| ==> c !in parts[i]
    ensures Split(Join(parts, c), c) == parts
  {
    if |parts| == 1 {
      SplitFirst(parts[0], c, "");
    } else {
      SplitJoin(parts[1..], c);
      SplitFirst(parts[0], c, Join(parts[1..], c));
      assert parts == [parts[0]] + parts[1..];
    }
  }

  // ---- Components ----

  predicate IsDigit(c: char) {
    '0' <= c <= '9'
  }

  predicate Digits(s: string) {
    forall i :: 0 <= i < |s| ==> IsDigit(s[i])
  }

  function Value(s: string): nat
    requires Digits(s)
  {
    if s == "" then 0 else 10 * Value(s[..|s| - 1]) + (s[|s| - 1] - '0') as nat
  }

  /** A component is canonical decimal that fits 32 bits. */
  function Component(part: string): Option<nat> {
    if part == "" || (|part| > 1 && part[0] == '0') || !Digits(part) || Value(part) > MAXIMUM_COMPONENT then None
    else Some(Value(part))
  }

  function Decimal(n: nat): (s: string)
    ensures s != ""
  {
    if n < 10 then ['0' + n as char] else Decimal(n / 10) + ['0' + (n % 10) as char]
  }

  /** Writing a number and reading it gives it back; the text is canonical. */
  lemma {:induction false} DecimalReads(n: nat)
    ensures Digits(Decimal(n)) && Value(Decimal(n)) == n && (n > 0 ==> Decimal(n)[0] != '0') && (n < 10 ==>
            |Decimal(n)| == 1)
  {
    var s := Decimal(n);
    if n < 10 {
      assert s[..0] == "";
    } else {
      DecimalReads(n / 10);
      var init := Decimal(n / 10);
      assert s[..|s| - 1] == init && s[0] == init[0];
    }
  }

  function Power(k: nat): (p: nat)
    ensures p >= 1
  {
    if k == 0 then 1 else 10 * Power(k - 1)
  }

  lemma {:induction false} DecimalLength(n: nat, k: nat)
    requires k >= 1
    ensures n < Power(k) ==> |Decimal(n)| <= k
    ensures n >= Power(k) ==> |Decimal(n)| > k
  {
    if n >= 10 {
      if k == 1 {
        assert Power(0) == 1;
      } else {
        DecimalLength(n / 10, k - 1);
      }
    } else {
    }
  }

  lemma {:induction false} ComponentReads(n: nat)
    requires n <= MAXIMUM_COMPONENT
    ensures Component(Decimal(n)) == Some(n) && |Decimal(n)| <= 10 && '.' !in Decimal(n)
  {
    DecimalReads(n);
    assert Power(10) == 10_000_000_000 by {
      assert Power(5) == 100_000;
    }
    DecimalLength(n, 10);
  }

  // ---- Versions ----

  function WithoutV(s: string): string {
    if s != "" && s[0] == 'v' then s[1..] else s
  }

  function Components(parts: seq<string>): Option<seq<nat>> {
    if parts == [] then Some([])
    else
      match (Components(parts[..|parts| - 1]), Component(parts[|parts| - 1]))
      case (Some(init), Some(last)) => Some(init + [last])
      case _ => None
  }

  function At(s: seq<nat>, i: nat): nat {
    if i < |s| then s[i] else 0
  }

  /** `parseNumericVersion`; missing components are zero. */
  function ParseVersion(text: string): Option<Version> {
    var value := WithoutV(Trim(text));
    if value == "" || ByteLength(value) > MAXIMUM_VERSION_LENGTH then None
    else
      var parts := Split(value, '.');
      if |parts| > 3 then None
      else
        match Components(parts)
        case None => None
        case Some(ns) => Some(Version(At(ns, 0), At(ns, 1), At(ns, 2)))
  }

  method ParseNumericVersion(text: string) returns (r: Option<Version>)
    ensures r == ParseVersion(text)
  {
    hide Value, Split, Trim;
    var value := WithoutV(Trim(text));
    if value == "" || ByteLength(value) > MAXIMUM_VERSION_LENGTH {
      return None;
    }
    var parts := Split(value, '.');
    if |parts| > 3 {
      return None;
    }
    var parsed: seq<nat> := [];
    for i := 0 to |parts|
      invariant Components(parts[..i]) == Some(parsed) && |parsed| == i
    {
      var part := parts[i];
      assert parts[..i + 1][..i] == parts[..i] && parts[..i + 1][i] == part;
      var component := ReadComponent(part);
      if component.None? {
        FailsFrom(parts, i + 1);
        return None;
      }
      parsed := parsed + [component.value];
    }
    assert parts[..|parts|] == parts;
    return Some(Version(At(parsed, 0), At(parsed, 1), At(parsed, 2)));
  }

  method ReadComponent(part: string) returns (r: Option<nat>)
    ensures r == Component(part)
  {
    if part == "" || (|part| > 1 && part[0] == '0') {
      return None;
    }
    for i := 0 to |part|
      invariant Digits(part[..i])
    {
      if part[i] < '0' || part[i] > '9' {
        assert !IsDigit(part[i]);
        return None;
      }
    }
    assert part[..|part|] == part;
    if Value(part) > MAXIMUM_COMPONENT {
      return None;
    }
    return Some(Value(part));
  }

  lemma {:induction false} FailsFrom(parts: seq<string>, i: nat)
    requires i <= |parts| && Components(parts[..i]).None?
    ensures Components(parts).None?
    decreases |parts|
  {
    if i < |parts| {
      var init := parts[..|parts| - 1];
      assert init[..i] == parts[..i];
      FailsFrom(init, i);
    } else {
      assert parts[..i] == parts;
    }
  }

  function Canonical(v: Version): string {
    Join([Decimal(v.major), Decimal(v.minor), Decimal(v.patch)], '.')
  }

  /** Every version survives being written in canonical form, which always fits the length limit. */
  lemma {:induction false} VersionRoundTrip(v: Version)
    requires v.Valid()
    ensures ParseVersion(Canonical(v)) == Some(v) && ByteLength(Canonical(v)) <= 32
  {
    hide Component, Decimal, Split, Trim;
    var a, b, c := Decimal(v.major), Decimal(v.minor), Decimal(v.patch);
    var parts, text := [a, b, c], Canonical(v);
    ComponentReads(v.major);
    ComponentReads(v.minor);
    ComponentReads(v.patch);
    CanonicalIs(a, b, c);
    SplitJoin(parts, '.');
    CanonicalIsSolid(v);
    TrimSolid(text);
    ThreeComponents(a, b, c, v.major, v.minor, v.patch);
  }

  lemma {:induction false} CanonicalIsSolid(v: Version)
    ensures Solid(Canonical(v)) && IsDigit(Canonical(v)[0]) && ByteLength(Canonical(v)) == |Canonical(v)|
  {
    hide Decimal, ByteLength;
    var a, b, c, text := Decimal(v.major), Decimal(v.minor), Decimal(v.patch), Canonical(v);
    CanonicalIs(a, b, c);
    DecimalReads(v.major);
    DecimalReads(v.minor);
    DecimalReads(v.patch);
    assert IsDigit(a[0]) && IsDigit(c[|c| - 1]);
    assert text[0] == a[0] && text[|text| - 1] == c[|c| - 1];
    CanonicalIsAscii(a, b, c);
  }

  lemma {:induction false} CanonicalIsAscii(a: string, b: string, c: string)
    requires Digits(a) && Digits(b) && Digits(c)
    ensures var text := a + "." + b + "." + c; ByteLength(text) == |text|
  {
    hide ByteLength;
    var dot: string := ".";
    AsciiBytes(a);
    AsciiBytes(b);
    AsciiBytes(c);
    AsciiBytes(dot);
    BytesJoin(a, dot);
    BytesJoin(a + dot, b);
    BytesJoin(a + dot + b, dot);
    BytesJoin(a + dot + b + dot, c);
  }

  lemma ThreeComponents(a: string, b: string, c: string, x: nat, y: nat, z: nat)
    requires Component(a) == Some(x) && Component(b) == Some(y) && Component(c) == Some(z)
    ensures Components([a, b, c]) == Some([x, y, z])
  {
    assert Components([]) == Some([]);
    hide Components, Component;
    var none: seq<nat>, one, two := [], [x], [x, y];
    assert none + [x] == one && one + [y] == two && two + [z] == [x, y, z];
    assert [] + [a] == [a] && [a] + [b] == [a, b] && [a, b] + [c] == [a, b, c];
    assert Components([a]) == Some(one);
    assert Components([a, b]) == Some(two);
  }

  lemma CanonicalIs(a: string, b: string, c: string)
    ensures Join([a, b, c], '.') == a + "." + b + "." + c
  {
    assert [a, b, c][1..] == [b, c] && [b, c][1..] == [c];
    assert Join([c], '.') == c;
    assert Join([b, c], '.') == b + "." + c;
    assert a + "." + (b + "." + c) == a + "." + b + "." + c;
  }

  /** The limit is tight: the largest version needs all of it. */
  lemma {:induction false} LengthIsTight()
    ensures ByteLength(Canonical(Version(0xFFFF_FFFF, 0xFFFF_FFFF, 0xFFFF_FFFF))) == 32
  {
    hide Decimal, Component;
    var d := Decimal(MAXIMUM_COMPONENT);
    ComponentReads(MAXIMUM_COMPONENT);
    assert Power(9) == 1_000_000_000 by {
      assert Power(5) == 100_000;
    }
    DecimalLength(MAXIMUM_COMPONENT, 9);
    CanonicalIs(d, d, d);
    CanonicalIsSolid(Version(MAXIMUM_COMPONENT, MAXIMUM_COMPONENT, MAXIMUM_COMPONENT));
  }

  // ---- Which texts are versions ----

  lemma {:induction false} JoinSplit(s: string, c: char)
    ensures Join(Split(s, c), c) == s
  {
    if s == "" {
    } else {
      var rest := Split(s[1..], c);
      JoinSplit(s[1..], c);
      assert s == [s[0]] + s[1..];
      if s[0] == c {
        assert ([""] + rest)[1..] == rest;
      } else {
        var all := [[s[0]] + rest[0]] + rest[1..];
        assert all[1..] == rest[1..];
        if |rest| > 1 {
          var more := Join(rest[1..], c);
          assert [s[0]] + (rest[0] + [c] + more) == [s[0]] + rest[0] + [c] + more;
        }
      }
    }
  }

  lemma {:induction false} LeadingDigitCounts(s: string)
    requires Digits(s) && s != "" && s[0] != '0'
    ensures Value(s) >= 1
  {
    if |s| == 1 {
      assert Value(s[..0]) == 0;
    } else {
      LeadingDigitCounts(s[..|s| - 1]);
    }
  }

  /** Canonical digits are the decimal form of their value. */
  lemma {:induction false} DecimalOfDigits(s: string)
    requires Digits(s) && s != "" && (|s| > 1 ==> s[0] != '0')
    ensures Decimal(Value(s)) == s
  {
    var init, last := s[..|s| - 1], s[|s| - 1];
    assert s == init + [last];
    if |s| == 1 {
      assert Value(init) == 0;
    } else {
      DecimalOfDigits(init);
      LeadingDigitCounts(init);
      var d := (last - '0') as nat;
      assert Value(s) == 10 * Value(init) + d && d < 10;
    }
  }

  function Decimals(ns: seq<nat>): (r: seq<string>)
    ensures |r| == |ns|
  {
    if ns == [] then [] else Decimals(ns[..|ns| - 1]) + [Decimal(ns[|ns| - 1])]
  }

  ghost predicate Fit(ns: seq<nat>) {
    forall i :: 0 <= i < |ns| ==> ns[i] <= 4_294_967_295
  }

  lemma {:induction false} ComponentsExactly(parts: seq<string>, ns: seq<nat>)
    ensures Components(parts) == Some(ns) <==> parts == Decimals(ns) && Fit(ns)
    decreases |parts|
  {
    hide Component, Decimal;
    if parts == [] {
    } else if ns == [] {
    } else {
      var init, last := parts[..|parts| - 1], parts[|parts| - 1];
      var front, n := ns[..|ns| - 1], ns[|ns| - 1];
      assert parts == init + [last] && ns == front + [n];
      ComponentsExactly(init, front);
      ComponentExactly(last, n);
      assert Fit(ns) <==> Fit(front) && n <= MAXIMUM_COMPONENT;
    }
  }

  lemma {:induction false} ComponentExactly(part: string, n: nat)
    ensures Component(part) == Some(n) <==> part == Decimal(n) && n <= MAXIMUM_COMPONENT
  {
    if Component(part) == Some(n) {
      DecimalOfDigits(part);
    }
    if n <= MAXIMUM_COMPONENT {
      ComponentReads(n);
    }
  }

  lemma {:induction false} DecimalsAreShort(ns: seq<nat>)
    requires ns != [] && Fit(ns)
    ensures ByteLength(Join(Decimals(ns), '.')) <= 11 * |ns| - 1 && Join(Decimals(ns), '.') != ""
    ensures forall i :: 0 <= i < |ns| ==> Decimals(ns)[i] == Decimal(ns[i]) && '.' !in Decimals(ns)[i]
  {
    DecimalsAt(ns);
    JoinedIsShort(Decimals(ns));
  }

  lemma {:induction false} DecimalsAt(ns: seq<nat>)
    requires Fit(ns)
    ensures forall p :: p in Decimals(ns) ==> p != "" && '.' !in p && ByteLength(p) <= 10
    ensures forall i :: 0 <= i < |ns| ==> Decimals(ns)[i] == Decimal(ns[i])
  {
    if ns == [] {
    } else {
      hide ByteLength, Decimal;
      DecimalsAt(ns[..|ns| - 1]);
      ShortDecimal(ns[|ns| - 1]);
    }
  }

  lemma {:induction false} ShortDecimal(n: nat)
    requires n <= MAXIMUM_COMPONENT
    ensures Decimal(n) != "" && '.' !in Decimal(n) && ByteLength(Decimal(n)) <= 10
  {
    hide Decimal, Component;
    ComponentReads(n);
    DecimalReads(n);
    AsciiBytes(Decimal(n));
  }

  lemma {:induction false} JoinedIsShort(parts: seq<string>)
    requires parts != [] && forall p :: p in parts ==> p != "" && ByteLength(p) <= 10
    ensures Join(parts, '.') != "" && ByteLength(Join(parts, '.')) <= 11 * |parts| - 1
  {
    hide ByteLength;
    assert parts[0] in parts;
    if |parts| == 1 {
    } else {
      var dot: string := ".";
      assert forall p :: p in parts[1..] ==> p in parts;
      JoinedIsShort(parts[1..]);
      AsciiBytes(dot);
      BytesJoin(parts[0], dot);
      BytesJoin(parts[0] + dot, Join(parts[1..], '.'));
    }
  }

  /** A text is a version exactly when, trimmed and without one `v`, it is one to three decimal numbers with dots. */
  ghost predicate Written(text: string, ns: seq<nat>) {
    1 <= |ns| <= 3 && Fit(ns) && (Trim(text) == Join(Decimals(ns), '.') || Trim(text) == "v" + Join(Decimals(ns), '.'))
  }

  lemma {:induction false} StartsWithDigit(ns: seq<nat>)
    requires ns != [] && Fit(ns)
    ensures Join(Decimals(ns), '.') != "" && IsDigit(Join(Decimals(ns), '.')[0])
  {
    hide Decimal, Decimals;
    DecimalsAt(ns);
    DecimalReads(ns[0]);
    var parts := Decimals(ns);
    assert parts[0] == Decimal(ns[0]) && parts[0][0] == Decimal(ns[0])[0];
    assert Join(parts, '.')[0] == parts[0][0];
  }

  lemma {:induction false} ParsesExactly(text: string, v: Version)
    ensures ParseVersion(text) == Some(v) <==>
            exists ns :: Written(text, ns) && v == Version(At(ns, 0), At(ns, 1), At(ns, 2))
  {
    hide Components, Split, Trim, Decimals, ByteLength, Fit, Join;
    var value := WithoutV(Trim(text));
    var parts := Split(value, '.');
    if ParseVersion(text) == Some(v) {
      var ns := Components(parts).value;
      ComponentsExactly(parts, ns);
      JoinSplit(value, '.');
      assert Trim(text) == value || Trim(text) == "v" + value;
      assert Written(text, ns);
    }
    if ns :| Written(text, ns) && v == Version(At(ns, 0), At(ns, 1), At(ns, 2)) {
      DecimalsAreShort(ns);
      StartsWithDigit(ns);
      assert ("v" + Join(Decimals(ns), '.'))[1..] == Join(Decimals(ns), '.');
      assert value == Join(Decimals(ns), '.');
      SplitJoin(Decimals(ns), '.');
      ComponentsExactly(parts, ns);
    }
  }
}

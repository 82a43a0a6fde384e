/**
 The language of the Link header scanner: what it splits, which parameters it finds and
 which values it reads, stated by writing instead of scanning.  Each statement goes both
 ways, so the scanner accepts these texts and no others.
 */
module LinkGrammar {
  import opened Wrappers
  import opened Texts
  import opened LinkHeader
  import LinkRoundTrip

  // ---- Characters and words ----

  lemma TokenExactly(c: char)
    ensures var n := c as int;
            TokenChar(c) <==> 0x30 <= n <= 0x39 || 0x41 <= n <= 0x5A || 0x61 <= n <= 0x7A || n == 0x2D || n == 0x5F
  {
  }

  lemma FoldExactly(s: string)
    ensures EqualFold(s, "rel") <==> |s| == 3 && s[0] in "rR" && s[1] in "eE" && s[2] in "lL"
    ensures EqualFold(s, "next") <==> |s| == 4 && s[0] in "nN" && s[1] in "eE" && s[2] in "xX" && s[3] in "tT"
  {
  }

  // ---- Writing ----

  /** A character of a quoted string, as it is or after a backslash. */
  datatype Item = Bare(c: char) | Escaped(c: char)

  datatype Segment = Plain(c: char) | Angle(body: string) | Quote(items: seq<Item>)

  function WriteItem(i: Item): string {
    match i
    case Bare(c) => [c]
    case Escaped(c) => ['\\', c]
  }

  function WriteItems(items: seq<Item>): string {
    if items == [] then "" else WriteItem(items[0]) + WriteItems(items[1..])
  }

  function ReadItems(items: seq<Item>): string {
    if items == [] then "" else [items[0].c] + ReadItems(items[1..])
  }

  /** A quote or a backslash must be escaped; anything may be. */
  predicate Proper(items: seq<Item>) {
    forall i :: 0 <= i < |items| && items[i].Bare? ==> items[i].c != '"' && items[i].c != '\\'
  }

  function Write(s: Segment): string {
    match s
    case Plain(c) => [c]
    case Angle(body) => "<" + body + ">"
    case Quote(items) => "\"" + WriteItems(items) + "\""
  }

  function WriteAll(segments: seq<Segment>): string {
    if segments == [] then "" else Write(segments[0]) + WriteAll(segments[1..])
  }

  /** No control character of ASCII but the tab. */
  predicate Legible(c: char) {
    c as int == 0x09 || (c as int >= 0x20 && c as int != 0x7F)
  }

  /** A piece of a link: brackets and quotes are closed, and commas stand inside them. */
  predicate OfLink(s: Segment) {
    match s
    case Plain(c) => Legible(c) && c != '<' && c != '>' && c != '"' && c != ','
    case Angle(body) => forall i :: 0 <= i < |body| ==> Legible(body[i]) && body[i] != '<' && body[i] != '>'
    case Quote(items) => Proper(items) && forall i :: 0 <= i < |items| ==> Legible(items[i].c)
  }

  ghost predicate OfLinks(segments: seq<Segment>) {
    forall i :: 0 <= i < |segments| ==> OfLink(segments[i])
  }

  /** One more item in front of the text of a quoted string. */
  lemma {:induction false} ItemFirst(i: Item, items: seq<Item>, rest: string, s: string)
    requires Proper(items) && s == WriteItems(items) + "\"" + rest && (i.Bare? ==> i.c != '"' && i.c != '\\')
    ensures Proper([i] + items) && WriteItem(i) + s == WriteItems([i] + items) + "\"" + rest
    ensures OfLink(Quote(items)) && Legible(i.c) ==> OfLink(Quote([i] + items))
  {
    var all := [i] + items;
    assert all[1..] == items;
    hide WriteItems, WriteItem;
    assert WriteItems(all) == WriteItem(i) + WriteItems(items);
  }

  lemma {:induction false} SegmentFirst(s: Segment, segments: seq<Segment>, tail: string)
    ensures WriteAll([s] + segments) + tail == Write(s) + (WriteAll(segments) + tail)
  {
    assert ([s] + segments)[1..] == segments;
  }

  // ---- Splitting the header ----

  const ANGLE := Flags(true, false, false)
  const QUOTE := Flags(false, true, false)

  lemma {:induction false} AngleCloses(s: string) returns (body: string, rest: string)
    requires LinkRoundTrip.Through(ANGLE, s) == Some(OUTSIDE)
    ensures s == body + ">" + rest && OfLink(Angle(body)) && LinkRoundTrip.Through(OUTSIDE, rest) == Some(OUTSIDE)
  {
    if s[0] == '>' {
      body, rest := "", s[1..];
    } else {
      body, rest := AngleCloses(s[1..]);
      body := [s[0]] + body;
    }
  }

  lemma {:induction false} QuoteCloses(s: string) returns (items: seq<Item>, rest: string)
    requires LinkRoundTrip.Through(QUOTE, s) == Some(OUTSIDE)
    ensures s == WriteItems(items) + "\"" + rest && OfLink(Quote(items))
    ensures LinkRoundTrip.Through(OUTSIDE, rest) == Some(OUTSIDE)
  {
    if s[0] == '"' {
      items, rest := [], s[1..];
      assert s == "" + "\"" + rest;
    } else if s[0] == '\\' {
      var t := s[1..];
      assert LinkRoundTrip.Through(Flags(false, true, true), t) == Some(OUTSIDE);
      var more;
      more, rest := QuoteCloses(t[1..]);
      ItemFirst(Escaped(t[0]), more, rest, t[1..]);
      items := [Escaped(t[0])] + more;
      hide OfLink, Proper, WriteItems, LinkRoundTrip.Through;
      assert s == WriteItem(Escaped(t[0])) + t[1..];
    } else {
      var more;
      more, rest := QuoteCloses(s[1..]);
      ItemFirst(Bare(s[0]), more, rest, s[1..]);
      items := [Bare(s[0])] + more;
      hide OfLink, Proper, WriteItems, LinkRoundTrip.Through;
      assert s == WriteItem(Bare(s[0])) + s[1..];
    }
  }

  lemma {:induction false} ClosedIsWritten(p: string) returns (segments: seq<Segment>)
    requires LinkRoundTrip.Through(OUTSIDE, p) == Some(OUTSIDE)
    ensures OfLinks(segments) && WriteAll(segments) == p
    decreases |p|
  {
    if p == "" {
      segments := [];
    } else {
      var first, rest := FirstSegment(p);
      hide LinkRoundTrip.Through, Write, OfLink;
      var more := ClosedIsWritten(rest);
      segments := [first] + more;
      assert segments[1..] == more;
    }
  }

  lemma {:induction false} FirstSegment(p: string) returns (first: Segment, rest: string)
    requires p != "" && LinkRoundTrip.Through(OUTSIDE, p) == Some(OUTSIDE)
    ensures OfLink(first) && p == Write(first) + rest && |rest| < |p|
    ensures LinkRoundTrip.Through(OUTSIDE, rest) == Some(OUTSIDE)
  {
    rest := p[1..];
    assert p == [p[0]] + rest;
    if p[0] == '<' {
      var body;
      body, rest := AngleCloses(p[1..]);
      first := Angle(body);
      assert "<" + (body + ">" + rest) == "<" + body + ">" + rest;
    } else if p[0] == '"' {
      var items;
      items, rest := QuoteCloses(p[1..]);
      first := Quote(items);
      hide WriteItems;
      assert "\"" + (WriteItems(items) + "\"" + rest) == "\"" + WriteItems(items) + "\"" + rest;
    } else {
      first := Plain(p[0]);
    }
  }

  lemma {:induction false} ItemsAreThrough(items: seq<Item>)
    requires OfLink(Quote(items))
    ensures LinkRoundTrip.Through(QUOTE, WriteItems(items)) == Some(QUOTE)
  {
    if items == [] {
    } else {
      var one, rest := WriteItem(items[0]), WriteItems(items[1..]);
      ItemsAreThrough(items[1..]);
      assert Legible(items[0].c);
      if items[0].Escaped? {
        assert one[1..] == [items[0].c] && [items[0].c][1..] == "";
        assert LinkRoundTrip.Through(Flags(false, true, true), [items[0].c]) == Some(QUOTE);
      } else {
        assert one[1..] == "";
      }
      LinkRoundTrip.ThroughJoin(QUOTE, one, rest);
    }
  }

  lemma {:induction false} SegmentIsThrough(s: Segment)
    requires OfLink(s)
    ensures LinkRoundTrip.Through(OUTSIDE, Write(s)) == Some(OUTSIDE)
  {
    match s
    case Plain(c) =>
      assert [c][1..] == "";
    case Angle(body) =>
      var less, more: string := "<", ">";
      assert less[1..] == "" && more[1..] == "";
      assert LinkRoundTrip.Through(OUTSIDE, less) == Some(ANGLE) && LinkRoundTrip.Through(ANGLE, more) == Some(OUTSIDE);
      LinkRoundTrip.ThroughPlain(ANGLE, body);
      LinkRoundTrip.ThroughJoin(OUTSIDE, less, body);
      LinkRoundTrip.ThroughJoin(OUTSIDE, less + body, more);
    case Quote(items) =>
      var q: string := "\"";
      assert q[1..] == "";
      assert LinkRoundTrip.Through(OUTSIDE, q) == Some(QUOTE) && LinkRoundTrip.Through(QUOTE, q) == Some(OUTSIDE);
      ItemsAreThrough(items);
      LinkRoundTrip.ThroughJoin(OUTSIDE, q, WriteItems(items));
      LinkRoundTrip.ThroughJoin(OUTSIDE, q + WriteItems(items), q);
  }

  lemma {:induction false} WrittenIsClosed(segments: seq<Segment>)
    requires OfLinks(segments)
    ensures LinkRoundTrip.Through(OUTSIDE, WriteAll(segments)) == Some(OUTSIDE)
  {
    hide LinkRoundTrip.Through, OfLink, Write;
    if segments == [] {
      NothingIsThrough();
    } else {
      SegmentIsThrough(segments[0]);
      WrittenIsClosed(segments[1..]);
      LinkRoundTrip.ThroughJoin(OUTSIDE, Write(segments[0]), WriteAll(segments[1..]));
    }
  }

  lemma NothingIsThrough()
    ensures LinkRoundTrip.Through(OUTSIDE, "") == Some(OUTSIDE)
  {
  }

  /** A header of written pieces with commas between them. */
  function Joined(pieces: seq<seq<Segment>>): string {
    if pieces == [] then ""
    else if |pieces| == 1 then WriteAll(pieces[0])
    else WriteAll(pieces[0]) + "," + Joined(pieces[1..])
  }

  /** The links are the pieces without the space around them. */
  ghost predicate Trimmed(pieces: seq<seq<Segment>>, links: seq<string>) {
    && |pieces| == |links|
    && forall i :: 0 <= i < |pieces| ==> OfLinks(pieces[i]) && links[i] == Trim(WriteAll(pieces[i])) != ""
  }

  ghost predicate Splits(header: string, links: seq<string>, pieces: seq<seq<Segment>>) {
    pieces != [] && header == Joined(pieces) && Trimmed(pieces, links)
  }

  lemma {:induction false} SplitIsWritten(rest: string, f: Flags, current: string) returns (pieces: seq<seq<Segment>>)
    requires LinkRoundTrip.Through(OUTSIDE, current) == Some(f) && SplitFrom(rest, f, current).Ok?
    ensures Splits(current + rest, SplitFrom(rest, f, current).value, pieces)
    decreases |rest|
  {
    hide Trim, OfLinks, WriteAll, Control;
    if rest == "" {
      var piece := ClosedIsWritten(current);
      pieces := [piece];
      assert current + rest == current;
    } else if Advance(f, rest[0]).Cut? {
      CutIsOutside(f, rest[0]);
      var piece := ClosedIsWritten(current);
      NothingIsThrough();
      var more := SplitIsWritten(rest[1..], OUTSIDE, "");
      pieces := [piece] + more;
      assert pieces[1..] == more && "" + rest[1..] == rest[1..];
      assert current + rest == current + "," + rest[1..];
      var links := SplitFrom(rest, f, current).value;
      assert links[1..] == SplitFrom(rest[1..], OUTSIDE, "").value;
      TrimmedMore(piece, more, links);
    } else {
      var g := Advance(f, rest[0]).flags;
      ThroughOne(current, f, rest[0]);
      pieces := SplitIsWritten(rest[1..], g, current + [rest[0]]);
      assert current + [rest[0]] + rest[1..] == current + rest;
    }
  }

  lemma CutIsOutside(f: Flags, c: char)
    requires Advance(f, c).Cut?
    ensures c == ',' && !f.inAngle && !f.inQuote && !f.escaped && f == OUTSIDE
  {
  }

  lemma {:induction false} ThroughOne(current: string, f: Flags, c: char)
    requires LinkRoundTrip.Through(OUTSIDE, current) == Some(f) && Advance(f, c).Go?
    ensures LinkRoundTrip.Through(OUTSIDE, current + [c]) == Some(Advance(f, c).flags)
  {
    assert [c][1..] == "";
    LinkRoundTrip.ThroughJoin(OUTSIDE, current, [c]);
  }

  lemma {:induction false} TrimmedMore(piece: seq<Segment>, more: seq<seq<Segment>>, links: seq<string>)
    requires links != [] && OfLinks(piece) && links[0] == Trim(WriteAll(piece)) != "" && Trimmed(more, links[1..])
    ensures Trimmed([piece] + more, links)
  {
    hide OfLinks, WriteAll, Trim;
    var pieces := [piece] + more;
    forall i | 0 <= i < |pieces|
      ensures OfLinks(pieces[i]) && links[i] == Trim(WriteAll(pieces[i])) != ""
    {
      if i > 0 {
        assert pieces[i] == more[i - 1] && links[i] == links[1..][i - 1];
      }
    }
  }

  lemma {:induction false} WrittenSplits(pieces: seq<seq<Segment>>, links: seq<string>)
    requires pieces != [] && Trimmed(pieces, links)
    ensures SplitFrom(Joined(pieces), OUTSIDE, "") == Ok(links)
    decreases |pieces|
  {
    hide Trim, OfLinks, WriteAll, LinkRoundTrip.Through, Control;
    var first := WriteAll(pieces[0]);
    WrittenIsClosed(pieces[0]);
    assert "" + first == first;
    if |pieces| == 1 {
      assert first + "" == first;
      LinkRoundTrip.SplitThrough(first, "", OUTSIDE, "");
      assert links == [Trim(first)];
    } else {
      var rest := Joined(pieces[1..]);
      WrittenSplits(pieces[1..], links[1..]);
      assert first + "," + rest == first + ("," + rest);
      LinkRoundTrip.SplitThrough(first, "," + rest, OUTSIDE, "");
      assert ("," + rest)[1..] == rest;
      CommaCuts();
      assert links == [links[0]] + links[1..];
    }
  }

  lemma CommaCuts()
    ensures Advance(OUTSIDE, ',') == Cut
  {
  }

  /**
   A header is split into these links if and only if it is written as pieces with closed
   brackets and quotes, commas between them, and each link is a piece without the space
   around it.
   */
  lemma {:induction false} SplitsExactly(header: string, links: seq<string>)
    ensures SplitFrom(header, OUTSIDE, "") == Ok(links) <==> exists pieces :: Splits(header, links, pieces)
  {
    hide SplitFrom, Trimmed, Joined;
    if SplitFrom(header, OUTSIDE, "") == Ok(links) {
      NothingIsThrough();
      var pieces := SplitIsWritten(header, OUTSIDE, "");
      assert "" + header == header;
    }
    if pieces :| Splits(header, links, pieces) {
      WrittenSplits(pieces, links);
    }
  }

  // ---- Values ----

  lemma {:induction false} UnescapeIsWritten(s: string) returns (items: seq<Item>)
    requires Unescape(s).Ok?
    ensures Proper(items) && WriteItems(items) == s && ReadItems(items) == Unescape(s).value
    decreases |s|
  {
    if s == "" {
      items := [];
    } else if s[0] == '\\' {
      var rest := UnescapeIsWritten(s[2..]);
      items := [Escaped(s[1])] + rest;
      assert items[1..] == rest && s == ['\\', s[1]] + s[2..];
    } else {
      var rest := UnescapeIsWritten(s[1..]);
      items := [Bare(s[0])] + rest;
      assert items[1..] == rest && s == [s[0]] + s[1..];
    }
  }

  lemma {:induction false} WrittenUnescapes(items: seq<Item>)
    requires Proper(items)
    ensures Unescape(WriteItems(items)) == Ok(ReadItems(items))
  {
    if items == [] {
    } else {
      var rest := WriteItems(items[1..]);
      WrittenUnescapes(items[1..]);
      if items[0].Bare? {
        assert ([items[0].c] + rest)[1..] == rest;
      } else {
        assert (['\\', items[0].c] + rest)[2..] == rest;
      }
    }
  }

  ghost predicate QuotedValue(value: string, v: string, items: seq<Item>) {
    Proper(items) && value == Write(Quote(items)) && v == ReadItems(items)
  }

  /** A value is read as a token or as a quoted string, and as nothing else. */
  lemma {:induction false} ValueExactly(value: string, v: string)
    ensures ParameterValue(value) == Ok(v) <==>
            (Token(value) && v == value) || exists items :: QuotedValue(value, v, items)
  {
    hide Unescape, WriteItems, ReadItems;
    if |value| >= 2 && value[0] == '"' && value[|value| - 1] == '"' {
      assert !Token(value) by {
        assert !TokenChar(value[0]);
      }
      var inner := value[1..|value| - 1];
      assert value == "\"" + inner + "\"";
      if Unescape(inner) == Ok(v) {
        var items := UnescapeIsWritten(inner);
        assert QuotedValue(value, v, items);
      }
      if items :| QuotedValue(value, v, items) {
        assert inner == WriteItems(items);
        WrittenUnescapes(items);
      }
    } else {
      forall items: seq<Item>
        ensures !QuotedValue(value, v, items)
      {
        var q := "\"" + WriteItems(items) + "\"";
        assert q[0] == '"' && q[|q| - 1] == '"';
      }
    }
  }

  // ---- Parameters ----

  /** A piece of a parameter: quotes are closed and semicolons stand inside them. */
  predicate OfParameter(s: Segment) {
    match s
    case Plain(c) => c != '"' && c != ';'
    case Angle(_) => false
    case Quote(items) => Proper(items)
  }

  ghost predicate OfParameters(segments: seq<Segment>) {
    forall i :: 0 <= i < |segments| ==> OfParameter(segments[i])
  }

  /** The rest of a text whose length the scanner counts. */
  ghost predicate Counts(s: string, quoted: bool, rest: string) {
    var whole, more := ParameterLength(s, quoted, false), ParameterLength(rest, false, false);
    |rest| <= |s| && whole.Ok? && more.Ok? && whole.value == |s| - |rest| + more.value
  }

  lemma CountsMore(s: string, quoted: bool, t: string, rest: string)
    requires |t| < |s| && ParameterLength(t, true, false).Ok? && Counts(t, true, rest)
    requires ParameterLength(s, quoted, false) == Ok(|s| - |t| + ParameterLength(t, true, false).value)
    ensures Counts(s, quoted, rest)
  {
  }

  lemma {:induction false} QuoteEnds(s: string) returns (items: seq<Item>, rest: string)
    requires ParameterLength(s, true, false).Ok?
    ensures Proper(items) && s == WriteItems(items) + "\"" + rest && Counts(s, true, rest)
    decreases |s|
  {
    if s[0] == '"' {
      items, rest := [], s[1..];
      assert s == "" + "\"" + rest;
    } else if s[0] == '\\' {
      var t := s[1..];
      assert ParameterLength(t, true, true).Ok?;
      assert ParameterLength(s, true, false) == Ok(2 + ParameterLength(t[1..], true, false).value);
      hide ParameterLength;
      var more;
      more, rest := QuoteEnds(t[1..]);
      CountsMore(s, true, t[1..], rest);
      hide Counts;
      ItemFirst(Escaped(t[0]), more, rest, t[1..]);
      items := [Escaped(t[0])] + more;
      hide Proper, WriteItems;
      assert s == WriteItem(Escaped(t[0])) + t[1..];
    } else {
      assert ParameterLength(s, true, false) == Ok(1 + ParameterLength(s[1..], true, false).value);
      hide ParameterLength;
      var more;
      more, rest := QuoteEnds(s[1..]);
      CountsMore(s, true, s[1..], rest);
      hide Counts;
      ItemFirst(Bare(s[0]), more, rest, s[1..]);
      items := [Bare(s[0])] + more;
      hide Proper, WriteItems;
      assert s == WriteItem(Bare(s[0])) + s[1..];
    }
  }

  lemma {:induction false} FoundIsWritten(s: string) returns (segments: seq<Segment>, rest: string)
    requires ParameterLength(s, false, false).Ok?
    ensures OfParameters(segments) && s == WriteAll(segments) + rest && (rest == "" || rest[0] == ';')
    ensures |rest| == |s| - ParameterLength(s, false, false).value
    decreases |s|
  {
    if s == "" || s[0] == ';' {
      segments, rest := [], s;
    } else {
      var first, after := FoundFirst(s);
      hide ParameterLength, OfParameter, Write;
      var more;
      more, rest := FoundIsWritten(after);
      segments := [first] + more;
      SegmentFirst(first, more, rest);
    }
  }

  lemma {:induction false} FoundFirst(s: string) returns (first: Segment, after: string)
    requires ParameterLength(s, false, false).Ok? && s != "" && s[0] != ';'
    ensures OfParameter(first) && s == Write(first) + after && |after| < |s| && Counts(s, false, after)
  {
    var t := s[1..];
    assert s == [s[0]] + t;
    if s[0] == '"' {
      assert ParameterLength(s, false, false) == Ok(1 + ParameterLength(t, true, false).value);
      var items;
      items, after := QuoteEnds(t);
      hide ParameterLength, WriteItems;
      first := Quote(items);
      assert "\"" + (WriteItems(items) + "\"" + after) == "\"" + WriteItems(items) + "\"" + after;
    } else {
      assert ParameterLength(s, false, false) == Ok(1 + ParameterLength(t, false, false).value);
      hide ParameterLength;
      first, after := Plain(s[0]), t;
    }
  }

  lemma {:induction false} ItemsAreAcross(items: seq<Item>)
    requires Proper(items)
    ensures LinkRoundTrip.Across(WriteItems(items), true, false) == Some((true, false))
  {
    if items == [] {
    } else {
      var one, rest := WriteItem(items[0]), WriteItems(items[1..]);
      ItemsAreAcross(items[1..]);
      if items[0].Escaped? {
        assert one[1..] == [items[0].c] && [items[0].c][1..] == "";
        assert LinkRoundTrip.Across([items[0].c], true, true) == Some((true, false));
      } else {
        assert one[1..] == "";
      }
      LinkRoundTrip.AcrossJoin(one, rest, true, false);
    }
  }

  lemma {:induction false} SegmentIsAcross(s: Segment)
    requires OfParameter(s)
    ensures LinkRoundTrip.Across(Write(s), false, false) == Some((false, false))
  {
    if s.Plain? {
      assert [s.c][1..] == "";
    } else {
      LinkRoundTrip.AcrossQuote();
      ItemsAreAcross(s.items);
      LinkRoundTrip.AcrossJoin("\"", WriteItems(s.items), false, false);
      LinkRoundTrip.AcrossJoin("\"" + WriteItems(s.items), "\"", false, false);
    }
  }

  lemma {:induction false} WrittenIsAcross(segments: seq<Segment>)
    requires OfParameters(segments)
    ensures LinkRoundTrip.Across(WriteAll(segments), false, false) == Some((false, false))
  {
    hide OfParameter, Write;
    if segments == [] {
    } else {
      SegmentIsAcross(segments[0]);
      WrittenIsAcross(segments[1..]);
      LinkRoundTrip.AcrossJoin(Write(segments[0]), WriteAll(segments[1..]), false, false);
    }
  }

  ghost predicate Finds(tail: string, p: Parameter, segments: seq<Segment>) {
    && OfParameters(segments) && tail == WriteAll(segments) + p.remainder
    && (p.remainder == "" || p.remainder[0] == ';') && p.text == Trim(WriteAll(segments)) != ""
  }

  /** The parameter at the front of a text ends at its end or at the first semicolon outside quotes. */
  lemma {:induction false} ParameterExactly(tail: string, p: Parameter)
    ensures NextParameter(tail) == Ok(p) <==> exists segments :: Finds(tail, p, segments)
  {
    hide Trim, OfParameters, WriteAll, LinkRoundTrip.Across;
    if NextParameter(tail) == Ok(p) {
      var n := ParameterLength(tail, false, false).value;
      var segments, rest := FoundIsWritten(tail);
      assert tail[..n] == WriteAll(segments) && tail[n..] == rest;
      assert Finds(tail, p, segments);
    }
    if segments :| Finds(tail, p, segments) {
      var text := WriteAll(segments);
      WrittenIsAcross(segments);
      LinkRoundTrip.AcrossJoin(text, p.remainder, false, false);
      assert ParameterLength(p.remainder, false, false) == Ok(0);
      assert tail[..|text|] == text && tail[|text|..] == p.remainder;
    }
  }

  // ---- The words of a value ----

  /** Words with gaps before, between and after them. */
  function Spread(words: seq<string>, gaps: seq<string>): string
    requires |gaps| == |words| + 1
    decreases |words|
  {
    gaps[0] + if words == [] then "" else words[0] + Spread(words[1..], gaps[1..])
  }

  ghost predicate Spaces(s: string) {
    forall i :: 0 <= i < |s| ==> IsSpace(s[i])
  }

  ghost predicate Word(s: string) {
    s != "" && forall i :: 0 <= i < |s| ==> !IsSpace(s[i])
  }

  ghost predicate Spreads(s: string, words: seq<string>, gaps: seq<string>) {
    && |gaps| == |words| + 1 && s == Spread(words, gaps)
    && (forall i :: 0 <= i < |gaps| ==> Spaces(gaps[i]) && (0 < i < |words| ==> gaps[i] != ""))
    && forall i :: 0 <= i < |words| ==> Word(words[i])
  }

  lemma {:induction false} FirstFieldIs(s: string)
    ensures var n := FirstField(s);
            (forall i :: 0 <= i < n ==> !IsSpace(s[i])) && (n < |s| ==> IsSpace(s[n]))
  {
    hide IsSpace;
    if s != "" && !IsSpace(s[0]) {
      FirstFieldIs(s[1..]);
    }
  }

  lemma {:induction false} FieldsAreSpread(s: string) returns (gaps: seq<string>)
    ensures Spreads(s, Fields(s), gaps) && (s != "" && !IsSpace(s[0]) ==> gaps[0] == "")
    ensures s != "" && IsSpace(s[0]) ==> gaps[0] != ""
    decreases |s|
  {
    hide IsSpace, Spread;
    if s == "" {
      gaps := [""];
      NothingIsSpread();
    } else if IsSpace(s[0]) {
      var rest := FieldsAreSpread(s[1..]);
      gaps := rest[0 := [s[0]] + rest[0]];
      hide Spreads;
      assert |gaps| > 0 && gaps[0] != "";
      WiderGap(s[0], s[1..], Fields(s[1..]), rest);
      assert s == [s[0]] + s[1..];
    } else {
      var n := FirstField(s);
      FirstFieldIs(s);
      var rest := FieldsAreSpread(s[n..]);
      gaps := [""] + rest;
      assert s == s[..n] + s[n..];
      assert Word(s[..n]);
      hide Word;
      OneMoreWord(s[..n], s[n..], Fields(s[n..]), rest);
    }
  }

  lemma NothingIsSpread()
    ensures Spreads("", [], [""])
  {
  }

  lemma {:induction false} WiderGap(c: char, s: string, words: seq<string>, gaps: seq<string>)
    requires IsSpace(c) && Spreads(s, words, gaps)
    ensures Spreads([c] + s, words, gaps[0 := [c] + gaps[0]])
  {
    hide IsSpace;
    var wider := gaps[0 := [c] + gaps[0]];
    assert wider[1..] == gaps[1..];
    var rest := if words == [] then "" else words[0] + Spread(words[1..], gaps[1..]);
    assert s == gaps[0] + rest;
    assert [c] + (gaps[0] + rest) == [c] + gaps[0] + rest;
  }

  lemma {:induction false} OneMoreWord(word: string, s: string, words: seq<string>, gaps: seq<string>)
    requires Word(word) && Spreads(s, words, gaps) && (words != [] ==> gaps[0] != "")
    ensures Spreads(word + s, [word] + words, [""] + gaps)
  {
    hide IsSpace, Word, Spaces;
    var all, spaces := [word] + words, [""] + gaps;
    assert all[1..] == words && spaces[1..] == gaps;
    assert Spread(all, spaces) == "" + (word + s);
    assert Spaces("") by {
      NoSpaces();
    }
  }

  lemma NoSpaces()
    ensures Spaces("")
  {
  }

  lemma {:induction false} SkipSpaces(gap: string, rest: string)
    requires Spaces(gap)
    ensures Fields(gap + rest) == Fields(rest)
    decreases |gap|
  {
    hide IsSpace;
    if gap == "" {
      assert gap + rest == rest;
    } else {
      assert (gap + rest)[1..] == gap[1..] + rest;
      SkipSpaces(gap[1..], rest);
    }
  }

  lemma {:induction false} FirstFieldOf(word: string, rest: string)
    requires forall i :: 0 <= i < |word| ==> !IsSpace(word[i])
    requires rest == "" || IsSpace(rest[0])
    ensures FirstField(word + rest) == |word|
    decreases |word|
  {
    hide IsSpace;
    if word == "" {
      assert word + rest == rest;
    } else {
      assert (word + rest)[1..] == word[1..] + rest;
      FirstFieldOf(word[1..], rest);
    }
  }

  lemma {:induction false} SpreadHasFields(s: string, words: seq<string>, gaps: seq<string>)
    requires Spreads(s, words, gaps)
    ensures Fields(s) == words
    decreases |words|
  {
    hide IsSpace;
    if words == [] {
      assert s == gaps[0] + "";
      SkipSpaces(gaps[0], "");
    } else {
      var word, rest := words[0], Spread(words[1..], gaps[1..]);
      SkipSpaces(gaps[0], word + rest);
      assert s == gaps[0] + (word + rest);
      assert Spreads(rest, words[1..], gaps[1..]);
      SpreadHasFields(rest, words[1..], gaps[1..]);
      RestStartsWithSpace(words, gaps);
      FirstFieldOf(word, rest);
      assert (word + rest)[..|word|] == word && (word + rest)[|word|..] == rest;
      assert (word + rest)[0] == word[0];
    }
  }

  lemma {:induction false} RestStartsWithSpace(words: seq<string>, gaps: seq<string>)
    requires words != [] && |gaps| == |words| + 1 && Spaces(gaps[1]) && (|words| > 1 ==> gaps[1] != "")
    ensures var rest := Spread(words[1..], gaps[1..]); rest == "" || IsSpace(rest[0])
  {
    hide IsSpace;
    var rest := Spread(words[1..], gaps[1..]);
    assert gaps[1..][0] == gaps[1];
    if gaps[1] == "" {
      assert rest == gaps[1] + "";
    }
  }

  /** The fields of a text are its words. */
  lemma {:induction false} FieldsExactly(s: string, words: seq<string>)
    ensures Fields(s) == words <==> exists gaps :: Spreads(s, words, gaps)
  {
    hide Fields, Spreads;
    if Fields(s) == words {
      var gaps := FieldsAreSpread(s);
    }
    if gaps :| Spreads(s, words, gaps) {
      SpreadHasFields(s, words, gaps);
    }
  }

  // ---- Links and headers ----

  /** A link is a target in brackets and parameters that can be read; the target is not empty and has no brackets. */
  lemma {:induction false} TargetExactly(link: string, target: string, next: bool)
    ensures LinkRelation(link) == Ok(Relation(target, next)) <==>
            && |link| >= |target| + 2 && link == "<" + target + ">" + link[|target| + 2..]
            && target != "" && '<' !in target && '>' !in target
            && ReadParameters(Trim(link[|target| + 2..]), Seen(false, false)).Ok?
            && ReadParameters(Trim(link[|target| + 2..]), Seen(false, false)).value.next == next
  {
    hide ReadParameters, Trim;
    var close := IndexOf(link, '>');
    if |link| >= |target| + 2 && link == "<" + target + ">" + link[|target| + 2..] && '>' !in target {
      assert link[|target| + 1] == '>';
      assert forall i :: 1 <= i < |target| + 1 ==> link[i] == target[i - 1];
      assert close == |target| + 1;
      assert link[1..close] == target;
    } else if link != "" && link[0] == '<' && 1 < close < |link| {
      assert link == "<" + link[1..close] + ">" + link[close + 1..];
    }
  }

  /** A header for a foreign page or of more than 8192 bytes is refused, and an empty one has no next page. */
  lemma HeaderLimits(pages: Pages, current: string, header: string)
    ensures !pages.isPage(current) || ByteLength(header) > 8192 ==> NextPage(pages, current, header) == Err(InvalidLink)
    ensures pages.isPage(current) && header == "" ==> NextPage(pages, current, header) == Ok("")
  {
  }
}

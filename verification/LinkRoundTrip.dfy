/**
 Writing a Link header and reading it back: for every list of links, with any
 delimiters inside quoted values, the scanner of `LinkHeader` recovers the targets and
 the `rel=next` marks.
 */
module LinkRoundTrip {
  import opened Wrappers
  import opened Texts
  import opened LinkHeader

  datatype Param = Param(key: string, value: string)

  datatype Link = Link(target: string, params: seq<Param>)

  predicate Printable(s: string) {
    forall i :: 0 <= i < |s| ==> !Control(s[i])
  }

  /** A link that a header can carry: a nonempty target without brackets, token keys, no control characters. */
  predicate WellFormed(l: Link) {
    && l.target != "" && '<' !in l.target && '>' !in l.target && Printable(l.target)
    && forall i :: 0 <= i < |l.params| ==> Token(l.params[i].key) && Printable(l.params[i].value)
  }

  // ---- Writing ----

  /** A quoted-string body: quotes and backslashes are escaped, nothing else. */
  function Escape(v: string): string {
    if v == "" then "" else (if v[0] == '"' || v[0] == '\\' then ['\\', v[0]] else [v[0]]) + Escape(v[1..])
  }

  function Quoted(v: string): string {
    "\"" + Escape(v) + "\""
  }

  function RenderParam(p: Param): string {
    p.key + "=" + Quoted(p.value)
  }

  function RenderParams(params: seq<Param>): string {
    if params == [] then "" else "; " + RenderParam(params[0]) + RenderParams(params[1..])
  }

  function RenderLink(l: Link): string {
    "<" + l.target + ">" + RenderParams(l.params)
  }

  function RenderLinks(links: seq<Link>): (r: seq<string>)
    ensures |r| == |links| && forall i :: 0 <= i < |links| ==> r[i] == RenderLink(links[i])
  {
    if links == [] then [] else [RenderLink(links[0])] + RenderLinks(links[1..])
  }

  function Header(links: seq<Link>): string {
    if links == [] then ""
    else if |links| == 1 then RenderLink(links[0])
    else RenderLink(links[0]) + ", " + Header(links[1..])
  }

  // ---- Trimming ----

  lemma TokenIsSolid(s: string)
    requires Token(s)
    ensures Solid(s) && '=' !in s && '"' !in s && ';' !in s
  {
    assert TokenChar(s[0]) && TokenChar(s[|s| - 1]);
  }

  lemma ParamIsSolid(p: Param)
    requires Token(p.key)
    ensures Solid(RenderParam(p)) && Solid(Quoted(p.value))
  {
    TokenIsSolid(p.key);
    var q := Quoted(p.value);
    assert q[0] == '"' && q[|q| - 1] == '"';
    assert RenderParam(p) == p.key + ("=" + q);
    assert ("=" + q)[|q|] == '"';
  }

  /** A parameter list is empty, or starts with a semicolon and ends with a quote. */
  lemma {:induction false} ParamsEnd(params: seq<Param>)
    requires forall i :: 0 <= i < |params| ==> Token(params[i].key)
    ensures params != [] ==> RenderParams(params) != "" && RenderParams(params)[0] == ';' && Solid(RenderParams(params))
  {
    if params == [] {
    } else {
      var head, tail := "; " + RenderParam(params[0]), RenderParams(params[1..]);
      ParamIsSolid(params[0]);
      assert head[|head| - 1] == RenderParam(params[0])[|RenderParam(params[0])| - 1];
      ParamsEnd(params[1..]);
      if tail == "" {
        assert head + tail == head;
      } else {
      }
      assert (head + tail)[0] == ';';
    }
  }

  lemma {:induction false} LinkIsSolid(l: Link)
    requires WellFormed(l)
    ensures Solid(RenderLink(l))
  {
    var head, tail := "<" + l.target + ">", RenderParams(l.params);
    ParamsEnd(l.params);
    assert head[0] == '<' && head[|head| - 1] == '>';
    if tail == "" {
      assert head + tail == head;
    } else {
    }
  }

  // ---- Splitting ----

  /** The flags after scanning text that neither splits nor fails. */
  function Through(f: Flags, s: string): Option<Flags>
    decreases |s|
  {
    if s == "" then Some(f)
    else
      match Advance(f, s[0])
      case Go(g) => Through(g, s[1..])
      case Cut => None
      case Reject => None
  }

  lemma {:induction false} ThroughJoin(f: Flags, a: string, b: string)
    requires Through(f, a).Some?
    ensures Through(f, a + b) == Through(Through(f, a).value, b)
    decreases |a|
  {
    if a == "" {
      assert a + b == b;
    } else {
      assert (a + b)[1..] == a[1..] + b;
      ThroughJoin(Advance(f, a[0]).flags, a[1..], b);
    }
  }

  lemma {:induction false} ThroughPlain(f: Flags, s: string)
    requires forall i :: 0 <= i < |s| ==> Advance(f, s[i]) == Go(f)
    ensures Through(f, s) == Some(f)
    decreases |s|
  {
    if s == "" {
    } else {
      ThroughPlain(f, s[1..]);
    }
  }

  lemma {:induction false} ThroughEscape(v: string)
    requires Printable(v)
    ensures Through(Flags(false, true, false), Escape(v)) == Some(Flags(false, true, false))
    decreases |v|
  {
    if v == "" {
    } else {
      ThroughEscape(v[1..]);
      var quote := Flags(false, true, false);
      if v[0] == '"' || v[0] == '\\' {
        assert Escape(v) == ['\\', v[0]] + Escape(v[1..]);
        assert ['\\', v[0]][1..] == [v[0]] && [v[0]][1..] == "";
        assert Through(Flags(false, true, true), [v[0]]) == Some(quote);
        assert Through(quote, ['\\', v[0]]) == Some(quote);
        ThroughJoin(quote, ['\\', v[0]], Escape(v[1..]));
      } else {
        assert [v[0]][1..] == "";
        ThroughJoin(quote, [v[0]], Escape(v[1..]));
      }
    }
  }

  lemma {:induction false} ThroughQuoted(v: string)
    requires Printable(v)
    ensures Through(OUTSIDE, Quoted(v)) == Some(OUTSIDE)
  {
    var q: string := "\"";
    assert q[1..] == "";
    assert Through(OUTSIDE, q) == Some(Flags(false, true, false));
    assert Through(Flags(false, true, false), q) == Some(OUTSIDE);
    ThroughEscape(v);
    ThroughJoin(OUTSIDE, q, Escape(v));
    ThroughJoin(OUTSIDE, q + Escape(v), q);
  }

  lemma {:induction false} ThroughKey(key: string)
    requires Token(key)
    ensures Through(OUTSIDE, "; " + key + "=") == Some(OUTSIDE)
  {
    var lead := "; " + key + "=";
    forall i | 0 <= i < |lead|
      ensures Advance(OUTSIDE, lead[i]) == Go(OUTSIDE)
    {
      assert 2 <= i < 2 + |key| ==> lead[i] == key[i - 2] && TokenChar(key[i - 2]);
    }
    ThroughPlain(OUTSIDE, lead);
  }

  lemma {:induction false} ThroughParams(params: seq<Param>)
    requires forall i :: 0 <= i < |params| ==> Token(params[i].key) && Printable(params[i].value)
    ensures Through(OUTSIDE, RenderParams(params)) == Some(OUTSIDE)
  {
    if params == [] {
    } else {
      hide Advance, Quoted, Through;
      var p, tail := params[0], RenderParams(params[1..]);
      var lead := "; " + p.key + "=";
      ThroughKey(p.key);
      ThroughQuoted(p.value);
      ThroughJoin(OUTSIDE, lead, Quoted(p.value));
      ThroughParams(params[1..]);
      ThroughJoin(OUTSIDE, lead + Quoted(p.value), tail);
      Regroup("; ", p.key, "=", Quoted(p.value), tail);
    }
  }

  lemma Regroup(a: string, b: string, c: string, d: string, e: string)
    ensures a + (b + c + d) + e == a + b + c + d + e
  {
  }

  lemma {:induction false} ThroughLink(l: Link)
    requires WellFormed(l)
    ensures Through(OUTSIDE, RenderLink(l)) == Some(OUTSIDE)
  {
    var angle := Flags(true, false, false);
    var less, more: string := "<", ">";
    assert less[1..] == "" && more[1..] == "";
    assert Through(OUTSIDE, less) == Some(angle);
    assert Through(angle, more) == Some(OUTSIDE);
    forall i | 0 <= i < |l.target|
      ensures Advance(angle, l.target[i]) == Go(angle)
    {
      assert l.target[i] in l.target;
    }
    ThroughPlain(angle, l.target);
    ThroughJoin(OUTSIDE, less, l.target);
    ThroughJoin(OUTSIDE, less + l.target, more);
    ThroughParams(l.params);
    ThroughJoin(OUTSIDE, less + l.target + more, RenderParams(l.params));
  }

  lemma {:induction false} SplitThrough(s: string, t: string, f: Flags, current: string)
    requires Through(f, s).Some?
    ensures SplitFrom(s + t, f, current) == SplitFrom(t, Through(f, s).value, current + s)
    decreases |s|
  {
    hide Trim, Control, IsSpace;
    if s == "" {
      assert s + t == t && current + s == current;
    } else {
      assert (s + t)[1..] == s[1..] + t && (s + t)[0] == s[0];
      SplitThrough(s[1..], t, Advance(f, s[0]).flags, current + [s[0]]);
      assert current + [s[0]] + s[1..] == current + s;
    }
  }

  /** Joining links with commas and splitting the header gives the links back. */
  lemma {:induction false} SplitHeader(links: seq<Link>, pad: string)
    requires links != [] && (pad == "" || pad == " ")
    requires forall i :: 0 <= i < |links| ==> WellFormed(links[i])
    ensures SplitFrom(Header(links), OUTSIDE, pad) == Ok(RenderLinks(links))
    decreases |links|
  {
    hide Trim, Advance, WellFormed, SplitFrom, RenderLink, Through;
    var first := RenderLink(links[0]);
    LinkIsSolid(links[0]);
    TrimSolid(first);
    assert pad == "" ==> pad + first == first;
    ThroughLink(links[0]);
    if |links| == 1 {
      assert first + "" == first;
      SplitThrough(first, "", OUTSIDE, pad);
      SplitEnd(pad + first);
      assert RenderLinks(links) == [first];
    } else {
      var rest := ", " + Header(links[1..]);
      assert Header(links) == first + rest;
      SplitThrough(first, rest, OUTSIDE, pad);
      SplitComma(Header(links[1..]), pad + first);
      SplitHeader(links[1..], " ");
    }
  }

  lemma SplitEnd(current: string)
    requires Trim(current) != ""
    ensures SplitFrom("", OUTSIDE, current) == Ok([Trim(current)])
  {
  }

  lemma {:induction false} SplitComma(rest: string, current: string)
    requires Trim(current) != ""
    ensures SplitFrom(", " + rest, OUTSIDE, current) ==
            match SplitFrom(rest, OUTSIDE, " ")
            case Err(e) => Err(e)
            case Ok(links) => Ok([Trim(current)] + links)
  {
    var s := ", " + rest;
    assert s[1..] == " " + rest && (" " + rest)[1..] == rest;
    assert "" + [' '] == " ";
    assert SplitFrom(" " + rest, OUTSIDE, "") == SplitFrom(rest, OUTSIDE, " ");
  }

  // ---- Reading parameters ----

  /** Quote state after scanning text without a semicolon outside quotes. */
  function Across(s: string, inQuote: bool, escaped: bool): Option<(bool, bool)>
    decreases |s|
  {
    if s == "" then Some((inQuote, escaped))
    else if !escaped && s[0] == ';' && !inQuote then None
    else
      Across(s[1..],
             if !escaped && s[0] == '"' then !inQuote else inQuote,
             !escaped && inQuote && s[0] == '\\')
  }

  lemma {:induction false} AcrossJoin(a: string, b: string, inQuote: bool, escaped: bool)
    requires Across(a, inQuote, escaped).Some?
    ensures var (q, e) := Across(a, inQuote, escaped).value;
            && Across(a + b, inQuote, escaped) == Across(b, q, e)
            && ParameterLength(a + b, inQuote, escaped) ==
               match ParameterLength(b, q, e)
               case Err(_) => Err(InvalidLink)
               case Ok(n) => Ok(|a| + n)
    decreases |a|
  {
    if a == "" {
      assert a + b == b;
      OneProblem(ParameterLength(b, inQuote, escaped));
    } else {
      assert (a + b)[1..] == a[1..] + b && (a + b)[0] == a[0];
      AcrossJoin(a[1..], b,
                 if !escaped && a[0] == '"' then !inQuote else inQuote,
                 !escaped && inQuote && a[0] == '\\');
    }
  }

  lemma OneProblem<T>(r: Result<T, Problem>)
    ensures r.Err? ==> r == Err(InvalidLink)
  {
    match r
    case Ok(_) =>
    case Err(e) =>
      match e
      case InvalidLink =>
  }

  lemma {:induction false} AcrossKey(s: string)
    requires forall i :: 0 <= i < |s| ==> s[i] != ';' && s[i] != '"'
    ensures Across(s, false, false) == Some((false, false))
    decreases |s|
  {
    if s == "" {
    } else {
      AcrossKey(s[1..]);
    }
  }

  lemma {:induction false} AcrossEscape(v: string)
    ensures Across(Escape(v), true, false) == Some((true, false))
    decreases |v|
  {
    if v == "" {
    } else {
      AcrossEscape(v[1..]);
      if v[0] == '"' || v[0] == '\\' {
        assert ['\\', v[0]][1..] == [v[0]] && [v[0]][1..] == "";
        assert Across([v[0]], true, true) == Some((true, false));
        assert Across(['\\', v[0]], true, false) == Some((true, false));
        AcrossJoin(['\\', v[0]], Escape(v[1..]), true, false);
      } else {
        assert [v[0]][1..] == "";
        AcrossJoin([v[0]], Escape(v[1..]), true, false);
      }
    }
  }

  lemma {:induction false} AcrossParam(p: Param)
    requires Token(p.key)
    ensures Across(RenderParam(p), false, false) == Some((false, false))
  {
    hide Across, Escape;
    var lead, q: string := p.key + "=", "\"";
    TokenIsSolid(p.key);
    forall i | 0 <= i < |lead|
      ensures lead[i] != ';' && lead[i] != '"'
    {
      assert i < |p.key| ==> lead[i] in p.key;
    }
    AcrossKey(lead);
    AcrossQuote();
    AcrossEscape(p.value);
    AcrossJoin(lead, q, false, false);
    AcrossJoin(lead + q, Escape(p.value), false, false);
    AcrossJoin(lead + q + Escape(p.value), q, false, false);
    assert RenderParam(p) == lead + q + Escape(p.value) + q;
  }

  lemma AcrossQuote()
    ensures Across("\"", false, false) == Some((true, false)) && Across("\"", true, false) == Some((false, false))
  {
    var q: string := "\"";
    assert q[1..] == "";
  }

  /** The scanner finds the end of a parameter whatever its value contains. */
  lemma {:induction false} FindsParameter(p: Param, params: seq<Param>)
    requires Token(p.key) && forall i :: 0 <= i < |params| ==> Token(params[i].key)
    ensures NextParameter(RenderParam(p) + RenderParams(params)) == Ok(Parameter(RenderParam(p), RenderParams(params)))
  {
    hide Across, RenderParam, Trim, Token;
    var text, rest := RenderParam(p), RenderParams(params);
    AcrossParam(p);
    AcrossJoin(text, rest, false, false);
    ParamsEnd(params);
    assert ParameterLength(rest, false, false) == Ok(0);
    assert (text + rest)[..|text|] == text && (text + rest)[|text|..] == rest;
    ParamIsSolid(p);
    TrimSolid(text);
  }

  lemma {:induction false} UnescapeEscape(v: string)
    ensures Unescape(Escape(v)) == Ok(v)
    decreases |v|
  {
    if v == "" {
    } else {
      var e, rest := Escape(v), Escape(v[1..]);
      UnescapeEscape(v[1..]);
      if v[0] == '"' || v[0] == '\\' {
        assert e[0] == '\\' && e[1] == v[0] && e[2..] == rest;
      } else {
        assert e[0] == v[0] && e[1..] == rest;
      }
      assert [v[0]] + v[1..] == v;
    }
  }

  /** A parameter is read as the key and value it was written from. */
  lemma {:induction false} ReadsParameter(p: Param, seen: Seen)
    requires Token(p.key)
    ensures ReadParameter(RenderParam(p), seen) == Note(seen, p.key, p.value)
  {
    hide Note, Trim, Escape, Unescape, Token;
    var text, q := RenderParam(p), Quoted(p.value);
    TokenIsSolid(p.key);
    TrimSolid(p.key);
    ParamIsSolid(p);
    TrimSolid(q);
    KeyEndsAtEquals(p.key, q);
    assert text == p.key + ("=" + q);
    assert text[..|p.key|] == p.key && text[|p.key| + 1..] == q;
    assert q[1..|q| - 1] == Escape(p.value);
    UnescapeEscape(p.value);
  }

  lemma {:induction false} KeyEndsAtEquals(key: string, rest: string)
    requires '=' !in key
    ensures IndexOf(key + "=" + rest, '=') == |key|
  {
    var text := key + "=" + rest;
    var n := IndexOf(text, '=');
    assert text[|key|] == '=';
    forall i | 0 <= i < |key|
      ensures text[i] != '='
    {
      assert text[i] == key[i] && key[i] in key;
    }
  }

  /** What a parameter list says, without any text: the notes of its parameters in order. */
  function Notes(params: seq<Param>, seen: Seen): Result<Seen, Problem>
    decreases |params|
  {
    if params == [] then Ok(seen)
    else
      match Note(seen, params[0].key, params[0].value)
      case Err(e) => Err(e)
      case Ok(next) => Notes(params[1..], next)
  }

  lemma {:induction false} ReadsParameters(params: seq<Param>, seen: Seen)
    requires forall i :: 0 <= i < |params| ==> Token(params[i].key)
    ensures ReadParameters(RenderParams(params), seen) == Notes(params, seen)
    decreases |params|
  {
    if params == [] {
    } else {
      hide Note, Trim, ReadParameter, NextParameter, RenderParam, Token;
      var p, rest, tail := params[0], params[1..], RenderParams(params);
      var after := RenderParams(rest);
      ParamsEnd(params);
      assert tail == "; " + RenderParam(p) + after;
      assert tail[1..] == " " + (RenderParam(p) + after);
      AfterSemicolon(p, rest);
      FindsParameter(p, rest);
      ReadsParameter(p, seen);
      var noted := Note(seen, p.key, p.value);
      if noted.Ok? {
        ReadsParameters(rest, noted.value);
      }
    }
  }

  lemma {:induction false} AfterSemicolon(p: Param, rest: seq<Param>)
    requires Token(p.key) && forall i :: 0 <= i < |rest| ==> Token(rest[i].key)
    ensures Trim(" " + (RenderParam(p) + RenderParams(rest))) == RenderParam(p) + RenderParams(rest)
    ensures Trim(RenderParams(rest)) == RenderParams(rest)
  {
    ParamIsSolid(p);
    ParamsEnd(rest);
    if rest == [] {
      assert RenderParam(p) + RenderParams(rest) == RenderParam(p);
    } else {
      TrimSolid(RenderParams(rest));
    }
    TrimSolid(RenderParam(p) + RenderParams(rest));
  }

  // ---- The round trip ----

  /** What a link means to a reader of the header. */
  function Meaning(l: Link): Result<Relation, Problem> {
    match Notes(l.params, Seen(false, false))
    case Err(e) => Err(e)
    case Ok(seen) => Ok(Relation(l.target, seen.next))
  }

  lemma {:induction false} ReadsLink(l: Link)
    requires WellFormed(l)
    ensures LinkRelation(RenderLink(l)) == Meaning(l)
  {
    hide ReadParameters, Notes, Trim;
    var text, tail := RenderLink(l), RenderParams(l.params);
    var close := 1 + |l.target|;
    assert text[close] == '>' && text[0] == '<' && text[1..close] == l.target && text[close + 1..] == tail;
    TargetEndsAtBracket(l);
    ParamsEnd(l.params);
    if l.params != [] {
      TrimSolid(tail);
    } else {
      assert Trim("") == "" by {
        TrimEmpty();
      }
    }
    ReadsParameters(l.params, Seen(false, false));
  }

  lemma {:induction false} TargetEndsAtBracket(l: Link)
    requires WellFormed(l)
    ensures IndexOf(RenderLink(l), '>') == 1 + |l.target|
  {
    var text := RenderLink(l);
    var n := IndexOf(text, '>');
    assert text[1 + |l.target|] == '>';
    forall i | 0 < i < 1 + |l.target|
      ensures text[i] != '>'
    {
      assert text[i] == l.target[i - 1] && l.target[i - 1] in l.target;
    }
  }

  /**
   Every list of links survives the header: splitting the written header gives one
   text per link, and each text is read as its target and its `rel=next` mark.
   */
  lemma {:induction false} HeaderRoundTrip(links: seq<Link>)
    requires links != [] && forall i :: 0 <= i < |links| ==> WellFormed(links[i])
    ensures var split := SplitFrom(Header(links), OUTSIDE, "");
            && split.Ok? && |split.value| == |links|
            && forall i :: 0 <= i < |links| ==> LinkRelation(split.value[i]) == Meaning(links[i])
  {
    hide SplitFrom, LinkRelation, Meaning;
    SplitHeader(links, "");
    forall i | 0 <= i < |links|
      ensures LinkRelation(RenderLinks(links)[i]) == Meaning(links[i])
    {
      ReadsLink(links[i]);
    }
  }

  // ---- What the marks mean ----

  function RelValues(params: seq<Param>): seq<string> {
    if params == [] then []
    else (if EqualFold(params[0].key, "rel") then [params[0].value] else []) + RelValues(params[1..])
  }

  function CountNext(relations: seq<string>): nat {
    if relations == [] then 0 else (if EqualFold(relations[0], "next") then 1 else 0) + CountNext(relations[1..])
  }

  lemma {:induction false} MarksNextCounts(relations: seq<string>, next: bool)
    ensures MarksNext(relations, next) ==
            if CountNext(relations) + (if next then 1 else 0) > 1 then Err(InvalidLink)
            else Ok(next || CountNext(relations) == 1)
    decreases |relations|
  {
    if relations == [] {
    } else {
      MarksNextCounts(relations[1..], next || EqualFold(relations[0], "next"));
    }
  }

  lemma {:induction false} NotesAfterRel(params: seq<Param>, seen: Seen)
    requires seen.rel
    ensures Notes(params, seen) == if RelValues(params) == [] then Ok(seen) else Err(InvalidLink)
    decreases |params|
  {
    if params == [] {
    } else {
      NotesAfterRel(params[1..], seen);
    }
  }

  /**
   A link is the next page exactly when its one `rel` parameter, in any case, names
   `next` once; two `rel` parameters, an empty one or a repeated `next` are errors.
   */
  lemma {:induction false} NextExactlyWhen(params: seq<Param>)
    ensures var rels := RelValues(params);
            Notes(params, Seen(false, false)) ==
            if rels == [] then Ok(Seen(false, false))
            else if |rels| > 1 || rels[0] == "" || CountNext(Fields(rels[0])) > 1 then Err(InvalidLink)
            else Ok(Seen(true, CountNext(Fields(rels[0])) == 1))
    decreases |params|
  {
    if params == [] {
    } else {
      var p, rest := params[0], params[1..];
      if EqualFold(p.key, "rel") {
        MarksNextCounts(Fields(p.value), false);
        var count := CountNext(Fields(p.value));
        NotesAfterRel(rest, Seen(true, count == 1));
        assert RelValues(params) == [p.value] + RelValues(rest);
        assert RelValues(rest) == [] <==> |RelValues(params)| == 1;
      } else {
        NextExactlyWhen(rest);
        assert RelValues(params) == RelValues(rest);
      }
    }
  }

  // ---- The next page is safe to follow ----

  lemma {:induction false} ChosenIsContinuation(pages: Pages, current: string, links: seq<string>, chosen: string)
    requires chosen == "" || Continuation(pages, current, chosen)
    ensures var r := ChooseNext(pages, current, links, chosen);
            r.Ok? ==> r.value == "" || Continuation(pages, current, r.value)
    decreases |links|
  {
    hide LinkRelation;
    if links == [] {
    } else {
      var link := LinkRelation(links[0]);
      if link.Ok? && !link.value.next {
        ChosenIsContinuation(pages, current, links[1..], chosen);
      } else if link.Ok? && chosen == "" && Continuation(pages, current, link.value.target) {
        ChosenIsContinuation(pages, current, links[1..], link.value.target);
      }
    }
  }

  /** A next page is a page of the scan other than the first, and never the page just read. */
  lemma {:induction false} NextPageIsSafe(pages: Pages, current: string, header: string)
    ensures var r := NextPage(pages, current, header);
            r.Ok? && r.value != "" ==> Continuation(pages, current, r.value) && r.value != current
  {
    hide ChooseNext, SplitFrom, ByteLength;
    var links := SplitFrom(header, OUTSIDE, "");
    if links.Ok? {
      ChosenIsContinuation(pages, current, links.value, "");
    }
  }

  /** Targets of the links that announce a next page. */
  function Nexts(links: seq<Link>): seq<string> {
    if links == [] then []
    else (if Meaning(links[0]).Ok? && Meaning(links[0]).value.next then [links[0].target] else []) + Nexts(links[1..])
  }

  predicate Meaningful(links: seq<Link>) {
    forall i :: 0 <= i < |links| ==> Meaning(links[i]).Ok?
  }

  lemma {:induction false} ChoosesNext(pages: Pages, current: string, links: seq<Link>, chosen: string)
    requires forall i :: 0 <= i < |links| ==> WellFormed(links[i])
    ensures ChooseNext(pages, current, RenderLinks(links), chosen) ==
            if !Meaningful(links) then Err(InvalidLink)
            else if Nexts(links) == [] then Ok(chosen)
            else if chosen != "" || |Nexts(links)| > 1 || !Continuation(pages, current,
              Nexts(links)[0]) then Err(InvalidLink)
            else Ok(Nexts(links)[0])
    decreases |links|
  {
    hide LinkRelation, Meaning, RenderLink, Continuation, Printable, Token;
    if links == [] {
    } else {
      var rest := links[1..];
      var m := Meaning(links[0]);
      ReadsLink(links[0]);
      OneProblem(m);
      assert RenderLinks(links)[0] == RenderLink(links[0]) && RenderLinks(links)[1..] == RenderLinks(rest);
      if m.Ok? {
        MeaningKeepsTarget(links[0]);
        assert Nexts(links) == (if m.value.next then [links[0].target] else []) + Nexts(rest);
        assert m.value.next ==> |Nexts(links)| == 1 + |Nexts(rest)| && Nexts(links)[0] == links[0].target;
        assert links[0].target != "";
        ChoosesNext(pages, current, rest, if m.value.next then links[0].target else chosen);
      }
    }
  }

  lemma MeaningKeepsTarget(l: Link)
    ensures Meaning(l).Ok? ==> Meaning(l).value.target == l.target
  {
  }

  /**
   The next page of a written header is the target of its one `rel=next` link: none
   without such a link, an error when there are two or the target may not be followed.
   */
  lemma {:induction false} NextOfHeader(pages: Pages, current: string, links: seq<Link>)
    requires forall i :: 0 <= i < |links| ==> WellFormed(links[i])
    requires pages.isPage(current) && ByteLength(Header(links)) <= 8192
    ensures NextPage(pages, current, Header(links)) ==
            if !Meaningful(links) then Err(InvalidLink)
            else if Nexts(links) == [] then Ok("")
            else if |Nexts(links)| > 1 || !Continuation(pages, current, Nexts(links)[0]) then Err(InvalidLink)
            else Ok(Nexts(links)[0])
  {
    hide ChooseNext, SplitFrom, ByteLength, Meaning, Continuation, WellFormed;
    if links != [] {
      SplitHeader(links, "");
      ChoosesNext(pages, current, links, "");
    }
  }

}

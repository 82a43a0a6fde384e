/**
 The Link header scanner of `internal/sources/global_advisories.go` (section 3 of
 RFC 8288).

 Header values are sequences of code points.  The scanner looks only for ASCII
 delimiters, so on valid UTF-8 scanning bytes and scanning code points is the same.
 */
module LinkHeader {
  import opened Wrappers
  import opened Texts

  datatype Problem = InvalidLink

  // ---- Text ----

  predicate Token(s: string) {
    s != "" && forall i :: 0 <= i < |s| ==> TokenChar(s[i])
  }

  predicate TokenChar(c: char) {
    '0' <= c <= '9' || 'A' <= c <= 'Z' || 'a' <= c <= 'z' || c == '-' || c == '_'
  }

  function Lower(c: char): char {
    if 'A' <= c <= 'Z' then c - 'A' + 'a' else c
  }

  /** `strings.EqualFold` against an ASCII word that has no other case variants. */
  predicate EqualFold(s: string, word: string) {
    |s| == |word| && forall i :: 0 <= i < |s| ==> Lower(s[i]) == Lower(word[i])
  }

  function FirstField(s: string): (n: nat)
    ensures n <= |s|
    ensures s != "" && !IsSpace(s[0]) ==> n > 0
  {
    if s == "" || IsSpace(s[0]) then 0 else 1 + FirstField(s[1..])
  }

  /** `strings.Fields`. */
  function Fields(s: string): seq<string>
    decreases |s|
  {
    if s == "" then []
    else if IsSpace(s[0]) then Fields(s[1..])
    else var n := FirstField(s); [s[..n]] + Fields(s[n..])
  }

  function IndexOf(s: string, c: char): (n: nat)
    ensures n <= |s| && (n < |s| ==> s[n] == c) && forall i :: 0 <= i < n ==> s[i] != c
  {
    if s == "" || s[0] == c then 0 else 1 + IndexOf(s[1..], c)
  }

  // ---- Splitting the header into links ----

  datatype Flags = Flags(inAngle: bool, inQuote: bool, escaped: bool)

  const OUTSIDE := Flags(false, false, false)

  datatype Move = Go(flags: Flags) | Cut | Reject

  predicate Control(c: char) {
    (c < ' ' && c != '\t') || c == 0x7F as char
  }

  /** What the splitter does at one character. */
  function Advance(f: Flags, c: char): Move {
    if Control(c) then Reject
    else if f.escaped then Go(f.(escaped := false))
    else if f.inQuote then
      if c == '\\' then Go(f.(escaped := true)) else if c == '"' then Go(f.(inQuote := false)) else Go(f)
    else if c == '<' then if f.inAngle then Reject else Go(f.(inAngle := true))
    else if c == '>' then if f.inAngle then Go(f.(inAngle := false)) else Reject
    else if c == '"' then if f.inAngle then Go(f) else Go(f.(inQuote := true))
    else if c == ',' && !f.inAngle then Cut
    else Go(f)
  }

  /** Splits the rest of a header; `current` is the link read so far. */
  function SplitFrom(rest: string, f: Flags, current: string): Result<seq<string>, Problem>
    decreases |rest|
  {
    if rest == "" then
      if f != OUTSIDE || Trim(current) == "" then Err(InvalidLink) else Ok([Trim(current)])
    else
      match Advance(f, rest[0])
      case Reject => Err(InvalidLink)
      case Go(g) => SplitFrom(rest[1..], g, current + [rest[0]])
      case Cut =>
        if Trim(current) == "" then Err(InvalidLink)
        else
          match SplitFrom(rest[1..], f, "")
          case Err(e) => Err(e)
          case Ok(links) => Ok([Trim(current)] + links)
  }

  ghost predicate Continues(whole: Result<seq<string>, Problem>, done: seq<string>, rest: Result<seq<string>,
      Problem>) {
    match rest
    case Err(e) => whole == Err(e)
    case Ok(more) => whole == Ok(done + more)
  }

  /** `splitGlobalAdvisoryLinks`. */
  method SplitLinks(header: string) returns (r: Result<seq<string>, Problem>)
    ensures r == SplitFrom(header, OUTSIDE, "")
  {
    hide Trim;
    var links: seq<string>, start := [], 0;
    var inAngle, inQuote, escaped := false, false, false;
    ghost var whole := SplitFrom(header, OUTSIDE, "");
    assert whole.Ok? ==> [] + whole.value == whole.value;
    assert header[0..] == header && header[0..0] == "";
    for index := 0 to |header|
      invariant 0 <= start <= index
      invariant Continues(whole, links, SplitFrom(header[index..], Flags(inAngle, inQuote, escaped),
        header[start..index]))
    {
      var character := header[index];
      ghost var rest, current := header[index..], header[start..index];
      assert rest[0] == character && rest[1..] == header[index + 1..];
      assert current + [character] == header[start..index + 1];
      if Control(character) {
        return Err(InvalidLink);
      }
      if escaped {
        escaped := false;
        continue;
      }
      if inQuote {
        if character == '\\' {
          escaped := true;
        } else if character == '"' {
          inQuote := false;
        }
        continue;
      }
      if character == '<' {
        if inAngle {
          return Err(InvalidLink);
        }
        inAngle := true;
      } else if character == '>' {
        if !inAngle {
          return Err(InvalidLink);
        }
        inAngle := false;
      } else if character == '"' {
        if !inAngle {
          inQuote := true;
        }
      } else if character == ',' {
        if !inAngle {
          var link := Trim(header[start..index]);
          if link == "" {
            return Err(InvalidLink);
          }
          ghost var tail := SplitFrom(header[index + 1..], OUTSIDE, "");
          assert tail.Ok? ==> links + ([link] + tail.value) == links + [link] + tail.value;
          links := links + [link];
          start := index + 1;
          assert header[start..index + 1] == "";
        }
      }
    }
    assert header[|header|..] == "" && header[start..] == header[start..|header|];
    var last := Trim(header[start..]);
    if inAngle || inQuote || escaped || last == "" {
      return Err(InvalidLink);
    }
    return Ok(links + [last]);
  }

  // ---- Parameters ----

  /** Length of the parameter at the front: up to a semicolon outside quotes, or everything. */
  function ParameterLength(s: string, inQuote: bool, escaped: bool): (r: Result<nat, Problem>)
    ensures r.Ok? ==> r.value <= |s|
  {
    if s == "" then if inQuote || escaped then Err(InvalidLink) else Ok(0)
    else if !escaped && s[0] == ';' && !inQuote then Ok(0)
    else
      var rest := ParameterLength(s[1..],
                                  if !escaped && s[0] == '"' then !inQuote else inQuote,
                                  !escaped && inQuote && s[0] == '\\');
      if rest.Err? then Err(InvalidLink) else Ok(1 + rest.value)
  }

  datatype Parameter = Parameter(text: string, remainder: string)

  function NextParameter(tail: string): (r: Result<Parameter, Problem>)
    ensures r.Ok? ==> |r.value.remainder| <= |tail|
  {
    match ParameterLength(tail, false, false)
    case Err(e) => Err(e)
    case Ok(n) => if Trim(tail[..n]) == "" then Err(InvalidLink) else Ok(Parameter(Trim(tail[..n]), tail[n..]))
  }

  ghost predicate Shifted(whole: Result<nat, Problem>, n: nat, rest: Result<nat, Problem>) {
    match rest
    case Err(e) => whole == Err(e)
    case Ok(more) => whole == Ok(n + more)
  }

  /** `nextGlobalAdvisoryLinkParameter`. */
  method ScanParameter(tail: string) returns (r: Result<Parameter, Problem>)
    ensures r == NextParameter(tail)
  {
    hide Trim;
    var inQuote, escaped := false, false;
    assert tail[0..] == tail;
    for index := 0 to |tail|
      invariant Shifted(ParameterLength(tail, false, false), index, ParameterLength(tail[index..], inQuote, escaped))
    {
      var character := tail[index];
      assert tail[index..][0] == character && tail[index..][1..] == tail[index + 1..];
      if escaped {
        escaped := false;
      } else if inQuote && character == '\\' {
        escaped := true;
      } else if character == '"' {
        inQuote := !inQuote;
      } else if character == ';' && !inQuote {
        if Trim(tail[..index]) == "" {
          return Err(InvalidLink);
        }
        return Ok(Parameter(Trim(tail[..index]), tail[index..]));
      }
    }
    assert tail[..|tail|] == tail && tail[|tail|..] == "";
    if inQuote || escaped || Trim(tail) == "" {
      return Err(InvalidLink);
    }
    return Ok(Parameter(Trim(tail), ""));
  }

  /** Removes the escapes of a quoted string, whose quotes are already taken off. */
  function Unescape(s: string): Result<string, Problem> {
    if s == "" then Ok("")
    else if s[0] == '\\' then
      if |s| == 1 then Err(InvalidLink)
      else
        match Unescape(s[2..])
        case Err(e) => Err(e)
        case Ok(rest) => Ok([s[1]] + rest)
    else if s[0] == '"' then Err(InvalidLink)
    else
      match Unescape(s[1..])
      case Err(e) => Err(e)
      case Ok(rest) => Ok([s[0]] + rest)
  }

  function ParameterValue(value: string): Result<string, Problem> {
    if |value| >= 2 && value[0] == '"' && value[|value| - 1] == '"' then Unescape(value[1..|value| - 1])
    else if Token(value) then Ok(value)
    else Err(InvalidLink)
  }

  ghost predicate Appended(whole: Result<string, Problem>, done: string, rest: Result<string, Problem>) {
    match rest
    case Err(e) => whole == Err(e)
    case Ok(more) => whole == Ok(done + more)
  }

  /** One character or escape of a quoted string. */
  lemma {:induction false} UnescapeOne(whole: Result<string, Problem>, done: string, s: string)
    requires s != "" && Appended(whole, done, Unescape(s))
    ensures if s[0] == '\\' then
              if |s| == 1 then whole == Err(InvalidLink) else Appended(whole, done + [s[1]], Unescape(s[2..]))
            else if s[0] == '"' then whole == Err(InvalidLink)
            else Appended(whole, done + [s[0]], Unescape(s[1..]))
  {
    var n := if s[0] == '\\' then 1 else 0;
    if n < |s| {
      var rest := Unescape(s[n + 1..]);
      assert rest.Ok? ==> done + ([s[n]] + rest.value) == done + [s[n]] + rest.value;
    }
  }

  /** The loop over a quoted string. */
  method ReadQuoted(value: string) returns (r: Result<string, Problem>)
    requires |value| >= 2
    ensures r == Unescape(value[1..|value| - 1])
  {
    hide Unescape;
    var unquoted := "";
    var index, last := 1, |value| - 1;
    ghost var whole := Unescape(value[1..last]);
    assert whole.Ok? ==> "" + whole.value == whole.value;
    while index < last
      invariant 1 <= index <= last
      invariant Appended(whole, unquoted, Unescape(value[index..last]))
    {
      ghost var rest := value[index..last];
      UnescapeOne(whole, unquoted, rest);
      hide Appended;
      assert rest[1..] == value[index + 1..last] && (|rest| > 1 ==> rest[2..] == value[index + 2..last]);
      if value[index] == '\\' {
        index := index + 1;
        if index == last {
          return Err(InvalidLink);
        }
      } else if value[index] == '"' {
        return Err(InvalidLink);
      }
      unquoted := unquoted + [value[index]];
      index := index + 1;
    }
    UnescapeNone(value, last);
    assert unquoted + "" == unquoted;
    return Ok(unquoted);
  }

  lemma UnescapeNone(value: string, last: nat)
    requires last <= |value|
    ensures Unescape(value[last..last]) == Ok("")
  {
  }

  /** `globalAdvisoryParameterValue`. */
  method ReadParameterValue(value: string) returns (r: Result<string, Problem>)
    ensures r == ParameterValue(value)
  {
    hide Unescape;
    if |value| >= 2 && value[0] == '"' && value[|value| - 1] == '"' {
      r := ReadQuoted(value);
      return;
    }
    if !Token(value) {
      return Err(InvalidLink);
    }
    return Ok(value);
  }

  // ---- One link ----

  /** The relations of a `rel` value; a second `next` makes the link invalid. */
  function MarksNext(relations: seq<string>, next: bool): Result<bool, Problem> {
    if relations == [] then Ok(next)
    else if EqualFold(relations[0], "next") then if next then Err(InvalidLink) else MarksNext(relations[1..], true)
    else MarksNext(relations[1..], next)
  }

  datatype Seen = Seen(rel: bool, next: bool)

  /** What one parameter adds: only the first `rel` counts, and it must say something. */
  function Note(seen: Seen, key: string, value: string): Result<Seen, Problem> {
    if !EqualFold(key, "rel") then Ok(seen)
    else if seen.rel || value == "" then Err(InvalidLink)
    else
      match MarksNext(Fields(value), seen.next)
      case Err(e) => Err(e)
      case Ok(next) => Ok(Seen(true, next))
  }

  /** One round of the parameter loop: the text after a semicolon up to the next one. */
  function ReadParameter(text: string, seen: Seen): Result<Seen, Problem> {
    var n := IndexOf(text, '=');
    var key := Trim(text[..n]);
    if n == |text| || !Token(key) then Err(InvalidLink)
    else
      match ParameterValue(Trim(text[n + 1..]))
      case Err(e) => Err(e)
      case Ok(value) => Note(seen, key, value)
  }

  function ReadParameters(tail: string, seen: Seen): Result<Seen, Problem>
    decreases |tail|
  {
    if tail == "" then Ok(seen)
    else if tail[0] != ';' then Err(InvalidLink)
    else
      match NextParameter(Trim(tail[1..]))
      case Err(e) => Err(e)
      case Ok(p) =>
        match ReadParameter(p.text, seen)
        case Err(e) => Err(e)
        case Ok(next) => ReadParameters(Trim(p.remainder), next)
  }

  datatype Relation = Relation(target: string, next: bool)

  function LinkRelation(link: string): Result<Relation, Problem> {
    var close := IndexOf(link, '>');
    if link == "" || link[0] != '<' || close == |link| || close <= 1 then Err(InvalidLink)
    else
      var target := link[1..close];
      if '<' in target || '>' in target then Err(InvalidLink)
      else
        match ReadParameters(Trim(link[close + 1..]), Seen(false, false))
        case Err(e) => Err(e)
        case Ok(seen) => Ok(Relation(target, seen.next))
  }

  /** The inner loop over the relations of a `rel` value. */
  method MarkNext(relations: seq<string>, before: bool) returns (r: Result<bool, Problem>)
    ensures r == MarksNext(relations, before)
  {
    var next := before;
    assert relations[0..] == relations;
    for i := 0 to |relations|
      invariant MarksNext(relations[i..], next) == MarksNext(relations, before)
    {
      assert relations[i..][0] == relations[i] && relations[i..][1..] == relations[i + 1..];
      if EqualFold(relations[i], "next") {
        if next {
          return Err(InvalidLink);
        }
        next := true;
      }
    }
    return Ok(next);
  }

  /** `globalAdvisoryLinkRelation`. */
  method ParseLink(link: string) returns (r: Result<Relation, Problem>)
    ensures r == LinkRelation(link)
  {
    hide Trim, Fields, EqualFold, ParameterValue, NextParameter, MarksNext;
    if link == "" || link[0] != '<' {
      return Err(InvalidLink);
    }
    var close := IndexOf(link, '>');
    if close == |link| || close <= 1 {
      return Err(InvalidLink);
    }
    var target := link[1..close];
    if '<' in target || '>' in target {
      return Err(InvalidLink);
    }
    var tail := Trim(link[close + 1..]);
    var seenRel, next := false, false;
    ghost var whole := ReadParameters(tail, Seen(false, false));
    while tail != ""
      invariant ReadParameters(tail, Seen(seenRel, next)) == whole
      decreases |tail|
    {
      if tail[0] != ';' {
        return Err(InvalidLink);
      }
      tail := Trim(tail[1..]);
      var parameter := ScanParameter(tail);
      if parameter.Err? {
        return Err(parameter.error);
      }
      tail := Trim(parameter.value.remainder);
      var text := parameter.value.text;
      var n := IndexOf(text, '=');
      var key := Trim(text[..n]);
      if n == |text| || !Token(key) {
        return Err(InvalidLink);
      }
      var value := ReadParameterValue(Trim(text[n + 1..]));
      if value.Err? {
        return Err(value.error);
      }
      if EqualFold(key, "rel") {
        if seenRel || value.value == "" {
          return Err(InvalidLink);
        }
        seenRel := true;
        var marked := MarkNext(Fields(value.value), next);
        if marked.Err? {
          return Err(marked.error);
        }
        next := marked.value;
      }
    }
    return Ok(Relation(target, next));
  }

  // ---- The next page ----

  const MAXIMUM_LINK_BYTES := 8192

  /** The tests on page addresses, which rest on URL parsing. */
  datatype Pages = Pages(root: string, isPage: string -> bool, after: string -> string)

  /** Whether `target` may be the page after `current`. */
  predicate Continuation(pages: Pages, current: string, target: string) {
    pages.isPage(target) && target != pages.root && pages.after(current) != pages.after(target)
  }

  function ChooseNext(pages: Pages, current: string, links: seq<string>, chosen: string): Result<string, Problem>
    decreases |links|
  {
    if links == [] then Ok(chosen)
    else
      match LinkRelation(links[0])
      case Err(e) => Err(e)
      case Ok(link) =>
        if !link.next then ChooseNext(pages, current, links[1..], chosen)
        else if chosen != "" || !Continuation(pages, current, link.target) then Err(InvalidLink)
        else ChooseNext(pages, current, links[1..], link.target)
  }

  function NextPage(pages: Pages, current: string, header: string): Result<string, Problem> {
    if !pages.isPage(current) then Err(InvalidLink)
    else if header == "" then Ok("")
    else if ByteLength(header) > MAXIMUM_LINK_BYTES then Err(InvalidLink)
    else
      match SplitFrom(header, OUTSIDE, "")
      case Err(e) => Err(e)
      case Ok(links) => ChooseNext(pages, current, links, "")
  }

  /** `GlobalAdvisoryNextPage`. */
  method GlobalAdvisoryNextPage(pages: Pages, current: string, header: string) returns (r: Result<string, Problem>)
    ensures r == NextPage(pages, current, header)
  {
    hide LinkRelation, SplitFrom, ByteLength;
    if !pages.isPage(current) {
      return Err(InvalidLink);
    }
    if header == "" {
      return Ok("");
    }
    if ByteLength(header) > MAXIMUM_LINK_BYTES {
      return Err(InvalidLink);
    }
    var links := SplitLinks(header);
    if links.Err? {
      return Err(links.error);
    }
    var nextUrl, all := "", links.value;
    assert all[0..] == all;
    for i := 0 to |all|
      invariant ChooseNext(pages, current, all[i..], nextUrl) == ChooseNext(pages, current, all, "")
    {
      assert all[i..][0] == all[i] && all[i..][1..] == all[i + 1..];
      var link := ParseLink(all[i]);
      if link.Err? {
        return Err(link.error);
      }
      if link.value.next {
        if nextUrl != "" || !Continuation(pages, current, link.value.target) {
          return Err(InvalidLink);
        }
        nextUrl := link.value.target;
      }
    }
    return Ok(nextUrl);
  }
}

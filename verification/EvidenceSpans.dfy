/**
 `internal/extraction/spans.go`: cutting the normalized text of a document into
 bounded, addressable spans.
 */
module EvidenceSpans {
  import opened Wrappers
  import opened Utf8
  import opened Texts

  const MAXIMUM_NORMALIZED_BYTES := 100_000
  const MAXIMUM_SPAN_BYTES := 1_600
  const MAXIMUM_SPANS := 200

  datatype Block = Block(kind: string, anchor: string, start: int, end: int)

  datatype Cut = Cut(start: nat, end: nat)

  datatype Span = Span(id: string, section: string, start: nat, end: nat, text: Bytes)

  datatype Error = InvalidText | InvalidOffsets | SplitsCharacter | TooManySpans

  /** `unicode.IsSpace` of a single byte read as a code point. */
  predicate SpaceByte(b: byte) {
    (9 <= b <= 13) || b == 32 || b == 0x85 || b == 0xA0
  }

  // ---- One span ----

  /** Drops bytes from the end until the rest is valid text. */
  function ShrinkToValid(value: Bytes, start: nat, end: nat): (r: nat)
    requires start <= end <= |value|
    ensures start <= r <= end && Valid(value[start..r])
    ensures forall k :: r < k <= end ==> !Valid(value[start..k])
    decreases end
  {
    if end > start && !Valid(value[start..end]) then ShrinkToValid(value, start, end - 1) else end
  }

  /** The last position in (floor, cursor] that follows a space byte, or `otherwise`. */
  function CutAtSpace(value: Bytes, floor: nat, cursor: nat, otherwise: nat): (r: nat)
    requires cursor <= |value|
    ensures (r == otherwise && forall i :: floor <= i < cursor ==> !SpaceByte(value[i])) ||
            (floor < r <= cursor && SpaceByte(value[r - 1]) && forall i :: r <= i < cursor ==> !SpaceByte(value[i]))
    decreases cursor
  {
    if cursor > floor then
      if SpaceByte(value[cursor - 1]) then cursor else CutAtSpace(value, floor, cursor - 1, otherwise)
    else otherwise
  }

  /** Where the span that starts at `start` ends. */
  function SpanEnd(value: Bytes, start: nat, blockEnd: nat): (r: nat)
    requires start <= blockEnd <= |value|
    ensures start <= r <= blockEnd && r - start <= MAXIMUM_SPAN_BYTES
  {
    if blockEnd - start <= MAXIMUM_SPAN_BYTES then blockEnd
    else
      var end := ShrinkToValid(value, start, start + MAXIMUM_SPAN_BYTES);
      CutAtSpace(value, start + MAXIMUM_SPAN_BYTES / 2, end, end)
  }

  /** The white space of ASCII, NEL and the no-break space. */
  predicate Blank(b: byte) {
    b in [0x09, 0x0A, 0x0B, 0x0C, 0x0D, 0x20, 0x85, 0xA0]
  }

  /** The longest valid text of at most 1600 bytes from `start` ends at `end`. */
  ghost predicate Window(value: Bytes, start: nat, end: nat) {
    && start <= end <= |value| && end <= start + 1600 && Valid(value[start..end])
    && forall k :: end < k <= start + 1600 && k <= |value| ==> !Valid(value[start..k])
  }

  /** `r` follows the last blank in the second half of a window; without one it is the end of the window. */
  ghost predicate AfterLastBlank(value: Bytes, start: nat, end: nat, r: nat)
    requires end <= |value|
  {
    if exists i :: start + 800 <= i < end && Blank(value[i]) then
      start + 800 < r <= end && Blank(value[r - 1]) && forall i :: r <= i < end ==> !Blank(value[i])
    else r == end
  }

  lemma {:induction false} SpanEndMeans(value: Bytes, start: nat, blockEnd: nat) returns (end: nat)
    requires start <= blockEnd <= |value| && blockEnd - start > 1600
    ensures Window(value, start, end) && AfterLastBlank(value, start, end, SpanEnd(value, start, blockEnd))
  {
    hide ShrinkToValid, CutAtSpace;
    end := ShrinkToValid(value, start, start + MAXIMUM_SPAN_BYTES);
    forall b: byte
      ensures SpaceByte(b) <==> Blank(b)
    {
    }
    hide SpaceByte, Blank;
    var r := CutAtSpace(value, start + MAXIMUM_SPAN_BYTES / 2, end, end);
    assert r == SpanEnd(value, start, blockEnd);
  }

  /** `boundedSpanEnd`. */
  method BoundedSpanEnd(value: Bytes, start: nat, blockEnd: nat) returns (r: nat)
    requires start <= blockEnd <= |value|
    ensures r == SpanEnd(value, start, blockEnd)
    ensures blockEnd - start <= 1600 ==> r == blockEnd
    ensures blockEnd - start > 1600 ==> exists end :: Window(value, start, end) && AfterLastBlank(value, start, end, r)
  {
    if blockEnd - start <= MAXIMUM_SPAN_BYTES {
      return blockEnd;
    }
    var end := start + MAXIMUM_SPAN_BYTES;
    while end > start && !Valid(value[start..end])
      invariant start <= end <= start + MAXIMUM_SPAN_BYTES
      invariant ShrinkToValid(value, start, end) == ShrinkToValid(value, start, start + MAXIMUM_SPAN_BYTES)
    {
      end := end - 1;
    }
    var floor := start + MAXIMUM_SPAN_BYTES / 2;
    var cursor := end;
    ghost var window := SpanEndMeans(value, start, blockEnd);
    while cursor > floor
      invariant 0 <= cursor <= end
      invariant CutAtSpace(value, floor, cursor, end) == CutAtSpace(value, floor, end, end)
    {
      if SpaceByte(value[cursor - 1]) {
        return cursor;
      }
      cursor := cursor - 1;
    }
    return end;
  }

  // ---- All spans ----

  /** The cuts of one block; `count` spans exist already.  None when there would be too many. */
  function CutBlock(value: Bytes, start: nat, blockEnd: nat, count: nat): (r: Option<seq<Cut>>)
    requires start <= blockEnd <= |value| && count <= MAXIMUM_SPANS
    ensures r.Some? ==> count + |r.value| <= MAXIMUM_SPANS
    decreases MAXIMUM_SPANS - count
  {
    if start == blockEnd then Some([])
    else if count == MAXIMUM_SPANS then None
    else
      var end := SpanEnd(value, start, blockEnd);
      match CutBlock(value, end, blockEnd, count + 1)
      case None => None
      case Some(rest) => Some([Cut(start, end)] + rest)
  }

  function CutBlocks(value: Bytes, blocks: seq<Block>, previousEnd: nat, count: nat): Result<seq<Cut>, Error>
    requires previousEnd <= |value| && count <= MAXIMUM_SPANS
    decreases |blocks|
  {
    if blocks == [] then Ok([])
    else
      var b := blocks[0];
      if b.start < previousEnd || b.start < 0 || b.end <= b.start || b.end > |value| then Err(InvalidOffsets)
      else if !Valid(value[b.start..b.end]) then Err(SplitsCharacter)
      else
        match CutBlock(value, b.start, b.end, count)
        case None => Err(TooManySpans)
        case Some(cuts) =>
          match CutBlocks(value, blocks[1..], b.end, count + |cuts|)
          case Err(e) => Err(e)
          case Ok(rest) => Ok(cuts + rest)
  }

  function Outline(value: Bytes, blocks: seq<Block>): seq<Block> {
    if blocks == [] then [Block("document", "/document", 0, |value|)] else blocks
  }

  function Cuts(value: Bytes, blocks: seq<Block>): Result<seq<Cut>, Error> {
    if value == [] || |value| > MAXIMUM_NORMALIZED_BYTES || !Valid(value) then Err(InvalidText)
    else CutBlocks(value, Outline(value, blocks), 0, 0)
  }

  function Digit(n: nat): char {
    "0123456789"[n % 10]
  }

  /** `fmt.Sprintf("span_%04d", n)`. */
  function SpanId(n: nat): string
    requires n < 10_000
  {
    "span_" + [Digit(n / 1000), Digit(n / 100), Digit(n / 10), Digit(n)]
  }

  lemma DigitOnce(a: nat, b: nat)
    requires Digit(a) == Digit(b)
    ensures a % 10 == b % 10
  {
  }

  lemma FourDigits(n: nat)
    requires n < 10_000
    ensures n == 1000 * (n / 1000 % 10) + 100 * (n / 100 % 10) + 10 * (n / 10 % 10) + n % 10
  {
    assert n / 10 / 10 == n / 100;
    assert n / 100 / 10 == n / 1000;
  }

  /** Span numbers give distinct identifiers. */
  lemma SpanIdOnce(a: nat, b: nat)
    requires a < 10_000 && b < 10_000 && SpanId(a) == SpanId(b)
    ensures a == b
  {
    hide Digit;
    var x, y := SpanId(a), SpanId(b);
    assert x[5] == y[5] && x[6] == y[6] && x[7] == y[7] && x[8] == y[8];
    DigitOnce(a / 1000, b / 1000);
    DigitOnce(a / 100, b / 100);
    DigitOnce(a / 10, b / 10);
    DigitOnce(a, b);
    FourDigits(a);
    FourDigits(b);
  }

  /** The span for the cut at position `i` of the result. */
  ghost predicate Labels(value: Bytes, cuts: seq<Cut>, spans: seq<Span>) {
    |spans| == |cuts| <= MAXIMUM_SPANS &&
    forall i :: 0 <= i < |cuts| ==>
      cuts[i].start <= cuts[i].end <= |value| &&
      spans[i] == Span(SpanId(i + 1), spans[i].section, cuts[i].start, cuts[i].end, value[cuts[i].start..cuts[i].end])
  }

  /** Where a span says it comes from: the anchor of its block, or else its kind, or else the document. */
  function SectionPath(b: Block): string {
    var anchor, kind := Trim(b.anchor), Trim(b.kind);
    if anchor != "" && anchor != "/" then anchor
    else if anchor == "" && kind != "" then "/" + kind
    else "/document"
  }

  /** A span lies in a block and bears its section. */
  predicate LiesIn(span: Span, b: Block) {
    b.start <= span.start && span.end <= b.end && span.section == SectionPath(b)
  }

  ghost predicate Sectioned(blocks: seq<Block>, spans: seq<Span>) {
    forall i :: 0 <= i < |spans| ==> Located(blocks, spans[i])
  }

  ghost predicate Located(blocks: seq<Block>, span: Span) {
    exists j :: 0 <= j < |blocks| && LiesIn(span, blocks[j])
  }

  /** The cuts `done` followed by those of `rest` are `whole`, and so is a failure of `rest`. */
  ghost predicate Remaining(whole: Option<seq<Cut>>, done: seq<Cut>, rest: Option<seq<Cut>>) {
    match rest
    case None => whole.None?
    case Some(more) => whole == Some(done + more)
  }

  lemma RemainingStart(rest: Option<seq<Cut>>)
    ensures Remaining(rest, [], rest)
  {
    assert rest.Some? ==> [] + rest.value == rest.value;
  }

  lemma {:induction false} RemainingStep(value: Bytes, start: nat, blockEnd: nat, count: nat,
      whole: Option<seq<Cut>>, done: seq<Cut>)
    requires start < blockEnd <= |value| && count < MAXIMUM_SPANS
    requires Remaining(whole, done, CutBlock(value, start, blockEnd, count))
    ensures var end := SpanEnd(value, start, blockEnd);
            Remaining(whole, done + [Cut(start, end)], CutBlock(value, end, blockEnd, count + 1))
  {
    var end := SpanEnd(value, start, blockEnd);
    var rest := CutBlock(value, end, blockEnd, count + 1);
    assert rest.Some? ==> done + ([Cut(start, end)] + rest.value) == done + [Cut(start, end)] + rest.value;
  }

  /** The inner loop: appends the spans of one block. */
  method SpansOfBlock(
    value: Bytes, section: string, blockStart: nat, blockEnd: nat, before: seq<Span>, ghost cuts: seq<Cut>)
    returns (spans: seq<Span>, ok: bool, ghost added: seq<Cut>)
    requires blockStart <= blockEnd <= |value| && Labels(value, cuts, before)
    ensures ok <==> CutBlock(value, blockStart, blockEnd, |cuts|).Some?
    ensures ok ==> CutBlock(value, blockStart, blockEnd, |cuts|) == Some(added) && Labels(value, cuts + added, spans)
    ensures before <= spans
    ensures forall i :: |before| <= i < |spans| ==>
              blockStart <= spans[i].start && spans[i].end <= blockEnd && spans[i].section == section
  {
    hide SpanEnd, SpanId;
    spans, added := before, [];
    var start := blockStart;
    ghost var whole := CutBlock(value, blockStart, blockEnd, |cuts|);
    RemainingStart(whole);
    assert cuts + added == cuts;
    while start < blockEnd
      invariant blockStart <= start <= blockEnd
      invariant Labels(value, cuts + added, spans)
      invariant before <= spans
      invariant forall i :: |before| <= i < |spans| ==>
          blockStart <= spans[i].start && spans[i].end <= blockEnd && spans[i].section == section
      invariant Remaining(whole, added, CutBlock(value, start, blockEnd, |spans|))
      decreases MAXIMUM_SPANS - |spans|
    {
      if |spans| == MAXIMUM_SPANS {
        // One more span would exceed the limit.
        return spans, false, added;
      }
      RemainingStep(value, start, blockEnd, |spans|, whole, added);
      var end := BoundedSpanEnd(value, start, blockEnd);
      assert cuts + (added + [Cut(start, end)]) == cuts + added + [Cut(start, end)];
      spans := spans + [Span(SpanId(|spans| + 1), section, start, end, value[start..end])];
      added := added + [Cut(start, end)];
      start := end;
    }
    assert added + [] == added;
    ok := true;
  }

  /** The same for results: `whole` is `done` followed by `rest`, or the error of `rest`. */
  ghost predicate Continues(whole: Result<seq<Cut>, Error>, done: seq<Cut>, rest: Result<seq<Cut>, Error>) {
    match rest
    case Err(e) => whole == Err(e)
    case Ok(more) => whole == Ok(done + more)
  }

  lemma ContinuesStart(rest: Result<seq<Cut>, Error>)
    ensures Continues(rest, [], rest)
  {
    assert rest.Ok? ==> [] + rest.value == rest.value;
  }

  ghost predicate Acceptable(value: Bytes, b: Block, previousEnd: nat) {
    previousEnd <= b.start < b.end <= |value| && Valid(value[b.start..b.end])
  }

  /** Blocks of valid text, one after the other. */
  ghost predicate Orderly(value: Bytes, blocks: seq<Block>, previousEnd: nat)
    decreases |blocks|
  {
    blocks != [] ==> Acceptable(value, blocks[0], previousEnd) && Orderly(value, blocks[1..], blocks[0].end)
  }

  lemma {:induction false} ContinuesStep(value: Bytes, blocks: seq<Block>, previousEnd: nat,
      whole: Result<seq<Cut>, Error>, done: seq<Cut>, added: seq<Cut>)
    requires blocks != [] && previousEnd <= |value| && |done| <= MAXIMUM_SPANS &&
            Acceptable(value, blocks[0], previousEnd)
    requires Continues(whole, done, CutBlocks(value, blocks, previousEnd, |done|))
    requires CutBlock(value, blocks[0].start, blocks[0].end, |done|) == Some(added)
    ensures |done| + |added| <= MAXIMUM_SPANS
    ensures Continues(whole, done + added, CutBlocks(value, blocks[1..], blocks[0].end, |done| + |added|))
  {
    hide CutBlock, Valid;
    var rest := CutBlocks(value, blocks[1..], blocks[0].end, |done| + |added|);
    assert rest.Ok? ==> done + (added + rest.value) == done + added + rest.value;
  }

  /** `BuildEvidenceSpans`, on a decoded outline. */
  method BuildEvidenceSpans(normalized: Bytes, outline: seq<Block>) returns (r: Result<seq<Span>, Error>)
    ensures r.Err? ==> Cuts(normalized, outline) == Err(r.error)
    ensures r.Ok? ==> Cuts(normalized, outline).Ok? && Labels(normalized, Cuts(normalized, outline).value, r.value)
    ensures r.Ok? ==> Sectioned(Outline(normalized, outline), r.value)
    ensures r.Ok? && outline == [] ==> forall i :: 0 <= i < |r.value| ==> r.value[i].section == "/document"
  {
    hide CutBlock, SpanId, Valid, Labels, Sectioned, Trim;
    if normalized == [] || |normalized| > MAXIMUM_NORMALIZED_BYTES || !Valid(normalized) {
      return Err(InvalidText);
    }
    var blocks := Outline(normalized, outline);
    var spans: seq<Span>, previousEnd := [], 0;
    ghost var cuts: seq<Cut> := [];
    ghost var whole := CutBlocks(normalized, blocks, 0, 0);
    ContinuesStart(whole);
    NothingIsLabelled(normalized);
    NothingIsSectioned(blocks);
    assert blocks[0..] == blocks;
    for i := 0 to |blocks|
      invariant 0 <= previousEnd <= |normalized| && |cuts| <= MAXIMUM_SPANS
      invariant Labels(normalized, cuts, spans) && Sectioned(blocks, spans)
      invariant Continues(whole, cuts, CutBlocks(normalized, blocks[i..], previousEnd, |cuts|))
    {
      var block := blocks[i];
      ghost var left := blocks[i..];
      assert left[0] == block && left[1..] == blocks[i + 1..];
      if block.start < previousEnd || block.start < 0 || block.end <= block.start || block.end > |normalized| {
        return Err(InvalidOffsets);
      }
      if !Valid(normalized[block.start..block.end]) {
        return Err(SplitsCharacter);
      }
      var more, ok;
      ghost var added;
      var section := Trim(block.anchor);
      if section == "" {
        section := "/" + Trim(block.kind);
      }
      if section == "/" {
        section := "/document";
      }
      assert section == SectionPath(block);
      more, ok, added := SpansOfBlock(normalized, section, block.start, block.end, spans, cuts);
      if !ok {
        return Err(TooManySpans);
      }
      ContinuesStep(normalized, left, previousEnd, whole, cuts, added);
      SectionedMore(blocks, i, spans, more);
      spans, cuts, previousEnd := more, cuts + added, block.end;
    }
    assert cuts + [] == cuts;
    if outline == [] {
      WholeDocument(normalized, spans);
    }
    return Ok(spans);
  }

  lemma {:induction false} WholeDocument(normalized: Bytes, spans: seq<Span>)
    requires Sectioned(Outline(normalized, []), spans)
    ensures forall i :: 0 <= i < |spans| ==> spans[i].section == "/document"
  {
    hide Trim;
    TrimSolid("/document");
    forall i | 0 <= i < |spans|
      ensures spans[i].section == "/document"
    {
      assert Located(Outline(normalized, []), spans[i]);
    }
  }

  lemma {:induction false} SectionedMore(blocks: seq<Block>, j: nat, before: seq<Span>, spans: seq<Span>)
    requires j < |blocks| && Sectioned(blocks, before) && before <= spans
    requires forall i :: |before| <= i < |spans| ==> LiesIn(spans[i], blocks[j])
    ensures Sectioned(blocks, spans)
  {
    forall i | 0 <= i < |spans|
      ensures Located(blocks, spans[i])
    {
      assert i < |before| ==> spans[i] == before[i] && Located(blocks, before[i]);
    }
  }

  lemma NothingIsSectioned(blocks: seq<Block>)
    ensures Sectioned(blocks, [])
  {
  }

  lemma NothingIsLabelled(value: Bytes)
    ensures Labels(value, [], [])
  {
  }
}

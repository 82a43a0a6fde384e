/**
 The offset bookkeeping of `finalize` in `internal/parsing/normalize.go`: the outline
 of the normalized text and the map back to the source.

 Unicode normalization and the removal of embedded instructions happen before this
 model starts; its blocks carry the resulting text.
 */
module Normalize {
  import opened Wrappers
  import opened Utf8
  import EvidenceSpans

  datatype Extracted = Extracted(kind: string, level: int, anchor: string, text: Bytes)

  datatype OutlineBlock = OutlineBlock(kind: string, level: int, anchor: string, start: int, end: int)

  datatype OffsetRange = OffsetRange(start: int, end: int, sourceStart: int, sourceEnd: int, approximate: bool)

  datatype Parsed = Parsed(text: Bytes, outline: seq<OutlineBlock>, offsets: seq<OffsetRange>)

  datatype Error = EmptyDocument | MissingKindOrAnchor | InvalidOffset

  const SEPARATOR: Bytes := [10, 10]

  // ---- Finding text in the source ----

  predicate OccursAt(source: Bytes, text: Bytes, i: int) {
    0 <= i <= |source| - |text| && source[i..i + |text|] == text
  }

  /** `strings.Index` of the part of the source from `from` on, as a position in the source. */
  function IndexFrom(source: Bytes, text: Bytes, from: nat): (r: Option<nat>)
    ensures r.Some? ==> from <= r.value && OccursAt(source, text, r.value) && forall i :: from <= i < r.value ==>
            !OccursAt(source, text, i)
    ensures r.None? ==> forall i :: from <= i ==> !OccursAt(source, text, i)
    decreases |source| - from
  {
    if from + |text| > |source| then None
    else if OccursAt(source, text, from) then Some(from)
    else IndexFrom(source, text, from + 1)
  }

  datatype Location = Location(start: int, end: int, approximate: bool)

  /** `locateSourceText`. */
  function Locate(source: Bytes, text: Bytes, from: int): Location {
    if text == [] then Location(-1, -1, true)
    else
      var ahead := if 0 <= from <= |source| then IndexFrom(source, text, from) else None;
      if ahead.Some? then Location(ahead.value, ahead.value + |text|, false)
      else
        var anywhere := IndexFrom(source, text, 0);
        if anywhere.Some? then Location(anywhere.value, anywhere.value + |text|, false) else Location(-1, -1, true)
  }

  /** A location is approximate exactly when the text is nowhere in the source; otherwise it is a true place. */
  lemma {:induction false} LocateIsExact(source: Bytes, text: Bytes, from: int)
    requires text != []
    ensures var r := Locate(source, text, from);
            && (r.approximate <==> forall i :: !OccursAt(source, text, i))
            && (r.approximate ==> r.start == r.end == -1)
            && (!r.approximate ==> OccursAt(source, text, r.start) && r.end == r.start + |text|)
  {
    hide OccursAt, IndexFrom;
    NegativeIsNowhere(source, text);
  }

  lemma NegativeIsNowhere(source: Bytes, text: Bytes)
    ensures forall i :: i < 0 ==> !OccursAt(source, text, i)
  {
  }

  /** A place at or after `from` is preferred, and of those the first. */
  lemma {:induction false} LocateLooksAhead(source: Bytes, text: Bytes, from: nat, i: int)
    requires text != [] && from <= i && OccursAt(source, text, i)
    ensures var r := Locate(source, text, from);
            !r.approximate && from <= r.start <= i && r.end == r.start + |text| && OccursAt(source, text, r.start)
  {
  }

  // ---- Building the result ----

  /** The block lies in the text where its outline entry says. */
  ghost predicate Placed(text: Bytes, o: OutlineBlock, b: Extracted) {
    && o.kind == b.kind && o.level == b.level && o.anchor == b.anchor
    && 0 <= o.start < o.end <= |text|
    && text[o.start..o.end] == b.text
  }

  /** The entry starts exactly two line feeds after the one before it. */
  ghost predicate Follows(text: Bytes, before: OutlineBlock, o: OutlineBlock) {
    && 0 <= before.end && o.start == before.end + 2 <= |text|
    && text[before.end..o.start] == SEPARATOR
  }

  /** The text is its blocks, separated by two line feeds, and the outline says where they are. */
  ghost predicate LaidOut(text: Bytes, outline: seq<OutlineBlock>, blocks: seq<Extracted>) {
    && |outline| == |blocks|
    && |text| == (if outline == [] then 0 else outline[|outline| - 1].end)
    && (outline != [] ==> outline[0].start == 0)
    && (forall i :: 0 <= i < |blocks| ==> Placed(text, outline[i], blocks[i]))
    && (forall i :: 0 < i < |blocks| ==> Follows(text, outline[i - 1], outline[i]))
  }

  /** Where the search for block `i` starts: at the end of the last block that was found. */
  function SearchOffset(source: Bytes, blocks: seq<Extracted>, i: nat): int
    requires i <= |blocks|
  {
    if i == 0 then 0
    else
      var before := SearchOffset(source, blocks, i - 1);
      var located := Locate(source, blocks[i - 1].text, before);
      if located.end >= 0 then located.end else before
  }

  lemma {:induction false} SearchOffsetPrefix(source: Bytes, blocks: seq<Extracted>, more: seq<Extracted>, i: nat)
    requires i <= |blocks|
    ensures SearchOffset(source, blocks + more, i) == SearchOffset(source, blocks, i)
  {
    if i == 0 {
    } else {
      SearchOffsetPrefix(source, blocks, more, i - 1);
      assert (blocks + more)[i - 1] == blocks[i - 1];
    }
  }

  /** Entry `i` of the map repeats the outline bounds and gives the place of the block in the source. */
  ghost predicate Mapped(source: Bytes, outline: seq<OutlineBlock>, offsets: seq<OffsetRange>, blocks: seq<Extracted>) {
    && |offsets| == |outline| == |blocks|
    && forall i :: 0 <= i < |offsets| ==>
         && offsets[i].start == outline[i].start && offsets[i].end == outline[i].end
         && Location(offsets[i].sourceStart, offsets[i].sourceEnd, offsets[i].approximate) ==
            Locate(source, blocks[i].text, SearchOffset(source, blocks, i))
  }

  lemma {:induction false} MappedAppend(source: Bytes, outline: seq<OutlineBlock>, offsets: seq<OffsetRange>,
      blocks: seq<Extracted>,
                                        o: OutlineBlock, block: Extracted)
    requires Mapped(source, outline, offsets, blocks)
    ensures var at := Locate(source, block.text, SearchOffset(source, blocks, |blocks|));
            Mapped(source, outline + [o], offsets + [OffsetRange(o.start, o.end, at.start, at.end,
              at.approximate)], blocks + [block])
    ensures SearchOffset(source, blocks + [block], |blocks|) == SearchOffset(source, blocks, |blocks|)
  {
    hide Locate;
    forall i | 0 <= i <= |blocks|
      ensures SearchOffset(source, blocks + [block], i) == SearchOffset(source, blocks, i)
    {
      SearchOffsetPrefix(source, blocks, [block], i);
    }
  }

  lemma {:induction false} LaidOutAppend(text: Bytes, outline: seq<OutlineBlock>, blocks: seq<Extracted>,
      block: Extracted)
    requires LaidOut(text, outline, blocks) && block.text != []
    ensures var gap := if blocks == [] then text else text + SEPARATOR;
            LaidOut(gap + block.text,
                    outline + [OutlineBlock(block.kind, block.level, block.anchor, |gap|, |gap + block.text|)],
                    blocks + [block])
  {
    var gap := if blocks == [] then text else text + SEPARATOR;
    var t := gap + block.text;
    var last := OutlineBlock(block.kind, block.level, block.anchor, |gap|, |t|);
    var o, all := outline + [last], blocks + [block];
    assert Placed(t, last, block) by {
      assert t[|gap|..|t|] == block.text;
    }
    if blocks != [] {
      assert Follows(t, outline[|outline| - 1], last) by {
        assert t[|text|..|gap|] == SEPARATOR;
      }
    }
    hide Placed, Follows;
  }

  /** The building loop of `finalize`. */
  method Build(blocks: seq<Extracted>, source: Bytes) returns (p: Parsed)
    requires forall i :: 0 <= i < |blocks| ==> blocks[i].text != []
    ensures LaidOut(p.text, p.outline, blocks) && Mapped(source, p.outline, p.offsets, blocks)
  {
    hide LaidOut, Mapped, Locate;
    var normalized: Bytes, outline: seq<OutlineBlock>, offsetMap: seq<OffsetRange> := [], [], [];
    var searchOffset := 0;
    NothingIsLaidOut();
    NothingIsMapped(source);
    for index := 0 to |blocks|
      invariant |outline| == index
      invariant LaidOut(normalized, outline, blocks[..index])
      invariant Mapped(source, outline, offsetMap, blocks[..index])
      invariant searchOffset == SearchOffset(source, blocks[..index], index)
    {
      var block := blocks[index];
      LaidOutAppend(normalized, outline, blocks[..index], block);
      if index > 0 {
        normalized := normalized + SEPARATOR;
      }
      var start := |normalized|;
      normalized := normalized + block.text;
      var end := |normalized|;
      outline := outline + [OutlineBlock(block.kind, block.level, block.anchor, start, end)];
      var located := Locate(source, block.text, searchOffset);
      MappedAppend(source, outline[..index], offsetMap, blocks[..index], outline[index], block);
      if located.end >= 0 {
        searchOffset := located.end;
      }
      offsetMap := offsetMap + [OffsetRange(start, end, located.start, located.end, located.approximate)];
      assert blocks[..index + 1] == blocks[..index] + [block];
    }
    assert blocks[..|blocks|] == blocks;
    p := Parsed(normalized, outline, offsetMap);
  }

  lemma NothingIsLaidOut()
    ensures LaidOut([], [], [])
  {
  }

  lemma NothingIsMapped(source: Bytes)
    ensures Mapped(source, [], [], [])
  {
  }

  // ---- The map follows the source ----

  /** Places in the source for the blocks, in order and without overlap. */
  ghost predicate Sequential(source: Bytes, blocks: seq<Extracted>, places: seq<int>) {
    && |places| == |blocks|
    && (forall i :: 0 <= i < |blocks| ==> OccursAt(source, blocks[i].text, places[i]))
    && (forall i :: 0 < i < |blocks| ==> places[i - 1] + |blocks[i - 1].text| <= places[i])
  }

  lemma {:induction false} SearchStaysAhead(source: Bytes, blocks: seq<Extracted>, places: seq<int>, i: nat)
    requires Sequential(source, blocks, places) && i < |blocks| && forall k :: 0 <= k < |blocks| ==>
            blocks[k].text != []
    ensures 0 <= SearchOffset(source, blocks, i) <= places[i]
    ensures var at := Locate(source, blocks[i].text, SearchOffset(source, blocks, i));
            !at.approximate && SearchOffset(source, blocks, i) <= at.start <= places[i] &&
              at.end == at.start + |blocks[i].text|
    decreases i
  {
    hide Locate;
    if i == 0 {
    } else {
      SearchStaysAhead(source, blocks, places, i - 1);
    }
    LocateLooksAhead(source, blocks[i].text, SearchOffset(source, blocks, i), places[i]);
  }

  /**
   When the source holds the blocks one after the other, however often their texts also
   occur elsewhere, every block is located exactly and in that order, without overlap.
   */
  lemma {:induction false} SourceOrderIsKept(source: Bytes, blocks: seq<Extracted>, places: seq<int>, p: Parsed, i: nat)
    requires Sequential(source, blocks, places) && AllText(blocks)
    requires Mapped(source, p.outline, p.offsets, blocks) && i < |blocks|
    ensures !p.offsets[i].approximate
    ensures i > 0 ==> p.offsets[i - 1].sourceEnd <= p.offsets[i].sourceStart
  {
    hide Locate, OccursAt, Valid;
    SearchStaysAhead(source, blocks, places, i);
    if i > 0 {
      SearchStaysAhead(source, blocks, places, i - 1);
    }
  }

  // ---- The closing validation ----

  /** What is wrong with an offset entry: its bounds, a character that is cut, or a half-known source. */
  predicate Flawed(text: Bytes, o: OffsetRange) {
    || o.start < 0 || o.end < o.start || |text| < o.end
    || !Valid(text[o.start..o.end])
    || (o.sourceStart < 0 && !(o.sourceStart == -1 && o.sourceEnd == -1 && o.approximate))
    || (o.sourceStart >= 0 && o.sourceEnd < o.sourceStart)
  }

  lemma FlawedExactly(text: Bytes, o: OffsetRange)
    ensures OffsetOk(text, o) <==> !Flawed(text, o)
  {
  }

  /** `validateOffsets` for one entry. */
  predicate OffsetOk(text: Bytes, o: OffsetRange) {
    && 0 <= o.start <= o.end <= |text|
    && Valid(text[o.start..o.end])
    && (if o.sourceStart == -1 || o.sourceEnd == -1
        then o.sourceStart == -1 && o.sourceEnd == -1 && o.approximate
        else 0 <= o.sourceStart <= o.sourceEnd)
  }

  /** An outline entry is named and has the bounds of its offset entry. */
  predicate EntryOk(o: OutlineBlock, range_: OffsetRange) {
    o.kind != "" && o.anchor != "" && o.start == range_.start && o.end == range_.end
  }

  /** A result that passes every check. */
  ghost predicate Passes(p: Parsed) {
    && p.text != [] && Valid(p.text) && p.outline != [] && |p.outline| == |p.offsets|
    && (forall i :: 0 <= i < |p.outline| ==> EntryOk(p.outline[i], p.offsets[i]))
    && (forall i :: 0 <= i < |p.offsets| ==> OffsetOk(p.text, p.offsets[i]))
  }

  /** `ValidateResult`, for a result whose parser is named and whose digest was just computed. */
  method ValidateResult(p: Parsed) returns (r: Option<Error>)
    ensures r == None <==> Passes(p)
    ensures r == Some(MissingKindOrAnchor) ==>
              exists i :: 0 <= i < |p.outline| && (p.outline[i].kind == "" || p.outline[i].anchor == "")
    ensures r == Some(InvalidOffset) ==>
              || p.text == [] || !Valid(p.text) || p.outline == [] || |p.outline| != |p.offsets|
              || (exists i ::
                    && 0 <= i < |p.outline|
                    && (p.outline[i].start != p.offsets[i].start || p.outline[i].end != p.offsets[i].end))
              || (exists i :: 0 <= i < |p.offsets| && !OffsetOk(p.text, p.offsets[i]))
    ensures r != Some(EmptyDocument)
  {
    hide Valid, OffsetOk;
    if p.text == [] || !Valid(p.text) || |p.outline| == 0 || |p.outline| != |p.offsets| {
      return Some(InvalidOffset);
    }
    for i := 0 to |p.outline|
      invariant forall k :: 0 <= k < i ==> EntryOk(p.outline[k], p.offsets[k])
    {
      if p.outline[i].kind == "" || p.outline[i].anchor == "" {
        assert !EntryOk(p.outline[i], p.offsets[i]);
        return Some(MissingKindOrAnchor);
      }
      if p.outline[i].start != p.offsets[i].start || p.outline[i].end != p.offsets[i].end {
        assert !EntryOk(p.outline[i], p.offsets[i]);
        return Some(InvalidOffset);
      }
    }
    for i := 0 to |p.offsets|
      invariant forall k :: 0 <= k < i ==> OffsetOk(p.text, p.offsets[k])
    {
      if !OffsetOk(p.text, p.offsets[i]) {
        return Some(InvalidOffset);
      }
    }
    return None;
  }

  /** Every block is text. */
  ghost predicate AllText(blocks: seq<Extracted>) {
    forall i :: 0 <= i < |blocks| ==> blocks[i].text != [] && Valid(blocks[i].text)
  }

  lemma {:induction false} LaidOutIsValid(text: Bytes, outline: seq<OutlineBlock>, blocks: seq<Extracted>, n: nat)
    requires LaidOut(text, outline, blocks) && AllText(blocks) && n <= |blocks|
    ensures n > 0 ==> Valid(text[..outline[n - 1].end])
    ensures n == |blocks| > 0 ==> Valid(text)
    decreases n
  {
    hide Valid;
    if n > 0 {
      assert Placed(text, outline[n - 1], blocks[n - 1]);
    }
    if n == 1 {
      assert text[..outline[0].end] == text[outline[0].start..outline[0].end];
    } else if n > 1 {
      LaidOutIsValid(text, outline, blocks, n - 1);
      assert Follows(text, outline[n - 2], outline[n - 1]);
      var a, b, c := outline[n - 2].end, outline[n - 1].start, outline[n - 1].end;
      assert text[..c] == text[..a] + SEPARATOR + text[b..c];
      SeparatorIsValid();
      ValidJoin(text[..a], SEPARATOR);
      ValidJoin(text[..a] + SEPARATOR, text[b..c]);
    }
    if n == |blocks| && n > 0 {
      assert text[..outline[n - 1].end] == text;
    }
  }

  lemma SeparatorIsValid()
    ensures Valid(SEPARATOR)
  {
    var s := SEPARATOR;
    assert s[1..] == [10] && s[1..][1..] == [];
  }

  /** None of the offset checks can fail on what `finalize` builds. */
  lemma {:induction false} OwnChecksHold(blocks: seq<Extracted>, source: Bytes, p: Parsed)
    requires blocks != [] && AllText(blocks)
    requires LaidOut(p.text, p.outline, blocks) && Mapped(source, p.outline, p.offsets, blocks)
    ensures p.text != [] && Valid(p.text) && |p.outline| == |p.offsets| > 0
    ensures forall i :: 0 <= i < |p.outline| ==>
              p.outline[i].start == p.offsets[i].start && p.outline[i].end == p.offsets[i].end
    ensures forall i :: 0 <= i < |p.offsets| ==> OffsetOk(p.text, p.offsets[i])
  {
    hide Locate;
    LaidOutIsValid(p.text, p.outline, blocks, |blocks|);
    forall i | 0 <= i < |p.offsets|
      ensures OffsetOk(p.text, p.offsets[i])
    {
      assert Placed(p.text, p.outline[i], blocks[i]);
      LocateIsExact(source, blocks[i].text, SearchOffset(source, blocks, i));
    }
  }

  /** A located block reads the same in the source and in the normalized text. */
  lemma {:induction false} LocatedTextAgrees(blocks: seq<Extracted>, source: Bytes, p: Parsed, i: nat)
    requires LaidOut(p.text, p.outline, blocks) && Mapped(source, p.outline, p.offsets, blocks)
    requires i < |p.offsets| && !p.offsets[i].approximate
    ensures var o := p.offsets[i];
            && 0 <= o.sourceStart <= o.sourceEnd <= |source| && 0 <= o.start <= o.end <= |p.text|
            && source[o.sourceStart..o.sourceEnd] == p.text[o.start..o.end]
  {
    hide Locate, SearchOffset;
    assert Placed(p.text, p.outline[i], blocks[i]);
    LocateIsExact(source, blocks[i].text, SearchOffset(source, blocks, i));
  }

  /**
   `finalize` from the filtered blocks on.  `navigationOnly` and `blank` stand for the
   Unicode tests of the source; the first holds of no blocks at all.
   */
  method Finalize(extracted: seq<Extracted>, source: Bytes, navigationOnly: seq<Extracted> -> bool,
      blank: Bytes -> bool)
    returns (r: Result<Parsed, Error>, ghost blocks: seq<Extracted>)
    requires navigationOnly([])
    requires forall i :: 0 <= i < |extracted| ==> Valid(extracted[i].text)
    ensures blocks == Kept(extracted)
    ensures r.Ok? ==>
              && blocks != [] && LaidOut(r.value.text, r.value.outline, blocks)
              && Mapped(source, r.value.outline, r.value.offsets, blocks)
    ensures r.Ok? ==> Passes(r.value) && !navigationOnly(blocks) && !blank(r.value.text)
    ensures r.Err? ==> r.error != InvalidOffset
    ensures r == Err(MissingKindOrAnchor) ==>
              exists i :: 0 <= i < |blocks| && (blocks[i].kind == "" || blocks[i].anchor == "")
    ensures r == Err(EmptyDocument) ==>
              || navigationOnly(blocks)
              || exists p: Parsed :: LaidOut(p.text, p.outline, blocks) && blank(p.text)
  {
    hide LaidOut, Mapped, Valid, OffsetOk;
    var kept: seq<Extracted> := [];
    for i := 0 to |extracted|
      invariant kept == Kept(extracted[..i])
    {
      assert extracted[..i + 1][..i] == extracted[..i];
      if extracted[i].text != [] {
        kept := kept + [extracted[i]];
      }
    }
    assert extracted[..|extracted|] == extracted;
    blocks := kept;
    KeptIsText(extracted);
    if navigationOnly(kept) {
      return Err(EmptyDocument), blocks;
    }
    var p := Build(kept, source);
    if blank(p.text) {
      return Err(EmptyDocument), blocks;
    }
    OwnChecksHold(kept, source, p);
    var failure := ValidateResult(p);
    if failure.Some? {
      KindsAreKept(p, kept);
      return Err(failure.value), blocks;
    }
    return Ok(p), blocks;
  }

  /** The blocks that still hold text. */
  function Kept(extracted: seq<Extracted>): seq<Extracted> {
    if extracted == [] then []
    else
      var n := |extracted| - 1;
      Kept(extracted[..n]) + if extracted[n].text != [] then [extracted[n]] else []
  }

  lemma {:induction false} KeptIsText(extracted: seq<Extracted>)
    requires forall i :: 0 <= i < |extracted| ==> Valid(extracted[i].text)
    ensures AllText(Kept(extracted))
  {
    if extracted == [] {
    } else {
      KeptIsText(extracted[..|extracted| - 1]);
    }
  }

  lemma KindsAreKept(p: Parsed, blocks: seq<Extracted>)
    requires LaidOut(p.text, p.outline, blocks)
    ensures forall i :: 0 <= i < |p.outline| ==>
              i < |blocks| && p.outline[i].kind == blocks[i].kind && p.outline[i].anchor == blocks[i].anchor
  {
  }

  // ---- The outline is one that span building accepts ----

  function Handed(outline: seq<OutlineBlock>): (r: seq<EvidenceSpans.Block>)
    ensures |r| == |outline|
    ensures forall i :: 0 <= i < |r| ==> r[i] == EvidenceSpans.Block(outline[i].kind, outline[i].anchor,
            outline[i].start, outline[i].end)
  {
    seq(|outline|, i requires 0 <= i < |outline| =>
      EvidenceSpans.Block(outline[i].kind, outline[i].anchor, outline[i].start, outline[i].end))
  }

  lemma {:induction false} OutlineIsOrderly(text: Bytes, outline: seq<OutlineBlock>, blocks: seq<Extracted>, n: nat)
    requires LaidOut(text, outline, blocks) && AllText(blocks) && n <= |blocks|
    ensures EvidenceSpans.Orderly(text, Handed(outline)[n..], if n == 0 then 0 else outline[n - 1].end)
    decreases |blocks| - n
  {
    if n < |blocks| {
      OutlineIsOrderly(text, outline, blocks, n + 1);
      var all := Handed(outline);
      assert all[n..][0] == all[n] && all[n..][1..] == all[n + 1..];
      assert Placed(text, outline[n], blocks[n]) && (n > 0 ==> Follows(text, outline[n - 1], outline[n]));
    }
  }

  lemma {:induction false} OrderlyIsAccepted(text: Bytes, blocks: seq<EvidenceSpans.Block>, previousEnd: nat,
      count: nat)
    requires EvidenceSpans.Orderly(text, blocks, previousEnd)
    requires previousEnd <= |text| && count <= EvidenceSpans.MAXIMUM_SPANS
    ensures var r := EvidenceSpans.CutBlocks(text, blocks, previousEnd, count);
            r.Ok? || r == Err(EvidenceSpans.TooManySpans)
    decreases |blocks|
  {
    hide Valid, EvidenceSpans.CutBlock;
    if blocks == [] {
    } else {
      var cuts := EvidenceSpans.CutBlock(text, blocks[0].start, blocks[0].end, count);
      if cuts.Some? {
        OrderlyIsAccepted(text, blocks[1..], blocks[0].end, count + |cuts.value|);
      }
    }
  }

  /**
   Span building never rejects the offsets of a finalized document: on its text and
   outline it can only fail for size or for the number of spans.
   */
  lemma {:induction false} SpansAcceptOutline(blocks: seq<Extracted>, source: Bytes, p: Parsed)
    requires blocks != [] && AllText(blocks)
    requires LaidOut(p.text, p.outline, blocks) && Mapped(source, p.outline, p.offsets, blocks)
    requires |p.text| <= EvidenceSpans.MAXIMUM_NORMALIZED_BYTES
    ensures var r := EvidenceSpans.Cuts(p.text, Handed(p.outline)); r.Ok? || r == Err(EvidenceSpans.TooManySpans)
  {
    hide Mapped, LaidOut;
    OwnChecksHold(blocks, source, p);
    OutlineIsOrderly(p.text, p.outline, blocks, 0);
    var handed := Handed(p.outline);
    assert handed[0..] == handed;
    OrderlyIsAccepted(p.text, handed, 0, 0);
  }

  /** Exactly the blocks with text are kept. */
  lemma {:induction false} KeptExactly(extracted: seq<Extracted>, b: Extracted)
    ensures multiset(Kept(extracted))[b] == if b.text != [] then multiset(extracted)[b] else 0
  {
    if extracted == [] {
    } else {
      var init, last := extracted[..|extracted| - 1], extracted[|extracted| - 1];
      assert extracted == init + [last];
      KeptExactly(init, b);
    }
  }

  /** A text occurs where the source is cut around it. */
  lemma {:induction false} OccursExactly(source: Bytes, text: Bytes, i: nat)
    ensures OccursAt(source, text, i) <==>
            i + |text| <= |source| && source == source[..i] + text + source[i + |text|..]
  {
    if i + |text| <= |source| {
      assert source == source[..i] + source[i..i + |text|] + source[i + |text|..];
      if source == source[..i] + text + source[i + |text|..] {
        assert source[i..i + |text|] == (source[..i] + text + source[i + |text|..])[i..i + |text|];
      }
    }
  }
}

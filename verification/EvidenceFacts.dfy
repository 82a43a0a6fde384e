/**
 What the spans of a document promise: they tile its blocks, and they respect
 characters except in one situation, which is exhibited.
 */
module EvidenceFacts {
  import opened Wrappers
  import opened Utf8
  import opened EvidenceSpans

  // ---- Tiling ----

  /** The cuts run from `start` to `end` without gap or overlap, each nonempty and of at most 1600 bytes. */
  ghost predicate Tiles(cuts: seq<Cut>, start: nat, end: nat) {
    if cuts == [] then start == end
    else
      && cuts[0].start == start < cuts[0].end
      && cuts[0].end - start <= 1600
      && Tiles(cuts[1..], cuts[0].end, end)
  }

  /** The cuts tile the blocks one after the other. */
  ghost predicate TilesBlocks(cuts: seq<Cut>, blocks: seq<Block>)
    decreases |blocks|
  {
    if blocks == [] then cuts == []
    else
      exists n :: 0 <= n <= |cuts| && 0 <= blocks[0].start < blocks[0].end &&
        Tiles(cuts[..n], blocks[0].start, blocks[0].end) && TilesBlocks(cuts[n..], blocks[1..])
  }

  /** A span that makes no progress is cut again and again until there are too many. */
  lemma {:induction false} StuckFails(value: Bytes, start: nat, blockEnd: nat, count: nat)
    requires start < blockEnd <= |value| && count <= MAXIMUM_SPANS && SpanEnd(value, start, blockEnd) == start
    ensures CutBlock(value, start, blockEnd, count).None?
    decreases MAXIMUM_SPANS - count
  {
    if count < MAXIMUM_SPANS {
      StuckFails(value, start, blockEnd, count + 1);
    }
  }

  lemma {:induction false} CutBlockTiles(value: Bytes, start: nat, blockEnd: nat, count: nat)
    requires start <= blockEnd <= |value| && count <= MAXIMUM_SPANS
    ensures var r := CutBlock(value, start, blockEnd, count); r.Some? ==> Tiles(r.value, start, blockEnd)
    decreases MAXIMUM_SPANS - count
  {
    hide SpanEnd;
    if start < blockEnd && count < MAXIMUM_SPANS {
      var end := SpanEnd(value, start, blockEnd);
      if end == start {
        StuckFails(value, start, blockEnd, count);
      }
      CutBlockTiles(value, end, blockEnd, count + 1);
      var rest := CutBlock(value, end, blockEnd, count + 1);
      assert rest.Some? ==> ([Cut(start, end)] + rest.value)[1..] == rest.value;
    }
  }

  lemma {:induction false} CutBlocksTile(value: Bytes, blocks: seq<Block>, previousEnd: nat, count: nat)
    requires previousEnd <= |value| && count <= MAXIMUM_SPANS
    ensures var r := CutBlocks(value, blocks, previousEnd, count); r.Ok? ==> TilesBlocks(r.value, blocks)
    decreases |blocks|
  {
    hide CutBlock, Valid, Tiles;
    var r := CutBlocks(value, blocks, previousEnd, count);
    if blocks != [] && r.Ok? {
      var b := blocks[0];
      CutBlockTiles(value, b.start, b.end, count);
      var cuts := CutBlock(value, b.start, b.end, count).value;
      CutBlocksTile(value, blocks[1..], b.end, count + |cuts|);
      assert r.value[..|cuts|] == cuts;
      assert r.value[|cuts|..] == CutBlocks(value, blocks[1..], b.end, count + |cuts|).value;
    }
  }

  /** Whatever the text and the outline, spans that are returned tile the outline, and their identifiers differ. */
  lemma SpansTile(value: Bytes, outline: seq<Block>, spans: seq<Span>)
    requires Cuts(value, outline).Ok? && Labels(value, Cuts(value, outline).value, spans)
    ensures TilesBlocks(Cuts(value, outline).value, Outline(value, outline)) && spans != []
    ensures forall i, j :: 0 <= i < j < |spans| ==> spans[i].id != spans[j].id
  {
    var blocks := Outline(value, outline);
    CutBlocksTile(value, blocks, 0, 0);
    var n :| 0 <= n <= |spans| && 0 <= blocks[0].start < blocks[0].end &&
      Tiles(Cuts(value, outline).value[..n], blocks[0].start, blocks[0].end);
    assert n > 0;
    forall i, j | 0 <= i < j < |spans|
      ensures spans[i].id != spans[j].id
    {
      if SpanId(i + 1) == SpanId(j + 1) {
        SpanIdOnce(i + 1, j + 1);
      }
    }
  }

  // ---- Characters ----

  /** Byte `i` belongs to a character and is not its last byte. */
  ghost predicate Inner(value: Bytes, i: nat) {
    exists k: nat :: Boundary(value, k) && k <= i < |value| && i + 1 < k + RuneLength(value[k..])
  }

  lemma {:induction false} BoundaryAfterByte(value: Bytes, i: nat)
    requires Valid(value) && i < |value|
    ensures Boundary(value, i + 1) <==> !Inner(value, i)
  {
    hide Valid, RuneLength;
    EmptyIsBoundary(value);
    var k := BoundaryNearby(value, 0, i);
    RuneAtBoundary(value, k);
    if i + 1 < k + RuneLength(value[k..]) {
      InsideIsNoBoundary(value, k, i + 1);
    } else if Inner(value, i) {
      var m: nat :| Boundary(value, m) && m <= i < |value| && i + 1 < m + RuneLength(value[m..]);
      InsideIsNoBoundary(value, m, i + 1);
      assert false;
    }
  }

  lemma EmptyIsBoundary(value: Bytes)
    ensures Boundary(value, 0)
  {
    assert value[..0] == [];
  }

  /** An ASCII byte is a character of its own. */
  lemma {:induction false} AsciiIsNotInner(value: Bytes, i: nat)
    requires Valid(value) && i < |value| && value[i] < 0x80
    ensures !Inner(value, i)
  {
    forall k: nat | Boundary(value, k) && k <= i < |value|
      ensures i + 1 >= k + RuneLength(value[k..])
    {
      var rune := value[k..];
      assert rune[i - k] == value[i];
    }
  }

  lemma {:induction false} SliceIsValid(value: Bytes, i: nat, j: nat)
    requires i <= j <= |value| && Boundary(value, i)
    ensures Boundary(value, j) <==> Valid(value[i..j])
  {
    assert value[..j] == value[..i] + value[i..j];
    ValidJoin(value[..i], value[i..j]);
  }

  /** A valid slice of a valid text starts and ends between characters. */
  lemma {:induction false} ValidSliceIsAligned(value: Bytes, i: nat, j: nat)
    requires Valid(value) && i < j <= |value| && Valid(value[i..j])
    ensures Boundary(value, i) && Boundary(value, j)
  {
    EmptyIsBoundary(value);
    var k := BoundaryNearby(value, 0, i);
    var rune, slice := value[k..], value[i..j];
    assert slice[0] == value[i] == rune[i - k];
    assert k < i ==> Continuation(rune[i - k]);
    SliceIsValid(value, i, j);
  }

  // ---- Where a long block is cut ----

  /** The last boundary in [start, k], or `start`. */
  ghost function LastBoundary(value: Bytes, start: nat, k: nat): (e: nat)
    requires start <= k
    ensures start <= e <= k && (e == start || Boundary(value, e)) && forall j :: e < j <= k ==> !Boundary(value, j)
  {
    if k == start || Boundary(value, k) then k else LastBoundary(value, start, k - 1)
  }

  /** The window of a span that starts at `start` ends with its last whole character. */
  ghost function WindowEnd(value: Bytes, start: nat): (e: nat)
    ensures start <= e <= start + MAXIMUM_SPAN_BYTES
  {
    LastBoundary(value, start, start + MAXIMUM_SPAN_BYTES)
  }

  /** The last space-like byte of the second half of the window belongs to a character and is not its last byte. */
  ghost predicate Trap(value: Bytes, start: nat) {
    var e := WindowEnd(value, start);
    exists i ::
      && start + MAXIMUM_SPAN_BYTES / 2 <= i < e && e <= |value|
      && SpaceByte(value[i]) && Inner(value, i)
      && forall j :: i < j < e ==> !SpaceByte(value[j])
  }

  /** Where the window is cut: after its last space-like byte in the second half, or at its end. */
  ghost function CutPoint(value: Bytes, start: nat): (c: nat) {
    var e := WindowEnd(value, start);
    if e <= |value| then CutAtSpace(value, start + MAXIMUM_SPAN_BYTES / 2, e, e) else start
  }

  lemma {:induction false} WindowIsValid(value: Bytes, start: nat)
    requires Valid(value) && Boundary(value, start) && start + MAXIMUM_SPAN_BYTES <= |value|
    ensures var e := WindowEnd(value, start);
            && start + MAXIMUM_SPAN_BYTES - 4 < e && Boundary(value, e)
            && e == ShrinkToValid(value, start, start + MAXIMUM_SPAN_BYTES)
  {
    hide Valid, RuneLength;
    var limit := start + MAXIMUM_SPAN_BYTES;
    var end, e := ShrinkToValid(value, start, limit), WindowEnd(value, start);
    var k := BoundaryNearby(value, start, limit);
    SliceIsValid(value, start, k);
    SliceIsValid(value, start, end);
    SliceIsValid(value, start, e);
  }

  /**
   A span cut from a longer block ends inside a character if and only if its window is a
   trap.  In any case it has more than 800 bytes.
   */
  lemma {:induction false} LongSpanExactly(value: Bytes, start: nat, blockEnd: nat)
    requires Valid(value) && Boundary(value, start) && start <= blockEnd <= |value|
    requires blockEnd - start > MAXIMUM_SPAN_BYTES
    ensures var c := SpanEnd(value, start, blockEnd);
            && start + MAXIMUM_SPAN_BYTES / 2 < c == CutPoint(value, start)
            && (!Boundary(value, c) <==> Trap(value, start))
  {
    hide Valid, RuneLength, Inner, Boundary;
    WindowIsValid(value, start);
    var e, c := WindowEnd(value, start), SpanEnd(value, start, blockEnd);
    BoundaryAfterByte(value, c - 1);
    if Trap(value, start) {
      var i :| start + MAXIMUM_SPAN_BYTES / 2 <= i < e && SpaceByte(value[i]) && Inner(value, i)
        && forall j :: i < j < e ==> !SpaceByte(value[j]);
      assert c == i + 1;
    }
  }

  // ---- What becomes of a block ----

  /** `Split(rest)` leaves `rest` bytes after a cut inside a character. */
  datatype Fate = Whole | Split(rest: nat)

  /** Follows the windows of a block from boundary to boundary, up to the first trap. */
  ghost function FateOf(value: Bytes, start: nat, end: nat): Fate
    requires Valid(value) && Boundary(value, start) && start <= end <= |value|
    decreases end - start
  {
    if end - start <= MAXIMUM_SPAN_BYTES then Whole
    else
      LongSpanExactly(value, start, end);
      if Trap(value, start) then Split(end - CutPoint(value, start))
      else FateOf(value, CutPoint(value, start), end)
  }

  /** After a cut inside a character no text is valid, so a rest of more than one span makes no progress. */
  lemma {:induction false} StuckInside(value: Bytes, c: nat, end: nat)
    requires Valid(value) && c < end <= |value| && !Boundary(value, c) && end - c > MAXIMUM_SPAN_BYTES
    ensures SpanEnd(value, c, end) == c
  {
    hide Valid, Boundary;
    var r := ShrinkToValid(value, c, c + MAXIMUM_SPAN_BYTES);
    if r > c {
      ValidSliceIsAligned(value, c, r);
    }
  }

  ghost predicate Aligned(value: Bytes, cuts: seq<Cut>) {
    forall i :: 0 <= i < |cuts| ==> Boundary(value, cuts[i].start) && Boundary(value, cuts[i].end)
  }

  /** All but the last exceed 800 bytes. */
  ghost predicate LongButLast(cuts: seq<Cut>) {
    forall i :: 0 <= i < |cuts| - 1 ==> cuts[i].end - cuts[i].start > MAXIMUM_SPAN_BYTES / 2
  }

  lemma AlignedFirst(value: Bytes, first: Cut, rest: seq<Cut>)
    ensures Aligned(value, [first] + rest) <==>
            Boundary(value, first.start) && Boundary(value, first.end) && Aligned(value, rest)
    ensures LongButLast([first] + rest) <==>
            LongButLast(rest) && (rest == [] || first.end - first.start > MAXIMUM_SPAN_BYTES / 2)
  {
    hide Boundary;
    var all := [first] + rest;
    assert all[0] == first && forall i :: 0 <= i < |rest| ==> all[i + 1] == rest[i];
    assert forall i :: 1 <= i < |all| ==> all[i] == rest[i - 1];
  }

  /**
   Exactly what a block comes to: it is cut between characters if its fate is whole, it
   is refused if a split leaves more than one span, and else it is cut inside a
   character.  The number of spans follows from its length.
   */
  lemma {:induction false} BlockFate(value: Bytes, start: nat, end: nat, count: nat)
    requires Valid(value) && Boundary(value, start) && Boundary(value, end)
    requires start <= end <= |value| && count <= MAXIMUM_SPANS
    ensures var r, fate := CutBlock(value, start, end, count), FateOf(value, start, end);
            && (r.Some? ==> (Aligned(value, r.value) <==> fate.Whole?) && LongButLast(r.value))
            && (r.Some? && start < end ==> 801 * (|r.value| - 1) < end - start)
            && (fate.Split? && fate.rest > MAXIMUM_SPAN_BYTES ==> r.None?)
            && (end - start <= 801 * (MAXIMUM_SPANS - count) && r.None? ==>
                  fate.Split? && fate.rest > MAXIMUM_SPAN_BYTES)
    decreases MAXIMUM_SPANS - count
  {
    hide Valid, RuneLength, SpanEnd, Trap, CutPoint, Boundary, Aligned, LongButLast;
    if start == end {
      NothingIsAligned(value);
    } else if count == MAXIMUM_SPANS {
      if end - start > MAXIMUM_SPAN_BYTES {
        LongSpanExactly(value, start, end);
      }
    } else if end - start <= MAXIMUM_SPAN_BYTES {
      ShortBlockIsOneSpan(value, start, end);
      NothingIsAligned(value);
      AlignedFirst(value, Cut(start, end), []);
    } else {
      LongSpanExactly(value, start, end);
      var c := SpanEnd(value, start, end);
      if Boundary(value, c) {
        BlockFate(value, c, end, count + 1);
        var rest := CutBlock(value, c, end, count + 1);
        if rest.Some? {
          AlignedFirst(value, Cut(start, c), rest.value);
        }
      } else {
        SplitFate(value, start, c, end, count);
      }
    }
  }

  lemma NothingIsAligned(value: Bytes)
    ensures Aligned(value, []) && LongButLast([])
  {
  }

  lemma {:induction false} SplitFate(value: Bytes, start: nat, c: nat, end: nat, count: nat)
    requires Valid(value) && start + MAXIMUM_SPAN_BYTES / 2 < c < end <= |value| && count < MAXIMUM_SPANS
    requires c == SpanEnd(value, start, end) && !Boundary(value, c)
    ensures var r := CutBlock(value, start, end, count);
            && (r.Some? ==> !Aligned(value, r.value) && LongButLast(r.value) && 801 * (|r.value| - 1) < end - start)
            && (end - c > MAXIMUM_SPAN_BYTES ==> r.None?)
            && (end - c <= MAXIMUM_SPAN_BYTES && count + 1 < MAXIMUM_SPANS ==> r.Some?)
  {
    hide Valid, Boundary;
    if end - c > MAXIMUM_SPAN_BYTES {
      StuckInside(value, c, end);
      StuckFails(value, c, end, count + 1);
    } else if count + 1 < MAXIMUM_SPANS {
      var last := [Cut(c, end)];
      assert CutBlock(value, end, end, count + 2) == Some([]) && last + [] == last;
      assert CutBlock(value, c, end, count + 1) == Some(last);
      NothingIsAligned(value);
      AlignedFirst(value, Cut(c, end), []);
      AlignedFirst(value, Cut(start, c), last);
    }
  }

  // ---- What becomes of a document ----

  /** A block of valid text none of whose windows is a trap. */
  ghost predicate WholeBlock(value: Bytes, b: Block) {
    && Valid(value) && 0 <= b.start < b.end <= |value| && Boundary(value, b.start)
    && FateOf(value, b.start, b.end).Whole?
  }

  lemma AlignedJoin(value: Bytes, a: seq<Cut>, b: seq<Cut>)
    ensures Aligned(value, a + b) <==> Aligned(value, a) && Aligned(value, b)
  {
    hide Boundary;
    var all := a + b;
    assert forall i :: 0 <= i < |all| ==> all[i] == if i < |a| then a[i] else b[i - |a|];
    assert forall i :: 0 <= i < |b| ==> b[i] == all[|a| + i];
    assert forall i :: 0 <= i < |a| ==> a[i] == all[i];
  }

  lemma {:induction false} BlocksFate(value: Bytes, blocks: seq<Block>, previousEnd: nat, count: nat)
    requires Valid(value) && previousEnd <= |value| && count <= MAXIMUM_SPANS
    ensures var r := CutBlocks(value, blocks, previousEnd, count);
            r.Ok? ==> (Aligned(value, r.value) <==> forall i :: 0 <= i < |blocks| ==> WholeBlock(value, blocks[i]))
    decreases |blocks|
  {
    hide Valid, RuneLength, CutBlock, FateOf, Boundary, Aligned;
    var r := CutBlocks(value, blocks, previousEnd, count);
    if blocks == [] {
      NothingIsAligned(value);
    } else if r.Ok? {
      var b, rest := blocks[0], blocks[1..];
      var cuts := CutBlock(value, b.start, b.end, count).value;
      var more := CutBlocks(value, rest, b.end, count + |cuts|).value;
      ValidSliceIsAligned(value, b.start, b.end);
      BlockFate(value, b.start, b.end, count);
      BlocksFate(value, rest, b.end, count + |cuts|);
      AlignedJoin(value, cuts, more);
      assert WholeBlock(value, b) <==> Aligned(value, cuts);
      assert forall i :: 1 <= i < |blocks| ==> blocks[i] == rest[i - 1];
    }
  }

  /** The spans of a document are all valid text if and only if no window met in its blocks is a trap. */
  lemma {:induction false} SpansAreValidExactly(value: Bytes, outline: seq<Block>, spans: seq<Span>)
    requires Cuts(value, outline).Ok? && Labels(value, Cuts(value, outline).value, spans)
    ensures (forall i :: 0 <= i < |spans| ==> Valid(spans[i].text)) <==>
            forall i :: 0 <= i < |Outline(value, outline)| ==> WholeBlock(value, Outline(value, outline)[i])
  {
    hide CutBlocks, Boundary, WholeBlock, TilesBlocks;
    var cuts, blocks := Cuts(value, outline).value, Outline(value, outline);
    BlocksFate(value, blocks, 0, 0);
    CutBlocksTile(value, blocks, 0, 0);
    forall i | 0 <= i < |spans|
      ensures Valid(spans[i].text) <==> Boundary(value, cuts[i].start) && Boundary(value, cuts[i].end)
    {
      TiledIsNonempty(cuts, blocks, i);
      if Valid(spans[i].text) {
        ValidSliceIsAligned(value, cuts[i].start, cuts[i].end);
      } else if Boundary(value, cuts[i].start) {
        SliceIsValid(value, cuts[i].start, cuts[i].end);
      }
    }
  }

  lemma {:induction false} TileIsNonempty(cuts: seq<Cut>, start: nat, end: nat, i: nat)
    requires Tiles(cuts, start, end) && i < |cuts|
    ensures cuts[i].start < cuts[i].end
  {
    if i == 0 {
    } else {
      TileIsNonempty(cuts[1..], cuts[0].end, end, i - 1);
    }
  }

  lemma {:induction false} TiledIsNonempty(cuts: seq<Cut>, blocks: seq<Block>, i: nat)
    requires TilesBlocks(cuts, blocks) && i < |cuts|
    ensures cuts[i].start < cuts[i].end
    decreases |blocks|
  {
    hide Tiles;
    var n :| 0 <= n <= |cuts| && 0 <= blocks[0].start < blocks[0].end &&
      Tiles(cuts[..n], blocks[0].start, blocks[0].end) && TilesBlocks(cuts[n..], blocks[1..]);
    if i < n {
      TileIsNonempty(cuts[..n], blocks[0].start, blocks[0].end, i);
    } else {
      TiledIsNonempty(cuts[n..], blocks[1..], i - n);
    }
  }

  /** A document without an outline is refused if and only if its first trap leaves more than one span. */
  lemma {:induction false} RefusedExactly(value: Bytes)
    requires Valid(value) && 0 < |value| <= 100_000
    ensures Boundary(value, 0)
    ensures var fate := FateOf(value, 0, |value|);
            && (Cuts(value, []) == Err(TooManySpans) <==> fate.Split? && fate.rest > 1600)
            && (Cuts(value, []).Ok? <==> !(fate.Split? && fate.rest > 1600))
  {
    hide Valid, CutBlock, FateOf, Cuts, Aligned, LongButLast;
    EmptyIsBoundary(value);
    assert value[..|value|] == value;
    BlockFate(value, 0, |value|, 0);
    SingleBlock(value);
  }

  /** How many spans a block takes, if it is not refused. */
  ghost function Need(value: Bytes, start: nat, end: nat): nat
    requires Valid(value) && Boundary(value, start) && start <= end <= |value|
    decreases end - start
  {
    if start == end then 0
    else if end - start <= MAXIMUM_SPAN_BYTES then 1
    else
      LongSpanExactly(value, start, end);
      if Trap(value, start) then 2 else 1 + Need(value, CutPoint(value, start), end)
  }

  ghost predicate LeavesTooMuch(fate: Fate) {
    fate.Split? && fate.rest > MAXIMUM_SPAN_BYTES
  }

  /** A block fails for a trap that leaves too much or for want of spans, and takes what it needs otherwise. */
  lemma {:induction false} BlockFailsExactly(value: Bytes, start: nat, end: nat, count: nat)
    requires Valid(value) && Boundary(value, start) && Boundary(value, end)
    requires start <= end <= |value| && count <= MAXIMUM_SPANS
    ensures var r := CutBlock(value, start, end, count);
            && (r.None? <==>
                  LeavesTooMuch(FateOf(value, start, end)) || count + Need(value, start, end) > MAXIMUM_SPANS)
            && (r.Some? ==> |r.value| == Need(value, start, end))
    decreases MAXIMUM_SPANS - count
  {
    hide Valid, RuneLength, SpanEnd, Trap, CutPoint, Boundary;
    if start == end {
    } else if end - start <= MAXIMUM_SPAN_BYTES {
      ShortBlockIsOneSpan(value, start, end);
      assert count < MAXIMUM_SPANS ==> CutBlock(value, end, end, count + 1) == Some([]);
    } else {
      LongSpanExactly(value, start, end);
      var c := SpanEnd(value, start, end);
      if count == MAXIMUM_SPANS {
      } else if Boundary(value, c) {
        BlockFailsExactly(value, c, end, count + 1);
      } else if end - c > MAXIMUM_SPAN_BYTES {
        StuckInside(value, c, end);
        StuckFails(value, c, end, count + 1);
      } else if count + 1 < MAXIMUM_SPANS {
        ShortBlockIsOneSpan(value, c, end);
        assert CutBlock(value, end, end, count + 2) == Some([]);
        assert CutBlock(value, c, end, count + 1) == Some([Cut(c, end)] + []);
      }
    }
  }

  ghost predicate Refuses(value: Bytes, b: Block) {
    && Valid(value) && 0 <= b.start <= b.end <= |value| && Boundary(value, b.start)
    && LeavesTooMuch(FateOf(value, b.start, b.end))
  }

  ghost function NeedAll(value: Bytes, blocks: seq<Block>): nat {
    if blocks == [] then 0
    else
      var b := blocks[0];
      NeedAll(value, blocks[1..]) +
      if Valid(value) && 0 <= b.start <= b.end <= |value| && Boundary(value, b.start)
      then Need(value, b.start, b.end) else 0
  }

  lemma {:induction false} BlocksFailExactly(value: Bytes, blocks: seq<Block>, previousEnd: nat, count: nat)
    requires Valid(value) && previousEnd <= |value| && count <= MAXIMUM_SPANS && Orderly(value, blocks, previousEnd)
    ensures var r := CutBlocks(value, blocks, previousEnd, count);
            var refused := (exists i :: 0 <= i < |blocks| && Refuses(value, blocks[i])) ||
                           count + NeedAll(value, blocks) > MAXIMUM_SPANS;
            if refused then r == Err(TooManySpans) else r.Ok?
    decreases |blocks|
  {
    hide Valid, RuneLength, CutBlock, FateOf, Need, Boundary;
    if blocks == [] {
    } else {
      var b, rest := blocks[0], blocks[1..];
      ValidSliceIsAligned(value, b.start, b.end);
      BlockFailsExactly(value, b.start, b.end, count);
      var cuts := CutBlock(value, b.start, b.end, count);
      assert forall i :: 1 <= i < |blocks| ==> blocks[i] == rest[i - 1];
      assert forall i :: 0 <= i < |rest| ==> rest[i] == blocks[i + 1];
      if cuts.Some? {
        BlocksFailExactly(value, rest, b.end, count + |cuts.value|);
      } else {
        assert Refuses(value, b) || count + NeedAll(value, blocks) > MAXIMUM_SPANS;
      }
    }
  }

  /**
   A document with an outline of valid blocks is refused if and only if the first trap of
   some block leaves more than one span or the blocks need more than 200 spans.
   */
  lemma {:induction false} OutlineRefusedExactly(value: Bytes, outline: seq<Block>)
    requires Valid(value) && 0 < |value| <= 100_000 && outline != [] && Orderly(value, outline, 0)
    ensures var refused := (exists i :: 0 <= i < |outline| && Refuses(value, outline[i])) ||
                           NeedAll(value, outline) > 200;
            if refused then Cuts(value, outline) == Err(TooManySpans) else Cuts(value, outline).Ok?
  {
    hide Valid, CutBlocks, Refuses, NeedAll;
    BlocksFailExactly(value, outline, 0, 0);
  }

  // ---- Clean text ----

  /** No 0x85 or 0xA0 byte sits inside a character before its last byte. */
  ghost predicate Clean(value: Bytes) {
    forall i :: 0 <= i < |value| && (value[i] == 0x85 || value[i] == 0xA0) ==> !Inner(value, i)
  }

  lemma {:induction false} CleanHasNoTrap(value: Bytes, start: nat)
    requires Valid(value) && Clean(value)
    ensures !Trap(value, start)
  {
    hide Valid, Inner;
    var e := WindowEnd(value, start);
    forall i | start + MAXIMUM_SPAN_BYTES / 2 <= i < e && e <= |value| && SpaceByte(value[i])
      ensures !Inner(value, i)
    {
      if value[i] < 0x80 {
        AsciiIsNotInner(value, i);
      }
    }
  }

  lemma {:induction false} CleanIsWhole(value: Bytes, start: nat, end: nat)
    requires Valid(value) && Clean(value) && Boundary(value, start) && start <= end <= |value|
    ensures FateOf(value, start, end).Whole?
    decreases end - start
  {
    hide Valid, Trap, CutPoint, Boundary;
    if end - start > MAXIMUM_SPAN_BYTES {
      CleanHasNoTrap(value, start);
      LongSpanExactly(value, start, end);
      CleanIsWhole(value, CutPoint(value, start), end);
    }
  }

  lemma {:induction false} CleanBlock(value: Bytes, start: nat, blockEnd: nat, count: nat)
    requires Valid(value) && Clean(value) && Boundary(value, start) && Boundary(value, blockEnd)
    requires start <= blockEnd <= |value| && count <= MAXIMUM_SPANS
    ensures var r := CutBlock(value, start, blockEnd, count);
            r.Some? ==> Aligned(value, r.value) && LongButLast(r.value)
    ensures blockEnd - start <= 801 * (MAXIMUM_SPANS - count) ==> CutBlock(value, start, blockEnd, count).Some?
  {
    hide Valid, CutBlock, FateOf, Boundary;
    CleanIsWhole(value, start, blockEnd);
    BlockFate(value, start, blockEnd, count);
  }

  lemma ShortBlockIsOneSpan(value: Bytes, start: nat, blockEnd: nat)
    requires start <= blockEnd <= |value| && blockEnd - start <= MAXIMUM_SPAN_BYTES
    ensures SpanEnd(value, start, blockEnd) == blockEnd
  {
  }

  /** In clean text every span is valid text. */
  lemma {:induction false} CleanSpansAreValid(value: Bytes, outline: seq<Block>, spans: seq<Span>, i: nat)
    requires Clean(value) && Cuts(value, outline).Ok? && Labels(value, Cuts(value, outline).value, spans) && i < |spans|
    ensures Valid(spans[i].text)
  {
    hide RuneLength, Clean, FateOf, CutBlock, Labels;
    var blocks := Outline(value, outline);
    CutBlocksAreBlocks(value, blocks, 0, 0);
    forall j | 0 <= j < |blocks|
      ensures WholeBlock(value, blocks[j])
    {
      ValidSliceIsAligned(value, blocks[j].start, blocks[j].end);
      CleanIsWhole(value, blocks[j].start, blocks[j].end);
    }
    SpansAreValidExactly(value, outline, spans);
  }

  /** Blocks that are cut are nonempty slices of valid text. */
  lemma {:induction false} CutBlocksAreBlocks(value: Bytes, blocks: seq<Block>, previousEnd: nat, count: nat)
    requires previousEnd <= |value| && count <= MAXIMUM_SPANS && CutBlocks(value, blocks, previousEnd, count).Ok?
    ensures forall j :: 0 <= j < |blocks| ==>
              0 <= blocks[j].start < blocks[j].end <= |value| && Valid(value[blocks[j].start..blocks[j].end])
    decreases |blocks|
  {
    hide Valid, CutBlock;
    if blocks == [] {
    } else {
      var cuts := CutBlock(value, blocks[0].start, blocks[0].end, count).value;
      CutBlocksAreBlocks(value, blocks[1..], blocks[0].end, count + |cuts|);
      assert forall j :: 1 <= j < |blocks| ==> blocks[j] == blocks[1..][j - 1];
    }
  }

  /** Clean text of any admissible size without an outline is never refused, and needs at most 125 spans. */
  lemma {:induction false} CleanTextFits(value: Bytes)
    requires Clean(value) && Valid(value) && 0 < |value| <= 100_000
    ensures var r := Cuts(value, []);
            r.Ok? && Aligned(value, r.value) && LongButLast(r.value) && |r.value| <= 125
  {
    hide Valid, Clean, CutBlock, FateOf, Cuts, Aligned, LongButLast;
    EmptyIsBoundary(value);
    assert value[..|value|] == value;
    CleanIsWhole(value, 0, |value|);
    BlockFate(value, 0, |value|, 0);
    SingleBlock(value);
  }

  // ---- Text that is not clean ----

  function Letters(n: nat): (r: Bytes)
    ensures |r| == n && forall i :: 0 <= i < n ==> r[i] == 97
  {
    seq(n, _ => 97)
  }

  /** A thousand letters, the character U+2150 (bytes E2 85 90), and more letters. */
  function Sample(tail: nat): Bytes {
    Letters(1000) + [0xE2, 0x85, 0x90] + Letters(tail)
  }

  lemma {:induction false} LettersAreValid(n: nat)
    ensures Valid(Letters(n))
  {
    if n == 0 {
    } else {
      assert Letters(n)[1..] == Letters(n - 1);
      LettersAreValid(n - 1);
    }
  }

  lemma {:induction false} SampleIsValid(tail: nat)
    ensures Valid(Sample(tail))
  {
    var rune: Bytes := [0xE2, 0x85, 0x90];
    LettersAreValid(1000);
    LettersAreValid(tail);
    assert rune[3..] == [];
    ValidJoin(Letters(1000), rune);
    ValidJoin(Letters(1000) + rune, Letters(tail));
  }

  /** The first span of the sample ends after its 0x85 byte, inside the character. */
  lemma {:induction false} SampleFirstSpan(tail: nat)
    requires tail >= 598
    ensures SpanEnd(Sample(tail), 0, 1003 + tail) == 1002
    ensures !Boundary(Sample(tail), 1002)
  {
    hide Valid, RuneLength;
    var value := Sample(tail);
    assert value[0..1600] == Sample(597);
    SampleIsValid(597);
    assert ShrinkToValid(value, 0, 1600) == 1600;
    assert value[1001] == 0x85;
    forall i | 800 <= i < 1600 && i != 1001
      ensures !SpaceByte(value[i])
    {
      assert value[i] in {0xE2, 0x90, 97};
    }
    SampleIsNotAligned(tail);
  }

  lemma {:induction false} SampleIsNotAligned(tail: nat)
    ensures !Boundary(Sample(tail), 1002)
  {
    LettersAreValid(1000);
    assert Sample(tail)[..1002] == Letters(1000) + [0xE2, 0x85];
    ValidJoin(Letters(1000), [0xE2, 0x85]);
    assert RuneLength([0xE2, 0x85]) == 0;
  }

  lemma {:induction false} SingleBlock(value: Bytes)
    requires Valid(value) && 0 < |value| <= MAXIMUM_NORMALIZED_BYTES
    ensures match CutBlock(value, 0, |value|, 0)
            case None => Cuts(value, []) == Err(TooManySpans)
            case Some(cuts) => Cuts(value, []) == Ok(cuts)
  {
    hide CutBlock;
    assert value[0..|value|] == value;
    var r, blocks := CutBlock(value, 0, |value|, 0), Outline(value, []);
    assert blocks[1..] == [];
    if r.Some? {
      assert CutBlocks(value, blocks[1..], |value|, |r.value|) == Ok([]);
      assert r.value + [] == r.value;
    }
  }

  /** A valid text whose two spans are both invalid text. */
  lemma {:induction false} CharacterCanBeSplit(tail: nat)
    requires 598 <= tail < MAXIMUM_SPAN_BYTES
    ensures Valid(Sample(tail)) && !Boundary(Sample(tail), 1002)
    ensures Cuts(Sample(tail), []) == Ok([Cut(0, 1002), Cut(1002, 1003 + tail)])
  {
    hide Valid, SpanEnd, Letters;
    var value, end := Sample(tail), 1003 + tail;
    SampleIsValid(tail);
    SampleFirstSpan(tail);
    ShortBlockIsOneSpan(value, 1002, end);
    var last, both := [Cut(1002, end)], [Cut(0, 1002), Cut(1002, end)];
    assert CutBlock(value, end, end, 2) == Some([]);
    assert last + [] == last && [Cut(0, 1002)] + last == both;
    assert CutBlock(value, 1002, end, 1) == Some(last);
    assert CutBlock(value, 0, end, 0) == Some(both);
    SingleBlock(value);
  }

  /** A valid text of admissible size that is refused: after the split no span can make progress. */
  lemma {:induction false} DocumentCanBeRefused(tail: nat)
    requires MAXIMUM_SPAN_BYTES <= tail <= MAXIMUM_NORMALIZED_BYTES - 1003
    ensures Valid(Sample(tail)) && Cuts(Sample(tail), []) == Err(TooManySpans)
  {
    hide Valid, SpanEnd, Letters;
    var value, end := Sample(tail), 1003 + tail;
    SampleIsValid(tail);
    SampleFirstSpan(tail);
    SampleIsStuck(tail);
    StuckFails(value, 1002, end, 1);
    assert CutBlock(value, 0, end, 0) == None;
    SingleBlock(value);
  }

  lemma {:induction false} SampleIsStuck(tail: nat)
    requires MAXIMUM_SPAN_BYTES <= tail
    ensures SpanEnd(Sample(tail), 1002, 1003 + tail) == 1002
  {
    var value := Sample(tail);
    forall k | 1002 < k <= |value|
      ensures !Valid(value[1002..k])
    {
      assert value[1002..k][0] == 0x90;
    }
  }

  // ---- Ordinary text ----

  /**
   In ASCII text a span that is not the last of its block ends right after the last blank
   of its second half, if there is one, and after exactly 1600 bytes if there is none.
   */
  lemma {:induction false} AsciiSpansEndAfterBlank(value: Bytes, start: nat, blockEnd: nat)
    requires start <= blockEnd <= |value| && blockEnd - start > 1600
    requires forall i :: 0 <= i < |value| ==> value[i] < 0x80
    ensures AfterLastBlank(value, start, start + 1600, SpanEnd(value, start, blockEnd))
  {
    var end := SpanEndMeans(value, start, blockEnd);
    AsciiIsValid(value[start..start + 1600]);
  }

  lemma {:induction false} AsciiIsValid(s: Bytes)
    requires forall i :: 0 <= i < |s| ==> s[i] < 0x80
    ensures Valid(s)
  {
    if s == [] {
    } else {
      AsciiIsValid(s[1..]);
    }
  }

  /** The number that the digits of a text make up. */
  function Reading(s: string): int {
    if s == "" then 0 else 10 * Reading(s[..|s| - 1]) + (s[|s| - 1] as int - 0x30)
  }

  /** An identifier is `span_` and the number of the span in four digits. */
  lemma {:induction false} IdentifierReads(n: nat)
    requires n < 10_000
    ensures |SpanId(n)| == 9 && SpanId(n)[..5] == "span_" && Reading(SpanId(n)[5..]) == n
  {
    var d := SpanId(n)[5..];
    assert d == [Digit(n / 1000), Digit(n / 100), Digit(n / 10), Digit(n)];
    FourDigits(n);
    DigitReads(n / 1000);
    DigitReads(n / 100);
    DigitReads(n / 10);
    DigitReads(n);
    hide Digit, SpanId;
    assert d[..3][..2][..1][..0] == "";
    assert d[..3][2] == d[2] && d[..3][..2][1] == d[1] && d[..3][..2][..1][0] == d[0];
    assert Reading(d[..3][..2][..1]) == n / 1000 % 10;
    assert Reading(d[..3][..2]) == 10 * (n / 1000 % 10) + n / 100 % 10;
    assert Reading(d[..3]) == 100 * (n / 1000 % 10) + 10 * (n / 100 % 10) + n / 10 % 10;
  }

  lemma DigitReads(n: nat)
    ensures Digit(n) as int - 0x30 == n % 10
  {
  }

  // ---- Errors ----

  /** A text is turned down for itself exactly if it is empty, too long or not UTF-8. */
  lemma TextRefusedExactly(value: Bytes, outline: seq<Block>)
    ensures Cuts(value, outline) == Err(InvalidText) <==> value == [] || |value| > 100_000 || !Valid(value)
  {
    if value != [] && |value| <= 100_000 && Valid(value) {
      NotForItself(value, Outline(value, outline), 0, 0);
    }
  }

  lemma {:induction false} NotForItself(value: Bytes, blocks: seq<Block>, previousEnd: nat, count: nat)
    requires previousEnd <= |value| && count <= MAXIMUM_SPANS
    ensures CutBlocks(value, blocks, previousEnd, count) != Err(InvalidText)
    decreases |blocks|
  {
    hide CutBlock;
    if blocks != [] {
      var b := blocks[0];
      if b.start >= previousEnd && b.start >= 0 && b.start < b.end <= |value| && Valid(value[b.start..b.end]) {
        var r := CutBlock(value, b.start, b.end, count);
        if r.Some? {
          NotForItself(value, blocks[1..], b.end, count + |r.value|);
        }
      }
    }
  }

  /** Blocks that follow each other, are not empty, lie in the text and cut no character. */
  ghost predicate InSequence(value: Bytes, blocks: seq<Block>, from: int) {
    && (forall i :: 0 <= i < |blocks| ==> blocks[i].start < blocks[i].end && WholeText(value, blocks[i]))
    && (blocks != [] ==> from <= blocks[0].start)
    && forall i :: 0 < i < |blocks| ==> blocks[i - 1].end <= blocks[i].start
  }

  ghost predicate WholeText(value: Bytes, b: Block) {
    0 <= b.start <= b.end <= |value| && Valid(value[b.start..b.end])
  }

  /** What is accepted is in sequence, and only an outline out of sequence is turned down for its offsets. */
  lemma {:induction false} OutOfSequenceFails(value: Bytes, blocks: seq<Block>, previousEnd: nat, count: nat)
    requires previousEnd <= |value| && count <= MAXIMUM_SPANS
    ensures var r := CutBlocks(value, blocks, previousEnd, count);
            && (r.Ok? ==> InSequence(value, blocks, previousEnd))
            && (InSequence(value, blocks, previousEnd) ==> r != Err(InvalidOffsets) && r != Err(SplitsCharacter))
    decreases |blocks|
  {
    hide CutBlock, Valid;
    if blocks == [] {
    } else {
      var b, rest := blocks[0], blocks[1..];
      var here := b.start >= previousEnd && b.start < b.end && WholeText(value, b);
      if here {
        var r := CutBlock(value, b.start, b.end, count);
        if r.Some? {
          OutOfSequenceFails(value, rest, b.end, count + |r.value|);
        }
      }
      FirstInSequence(value, blocks, previousEnd);
    }
  }

  lemma {:induction false} FirstInSequence(value: Bytes, blocks: seq<Block>, from: nat)
    requires blocks != []
    ensures var b := blocks[0];
            InSequence(value, blocks, from) <==>
            b.start >= from && b.start < b.end && WholeText(value, b) && InSequence(value, blocks[1..], b.end)
  {
    hide WholeText;
    var b, rest := blocks[0], blocks[1..];
    assert forall i :: 0 <= i < |rest| ==> rest[i] == blocks[i + 1];
    assert forall i :: 0 < i < |blocks| ==> blocks[i] == rest[i - 1];
    if b.start >= from && b.start < b.end && WholeText(value, b) && InSequence(value, rest, b.end) {
      forall i | 0 < i < |blocks|
        ensures blocks[i - 1].end <= blocks[i].start
      {
        assert i > 1 ==> blocks[i - 1] == rest[i - 2];
      }
    }
    if InSequence(value, blocks, from) {
      forall i | 0 < i < |rest|
        ensures rest[i - 1].end <= rest[i].start
      {
        assert rest[i] == blocks[i + 1] && rest[i - 1] == blocks[i];
      }
    }
  }
}

/**
 * `removeRangeFromContentState`: deletes the text a selection spans, joining
 * the start block's head to the end block's tail under the start block's key
 * and dropping every block after the start up to and including the end. A
 * non-collapsed selection inside one atomic block removes that block whole.
 */
module RemoveRange {
  import opened Nullable
  import opened ImmutableSeq
  import opened ContentModel
  import opened BlockMap

  /**
   * `removeFromList`: cuts `[startOffset, endOffset)` out of a character list,
   * shifting from the front when the cut starts at 0, popping from the back
   * when it reaches the end, and slicing otherwise. All three give the splice.
   */
  function RemoveFromList(list: seq<Meta>, startOffset: nat, endOffset: nat): (r: seq<Meta>)
    ensures startOffset <= endOffset ==> r == Take(list, startOffset) + Drop(list, endOffset)
    ensures startOffset <= endOffset <= |list| ==> |r| == |list| - (endOffset - startOffset)
  {
    if startOffset == 0 then
      ShiftTimes(list, endOffset)
    else if endOffset == |list| then
      PopTimes(list, if endOffset > startOffset then endOffset - startOffset else 0)
    else
      Take(list, startOffset) + Drop(list, endOffset)
  }

  /** The block-map predicate `(_, k) => k === key`. */
  function KeyIs(key: string): Block -> bool
  {
    (b: Block) => b.key == key
  }

  /** The predicate `b => b.getType() != 'atomic'`. */
  function NotAtomic(b: Block): bool
  {
    b.blockType != Atomic
  }

  /** Both ends of the selection name blocks of the map. */
  predicate Resolves(blocks: seq<Block>, sel: Selection)
  {
    && StartKey(sel).KeyName? && HasKey(blocks, StartKey(sel).name)
    && EndKey(sel).KeyName? && HasKey(blocks, EndKey(sel).name)
  }

  function StartIndex(blocks: seq<Block>, sel: Selection): nat
    requires Resolves(blocks, sel)
  {
    IndexOf(blocks, StartKey(sel).name)
  }

  function EndIndex(blocks: seq<Block>, sel: Selection): nat
    requires Resolves(blocks, sel)
  {
    IndexOf(blocks, EndKey(sel).name)
  }

  /**
   * What a SelectionState guarantees of a non-collapsed selection over a block
   * map with distinct keys: both ends resolve, the start is not after the end,
   * and each offset lies within its block's text.
   */
  predicate Normalized(blocks: seq<Block>, sel: Selection)
  {
    && UniqueKeys(blocks)
    && !IsCollapsed(sel)
    && Resolves(blocks, sel)
    && StartIndex(blocks, sel) <= EndIndex(blocks, sel)
    && (StartIndex(blocks, sel) == EndIndex(blocks, sel) ==> StartOffset(sel) <= EndOffset(sel))
    && StartOffset(sel) <= |blocks[StartIndex(blocks, sel)].text|
    && EndOffset(sel) <= |blocks[EndIndex(blocks, sel)].text|
  }

  /** The `removeWholeAtomicBlock` flag. */
  predicate RemovesAtomicBlock(blocks: seq<Block>, sel: Selection)
    requires Resolves(blocks, sel)
  {
    && StartKey(sel) == EndKey(sel)
    && blocks[StartIndex(blocks, sel)].blockType == Atomic
    && EndOffset(sel) > StartOffset(sel)
  }

  /**
   * The keyed sequence `newBlocks`: the keys from the start block up to (not
   * including) the end block, then the end key, each mapped to `null` except
   * the start key, which maps to the modified start block.
   */
  function RangeUpdates(blocks: seq<Block>, startKey: string, endKey: string, modifiedStart: Option<Block>): seq<Entry>
  {
    var range := TakeUntil(SkipUntil(blocks, KeyIs(startKey)), KeyIs(endKey));
    var keys := seq(|range|, q requires 0 <= q < |range| => range[q].key) + [endKey];
    seq(|keys|, q requires 0 <= q < |keys| =>
      Entry(keys[q], if keys[q] == startKey then modifiedStart else None))
  }

  /**
   * `blockMap.reverse().skipUntil(key is startKey).skip(1)
   *   .skipUntil(type is not atomic).first()`.
   */
  function BlockBefore(blocks: seq<Block>, startKey: string): Option<Block>
  {
    First(SkipUntil(Drop(SkipUntil(Reverse(blocks), KeyIs(startKey)), 1), NotAtomic))
  }

  /**
   * Where the caret goes after an atomic block is removed: the end of the
   * block found by `BlockBefore`, or else a selection built around the first
   * block of the original map (a block value, where a key is expected).
   */
  function AtomicRemovalCaret(blocks: seq<Block>, startKey: string): Selection
    requires |blocks| > 0
  {
    match BlockBefore(blocks, startKey)
    case Some(b) =>
      CreateEmpty(KeyName(b.key)).(isBackward := false, focusOffset := |b.text|, anchorOffset := |b.text|)
    case None =>
      CreateEmpty(BlockObject(blocks[0]))
  }

  /**
   * The start block after the deletion: its text and character list up to
   * the start offset, followed by the end block's from the end offset, or
   * `null` when the whole atomic block goes.
   */
  function ModifiedStart(startBlock: Block, endBlock: Block, sameBlock: bool, removeWholeAtomicBlock: bool,
                         startOffset: nat, endOffset: nat): Option<Block>
  {
    var characterList :=
      if sameBlock then RemoveFromList(startBlock.chars, startOffset, endOffset)
      else Take(startBlock.chars, startOffset) + Drop(endBlock.chars, endOffset);
    if removeWholeAtomicBlock then None
    else Some(startBlock.(
      text := Take(startBlock.text, startOffset) + Drop(endBlock.text, endOffset),
      chars := characterList))
  }

  /** `removeRangeFromContentState(contentState, selectionState)`. */
  function RemoveRangeFromContentState(cs: ContentState, sel: Selection): (r: ContentState)
    requires !IsCollapsed(sel) ==> Resolves(cs.blocks, sel)
    ensures IsCollapsed(sel) ==> r == cs
    ensures !IsCollapsed(sel) ==> r.selectionBefore == sel
  {
    if IsCollapsed(sel) then cs
    else
      var blocks := cs.blocks;
      var startKey, startOffset := StartKey(sel).name, StartOffset(sel);
      var endKey, endOffset := EndKey(sel).name, EndOffset(sel);
      var startBlock := blocks[StartIndex(blocks, sel)];
      var endBlock := blocks[EndIndex(blocks, sel)];
      var removeWholeAtomicBlock := RemovesAtomicBlock(blocks, sel);
      var modifiedStart :=
        ModifiedStart(startBlock, endBlock, StartKey(sel) == EndKey(sel), removeWholeAtomicBlock, startOffset, endOffset);
      var newBlocks := RangeUpdates(blocks, startKey, endKey, modifiedStart);
      var selectionAfter :=
        if removeWholeAtomicBlock then AtomicRemovalCaret(blocks, startKey)
        else sel.(
          anchorKey := KeyName(startKey), anchorOffset := startOffset,
          focusKey := KeyName(startKey), focusOffset := startOffset,
          isBackward := false);
      ContentState(Present(Merge(Entries(blocks), newBlocks)), sel, selectionAfter)
  }

  /** The block that replaces the span: the start block's head joined to the end block's tail. */
  function Joined(first: Block, last: Block, startOffset: nat, endOffset: nat): Block
    requires startOffset <= |first.text| && endOffset <= |last.text|
  {
    first.(
      text := first.text[..startOffset] + last.text[endOffset..],
      chars := Take(first.chars, startOffset) + Drop(last.chars, endOffset))
  }

  /** What the deletion leaves in place of blocks `StartIndex..EndIndex`. */
  function Replacement(blocks: seq<Block>, sel: Selection): seq<Block>
    requires Normalized(blocks, sel)
  {
    if RemovesAtomicBlock(blocks, sel) then []
    else [Joined(blocks[StartIndex(blocks, sel)], blocks[EndIndex(blocks, sel)], StartOffset(sel), EndOffset(sel))]
  }

  // ---------------------------------------------------------------------------
  // The keyed-sequence surgery, step by step.
  // ---------------------------------------------------------------------------

  /** `newBlocks` holds exactly the keys of blocks `i..j`, in order; only the first maps to a block. */
  lemma {:induction false} RangeUpdatesShape(blocks: seq<Block>, i: nat, j: nat, modifiedStart: Option<Block>)
    requires UniqueKeys(blocks) && i <= j < |blocks|
    ensures var u := RangeUpdates(blocks, blocks[i].key, blocks[j].key, modifiedStart);
      && |u| == j - i + 1
      && forall q :: 0 <= q < |u| ==>
           u[q] == Entry(blocks[i + q].key, if q == 0 then modifiedStart else None)
  {
    var startKey, endKey := blocks[i].key, blocks[j].key;
    assert FirstMatch(blocks, KeyIs(startKey), i);
    SkipUntilAt(blocks, KeyIs(startKey), i);
    var tail := blocks[i..];
    assert FirstMatch(tail, KeyIs(endKey), j - i) by {
      forall q | 0 <= q < j - i ensures !KeyIs(endKey)(tail[q]) {
        assert tail[q] == blocks[i + q];
      }
    }
    TakeUntilAt(tail, KeyIs(endKey), j - i);
  }

  /** Looking a block's key up in `newBlocks`: only keys of blocks `i..j` are there. */
  lemma LookupUpdate(blocks: seq<Block>, i: nat, j: nat, u: seq<Entry>, modifiedStart: Option<Block>, p: nat)
    requires UniqueKeys(blocks) && i <= j < |blocks| && p < |blocks|
    requires |u| == j - i + 1
    requires forall q :: 0 <= q < |u| ==> u[q] == Entry(blocks[i + q].key, if q == 0 then modifiedStart else None)
    ensures Lookup(u, blocks[p].key) ==
      (if i <= p <= j then Some(if p == i then modifiedStart else None) else None)
  {
    var k := blocks[p].key;
    if i <= p <= j {
      assert u[p - i].key == k;
    }
    match EntryIndex(u, k)
    case Some(x) =>
      assert u[x].key == blocks[i + x].key;
      assert i + x == p;
    case None =>
  }

  /** Merging `newBlocks` into the map, position by position. */
  lemma MergedEntries(blocks: seq<Block>, i: nat, j: nat, modifiedStart: Option<Block>)
    requires UniqueKeys(blocks) && i <= j < |blocks|
    ensures var m := Merge(Entries(blocks), RangeUpdates(blocks, blocks[i].key, blocks[j].key, modifiedStart));
      && |m| == |blocks|
      && forall p :: 0 <= p < |blocks| ==>
           m[p] == Entry(blocks[p].key,
             if p < i || j < p then Some(blocks[p]) else if p == i then modifiedStart else None)
  {
    var u := RangeUpdates(blocks, blocks[i].key, blocks[j].key, modifiedStart);
    RangeUpdatesShape(blocks, i, j, modifiedStart);
    var e := Entries(blocks);
    assert DistinctKeys(e) by {
      forall p, q | 0 <= p < q < |e| ensures e[p].key != e[q].key {
        assert e[p].key == blocks[p].key && e[q].key == blocks[q].key;
      }
    }
    assert DistinctKeys(u) by {
      forall p, q | 0 <= p < q < |u| ensures u[p].key != u[q].key {
        assert u[p].key == blocks[i + p].key && u[q].key == blocks[i + q].key;
      }
    }
    assert KeysWithin(u, e) by {
      forall q | 0 <= q < |u| ensures EntryIndex(e, u[q].key).Some? {
        assert e[i + q].key == u[q].key;
      }
    }
    MergeInPlace(e, u);
    var m := Merge(e, u);
    forall p | 0 <= p < |blocks|
      ensures m[p] == Entry(blocks[p].key,
        if p < i || j < p then Some(blocks[p]) else if p == i then modifiedStart else None)
    {
      LookupUpdate(blocks, i, j, u, modifiedStart, p);
      assert e[p] == Entry(blocks[p].key, Some(blocks[p]));
    }
  }

  /** The blocks that survive the filter. */
  lemma RangeRemoved(blocks: seq<Block>, i: nat, j: nat, modifiedStart: Option<Block>)
    requires UniqueKeys(blocks) && i <= j < |blocks|
    ensures Present(Merge(Entries(blocks), RangeUpdates(blocks, blocks[i].key, blocks[j].key, modifiedStart)))
         == blocks[..i] + ToSeq(modifiedStart) + blocks[j + 1..]
  {
    MergedEntries(blocks, i, j, modifiedStart);
    PresentNulledSpan(Merge(Entries(blocks), RangeUpdates(blocks, blocks[i].key, blocks[j].key, modifiedStart)),
      blocks, i, j, modifiedStart);
  }

  /** Filtering a map whose span `i..j` was nulled out apart from position `i`. */
  lemma {:induction false} PresentNulledSpan(m: seq<Entry>, blocks: seq<Block>, i: nat, j: nat, modifiedStart: Option<Block>)
    requires i <= j < |blocks| && |m| == |blocks|
    requires forall p :: 0 <= p < |blocks| ==>
      m[p] == Entry(blocks[p].key,
        if p < i || j < p then Some(blocks[p]) else if p == i then modifiedStart else None)
    ensures Present(m) == blocks[..i] + ToSeq(modifiedStart) + blocks[j + 1..]
  {
    var head, start, nulls, tail := m[..i], m[i..i + 1], m[i + 1..j + 1], m[j + 1..];
    assert m == head + start + nulls + tail;
    assert head == Entries(blocks[..i]) by {
      forall p | 0 <= p < i ensures head[p] == Entries(blocks[..i])[p] {
        assert head[p] == m[p];
      }
    }
    assert tail == Entries(blocks[j + 1..]) by {
      forall p | 0 <= p < |tail| ensures tail[p] == Entries(blocks[j + 1..])[p] {
        assert tail[p] == m[j + 1 + p];
      }
    }
    assert start == [Entry(blocks[i].key, modifiedStart)];
    assert forall p :: 0 <= p < |nulls| ==> nulls[p] == m[i + 1 + p];
    PresentAround(head, start, nulls, tail);
    PresentEntries(blocks[..i]);
    PresentEntries(blocks[j + 1..]);
    assert Present(start) == ToSeq(modifiedStart) by {
      assert start[1..] == [];
    }
  }

  /** Filtering drops a run of nulls and keeps what surrounds it. */
  lemma PresentAround(head: seq<Entry>, start: seq<Entry>, nulls: seq<Entry>, tail: seq<Entry>)
    requires forall p :: 0 <= p < |nulls| ==> nulls[p].value.None?
    ensures Present(head + start + nulls + tail) == Present(head) + Present(start) + Present(tail)
  {
    PresentAllNull(nulls);
    PresentAppend(head + start + nulls, tail);
    PresentAppend(head + start, nulls);
    PresentAppend(head, start);
    assert Present(head + start) + [] == Present(head + start);
  }

  // ---------------------------------------------------------------------------
  // Properties of the deletion.
  // ---------------------------------------------------------------------------

  /** `r` is `blocks` with positions `i..j` replaced by `mid`. */
  predicate SplicedParts(blocks: seq<Block>, i: nat, j: nat, mid: seq<Block>, r: seq<Block>)
    requires i <= j < |blocks|
  {
    r == blocks[..i] + mid + blocks[j + 1..]
  }

  /** `r` is what the deletion leaves: the span `StartIndex..EndIndex` replaced by `Replacement`. */
  predicate Spliced(blocks: seq<Block>, sel: Selection, r: seq<Block>)
    requires Normalized(blocks, sel)
  {
    SplicedParts(blocks, StartIndex(blocks, sel), EndIndex(blocks, sel), Replacement(blocks, sel), r)
  }

  /**
   * The resulting block map: the blocks before the start, then the joined
   * block (none when an atomic block is removed), then the blocks after the
   * end, all in their original order.
   */
  lemma RemoveRangeBlocks(cs: ContentState, sel: Selection)
    requires Normalized(cs.blocks, sel)
    ensures Spliced(cs.blocks, sel, RemoveRangeFromContentState(cs, sel).blocks)
  {
    RemoveRangeUnfold(cs, sel);
    MergedIsSpliced(cs.blocks, sel, RemoveRangeFromContentState(cs, sel).blocks);
  }

  /** `r` is `blocks` with the keys of positions `i..j` merged in as updates, then the nulls filtered out. */
  predicate MergedParts(blocks: seq<Block>, i: nat, j: nat, modifiedStart: Option<Block>, r: seq<Block>)
    requires i <= j < |blocks|
  {
    r == Present(Merge(Entries(blocks), RangeUpdates(blocks, blocks[i].key, blocks[j].key, modifiedStart)))
  }

  /** `r` is the map the deletion computes from `blocks` and `sel`. */
  predicate MergedFrom(blocks: seq<Block>, sel: Selection, r: seq<Block>)
    requires Normalized(blocks, sel)
  {
    var i, j := StartIndex(blocks, sel), EndIndex(blocks, sel);
    MergedParts(blocks, i, j,
      ModifiedStart(blocks[i], blocks[j], StartKey(sel) == EndKey(sel), RemovesAtomicBlock(blocks, sel),
                    StartOffset(sel), EndOffset(sel)), r)
  }

  lemma RemoveRangeUnfold(cs: ContentState, sel: Selection)
    requires Normalized(cs.blocks, sel)
    ensures MergedFrom(cs.blocks, sel, RemoveRangeFromContentState(cs, sel).blocks)
  {
  }

  lemma MergedIsSpliced(blocks: seq<Block>, sel: Selection, r: seq<Block>)
    requires Normalized(blocks, sel) && MergedFrom(blocks, sel, r)
    ensures Spliced(blocks, sel, r)
  {
    var i, j := StartIndex(blocks, sel), EndIndex(blocks, sel);
    var modifiedStart :=
      ModifiedStart(blocks[i], blocks[j], StartKey(sel) == EndKey(sel), RemovesAtomicBlock(blocks, sel),
                    StartOffset(sel), EndOffset(sel));
    MergedAround(blocks, i, j, modifiedStart, r);
    ModifiedStartReplaces(blocks, sel);
  }

  lemma MergedAround(blocks: seq<Block>, i: nat, j: nat, modifiedStart: Option<Block>, r: seq<Block>)
    requires UniqueKeys(blocks) && i <= j < |blocks| && MergedParts(blocks, i, j, modifiedStart, r)
    ensures SplicedParts(blocks, i, j, ToSeq(modifiedStart), r)
  {
    RangeRemoved(blocks, i, j, modifiedStart);
  }

  /** The modified start block is what replaces the span. */
  lemma ModifiedStartReplaces(blocks: seq<Block>, sel: Selection)
    requires Normalized(blocks, sel)
    ensures var i, j := StartIndex(blocks, sel), EndIndex(blocks, sel);
      ToSeq(ModifiedStart(blocks[i], blocks[j], StartKey(sel) == EndKey(sel), RemovesAtomicBlock(blocks, sel),
                          StartOffset(sel), EndOffset(sel)))
        == Replacement(blocks, sel)
  {
    var i, j := StartIndex(blocks, sel), EndIndex(blocks, sel);
    var so, eo := StartOffset(sel), EndOffset(sel);
    assert StartKey(sel) == EndKey(sel) ==> i == j;
    assert StartKey(sel) == EndKey(sel) ==>
      RemoveFromList(blocks[i].chars, so, eo) == Take(blocks[i].chars, so) + Drop(blocks[j].chars, eo);
  }

  /** Positions before `i` are kept as they are; positions after `j` are kept, shifted by the span. */
  predicate KeptAround(blocks: seq<Block>, i: nat, j: nat, kept: nat, r: seq<Block>)
    requires i <= j < |blocks|
  {
    && |r| == |blocks| - (j - i + 1) + kept
    && (forall p :: 0 <= p < i ==> r[p] == blocks[p])
    && (forall p :: j < p < |blocks| ==> r[p - (j - i + 1) + kept] == blocks[p])
  }

  /**
   * Blocks before the start and after the end are kept unchanged, in order;
   * one block stands in for the span unless an atomic block is removed.
   */
  predicate KeepsOutside(blocks: seq<Block>, sel: Selection, r: seq<Block>)
    requires Normalized(blocks, sel)
  {
    KeptAround(blocks, StartIndex(blocks, sel), EndIndex(blocks, sel),
               if RemovesAtomicBlock(blocks, sel) then 0 else 1, r)
  }

  lemma RemoveRangeKeepsOutside(cs: ContentState, sel: Selection)
    requires Normalized(cs.blocks, sel)
    ensures KeepsOutside(cs.blocks, sel, RemoveRangeFromContentState(cs, sel).blocks)
  {
    RemoveRangeBlocks(cs, sel);
    SplicedKeepsOutside(cs.blocks, sel, RemoveRangeFromContentState(cs, sel).blocks);
  }

  lemma SplicedKeepsOutside(blocks: seq<Block>, sel: Selection, r: seq<Block>)
    requires Normalized(blocks, sel) && Spliced(blocks, sel, r)
    ensures KeepsOutside(blocks, sel, r)
  {
    var mid := Replacement(blocks, sel);
    assert |mid| == if RemovesAtomicBlock(blocks, sel) then 0 else 1;
    SplicedPartsKept(blocks, StartIndex(blocks, sel), EndIndex(blocks, sel), mid, r);
  }

  lemma SplicedPartsKept(blocks: seq<Block>, i: nat, j: nat, mid: seq<Block>, r: seq<Block>)
    requires i <= j < |blocks| && SplicedParts(blocks, i, j, mid, r)
    ensures KeptAround(blocks, i, j, |mid|, r)
  {
    SpliceIndices(blocks, i, j, mid, r);
  }

  /** Positions in `s[..i] + mid + s[j + 1..]` of the elements outside `i..j`. */
  lemma SpliceIndices<T>(s: seq<T>, i: nat, j: nat, mid: seq<T>, r: seq<T>)
    requires i <= j < |s| && r == s[..i] + mid + s[j + 1..]
    ensures |r| == |s| - (j - i + 1) + |mid|
    ensures forall p :: 0 <= p < i ==> r[p] == s[p]
    ensures forall p :: j < p < |s| ==> r[p - (j - i + 1) + |mid|] == s[p]
  {
    forall p | j < p < |s| ensures r[p - (j - i + 1) + |mid|] == s[p] {
      assert r[p - (j - i + 1) + |mid|] == s[j + 1..][p - (j + 1)];
    }
  }

  /**
   * Unless an atomic block is removed, the start block's key, type, depth
   * and data survive at the start position, holding the start block's text
   * before the start offset followed by the end block's text from the end
   * offset, and the matching character metadata.
   */
  predicate JoinsEnds(blocks: seq<Block>, sel: Selection, r: seq<Block>)
    requires Normalized(blocks, sel)
  {
    var i, j := StartIndex(blocks, sel), EndIndex(blocks, sel);
    var first, last := blocks[i], blocks[j];
    && i < |r|
    && r[i].key == first.key && r[i].blockType == first.blockType
    && r[i].depth == first.depth && r[i].data == first.data
    && r[i].text == first.text[..StartOffset(sel)] + last.text[EndOffset(sel)..]
    && (WellFormed(first) && WellFormed(last) ==>
          r[i].chars == first.chars[..StartOffset(sel)] + last.chars[EndOffset(sel)..])
  }

  lemma RemoveRangeJoinsEnds(cs: ContentState, sel: Selection)
    requires Normalized(cs.blocks, sel) && !RemovesAtomicBlock(cs.blocks, sel)
    ensures JoinsEnds(cs.blocks, sel, RemoveRangeFromContentState(cs, sel).blocks)
  {
    RemoveRangeBlocks(cs, sel);
    SplicedJoinsEnds(cs.blocks, sel, RemoveRangeFromContentState(cs, sel).blocks);
  }

  lemma SplicedJoinsEnds(blocks: seq<Block>, sel: Selection, r: seq<Block>)
    requires Normalized(blocks, sel) && !RemovesAtomicBlock(blocks, sel) && Spliced(blocks, sel, r)
    ensures JoinsEnds(blocks, sel, r)
  {
    assert r[StartIndex(blocks, sel)] == Replacement(blocks, sel)[0];
  }

  /**
   * Within one block the text loses exactly `[startOffset, endOffset)` and the
   * metadata list is cut by `removeFromList`.
   */
  predicate CutWithinBlock(blocks: seq<Block>, sel: Selection, r: seq<Block>)
    requires Normalized(blocks, sel) && StartKey(sel) == EndKey(sel)
  {
    var i := StartIndex(blocks, sel);
    var b := blocks[i];
    && |r| == |blocks|
    && r[i] == b.(text := b.text[..StartOffset(sel)] + b.text[EndOffset(sel)..],
                  chars := RemoveFromList(b.chars, StartOffset(sel), EndOffset(sel)))
    && |r[i].text| == |b.text| - (EndOffset(sel) - StartOffset(sel))
  }

  lemma RemoveRangeWithinBlock(cs: ContentState, sel: Selection)
    requires Normalized(cs.blocks, sel) && StartKey(sel) == EndKey(sel)
    requires cs.blocks[StartIndex(cs.blocks, sel)].blockType != Atomic
    ensures CutWithinBlock(cs.blocks, sel, RemoveRangeFromContentState(cs, sel).blocks)
  {
    RemoveRangeBlocks(cs, sel);
    SplicedWithinBlock(cs.blocks, sel, RemoveRangeFromContentState(cs, sel).blocks);
  }

  lemma SplicedWithinBlock(blocks: seq<Block>, sel: Selection, r: seq<Block>)
    requires Normalized(blocks, sel) && StartKey(sel) == EndKey(sel)
    requires blocks[StartIndex(blocks, sel)].blockType != Atomic
    requires Spliced(blocks, sel, r)
    ensures CutWithinBlock(blocks, sel, r)
  {
    var i := StartIndex(blocks, sel);
    assert EndIndex(blocks, sel) == i;
    assert r[i] == Replacement(blocks, sel)[0];
  }

  /**
   * The span's blocks are gone: every block after the start up to and
   * including the end, and the start block itself when it is an atomic
   * block removed whole. The start key stays otherwise, and keys stay distinct.
   */
  predicate DropsSpan(blocks: seq<Block>, sel: Selection, r: seq<Block>)
    requires Normalized(blocks, sel)
  {
    var i, j := StartIndex(blocks, sel), EndIndex(blocks, sel);
    && (forall q :: i < q <= j ==> !HasKey(r, blocks[q].key))
    && (HasKey(r, blocks[i].key) <==> !RemovesAtomicBlock(blocks, sel))
    && UniqueKeys(r)
  }

  lemma RemoveRangeDropsSpan(cs: ContentState, sel: Selection)
    requires Normalized(cs.blocks, sel)
    ensures DropsSpan(cs.blocks, sel, RemoveRangeFromContentState(cs, sel).blocks)
  {
    RemoveRangeBlocks(cs, sel);
    SplicedDropsSpan(cs.blocks, sel, RemoveRangeFromContentState(cs, sel).blocks);
  }

  lemma SplicedDropsSpan(blocks: seq<Block>, sel: Selection, r: seq<Block>)
    requires Normalized(blocks, sel) && Spliced(blocks, sel, r)
    ensures DropsSpan(blocks, sel, r)
  {
    SplicedKeys(blocks, StartIndex(blocks, sel), EndIndex(blocks, sel), Replacement(blocks, sel));
  }

  /** Where position `p` of `blocks[..i] + mid + blocks[j + 1..]` came from. */
  function Origin(i: nat, j: nat, kept: nat, p: nat): nat
  {
    if p < i then p else if p < i + kept then i else p - kept + (j - i + 1)
  }

  lemma SplicedAt(blocks: seq<Block>, i: nat, j: nat, mid: seq<Block>, p: nat)
    requires i <= j < |blocks| && |mid| <= 1 && (|mid| == 1 ==> mid[0].key == blocks[i].key)
    requires p < |blocks[..i] + mid + blocks[j + 1..]|
    ensures Origin(i, j, |mid|, p) < |blocks|
    ensures (blocks[..i] + mid + blocks[j + 1..])[p].key == blocks[Origin(i, j, |mid|, p)].key
  {
  }

  lemma SplicedKeys(blocks: seq<Block>, i: nat, j: nat, mid: seq<Block>)
    requires UniqueKeys(blocks) && i <= j < |blocks|
    requires |mid| <= 1 && (|mid| == 1 ==> mid[0].key == blocks[i].key)
    ensures var r := blocks[..i] + mid + blocks[j + 1..];
      && (forall q :: i < q <= j ==> !HasKey(r, blocks[q].key))
      && (HasKey(r, blocks[i].key) <==> |mid| == 1)
      && UniqueKeys(r)
  {
    var r := blocks[..i] + mid + blocks[j + 1..];
    var kept := |mid|;
    forall q | i < q <= j ensures !HasKey(r, blocks[q].key) {
      if HasKey(r, blocks[q].key) {
        var p := IndexOf(r, blocks[q].key);
        SplicedAt(blocks, i, j, mid, p);
      }
    }
    if kept == 0 && HasKey(r, blocks[i].key) {
      var p := IndexOf(r, blocks[i].key);
      SplicedAt(blocks, i, j, mid, p);
    }
    if kept == 1 {
      SplicedAt(blocks, i, j, mid, i);
      HasKeyAt(r, i);
    }
    forall p, p' | 0 <= p < p' < |r| ensures r[p].key != r[p'].key {
      SplicedAt(blocks, i, j, mid, p);
      SplicedAt(blocks, i, j, mid, p');
    }
  }

  /** If every block has one metadata entry per character, so does every block afterwards. */
  lemma RemoveRangeWellFormed(cs: ContentState, sel: Selection)
    requires !IsCollapsed(sel) ==> Normalized(cs.blocks, sel)
    requires AllWellFormed(cs.blocks)
    ensures AllWellFormed(RemoveRangeFromContentState(cs, sel).blocks)
  {
    if !IsCollapsed(sel) {
      RemoveRangeBlocks(cs, sel);
      SplicedWellFormed(cs.blocks, sel, RemoveRangeFromContentState(cs, sel).blocks);
    }
  }

  lemma SplicedWellFormed(blocks: seq<Block>, sel: Selection, r: seq<Block>)
    requires Normalized(blocks, sel) && AllWellFormed(blocks) && Spliced(blocks, sel, r)
    ensures AllWellFormed(r)
  {
    var i, j := StartIndex(blocks, sel), EndIndex(blocks, sel);
    if !RemovesAtomicBlock(blocks, sel) {
      JoinedWellFormed(blocks[i], blocks[j], StartOffset(sel), EndOffset(sel));
    }
    var kept := |Replacement(blocks, sel)|;
    forall p | 0 <= p < |r| ensures WellFormed(r[p]) {
      if p < i {
        assert r[p] == blocks[p];
      } else if p >= i + kept {
        assert r[p] == blocks[p - kept + (j - i + 1)];
      }
    }
  }

  /** Joining two well-formed blocks at in-range offsets gives a well-formed block. */
  lemma JoinedWellFormed(first: Block, last: Block, startOffset: nat, endOffset: nat)
    requires startOffset <= |first.text| && endOffset <= |last.text|
    requires WellFormed(first) && WellFormed(last)
    ensures WellFormed(Joined(first, last, startOffset, endOffset))
    ensures |Joined(first, last, startOffset, endOffset).text| == startOffset + |last.text| - endOffset
  {
  }

  /**
   * The recorded selections: `selectionBefore` is the input selection, and
   * unless an atomic block is removed `selectionAfter` is the input selection
   * collapsed, forwards, at the start position.
   */
  lemma RemoveRangeSelections(cs: ContentState, sel: Selection)
    requires !IsCollapsed(sel) && Resolves(cs.blocks, sel) && !RemovesAtomicBlock(cs.blocks, sel)
    ensures var r := RemoveRangeFromContentState(cs, sel);
      && r.selectionBefore == sel
      && IsCollapsed(r.selectionAfter) && !r.selectionAfter.isBackward
      && StartKey(r.selectionAfter) == StartKey(sel)
      && StartOffset(r.selectionAfter) == StartOffset(sel)
      && r.selectionAfter.hasFocus == sel.hasFocus
  {
  }

  // ---------------------------------------------------------------------------
  // The caret after an atomic block is removed.
  // ---------------------------------------------------------------------------

  /** A backward scan: the nearest position before `i` holding a non-atomic block. */
  function LastNonAtomicBefore(blocks: seq<Block>, i: nat): (r: Option<nat>)
    requires i <= |blocks|
    ensures r.None? <==> forall q :: 0 <= q < i ==> blocks[q].blockType == Atomic
    ensures r.Some? ==> r.value < i && blocks[r.value].blockType != Atomic
    ensures r.Some? ==> forall q :: r.value < q < i ==> blocks[q].blockType == Atomic
  {
    if i == 0 then None
    else if blocks[i - 1].blockType != Atomic then Some(i - 1)
    else LastNonAtomicBefore(blocks, i - 1)
  }

  /**
   * The reversed-map pipeline finds the nearest non-atomic block before the
   * start block, skipping every atomic block in between.
   */
  lemma BlockBeforeIsNearest(blocks: seq<Block>, i: nat)
    requires UniqueKeys(blocks) && i < |blocks|
    ensures BlockBefore(blocks, blocks[i].key) ==
      (match LastNonAtomicBefore(blocks, i)
       case Some(p) => Some(blocks[p])
       case None => None)
  {
    var before := Drop(SkipUntil(Reverse(blocks), KeyIs(blocks[i].key)), 1);
    ReversedPrefix(blocks, i);
    FirstNonAtomic(blocks, i, before);
  }

  /** Reversing the map and skipping past the start block leaves the blocks before it, nearest first. */
  lemma ReversedPrefix(blocks: seq<Block>, i: nat)
    requires UniqueKeys(blocks) && i < |blocks|
    ensures var before := Drop(SkipUntil(Reverse(blocks), KeyIs(blocks[i].key)), 1);
      |before| == i && forall q :: 0 <= q < i ==> before[q] == blocks[i - 1 - q]
  {
    SkipToStartKey(blocks, i);
    ReverseTail(blocks, i);
  }

  /** In the reversed map, the first block under the start key is the start block itself. */
  lemma SkipToStartKey(blocks: seq<Block>, i: nat)
    requires UniqueKeys(blocks) && i < |blocks|
    ensures SkipUntil(Reverse(blocks), KeyIs(blocks[i].key)) == Reverse(blocks)[|blocks| - 1 - i..]
  {
    var rev := Reverse(blocks);
    ReversedFirstMatch(blocks, rev, i);
    SkipUntilAt(rev, KeyIs(blocks[i].key), |blocks| - 1 - i);
  }

  lemma ReversedFirstMatch(blocks: seq<Block>, rev: seq<Block>, i: nat)
    requires UniqueKeys(blocks) && i < |blocks| && |rev| == |blocks|
    requires forall q :: 0 <= q < |rev| ==> rev[q] == blocks[|blocks| - 1 - q]
    ensures FirstMatch(rev, KeyIs(blocks[i].key), |blocks| - 1 - i)
  {
    var n := |blocks|;
    var p := KeyIs(blocks[i].key);
    assert rev[n - 1 - i] == blocks[i];
    forall q | 0 <= q < n - 1 - i ensures !p(rev[q]) {
      assert rev[q] == blocks[n - 1 - q];
      assert blocks[i].key != blocks[n - 1 - q].key;
    }
  }

  /** Past position `i` of a reversed sequence come the elements before `i`, nearest first. */
  lemma ReverseTail<T>(s: seq<T>, i: nat)
    requires i < |s|
    ensures var before := Drop(Reverse(s)[|s| - 1 - i..], 1);
      |before| == i && forall q :: 0 <= q < i ==> before[q] == s[i - 1 - q]
  {
    var rev := Reverse(s);
    var before := Drop(rev[|s| - 1 - i..], 1);
    assert before == rev[|s| - i..];
    forall q | 0 <= q < i ensures before[q] == s[i - 1 - q] {
      assert before[q] == rev[|s| - i + q];
    }
  }

  /** Skipping atomic blocks from the nearest one backwards finds the last non-atomic block. */
  lemma FirstNonAtomic(blocks: seq<Block>, i: nat, before: seq<Block>)
    requires i <= |blocks| && |before| == i
    requires forall q :: 0 <= q < i ==> before[q] == blocks[i - 1 - q]
    ensures First(SkipUntil(before, NotAtomic)) ==
      (match LastNonAtomicBefore(blocks, i)
       case Some(p) => Some(blocks[p])
       case None => None)
  {
    match LastNonAtomicBefore(blocks, i)
    case Some(p) =>
      assert FirstMatch(before, NotAtomic, i - 1 - p) by {
        forall q | 0 <= q < i - 1 - p ensures !NotAtomic(before[q]) {
          assert before[q] == blocks[i - 1 - q];
        }
      }
      SkipUntilAt(before, NotAtomic, i - 1 - p);
    case None =>
      assert forall q :: 0 <= q < |before| ==> !NotAtomic(before[q]);
      SkipUntilNone(before, NotAtomic);
  }

  /**
   * After an atomic block is removed the caret is collapsed, forwards and
   * unfocused, at the end of the nearest non-atomic block before it; with no
   * such block the selection is built around the original first block.
   */
  lemma RemoveRangeAtomicCaret(cs: ContentState, sel: Selection)
    requires Normalized(cs.blocks, sel) && RemovesAtomicBlock(cs.blocks, sel)
    ensures var after := RemoveRangeFromContentState(cs, sel).selectionAfter;
      var i := StartIndex(cs.blocks, sel);
      && IsCollapsed(after) && !after.isBackward && !after.hasFocus
      && (match LastNonAtomicBefore(cs.blocks, i)
          case Some(p) =>
            StartKey(after) == KeyName(cs.blocks[p].key) && StartOffset(after) == |cs.blocks[p].text|
          case None =>
            StartKey(after) == BlockObject(cs.blocks[0]) && StartOffset(after) == 0)
  {
    BlockBeforeIsNearest(cs.blocks, StartIndex(cs.blocks, sel));
  }

  // ---------------------------------------------------------------------------
  // Worked examples.
  // ---------------------------------------------------------------------------

  /** Deleting " world" from "hello world" leaves "hello" and the first five metadata entries. */
  lemma DeleteWithinBlockExample(m: seq<Meta>, d: BlockData, sel: Selection)
    requires |m| == 11
    requires sel == Selection(KeyName("a"), 5, KeyName("a"), 11, false, true)
    ensures var cs := ContentState([Block("a", "unstyled", "hello world", m, 0, d)], sel, sel);
      var r := RemoveRangeFromContentState(cs, sel);
      && r.blocks == [Block("a", "unstyled", "hello", m[..5], 0, d)]
      && r.selectionAfter == Selection(KeyName("a"), 5, KeyName("a"), 5, false, true)
  {
    var cs := ContentState([Block("a", "unstyled", "hello world", m, 0, d)], sel, sel);
    RemoveRangeBlocks(cs, sel);
    assert "hello world"[..5] + "hello world"[11..] == "hello";
  }

  /** Deleting from ("one", 1) to ("two2", 2) over "foo" and "bar" leaves one block "one" holding "fr". */
  lemma DeleteAcrossBlocksExample(ma: seq<Meta>, mb: seq<Meta>, d: BlockData, sel: Selection)
    requires |ma| == 3 && |mb| == 3
    requires sel == Selection(KeyName("one"), 1, KeyName("two2"), 2, false, true)
    ensures Resolves([Block("one", "unstyled", "foo", ma, 0, d), Block("two2", "unstyled", "bar", mb, 0, d)], sel)
    ensures var cs := ContentState([Block("one", "unstyled", "foo", ma, 0, d), Block("two2", "unstyled", "bar", mb, 0, d)], sel, sel);
      var r := RemoveRangeFromContentState(cs, sel);
      && r.blocks == [Block("one", "unstyled", "fr", ma[..1] + mb[2..], 0, d)]
      && r.selectionAfter == Selection(KeyName("one"), 1, KeyName("one"), 1, false, true)
  {
    var blocks := [Block("one", "unstyled", "foo", ma, 0, d), Block("two2", "unstyled", "bar", mb, 0, d)];
    var cs := ContentState(blocks, sel, sel);
    HasKeyAt(blocks, 1);
    assert IndexOf(blocks, "two2") == 1;
    RemoveRangeBlocks(cs, sel);
    assert "foo"[..1] + "bar"[2..] == "fr";
  }

  /**
   * Removing an atomic block that follows a text block puts the caret,
   * without focus, at the end of the text block.
   */
  lemma DeleteAtomicAfterTextExample(mx: seq<Meta>, ma: seq<Meta>, d: BlockData, sel: Selection)
    requires sel == Selection(KeyName("atom"), 0, KeyName("atom"), 1, false, true)
    ensures Resolves([Block("x", "unstyled", "hi", mx, 0, d), Block("atom", Atomic, " ", ma, 0, d)], sel)
    ensures var x, a := Block("x", "unstyled", "hi", mx, 0, d), Block("atom", Atomic, " ", ma, 0, d);
      var r := RemoveRangeFromContentState(ContentState([x, a], sel, sel), sel);
      r.blocks == [x] && r.selectionAfter == Selection(KeyName("x"), 2, KeyName("x"), 2, false, false)
  {
    var x, a := Block("x", "unstyled", "hi", mx, 0, d), Block("atom", Atomic, " ", ma, 0, d);
    var cs := ContentState([x, a], sel, sel);
    HasKeyAt([x, a], 1);
    assert IndexOf([x, a], "atom") == 1;
    RemoveRangeBlocks(cs, sel);
    RemoveRangeAtomicCaret(cs, sel);
  }

  /**
   * Removing a leading atomic block leaves nothing before it to take the
   * caret: the selection is created from the first block of the original map.
   */
  lemma DeleteLeadingAtomicExample(mx: seq<Meta>, ma: seq<Meta>, d: BlockData, sel: Selection)
    requires sel == Selection(KeyName("atom"), 0, KeyName("atom"), 1, false, true)
    ensures var x, a := Block("x", "unstyled", "hi", mx, 0, d), Block("atom", Atomic, " ", ma, 0, d);
      var r := RemoveRangeFromContentState(ContentState([a, x], sel, sel), sel);
      r.blocks == [x] && r.selectionAfter == CreateEmpty(BlockObject(a))
  {
    var x, a := Block("x", "unstyled", "hi", mx, 0, d), Block("atom", Atomic, " ", ma, 0, d);
    var cs := ContentState([a, x], sel, sel);
    RemoveRangeBlocks(cs, sel);
    RemoveRangeAtomicCaret(cs, sel);
  }
}

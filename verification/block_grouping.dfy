/**
 * The grouping pass of `DraftEditorContents.render`: contiguous runs of
 * blocks sharing one wrapper template become one wrapper element; blocks
 * without a template are emitted on their own. One offset key is recorded
 * per output element.
 */
module BlockGrouping {
  import opened Nullable
  import opened ContentModel
  import opened BlockRender

  const WrapSuffix: string := "-wrap"

  /** An element of `outputBlocks`. */
  datatype Output =
    | Bare(node: BlockNode)
    | Wrapper(template: TemplateId, key: string, offsetKey: string, children: seq<BlockNode>)

  /** How many blocks an output element holds. */
  function Size(o: Output): nat
  {
    match o
    case Bare(_) => 1
    case Wrapper(_, _, _, children) => |children|
  }

  /** The block nodes an output element holds, in order. */
  function Contents(o: Output): seq<BlockNode>
  {
    match o
    case Bare(node) => [node]
    case Wrapper(_, _, _, children) => children
  }

  /** How many blocks the output elements hold together. */
  function Width(out: seq<Output>): nat
  {
    if |out| == 0 then 0 else Width(out[..|out| - 1]) + Size(out[|out| - 1])
  }

  /** All block nodes of the output, element after element. */
  function Flatten(out: seq<Output>): seq<BlockNode>
  {
    if |out| == 0 then [] else Flatten(out[..|out| - 1]) + Contents(out[|out| - 1])
  }

  /** The block nodes of the processed blocks, in document order. */
  function Nodes(ps: seq<Processed>): (r: seq<BlockNode>)
    ensures |r| == |ps| && forall q :: 0 <= q < |ps| ==> r[q] == ps[q].node
  {
    seq(|ps|, q requires 0 <= q < |ps| => ps[q].node)
  }

  /**
   * Output element `o`, whose offset key entry is `offsetKey`, covers the
   * processed blocks from position `start`: a block without a template on
   * its own, or a maximal run of blocks with one template, wrapped under the
   * first block's key plus "-wrap".
   */
  ghost predicate Covers(ps: seq<Processed>, o: Output, start: nat, offsetKey: string)
  {
    && start < |ps|
    && start + Size(o) <= |ps|
    && offsetKey == ps[start].offsetKey
    && match o
       case Bare(node) =>
         ps[start].wrapper.None? && node == ps[start].node
       case Wrapper(t, key, wrapperOffsetKey, children) =>
         && |children| > 0
         && (forall q :: 0 <= q < |children| ==>
               ps[start + q].wrapper == Some(t) && children[q] == ps[start + q].node)
         && (start + |children| == |ps| || ps[start + |children|].wrapper != Some(t))
         && key == ps[start].key + WrapSuffix
         && wrapperOffsetKey == ps[start].offsetKey
  }

  /** Element `e` of `out` covers the blocks following those of the elements before it. */
  ghost predicate CoversAfterPrefix(ps: seq<Processed>, out: seq<Output>, offsetKeys: seq<string>, e: nat)
    requires e < |out| && e < |offsetKeys|
  {
    Covers(ps, out[e], Width(out[..e]), offsetKeys[e])
  }

  /** Every element of `out` covers the blocks following those of the elements before it. */
  ghost predicate GroupsPrefix(ps: seq<Processed>, out: seq<Output>, offsetKeys: seq<string>)
  {
    && |offsetKeys| == |out|
    && forall e :: 0 <= e < |out| ==> CoversAfterPrefix(ps, out, offsetKeys, e)
  }

  /** `out` and `offsetKeys` group all of `ps`, element after element. */
  ghost predicate IsGrouping(ps: seq<Processed>, out: seq<Output>, offsetKeys: seq<string>)
  {
    GroupsPrefix(ps, out, offsetKeys) && Width(out) == |ps|
  }

  /** Appending an element that covers the blocks right after the prefix extends the prefix. */
  lemma ExtendGrouping(ps: seq<Processed>, out: seq<Output>, offsetKeys: seq<string>, o: Output, offsetKey: string)
    requires GroupsPrefix(ps, out, offsetKeys) && Covers(ps, o, Width(out), offsetKey)
    ensures GroupsPrefix(ps, out + [o], offsetKeys + [offsetKey])
    ensures Width(out + [o]) == Width(out) + Size(o)
  {
    var out', keys' := out + [o], offsetKeys + [offsetKey];
    assert out'[..|out|] == out;
    forall e | 0 <= e < |out'|
      ensures CoversAfterPrefix(ps, out', keys', e)
    {
      if e < |out| {
        assert CoversAfterPrefix(ps, out, offsetKeys, e);
        assert out'[..e] == out[..e];
        assert out'[e] == out[e] && keys'[e] == offsetKeys[e];
      }
    }
  }

  /**
   * The inner `do … while` of the grouping loop: from `start`, collect the
   * nodes of the run of blocks that share `ps[start]`'s wrapper template.
   */
  method CollectRun(ps: seq<Processed>, start: nat) returns (blocks: seq<BlockNode>, next: nat)
    requires start < |ps|
    ensures start < next <= |ps|
    ensures forall q :: start <= q < next ==> ps[q].wrapper == ps[start].wrapper
    ensures next == |ps| || ps[next].wrapper != ps[start].wrapper
    ensures blocks == Nodes(ps)[start..next]
  {
    blocks := [ps[start].node];
    next := start + 1;
    while next < |ps| && ps[next].wrapper == ps[start].wrapper
      invariant start < next <= |ps|
      invariant blocks == Nodes(ps)[start..next]
      invariant forall q :: start <= q < next ==> ps[q].wrapper == ps[start].wrapper
      decreases |ps| - next
    {
      blocks := blocks + [ps[next].node];
      next := next + 1;
    }
  }

  /** A maximal run with a template, wrapped, covers its blocks. */
  lemma CoversRun(ps: seq<Processed>, start: nat, next: nat, blocks: seq<BlockNode>)
    requires start < next <= |ps| && ps[start].wrapper.Some?
    requires forall q :: start <= q < next ==> ps[q].wrapper == ps[start].wrapper
    requires next == |ps| || ps[next].wrapper != ps[start].wrapper
    requires blocks == Nodes(ps)[start..next]
    ensures Covers(ps, Wrapper(ps[start].wrapper.value, ps[start].key + WrapSuffix, ps[start].offsetKey, blocks),
                   start, ps[start].offsetKey)
  {
    assert forall q :: 0 <= q < |blocks| ==> blocks[q] == ps[start + q].node;
  }

  /** The grouping loop. */
  method GroupBlocks(ps: seq<Processed>) returns (outputBlocks: seq<Output>, offsetKeys: seq<string>)
    ensures IsGrouping(ps, outputBlocks, offsetKeys)
  {
    outputBlocks, offsetKeys := [], [];
    var ii := 0;
    while ii < |ps|
      invariant ii <= |ps|
      invariant GroupsPrefix(ps, outputBlocks, offsetKeys)
      invariant Width(outputBlocks) == ii
      decreases |ps| - ii
    {
      var info := ps[ii];
      var start := ii;
      var element;
      if info.wrapper.Some? {
        var blocks;
        blocks, ii := CollectRun(ps, start);
        CoversRun(ps, start, ii, blocks);
        element := Wrapper(info.wrapper.value, info.key + WrapSuffix, info.offsetKey, blocks);
      } else {
        element := Bare(info.node);
        ii := ii + 1;
      }
      ExtendGrouping(ps, outputBlocks, offsetKeys, element, info.offsetKey);
      outputBlocks := outputBlocks + [element];
      offsetKeys := offsetKeys + [info.offsetKey];
    }
  }

  /** Concatenating the output elements' contents gives back every block node, in order. */
  lemma {:induction false} GroupingFlattens(ps: seq<Processed>, out: seq<Output>, offsetKeys: seq<string>)
    requires IsGrouping(ps, out, offsetKeys)
    ensures Flatten(out) == Nodes(ps)
  {
    FlattenPrefix(ps, out, offsetKeys, |out|);
    assert out[..|out|] == out;
  }

  /** An element holds the nodes of the blocks it covers. */
  lemma CoversContents(ps: seq<Processed>, o: Output, start: nat, offsetKey: string)
    requires Covers(ps, o, start, offsetKey)
    ensures Contents(o) == Nodes(ps)[start..start + Size(o)]
  {
    if o.Wrapper? {
      assert forall q :: 0 <= q < Size(o) ==> Contents(o)[q] == ps[start + q].node;
    }
  }

  /** Splitting off the last element of a prefix. */
  lemma PrefixStep(out: seq<Output>, k: nat)
    requires 0 < k <= |out|
    ensures Width(out[..k]) == Width(out[..k - 1]) + Size(out[k - 1])
    ensures Flatten(out[..k]) == Flatten(out[..k - 1]) + Contents(out[k - 1])
  {
    assert out[..k][..k - 1] == out[..k - 1];
  }

  /** Element `e` of a grouping holds the nodes of the blocks right after its predecessors'. */
  lemma ElementContents(ps: seq<Processed>, out: seq<Output>, offsetKeys: seq<string>, e: nat)
    requires GroupsPrefix(ps, out, offsetKeys) && e < |out|
    ensures Width(out[..e]) + Size(out[e]) <= |ps|
    ensures Contents(out[e]) == Nodes(ps)[Width(out[..e])..Width(out[..e]) + Size(out[e])]
  {
    CoversAt(ps, out, offsetKeys, e);
    CoversContents(ps, out[e], Width(out[..e]), offsetKeys[e]);
  }

  lemma SliceJoin<T>(s: seq<T>, a: seq<T>, b: seq<T>, n: nat)
    requires n + |b| <= |s| && a == s[..n] && b == s[n..n + |b|]
    ensures a + b == s[..n + |b|]
  {
  }

  lemma {:induction false} FlattenPrefix(ps: seq<Processed>, out: seq<Output>, offsetKeys: seq<string>, k: nat)
    requires GroupsPrefix(ps, out, offsetKeys) && k <= |out|
    ensures Width(out[..k]) <= |ps|
    ensures Flatten(out[..k]) == Nodes(ps)[..Width(out[..k])]
    decreases k
  {
    if k > 0 {
      FlattenPrefix(ps, out, offsetKeys, k - 1);
      PrefixStep(out, k);
      ElementContents(ps, out, offsetKeys, k - 1);
      SliceJoin(Nodes(ps), Flatten(out[..k - 1]), Contents(out[k - 1]), Width(out[..k - 1]));
    } else {
      assert out[..0] == [];
    }
  }

  /** A run of template `t` from `start` that is cut off after `l1` blocks is no longer than `l1`. */
  lemma RunBound(ps: seq<Processed>, start: nat, t: TemplateId, l1: nat, l2: nat)
    requires start + l2 <= |ps|
    requires forall q :: start <= q < start + l2 ==> ps[q].wrapper == Some(t)
    requires start + l1 == |ps| || (start + l1 < |ps| && ps[start + l1].wrapper != Some(t))
    ensures l2 <= l1
  {
  }

  /** Two elements covering the same start are the same element. */
  lemma CoversUnique(ps: seq<Processed>, a: Output, b: Output, start: nat, ka: string, kb: string)
    requires Covers(ps, a, start, ka) && Covers(ps, b, start, kb)
    ensures a == b && ka == kb
  {
    assert a.Wrapper? ==> a.children[0] == ps[start].node && ps[start].wrapper == Some(a.template);
    assert b.Wrapper? ==> b.children[0] == ps[start].node && ps[start].wrapper == Some(b.template);
    if a.Wrapper? && b.Wrapper? {
      var t := a.template;
      assert forall q :: start <= q < start + |a.children| ==> a.children[q - start] == ps[q].node;
      assert forall q :: start <= q < start + |b.children| ==> b.children[q - start] == ps[q].node;
      RunBound(ps, start, t, |a.children|, |b.children|);
      RunBound(ps, start, t, |b.children|, |a.children|);
      assert forall q :: 0 <= q < |a.children| ==> a.children[q] == b.children[q];
    }
  }

  /** Once the elements before position `k` hold every block, there is no element at `k`. */
  lemma NothingAfterAll(ps: seq<Processed>, out: seq<Output>, offsetKeys: seq<string>, k: nat)
    requires GroupsPrefix(ps, out, offsetKeys) && k <= |out|
    requires Width(out[..k]) == |ps|
    ensures k == |out|
  {
    if k < |out| {
      CoversAt(ps, out, offsetKeys, k);
    }
  }

  /** The grouping of a block sequence is unique, so `GroupBlocks` computes THE grouping. */
  lemma {:induction false} GroupingUnique(ps: seq<Processed>, a: seq<Output>, ka: seq<string>, b: seq<Output>, kb: seq<string>)
    requires IsGrouping(ps, a, ka) && IsGrouping(ps, b, kb)
    ensures a == b && ka == kb
  {
    var n := if |a| < |b| then |a| else |b|;
    SamePrefix(ps, a, ka, b, kb, n);
    assert a[..n] == b[..n];
    assert a[..|a|] == a && b[..|b|] == b;
    NothingAfterAll(ps, a, ka, n);
    NothingAfterAll(ps, b, kb, n);
    assert a[..|a|] == a && b[..|b|] == b;
    assert ka[..|ka|] == ka && kb[..|kb|] == kb;
  }

  lemma CoversAt(ps: seq<Processed>, out: seq<Output>, offsetKeys: seq<string>, e: nat)
    requires GroupsPrefix(ps, out, offsetKeys) && e < |out|
    ensures Covers(ps, out[e], Width(out[..e]), offsetKeys[e])
  {
    assert CoversAfterPrefix(ps, out, offsetKeys, e);
  }

  lemma SameNext(ps: seq<Processed>, a: seq<Output>, ka: seq<string>, b: seq<Output>, kb: seq<string>, k: nat)
    requires 0 < k <= |a| && k <= |b| && k <= |ka| && k <= |kb|
    requires a[..k - 1] == b[..k - 1] && ka[..k - 1] == kb[..k - 1]
    requires Covers(ps, a[k - 1], Width(a[..k - 1]), ka[k - 1])
    requires Covers(ps, b[k - 1], Width(b[..k - 1]), kb[k - 1])
    ensures a[..k] == b[..k] && ka[..k] == kb[..k]
  {
    CoversUnique(ps, a[k - 1], b[k - 1], Width(a[..k - 1]), ka[k - 1], kb[k - 1]);
    assert a[..k] == a[..k - 1] + [a[k - 1]];
    assert b[..k] == b[..k - 1] + [b[k - 1]];
    assert ka[..k] == ka[..k - 1] + [ka[k - 1]];
    assert kb[..k] == kb[..k - 1] + [kb[k - 1]];
  }

  lemma {:induction false} SamePrefix(ps: seq<Processed>, a: seq<Output>, ka: seq<string>, b: seq<Output>, kb: seq<string>, k: nat)
    requires GroupsPrefix(ps, a, ka) && GroupsPrefix(ps, b, kb)
    requires k <= |a| && k <= |b|
    ensures a[..k] == b[..k] && ka[..k] == kb[..k]
    decreases k
  {
    if k > 0 {
      SamePrefix(ps, a, ka, b, kb, k - 1);
      CoversAt(ps, a, ka, k - 1);
      CoversAt(ps, b, kb, k - 1);
      SameNext(ps, a, ka, b, kb, k);
    }
  }

  /**
   * A wrapper's run is maximal on the left too: the block just before it
   * does not share its template.
   */
  lemma {:induction false} WrapperRunsAreMaximal(ps: seq<Processed>, out: seq<Output>, offsetKeys: seq<string>, e: nat)
    requires IsGrouping(ps, out, offsetKeys) && 0 < e < |out| && out[e].Wrapper?
    ensures var start := Width(out[..e]);
      0 < start <= |ps| && ps[start - 1].wrapper != Some(out[e].template)
  {
    var start := Width(out[..e]);
    var prev := out[e - 1];
    var prevStart := Width(out[..e - 1]);
    assert out[..e][..e - 1] == out[..e - 1];
    assert start == prevStart + Size(prev);
    CoversAt(ps, out, offsetKeys, e - 1);
    CoversAt(ps, out, offsetKeys, e);
    assert out[e].children[0] == ps[start].node;
    if prev.Wrapper? {
      assert prev.children[|prev.children| - 1] == ps[start - 1].node;
    }
  }

  /**
   * Templates W, W, none, W give three output elements: a wrapper holding the
   * first two blocks, the third block alone, and a second wrapper holding the
   * fourth block.
   */
  lemma GroupingExample(ps: seq<Processed>, w: TemplateId, out: seq<Output>, offsetKeys: seq<string>)
    requires |ps| == 4
    requires ps[0].wrapper == Some(w) && ps[1].wrapper == Some(w)
    requires ps[2].wrapper == None && ps[3].wrapper == Some(w)
    requires IsGrouping(ps, out, offsetKeys)
    ensures out == [
      Wrapper(w, ps[0].key + WrapSuffix, ps[0].offsetKey, [ps[0].node, ps[1].node]),
      Bare(ps[2].node),
      Wrapper(w, ps[3].key + WrapSuffix, ps[3].offsetKey, [ps[3].node])]
    ensures offsetKeys == [ps[0].offsetKey, ps[2].offsetKey, ps[3].offsetKey]
  {
    var expected := [
      Wrapper(w, ps[0].key + WrapSuffix, ps[0].offsetKey, [ps[0].node, ps[1].node]),
      Bare(ps[2].node),
      Wrapper(w, ps[3].key + WrapSuffix, ps[3].offsetKey, [ps[3].node])];
    var keys := [ps[0].offsetKey, ps[2].offsetKey, ps[3].offsetKey];
    assert expected[..0] == [];
    assert expected[..1] == [expected[0]];
    assert expected[..2] == [expected[0], expected[1]];
    assert expected[..3] == expected;
    assert [expected[0]][..0] == [];
    assert [expected[0], expected[1]][..1] == [expected[0]];
    PrefixStep(expected, 1);
    PrefixStep(expected, 2);
    PrefixStep(expected, 3);
    assert Width(expected) == 4;
    assert Covers(ps, expected[0], 0, keys[0]);
    assert Covers(ps, expected[1], 2, keys[1]);
    assert Covers(ps, expected[2], 3, keys[2]);
    assert forall e :: 0 <= e < 3 ==> CoversAfterPrefix(ps, expected, keys, e);
    assert IsGrouping(ps, expected, keys);
    GroupingUnique(ps, out, offsetKeys, expected, keys);
  }

  /** `offsetKey` is the encoded key of one of the blocks. */
  ghost predicate EncodesSomeKey(offsetKey: string, blocks: seq<Block>, encodeOffsetKey: string -> string)
  {
    exists q :: 0 <= q < |blocks| && offsetKey == encodeOffsetKey(blocks[q].key)
  }

  /**
   * `render` up to the host's wrapper callback: process every block in
   * document order, then group. Reading the output elements' contents in
   * order gives back the processed block nodes.
   */
  method RenderBlocks(
    blocks: seq<Block>,
    renderMap: RenderMap,
    blockRendererFn: Block -> Option<CustomRenderer>,
    blockStyleFn: Block -> string,
    encodeOffsetKey: string -> string)
    returns (outputBlocks: seq<Output>, offsetKeys: seq<string>)
    requires forall q :: 0 <= q < |blocks| ==> Configured(blocks[q], renderMap)
    ensures |offsetKeys| == |outputBlocks|
    ensures |Flatten(outputBlocks)| == |blocks|
    ensures forall q :: 0 <= q < |blocks| ==>
      Flatten(outputBlocks)[q] == ProcessBlock(blocks[q], renderMap, blockRendererFn, blockStyleFn, encodeOffsetKey).node
    ensures forall e :: 0 <= e < |offsetKeys| ==> EncodesSomeKey(offsetKeys[e], blocks, encodeOffsetKey)
  {
    var processedBlocks: seq<Processed> := [];
    for ii := 0 to |blocks|
      invariant |processedBlocks| == ii
      invariant forall q :: 0 <= q < ii ==>
        processedBlocks[q] == ProcessBlock(blocks[q], renderMap, blockRendererFn, blockStyleFn, encodeOffsetKey)
    {
      processedBlocks := processedBlocks + [ProcessBlock(blocks[ii], renderMap, blockRendererFn, blockStyleFn, encodeOffsetKey)];
    }
    outputBlocks, offsetKeys := GroupBlocks(processedBlocks);
    GroupingFlattens(processedBlocks, outputBlocks, offsetKeys);
    assert |offsetKeys| == |outputBlocks|;
    forall e | 0 <= e < |offsetKeys|
      ensures EncodesSomeKey(offsetKeys[e], blocks, encodeOffsetKey)
    {
      var q := Width(outputBlocks[..e]);
      CoversAt(processedBlocks, outputBlocks, offsetKeys, e);
      assert q < |blocks| && offsetKeys[e] == processedBlocks[q].offsetKey;
      assert offsetKeys[e] == encodeOffsetKey(blocks[q].key);
    }
  }
}

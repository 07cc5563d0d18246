/**
 * The immutable document model the transactions work on: per-character
 * metadata, content blocks, selections and the content state.
 */
module ContentModel {
  import opened Nullable

  /** A style map such as a block's `style` or `overrideStyle` entry (CSS property to value). */
  type StyleMap = map<string, string>

  /** CharacterMetadata: the inline styles and entity of one character; opaque to range deletion. */
  datatype Meta = Meta(styles: set<string>, entity: Option<string>)

  /** The block-level data map, with its two recognised entries and everything else. */
  datatype BlockData = BlockData(
    style: Option<StyleMap>,
    overrideStyle: Option<StyleMap>,
    rest: map<string, string>)

  /**
   * ContentBlock. `chars` holds one metadata entry per character of `text`
   * in a well-formed block (see `WellFormed`); the model does not assume it.
   */
  datatype Block = Block(
    key: string,
    blockType: string,
    text: string,
    chars: seq<Meta>,
    depth: nat,
    data: BlockData)

  const Atomic: string := "atomic"

  predicate WellFormed(b: Block)
  {
    |b.text| == |b.chars|
  }

  predicate AllWellFormed(blocks: seq<Block>)
  {
    forall p :: 0 <= p < |blocks| ==> WellFormed(blocks[p])
  }

  /**
   * What a selection names as its anchor or focus block. It is a block key in
   * every selection but one: removing an atomic block with no non-atomic block
   * before it builds a selection around the first block VALUE of the map.
   */
  datatype SelectionKey = KeyName(name: string) | BlockObject(block: Block)

  /** SelectionState. */
  datatype Selection = Selection(
    anchorKey: SelectionKey,
    anchorOffset: nat,
    focusKey: SelectionKey,
    focusOffset: nat,
    isBackward: bool,
    hasFocus: bool)

  /** `SelectionState.createEmpty(key)`: collapsed at offset 0 of `key`, forward, unfocused. */
  function CreateEmpty(key: SelectionKey): (r: Selection)
    ensures IsCollapsed(r) && StartKey(r) == key && StartOffset(r) == 0
    ensures !r.isBackward && !r.hasFocus
  {
    Selection(key, 0, key, 0, false, false)
  }

  /** Anchor and focus name the same position. */
  predicate IsCollapsed(sel: Selection)
  {
    sel.anchorKey == sel.focusKey && sel.anchorOffset == sel.focusOffset
  }

  /** The earlier end of the selection in document order (the focus when backward). */
  function StartKey(sel: Selection): SelectionKey
  {
    if sel.isBackward then sel.focusKey else sel.anchorKey
  }

  function StartOffset(sel: Selection): nat
  {
    if sel.isBackward then sel.focusOffset else sel.anchorOffset
  }

  function EndKey(sel: Selection): SelectionKey
  {
    if sel.isBackward then sel.anchorKey else sel.focusKey
  }

  function EndOffset(sel: Selection): nat
  {
    if sel.isBackward then sel.anchorOffset else sel.focusOffset
  }

  lemma CollapsedIffStartIsEnd(sel: Selection)
    ensures IsCollapsed(sel) <==> (StartKey(sel) == EndKey(sel) && StartOffset(sel) == EndOffset(sel))
  {
  }

  /**
   * ContentState: the block map in document order (each block stored under
   * its own key) and the selections recorded by the last transaction.
   */
  datatype ContentState = ContentState(
    blocks: seq<Block>,
    selectionBefore: Selection,
    selectionAfter: Selection)

  /** The keys of an ordered map are distinct. */
  predicate UniqueKeys(blocks: seq<Block>)
  {
    forall p, q :: 0 <= p < q < |blocks| ==> blocks[p].key != blocks[q].key
  }

  /** Some block of the map is stored under `k`. */
  predicate HasKey(blocks: seq<Block>, k: string)
    decreases |blocks|
  {
    |blocks| > 0 && (blocks[0].key == k || HasKey(blocks[1..], k))
  }

  lemma {:induction false} HasKeyAt(blocks: seq<Block>, p: nat)
    requires p < |blocks|
    ensures HasKey(blocks, blocks[p].key)
    decreases p
  {
    if p > 0 {
      assert blocks[1..][p - 1] == blocks[p];
      HasKeyAt(blocks[1..], p - 1);
    }
  }

  /** Position of the block stored under `k`. */
  function IndexOf(blocks: seq<Block>, k: string): (i: nat)
    requires HasKey(blocks, k)
    ensures i < |blocks| && blocks[i].key == k
    ensures forall q :: 0 <= q < i ==> blocks[q].key != k
    decreases |blocks|
  {
    if blocks[0].key == k then 0 else 1 + IndexOf(blocks[1..], k)
  }

  /** With distinct keys, the block stored under a key is the only one carrying it. */
  lemma IndexOfUnique(blocks: seq<Block>, p: nat)
    requires UniqueKeys(blocks) && p < |blocks|
    ensures HasKey(blocks, blocks[p].key) && IndexOf(blocks, blocks[p].key) == p
  {
    HasKeyAt(blocks, p);
  }
}

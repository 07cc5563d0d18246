# Range deletion and block rendering in a Draft.js fork, modelled in Dafny

This project models two pieces of the editor's core:

- **Range deletion.** `removeRangeFromContentState` deletes the text a
  selection spans from a content state. The content state's block map is an
  ordered map from block keys to content blocks.
  - The start block's text and character metadata before the start offset are
    joined to the end block's from the end offset, under the start block's key.
  - Every block after the start, up to and including the end, is dropped.
  - `selectionBefore` and `selectionAfter` are recorded.
  - A non-collapsed selection inside one `atomic` block removes that block
    whole. The caret then moves to the end of the nearest non-atomic block
    before it.
  - The helper `removeFromList` cuts a range out of a character metadata list
    in one of three ways.
- **Block rendering in `DraftEditorContents`.**
  - `shouldComponentUpdate` decides from identity comparisons whether the
    block list must be rendered again.
  - `render` resolves each block's element (`li` when the block data's
    override style sets a list style) and its inline style.
  - The grouping pass of `render` folds contiguous runs of blocks that share a
    wrapper template into one wrapper element.

Modules, one concept each:

- `Nullable`: JavaScript `null`.
- `ImmutableSeq`: the Immutable.js list and keyed-seq operations (`slice`,
  `shift`, `pop`, `reverse`, `skipUntil`, `takeUntil`, `first`).
- `ContentModel`: character metadata, blocks, selections, the content state.
- `BlockMap`: the block map as Immutable sees it during `merge` and `filter`.
- `RemoveRange`: the deletion transaction and its properties.
- `RenderDecision`: `shouldComponentUpdate`.
- `BlockRender`: per-block element, style and rendered record.
- `BlockGrouping`: the grouping loop and the `render` pipeline.

Each operation is a pure function or a method over immutable values. An
independent statement of its meaning is proved for all inputs. For the
deletion, the result is the span `StartIndex..EndIndex` replaced by the joined
block (`RemoveRange.Spliced`). For grouping, the output is the unique sequence
of elements that covers the blocks in order (`BlockGrouping.IsGrouping`).

Modelling choices:

- **Block map.** The map is a sequence of blocks with distinct keys. Each
  block is stored under its own `key`; the code reads the key of a block it
  found by value, so it relies on this too.
  - `blockMap.merge(newBlocks)` is modelled as Immutable's `OrderedMap.set`,
    applied to each update in order.
  - `.filter(block => !!block)` drops the null entries.
- **`startBlock === endBlock`** is modelled as equality of the two keys, since
  distinct keys name distinct blocks.
- **Slices clamp, as in JavaScript.** Text and character lists are sliced by
  `Take`/`Drop`, which clamp. The model does not assume a block's character
  list is as long as its text.
  - A property that needs it states `WellFormed` (`|text| == |chars|`) as a
    hypothesis.
- **Selections.** `SelectionState` is not part of this model. Its accessors
  are defined with Draft's semantics:
  - the start is the anchor unless the selection is backward;
  - a selection is collapsed when anchor and focus coincide;
  - `createEmpty(key)` gives a forward, unfocused caret at offset 0.
- **A block value where a key is expected.**
  `SelectionState.createEmpty(blockMap.first())`, at
  `src/model/transaction/removeRangeFromContentState.js:95`, passes a block
  VALUE where a key is expected. The model keeps this as it is.
  - A selection end is a `SelectionKey`: either `KeyName(name)` or
    `BlockObject(block)`.
  - That line yields `CreateEmpty(BlockObject(first block))`.
- **Order of checks in `shouldComponentUpdate`.** The code tests "nothing to
  render" (lines 70-79) before it tests whether anything changed (lines
  85-90). So a content change made while both states are composing does not
  re-render. The model follows the code
  (`RenderDecision.CompositionSuppressesContentChange`).
  - Descriptions of this component that put the change test first, or that
    check read-only or layout flags first, do not match this code.
- **Grouping.** The comment at
  `src/component/contents/DraftEditorContents.react.js:228-232` says
  contiguous runs should not be grouped. The loop at lines 234-262 still
  groups them, and so does the model.
  - Likewise, the code does not wrap list items one by one; the model does
    what the code does.

## Model

| member | source | states |
|---|---|---|
| `RemoveRange.RemoveFromList` | src/model/transaction/removeRangeFromContentState.js:110-131 | All three branches (shift from the front, pop from the back, slice and concat) give the list up to the start offset followed by the list from the end offset. For offsets within the list, the length drops by exactly `endOffset - startOffset`. |
| `ImmutableSeq.ShiftTimes` | src/model/transaction/removeRangeFromContentState.js:115-119 | Shifting `n` times drops the first `n` elements, or all of them when there are fewer. |
| `ImmutableSeq.PopTimes` | src/model/transaction/removeRangeFromContentState.js:120-124 | Popping `n` times keeps all but the last `n` elements, or nothing when there are fewer. |
| `ImmutableSeq.SkipUntilAt` | src/model/transaction/removeRangeFromContentState.js:68-70 | `skipUntil(p)` returns the suffix that starts at the first element satisfying `p`. |
| `ImmutableSeq.TakeUntilAt` | src/model/transaction/removeRangeFromContentState.js:71 | `takeUntil(p)` returns the prefix that ends just before the first element satisfying `p`. |
| `ImmutableSeq.SkipUntilNone` | src/model/transaction/removeRangeFromContentState.js:86-87 | When no element satisfies `p`, `skipUntil(p)` is empty, so `first()` finds nothing. |
| `ContentModel.IndexOf` | src/model/transaction/removeRangeFromContentState.js:36-37 | `blockMap.get(key)` finds the block stored under the key; no earlier block carries it. |
| `ContentModel.IndexOfUnique` | src/model/transaction/removeRangeFromContentState.js:36-37 | In a map with distinct keys, looking up a block's own key returns that block's position. |
| `RemoveRange.RemoveRangeFromContentState` | src/model/transaction/removeRangeFromContentState.js:26-28 | A collapsed selection returns the input content state itself. Otherwise `selectionBefore` is the input selection. |
| `RemoveRange.RangeUpdatesShape` | src/model/transaction/removeRangeFromContentState.js:68-73 | `newBlocks` lists the keys of the blocks from the start block through the end block, in order. Only the start key maps to a block (the modified start); every other key maps to null. |
| `BlockMap.MergeInPlace` | src/model/transaction/removeRangeFromContentState.js:98 | Merging updates whose keys are distinct and already in the map changes no key and no position. Each entry takes its update's value when it has one and keeps its own otherwise. |
| `BlockMap.PresentEntries` | src/model/transaction/removeRangeFromContentState.js:98 | Filtering out nulls from a map with no null value gives back its blocks in order. |
| `BlockMap.PresentAppend` | src/model/transaction/removeRangeFromContentState.js:98 | Filtering out nulls distributes over concatenation. |
| `BlockMap.PresentAllNull` | src/model/transaction/removeRangeFromContentState.js:98 | Filtering a run of null entries leaves nothing. |
| `RemoveRange.ModifiedStartReplaces` | src/model/transaction/removeRangeFromContentState.js:41-66 | The modified start block is null when a whole atomic block is removed. Otherwise it is the start block with its head joined to the end block's tail. In the same-block case, `removeFromList`'s result equals that join. |
| `RemoveRange.RemoveRangeBlocks` | src/model/transaction/removeRangeFromContentState.js:58-98 | The resulting block map is the blocks before the start block, then the joined block (none when an atomic block is removed), then the blocks after the end block. |
| `RemoveRange.RemoveRangeKeepsOutside` | src/model/transaction/removeRangeFromContentState.js:68-98 | Blocks before the start block and after the end block are kept unchanged and in their original order. One block stands in for the span, or none when an atomic block is removed, which fixes the result's length. |
| `RemoveRange.RemoveRangeJoinsEnds` | src/model/transaction/removeRangeFromContentState.js:51-66 | Outside the atomic case, the start position holds a block with the start block's key, type, depth and data. Its text is the start block's text before the start offset followed by the end block's text from the end offset. Its character metadata is spliced the same way when both blocks are well formed. |
| `RemoveRange.RemoveRangeWithinBlock` | src/model/transaction/removeRangeFromContentState.js:41-50 | Within one non-atomic block, the map keeps its length. The block loses exactly the text `[startOffset, endOffset)`, and its character list is cut by `removeFromList`. |
| `RemoveRange.RemoveRangeDropsSpan` | src/model/transaction/removeRangeFromContentState.js:68-98 | Every block after the start block up to and including the end block is gone. The start key survives exactly when no atomic block is removed. Keys stay distinct. |
| `RemoveRange.RemoveRangeWellFormed` | src/model/transaction/removeRangeFromContentState.js:46-65 | If every block has one metadata entry per character, so does every block afterwards. |
| `RemoveRange.JoinedWellFormed` | src/model/transaction/removeRangeFromContentState.js:52-64 | Joining two well-formed blocks at in-range offsets gives a well-formed block. Its text length is the start offset plus the end block's text length minus the end offset. |
| `RemoveRange.RemoveRangeSelections` | src/model/transaction/removeRangeFromContentState.js:74-102 | Outside the atomic case, `selectionBefore` is the input selection. `selectionAfter` is collapsed, forward, at the start key and start offset, and keeps the input's focus flag. |
| `RemoveRange.LastNonAtomicBefore` | src/model/transaction/removeRangeFromContentState.js:82-87 | The nearest position before `i` holding a non-atomic block: every block between it and `i` is atomic. There is no such position exactly when every block before `i` is atomic. |
| `RemoveRange.BlockBeforeIsNearest` | src/model/transaction/removeRangeFromContentState.js:82-87 | Reversing the map, skipping to the start key and past it, then skipping atomic blocks finds the nearest non-atomic block before the start block, or nothing. |
| `RemoveRange.ReversedPrefix` | src/model/transaction/removeRangeFromContentState.js:82-85 | After reversing and skipping past the start block, what remains is the blocks before it, nearest first. |
| `RemoveRange.FirstNonAtomic` | src/model/transaction/removeRangeFromContentState.js:86-87 | Skipping atomic blocks over the preceding blocks, nearest first, and taking the first one gives the nearest non-atomic block before the start. |
| `RemoveRange.RemoveRangeAtomicCaret` | src/model/transaction/removeRangeFromContentState.js:81-97 | After an atomic block is removed, `selectionAfter` is collapsed, forward and unfocused. It sits at the end of the nearest non-atomic block before the removed block. With no such block, it is built around the first block of the original map (a block value) at offset 0. |
| `RemoveRange.DeleteWithinBlockExample` | src/model/transaction/removeRangeFromContentState.js:41-50 | Deleting " world" from "hello world" leaves "hello" and its first five metadata entries, with the caret collapsed at offset 5. |
| `RemoveRange.DeleteAcrossBlocksExample` | src/model/transaction/removeRangeFromContentState.js:51-73 | Deleting from offset 1 of "foo" to offset 2 of "bar" leaves one block "fr" under the first key. |
| `RemoveRange.DeleteAtomicAfterTextExample` | src/model/transaction/removeRangeFromContentState.js:88-93 | Removing an atomic block that follows "hi" leaves only the text block and an unfocused caret at its offset 2. |
| `RemoveRange.DeleteLeadingAtomicExample` | src/model/transaction/removeRangeFromContentState.js:94-96 | Removing a leading atomic block leaves the other block. The caret is the empty selection made from the removed block's value. |
| `RenderDecision.ShouldComponentUpdate` | src/component/contents/DraftEditorContents.react.js:44-91 | A changed direction map or focus always re-renders. Otherwise the decision is false when the state is the same object, when the next state shows its natively rendered content, or when both states are composing. Failing those, it is true exactly when composition mode, content or decorator changed, or selection must be forced. |
| `RenderDecision.ShouldUpdateReadsOnlyAccessors` | src/component/contents/DraftEditorContents.react.js:44-91 | Two pairs of states that agree on every accessor the decision reads get the same answer. |
| `RenderDecision.ShouldUpdateOnlyOnChange` | src/component/contents/DraftEditorContents.react.js:52-90 | A re-render happens only when the direction map, the focus, composition mode, content or decorator changed, or selection must be forced. |
| `RenderDecision.SameStateNeverRerenders` | src/component/contents/DraftEditorContents.react.js:70-79 | Receiving the very same state never re-renders. |
| `RenderDecision.CompositionSuppressesContentChange` | src/component/contents/DraftEditorContents.react.js:70-90 | With direction map and focus unchanged, a content change made while both states are composing does not re-render. The skip test runs before the change test. |
| `BlockRender.ResolveElement` | src/component/contents/DraftEditorContents.react.js:171-174 | A block renders as `li` whenever its override style has a `listStyle` entry. Otherwise it uses its type's configured element if truthy, else the `unstyled` element. |
| `BlockRender.ElementIgnoresDataWithoutListStyle` | src/component/contents/DraftEditorContents.react.js:171-174 | Without a list style, two blocks of one type render as the same element whatever their data. |
| `BlockRender.ResolveStyle` | src/component/contents/DraftEditorContents.react.js:177-198 | The inline style has the properties of `style` and `overrideStyle` together, and `overrideStyle` wins on shared properties. It is whichever one exists when only one does, and empty when neither does. |
| `BlockRender.ProcessBlock` | src/component/contents/DraftEditorContents.react.js:119-218 | The processed record of a block carries the block's key and encoded offset key. Its wrapper is the type's configured template. Its node has the resolved element and style. |
| `BlockGrouping.CollectRun` | src/component/contents/DraftEditorContents.react.js:239-246 | The inner loop collects the nodes of the maximal run from `start` whose blocks share `start`'s wrapper template. It stops at the end or at the first block with another template. |
| `BlockGrouping.CoversRun` | src/component/contents/DraftEditorContents.react.js:247-255 | A maximal run with a template, wrapped, is keyed by the first block's key plus `-wrap` and carries the first block's offset key. |
| `BlockGrouping.ExtendGrouping` | src/component/contents/DraftEditorContents.react.js:255-261 | Appending an element that covers the blocks right after the current output, with its first block's offset key, keeps the output a grouping of a prefix. |
| `BlockGrouping.GroupBlocks` | src/component/contents/DraftEditorContents.react.js:234-262 | The loop's output is a grouping. Each element is either a block without a template on its own, or a wrapper keyed `first key + "-wrap"` holding a maximal run of one template. There is exactly one offset key per element: that of its first block. |
| `BlockGrouping.GroupingFlattens` | src/component/contents/DraftEditorContents.react.js:236-259 | Reading the output elements' contents in order gives back every block node, in document order. |
| `BlockGrouping.GroupingUnique` | src/component/contents/DraftEditorContents.react.js:234-262 | A block sequence has only one grouping, so the loop's output is determined by the blocks' templates. |
| `BlockGrouping.WrapperRunsAreMaximal` | src/component/contents/DraftEditorContents.react.js:240-246 | A wrapper's run is maximal on the left too: the block just before it does not share its template. |
| `BlockGrouping.GroupingExample` | src/component/contents/DraftEditorContents.react.js:234-262 | Templates W, W, none, W give three elements: a W wrapper holding the first two blocks, the third block alone, and a separate W wrapper holding the fourth. |
| `BlockGrouping.RenderBlocks` | src/component/contents/DraftEditorContents.react.js:119-262 | Processing every block in document order and then grouping yields one offset key per output element, each the encoded key of some block. The elements' contents, read in order, are the blocks' rendered nodes. |

## Left out

- `src/component/selection/getRangeClientRects.js` (DOM range geometry and user-agent sniffing): it is browser plumbing with nothing pure to state.
- React element creation (`React.createElement`, `cloneElement`, `DraftEditorBlock`, JSX) and `componentProps`: rendered elements are records of the values they are built from.
- `blockRendererFn`, `blockStyleFn` and `DraftOffsetKey.encode` are host callbacks or modules not in this model. They are uninterpreted function parameters.
- `blockWrapperFn` (src/component/contents/DraftEditorContents.react.js:265-267) and the final `<div data-contents>`: `RenderBlocks` stops at the output elements and offset keys that are handed to it.
- `getListItemClasses` is dead code: its only call is commented out.
- The `currentDepth` and `lastWrapperTemplate` bookkeeping: the values are written but never read.
- `SelectionState` internals are not part of this model. Its accessors are defined with Draft's semantics (see above).
- A missing block key (src/model/transaction/removeRangeFromContentState.js:36-37) or a missing render configuration (src/component/contents/DraftEditorContents.react.js:151-152) throws in the code. The model makes these preconditions (`Resolves`, `Configured`).
- The deletion properties also assume what a valid selection guarantees (`Normalized`): the start is not after the end, and the offsets lie within their blocks' text.
- Immutable.js structural sharing and reference identity: Dafny values have none. The three `removeFromList` branches are proved equal as values.
- The content state's fields other than the block map and the two selections: the deletion copies them unchanged.
- Text is a sequence of characters; JavaScript's UTF-16 code units are not distinguished from characters.
- `RemoveRange.RemoveRangeJoinsEnds`: states the character list as plain slices only when both blocks are well formed. Otherwise the code's clamping slices apply; `RemoveRange.RemoveRangeBlocks` states that case through `Joined`.
- `BlockGrouping.RenderBlocks`: states only that each offset key encodes some block's key. Which block (the first of its element) is stated by `BlockGrouping.GroupBlocks`.

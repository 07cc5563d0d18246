/**
 * `DraftEditorContents.shouldComponentUpdate`: whether the block list must be
 * rendered again when the editor state changes. Every comparison in it is an
 * identity comparison, so each object it compares is represented by an id.
 */
module RenderDecision {
  import opened Nullable

  /** An object identity: two values are `===` exactly when their ids are equal. */
  type Ref = int

  /** What `shouldComponentUpdate` reads from an EditorState, plus everything it does not read. */
  datatype EditorView = EditorView(
    identity: Ref,                 // the EditorState object itself
    directionMap: Ref,             // getDirectionMap()
    hasFocus: bool,                // getSelection().getHasFocus()
    nativelyRendered: Option<Ref>, // getNativelyRenderedContent(); None is null
    content: Ref,                  // getCurrentContent()
    composing: bool,               // isInCompositionMode()
    decorator: Ref,                // getDecorator()
    forceSelection: bool,          // mustForceSelection()
    unread: int)                   // undo stack, selection offsets and the rest

  /** The next state is showing content the browser has already rendered natively. */
  predicate ShowsNativeContent(next: EditorView)
  {
    next.nativelyRendered.Some? && next.content == next.nativelyRendered.value
  }

  /** Neither the direction map nor the focus changed. */
  predicate SameFrame(prev: EditorView, next: EditorView)
  {
    prev.directionMap == next.directionMap && prev.hasFocus == next.hasFocus
  }

  /** The early `return false`: nothing new to render. */
  predicate NothingToRender(prev: EditorView, next: EditorView)
  {
    prev.identity == next.identity || ShowsNativeContent(next) || (prev.composing && next.composing)
  }

  /** Something the block list is drawn from has changed. */
  predicate RenderedInputChanged(prev: EditorView, next: EditorView)
  {
    || prev.composing != next.composing
    || prev.content != next.content
    || prev.decorator != next.decorator
    || next.forceSelection
  }

  function ShouldComponentUpdate(prev: EditorView, next: EditorView): (r: bool)
    // A changed direction map or focus always re-renders.
    ensures prev.directionMap != next.directionMap ==> r
    ensures prev.hasFocus != next.hasFocus ==> r
    // Otherwise the skip conditions win over every change...
    ensures SameFrame(prev, next) && NothingToRender(prev, next) ==> !r
    // ...and without them a re-render happens exactly when rendered input changed.
    ensures SameFrame(prev, next) && !NothingToRender(prev, next) ==>
              (r <==> RenderedInputChanged(prev, next))
  {
    if prev.directionMap != next.directionMap then true
    else if prev.hasFocus != next.hasFocus then true
    else if
      || prev.identity == next.identity
      || (next.nativelyRendered.Some? && next.content == next.nativelyRendered.value)
      || (prev.composing && next.composing)
    then false
    else
      || prev.composing != next.composing
      || prev.content != next.content
      || prev.decorator != next.decorator
      || next.forceSelection
  }

  /** A view with everything the decision does not read erased. */
  function Observed(v: EditorView): EditorView
  {
    v.(unread := 0)
  }

  /** The decision depends only on the accessors it reads. */
  lemma ShouldUpdateReadsOnlyAccessors(prev: EditorView, next: EditorView, prev': EditorView, next': EditorView)
    requires Observed(prev) == Observed(prev') && Observed(next) == Observed(next')
    ensures ShouldComponentUpdate(prev, next) == ShouldComponentUpdate(prev', next')
  {
  }

  /** A re-render happens only when something the decision reads has changed. */
  lemma ShouldUpdateOnlyOnChange(prev: EditorView, next: EditorView)
    requires ShouldComponentUpdate(prev, next)
    ensures || prev.directionMap != next.directionMap
            || prev.hasFocus != next.hasFocus
            || RenderedInputChanged(prev, next)
  {
  }

  /** Handing the component the very same state never re-renders it. */
  lemma SameStateNeverRerenders(v: EditorView)
    ensures !ShouldComponentUpdate(v, v)
  {
  }

  /**
   * The skip test runs before the change test: a content change made while
   * both states are composing does not re-render.
   */
  lemma CompositionSuppressesContentChange(prev: EditorView, next: EditorView)
    requires SameFrame(prev, next)
    requires prev.composing && next.composing && prev.content != next.content
    ensures !ShouldComponentUpdate(prev, next)
  {
  }
}

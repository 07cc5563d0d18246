/**
 * The per-block part of `DraftEditorContents.render`: which element a block
 * renders as, which inline style it gets, and the record of one rendered
 * block that the grouping pass consumes. React elements are records here.
 */
module BlockRender {
  import opened Nullable
  import opened ContentModel

  /** Identity of a wrapper template element; templates are compared with `===`. */
  type TemplateId = int

  /** Identity of a React component or props object supplied by the host. */
  type Ref = int

  /** One entry of `blockRenderMap`. */
  datatype RenderConfig = RenderConfig(wrapper: Option<TemplateId>, element: Option<string>)

  type RenderMap = map<string, RenderConfig>

  const Unstyled: string := "unstyled"
  const ListItem: string := "li"
  const ListStyle: string := "listStyle"

  /** What `blockRendererFn` may return for a block. */
  datatype CustomRenderer = CustomRenderer(component: Option<Ref>, props: Option<Ref>, editable: Option<bool>)

  /** The element created for one block; `component == None` is the default block component. */
  datatype BlockNode = BlockNode(
    element: Option<string>,
    component: Option<Ref>,
    blockProps: Option<Ref>,
    key: string,
    offsetKey: string,
    className: string,
    style: StyleMap,
    editable: Option<bool>)

  /** The entry pushed onto `processedBlocks`. */
  datatype Processed = Processed(node: BlockNode, wrapper: Option<TemplateId>, key: string, offsetKey: string)

  /** JavaScript truthiness of an optional element name: present and not the empty string. */
  predicate Truthy(e: Option<string>)
  {
    e.Some? && e.value != ""
  }

  /** The block data's `overrideStyle` has a `listStyle` entry. */
  predicate HasListStyle(data: BlockData)
  {
    data.overrideStyle.Some? && ListStyle in data.overrideStyle.value
  }

  /**
   * The render map can render the block: its type has a configuration, and
   * `unstyled` has one whenever the element falls back to it.
   */
  predicate Configured(b: Block, renderMap: RenderMap)
  {
    && b.blockType in renderMap
    && (!HasListStyle(b.data) && !Truthy(renderMap[b.blockType].element) ==> Unstyled in renderMap)
  }

  /** The element a block type is configured to render as: its own, else the `unstyled` one. */
  function TypeElement(blockType: string, renderMap: RenderMap): Option<string>
    requires blockType in renderMap
    requires !Truthy(renderMap[blockType].element) ==> Unstyled in renderMap
  {
    if Truthy(renderMap[blockType].element) then renderMap[blockType].element
    else renderMap[Unstyled].element
  }

  /**
   * The element a block renders as: a list item whenever its override style
   * sets a list style, whatever its type; otherwise its type's element.
   */
  function ResolveElement(b: Block, renderMap: RenderMap): (e: Option<string>)
    requires Configured(b, renderMap)
    ensures HasListStyle(b.data) ==> e == Some(ListItem)
    ensures !HasListStyle(b.data) ==> e == TypeElement(b.blockType, renderMap)
  {
    var config := renderMap[b.blockType];
    if b.data.overrideStyle.Some? && ListStyle in b.data.overrideStyle.value then Some(ListItem)
    else if config.element.Some? && config.element.value != "" then config.element
    else renderMap[Unstyled].element
  }

  /** Without a list style, a block's data has no say in its element. */
  lemma ElementIgnoresDataWithoutListStyle(b: Block, c: Block, renderMap: RenderMap)
    requires Configured(b, renderMap) && Configured(c, renderMap)
    requires b.blockType == c.blockType && !HasListStyle(b.data) && !HasListStyle(c.data)
    ensures ResolveElement(b, renderMap) == ResolveElement(c, renderMap)
  {
  }

  /** The keys of an optional style map. */
  function StyleKeys(s: Option<StyleMap>): set<string>
  {
    if s.Some? then s.value.Keys else {}
  }

  /**
   * The inline style: `style` merged with `overrideStyle`, the override
   * winning on shared properties; empty when the data has neither.
   */
  function ResolveStyle(data: BlockData): (r: StyleMap)
    ensures r.Keys == StyleKeys(data.style) + StyleKeys(data.overrideStyle)
    ensures forall k :: k in StyleKeys(data.overrideStyle) ==> r[k] == data.overrideStyle.value[k]
    ensures forall k :: k in StyleKeys(data.style) && k !in StyleKeys(data.overrideStyle) ==>
              r[k] == data.style.value[k]
  {
    match (data.style, data.overrideStyle)
    case (Some(style), Some(overrideStyle)) => style + overrideStyle
    case (Some(style), None) => style
    case (None, Some(overrideStyle)) => overrideStyle
    case (None, None) => map[]
  }

  /**
   * One iteration of the block loop: the rendered element and the wrapper
   * template, key and offset key that grouping reads. `blockRendererFn`,
   * `blockStyleFn` and `DraftOffsetKey.encode` are the host's functions.
   */
  function ProcessBlock(
    b: Block,
    renderMap: RenderMap,
    blockRendererFn: Block -> Option<CustomRenderer>,
    blockStyleFn: Block -> string,
    encodeOffsetKey: string -> string): (p: Processed)
    requires Configured(b, renderMap)
    ensures p.key == b.key && p.node.key == b.key
    ensures p.offsetKey == encodeOffsetKey(b.key) && p.node.offsetKey == p.offsetKey
    ensures p.wrapper == renderMap[b.blockType].wrapper
    ensures p.node.element == ResolveElement(b, renderMap) && p.node.style == ResolveStyle(b.data)
  {
    var custom := blockRendererFn(b);
    var offsetKey := encodeOffsetKey(b.key);
    var node := BlockNode(
      ResolveElement(b, renderMap),
      if custom.Some? then custom.value.component else None,
      if custom.Some? then custom.value.props else None,
      b.key,
      offsetKey,
      blockStyleFn(b),
      ResolveStyle(b.data),
      if custom.Some? then custom.value.editable else None);
    Processed(node, renderMap[b.blockType].wrapper, b.key, offsetKey)
  }
}

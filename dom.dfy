/**
 * The parts of the browser that the theme engines touch, reduced to what
 * they observe: the kind of each node, the tree below the root, computed
 * styles (which follow the inline styles), inline styles (which the engines
 * update in place) and `localStorage` (which they update too).
 */
module Dom {
  import opened Wrappers

  /** An element (or other node) of the page, by identity. */
  type Node = nat

  /** The style properties the engines read and write, by their `CSSStyleDeclaration` names. */
  datatype Prop =
    | Color | BackgroundColor | BorderTopColor | BorderRightColor | BorderBottomColor | BorderLeftColor
    | OutlineColor | CaretColor | Fill | Stroke | StopColor
    | BackgroundImage | BoxShadow | TextShadow
    | Filter
  {
    function Name(): string {
      match this
      case Color => "color"
      case BackgroundColor => "backgroundColor"
      case BorderTopColor => "borderTopColor"
      case BorderRightColor => "borderRightColor"
      case BorderBottomColor => "borderBottomColor"
      case BorderLeftColor => "borderLeftColor"
      case OutlineColor => "outlineColor"
      case CaretColor => "caretColor"
      case Fill => "fill"
      case Stroke => "stroke"
      case StopColor => "stopColor"
      case BackgroundImage => "backgroundImage"
      case BoxShadow => "boxShadow"
      case TextShadow => "textShadow"
      case Filter => "filter"
    }
  }

  /** An inline style: the declarations an element's `style` attribute holds. */
  type Style = map<Prop, string>

  /** The inline styles of the page, element by element. */
  type Styles = map<Node, Style>

  /**
   * What a node is; none of it changes while the node exists:
   * - `isElement`: `node instanceof Element`;
   * - `isStyled`: `instanceof HTMLElement || instanceof SVGElement` (implies `isElement`);
   * - `isHtml`: `instanceof HTMLElement` (implies `isStyled`);
   * - `isImageLike`: an element whose tag is `IMG`, `SVG`, `VIDEO` or `CANVAS`.
   */
  datatype NodeKinds = NodeKinds(
    isElement: Node -> bool,
    isStyled: Node -> bool,
    isHtml: Node -> bool,
    isImageLike: Node -> bool)

  /**
   * The page as it is at one moment, with the inline styles of that moment:
   * - `root`: `document.querySelector(rootSelector) || document.body`, `None` when both are absent;
   * - `descendants(n)`: `n.querySelectorAll('*')` in document order;
   * - `ancestry(n)`: `n` followed by its parent elements, as far as the ancestors are elements;
   * - `inDynamicContext(n)`: `n.closest(DYNAMIC_CONTEXT_SELECTOR)` found an element;
   * - `computed(n, prop)`: `getComputedStyle(n)[prop]` at that moment.
   */
  datatype Page = Page(
    root: Option<Node>,
    descendants: Node -> seq<Node>,
    ancestry: Node -> seq<Node>,
    inDynamicContext: Node -> bool,
    computed: (Node, Prop) -> string)

  /**
   * The page during one call of an engine operation: the tree and the
   * stylesheets stay as they are while the engine writes inline styles, and
   * `cascade(inline, n, prop)` is `getComputedStyle(n)[prop]` while the inline
   * styles of the page are `inline`. A computed value may depend on the
   * inline styles of any element: its own (`currentColor` follows the inline
   * `color`) and its ancestors' (`color` is inherited).
   */
  datatype Browser = Browser(
    root: Option<Node>,
    descendants: Node -> seq<Node>,
    ancestry: Node -> seq<Node>,
    inDynamicContext: Node -> bool,
    cascade: (Styles, Node, Prop) -> string)

  /** The page at the moment the inline styles are `inline`: `getComputedStyle` answers as the cascade does then. */
  function PageAt(b: Browser, inline: Styles): (page: Page)
    ensures page.root == b.root && page.ancestry == b.ancestry && page.inDynamicContext == b.inDynamicContext
    ensures forall n, p :: page.computed(n, p) == b.cascade(inline, n, p)
  {
    Page(b.root, b.descendants, b.ancestry, b.inDynamicContext, (n: Node, p: Prop) => b.cascade(inline, n, p))
  }

  /** The root and everything below it: `[root, ...root.querySelectorAll('*')]`. */
  function Scope(b: Browser): (s: seq<Node>)
    ensures b.root.None? ==> s == []
    ensures b.root.Some? ==> s != [] && s[0] == b.root.value
  {
    match b.root
    case None => []
    case Some(r) => [r] + b.descendants(r)
  }

  /** `node` and everything below it. */
  function Subtree(b: Browser, node: Node): (s: seq<Node>)
    ensures s != [] && s[0] == node
  {
    [node] + b.descendants(node)
  }

  /** The inline declaration of `prop` in a style map; an absent declaration reads as `""`. */
  function StyleIn(inline: Styles, el: Node, prop: Prop): string {
    if el in inline && prop in inline[el] then inline[el][prop] else ""
  }

  /** The inline style of one element as a map (empty when it has none). */
  function StyleOf(inline: Styles, el: Node): Style {
    if el in inline then inline[el] else map[]
  }

  /**
   * The inline styles after the assignments `w` to `el`: the properties of
   * `w` read as written, everything else as before. An empty `w` changes nothing.
   */
  function Put(inline: Styles, el: Node, w: Style): (r: Styles)
    ensures forall e, p :: StyleIn(r, e, p) == if e == el && p in w then w[p] else StyleIn(inline, e, p)
  {
    if w == map[] then inline else inline[el := StyleOf(inline, el) + w]
  }

  /** Two batches of assignments to one element are one batch, the later values winning. */
  lemma PutPut(inline: Styles, el: Node, w1: Style, w2: Style)
    ensures Put(Put(inline, el, w1), el, w2) == Put(inline, el, w1 + w2)
  {
    if w1 != map[] && w2 != map[] {
      assert StyleOf(inline, el) + w1 + w2 == StyleOf(inline, el) + (w1 + w2);
    } else if w1 == map[] {
      assert w1 + w2 == w2;
    } else {
      assert w1 + w2 == w1;
    }
  }

  /** One more assignment after a batch extends the batch. */
  lemma PutOne(inline: Styles, el: Node, w: Style, p: Prop, v: string)
    ensures Put(Put(inline, el, w), el, map[p := v]) == Put(inline, el, w[p := v])
  {
    PutPut(inline, el, w, map[p := v]);
    assert w + map[p := v] == w[p := v];
  }

  /** The inline styles of every element: `el.style[prop]` and its assignments. */
  class Document {
    var inline: Styles

    constructor(initial: Styles)
      ensures inline == initial
    {
      inline := initial;
    }

    /** `el.style[prop]`. */
    function Read(el: Node, prop: Prop): string
      reads this
    {
      StyleIn(inline, el, prop)
    }

    /** `el.style[prop] = value`: that one declaration changes, nothing else. */
    method Write(el: Node, prop: Prop, value: string)
      modifies this
      ensures inline == Put(old(inline), el, map[prop := value])
    {
      assert prop in map[prop := value];
      assert StyleOf(inline, el)[prop := value] == StyleOf(inline, el) + map[prop := value];
      inline := inline[el := StyleOf(inline, el)[prop := value]];
    }

    /**
     * One assignment per entry of `writes` (the loops over an entry's
     * records); the order does not matter since every key is written once.
     */
    method WriteAll(el: Node, writes: Style)
      modifies this
      ensures inline == Put(old(inline), el, writes)
    {
      var todo := writes.Keys;
      ghost var done: Style := map[];
      while todo != {}
        invariant todo <= writes.Keys && done.Keys == writes.Keys - todo
        invariant forall p :: p in done ==> done[p] == writes[p]
        invariant inline == Put(old(inline), el, done)
        decreases todo
      {
        var p :| p in todo;
        Write(el, p, writes[p]);
        PutOne(old(inline), el, done, p, writes[p]);
        done := done[p := writes[p]];
        todo := todo - {p};
      }
      assert done == writes;
    }
  }

  /**
   * `localStorage`: `available` is false when the browser refuses storage
   * (private mode, disabled storage), in which case every call throws.
   */
  class Storage {
    var items: map<string, string>
    var available: bool

    constructor(items0: map<string, string>, available0: bool)
      ensures items == items0 && available == available0
    {
      items := items0;
      available := available0;
    }

    /** `getItem(key)`: `None` for `null`, `Failure` when it throws. */
    function GetItem(key: string): (r: Result<Option<string>>)
      reads this
      ensures r.Failure? <==> !available
      ensures r.Success? ==> (r.value.Some? <==> key in items)
    {
      if !available then Failure("SecurityError")
      else if key in items then Success(Some(items[key]))
      else Success(None)
    }

    /** `setItem(key, value)` inside a `try` whose `catch` ignores the error. */
    method SetItemIgnoringErrors(key: string, value: string)
      modifies this
      ensures available == old(available)
      ensures items == if available then old(items)[key := value] else old(items)
    {
      if available {
        items := items[key := value];
      }
    }
  }
}

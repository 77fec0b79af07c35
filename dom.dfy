/**
 * The host objects the utility reads: an element's bounding rectangle, its
 * parent chain and its `scrollIntoView` primitive, and the window facts the
 * geometry fallback consults.
 */
module Dom {
  import opened Wrappers

  /** A DOMRect as `getBoundingClientRect` reports it: the four edges and,
      separately, the reported width and height. */
  datatype Rect = Rect(top: real, left: real, right: real, bottom: real, width: real, height: real)
  {
    /** Width and height agree with the edges, as they do for a laid-out box. */
    predicate Consistent() {
      width == right - left && height == bottom - top
    }
  }

  /** The `{ top, left, right, bottom }` record the geometry test works on. */
  datatype Box = Box(top: real, left: real, right: real, bottom: real)

  /** The edges of a reported rectangle. */
  function BoxOf(r: Rect): Box {
    Box(r.top, r.left, r.right, r.bottom)
  }

  /** The dictionary handed to `scrollIntoView`: option name to option value. */
  type ScrollIntoViewOptions = map<string, string>

  /**
   * What the environment provides. `window` and `document` say whether those
   * globals are defined; `elementClass` and `documentClass` whether the
   * `Element` and `Document` constructors are declared globals (an
   * `instanceof` test against an undeclared one throws a ReferenceError).
   * `observation` is None when IntersectionObserver is undefined and
   * otherwise the value the asynchronous observation resolved to; the four
   * sizes are `window.innerWidth`, `window.innerHeight` and the document
   * element's `clientWidth`/`clientHeight` (None when undefined).
   */
  datatype Host = Host(
    window: bool,
    document: bool,
    elementClass: bool,
    documentClass: bool,
    observation: Option<bool>,
    innerWidth: Option<real>,
    innerHeight: Option<real>,
    clientWidth: Option<real>,
    clientHeight: Option<real>)
  {
    /** `hasDOM`: window, document and Element are all defined. */
    predicate HasDom() {
      window && document && elementClass
    }
  }

  /** The ReferenceError messages of an `instanceof` test against an
      undeclared constructor. */
  const ElementUndeclared: string := "Element is not defined"
  const DocumentUndeclared: string := "Document is not defined"

  /**
   * An element of the page. Its geometry and ancestry are fixed for the
   * duration of one call; the only state the utility changes is the log of
   * `scrollIntoView` calls made on it.
   */
  class Element {
    const parent: Element?
    /** Number of ancestors; it strictly decreases towards the root. */
    const depth: nat
    /** What `getBoundingClientRect` reports. */
    const rect: Rect
    /** The element's class list, for boundary predicates. */
    const classes: seq<string>
    /** Every `scrollIntoView` call made on this element, oldest first. */
    var scrollCalls: seq<ScrollIntoViewOptions>

    /** The parent chain is finite: each parent is strictly shallower. */
    predicate Valid()
      decreases depth
    {
      parent != null ==> parent.depth < depth && parent.Valid()
    }

    constructor (parent: Element?, rect: Rect, classes: seq<string>)
      requires parent != null ==> parent.Valid()
      ensures Valid()
      ensures this.parent == parent && this.rect == rect && this.classes == classes
      ensures scrollCalls == []
    {
      this.parent := parent;
      this.depth := if parent == null then 0 else parent.depth + 1;
      this.rect := rect;
      this.classes := classes;
      this.scrollCalls := [];
    }

    /** The `parentElement` chain: parent, grandparent, and so on. */
    function Ancestors(): (chain: seq<Element>)
      requires Valid()
      ensures forall a :: a in chain ==> a.Valid() && a.depth < depth
      ensures this !in chain
      ensures parent == null <==> chain == []
      decreases depth
    {
      if parent == null then [] else [parent] + parent.Ancestors()
    }

    /** Each ancestor lies strictly above the previous one, so the walk up
        the chain meets them in order of decreasing depth. */
    lemma AncestorsRise()
      requires Valid()
      ensures forall i, j :: 0 <= i < j < |Ancestors()| ==> Ancestors()[j].depth < Ancestors()[i].depth
      decreases depth
    {
      if parent != null {
        parent.AncestorsRise();
        var rest := parent.Ancestors();
        assert forall j :: 0 < j < |rest| + 1 ==> Ancestors()[j] == rest[j - 1];
      }
    }

    /** The host primitive; only the call and its options are recorded. */
    method ScrollIntoView(options: ScrollIntoViewOptions)
      modifies this
      ensures scrollCalls == old(scrollCalls) + [options]
    {
      scrollCalls := scrollCalls + [options];
    }
  }

  /** An element followed by its ancestors; empty for `null`. */
  function Lineage(e: Element?): (chain: seq<Element>)
    requires e != null ==> e.Valid()
  {
    if e == null then [] else [e] + e.Ancestors()
  }
}

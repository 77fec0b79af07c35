/** The skip-or-scroll decision: `scrollUnlessVisible` and `scrollIntoViewIfNeeded`. */
module Scroll {
  import opened Wrappers
  import opened Dom
  import opened Types
  import opened BoundaryResolver
  import opened Visibility

  /** What a call reports: visibility before any scroll, and whether
      `scrollIntoView` was invoked. */
  datatype Outcome = Outcome(visible: bool, scrolled: bool)

  /** A call's result together with the `scrollIntoView` calls it makes. */
  datatype Effect = Effect(result: Result<Outcome>, calls: seq<ScrollIntoViewOptions>)

  function Extra(opts: ScrollUnlessVisibleOptions): ScrollIntoViewOptions {
    opts.scrollIntoViewOptions.GetOr(map[])
  }

  /**
   * The options passed to `scrollIntoView`: behavior "smooth", block and
   * inline "nearest" unless given, then every key of `scrollIntoViewOptions`
   * on top.
   */
  function ScrollOptionsFor(opts: ScrollUnlessVisibleOptions): (o: ScrollIntoViewOptions)
    ensures o.Keys == {"behavior", "block", "inline"} + Extra(opts).Keys
    ensures forall k :: k in Extra(opts) ==> o[k] == Extra(opts)[k]
    ensures "behavior" !in Extra(opts) ==> o["behavior"] == BehaviorName(opts.behavior.GetOr(Smooth))
    ensures "block" !in Extra(opts) ==> o["block"] == PositionName(opts.block.GetOr(Nearest))
    ensures "inline" !in Extra(opts) ==> o["inline"] == PositionName(opts.inline.GetOr(Nearest))
  {
    map[
      "behavior" := BehaviorName(opts.behavior.GetOr(Smooth)),
      "block" := PositionName(opts.block.GetOr(Nearest)),
      "inline" := PositionName(opts.inline.GetOr(Nearest))
    ] + Extra(opts)
  }

  /** With nothing given, the scroll is smooth and to the nearest edge. */
  lemma DefaultScrollOptions(opts: ScrollUnlessVisibleOptions)
    requires opts.behavior.None? && opts.block.None? && opts.inline.None?
    requires opts.scrollIntoViewOptions.None?
    ensures ScrollOptionsFor(opts) == map["behavior" := "smooth", "block" := "nearest", "inline" := "nearest"]
  {
  }

  /**
   * Skip or scroll once visibility is known: an error is passed on with no
   * scroll, a visible target is left alone, and a hidden one is scrolled
   * exactly once.
   */
  function UnlessVisibleEffect(visibility: Result<bool>, options: ScrollIntoViewOptions): (e: Effect)
    ensures e.result.Err? <==> visibility.Err?
    ensures e.result.Err? ==> e.result.message == visibility.message && e.calls == []
    ensures e.result.Ok? ==> e.result.value.visible == visibility.value
    ensures e.result.Ok? ==> (e.result.value.scrolled <==> !e.result.value.visible)
    ensures e.result.Ok? ==> (e.result.value.scrolled <==> e.calls == [options])
    ensures e.result.Ok? ==> (!e.result.value.scrolled <==> e.calls == [])
  {
    match visibility
    case Err(message) => Effect(Err(message), [])
    case Ok(true) => Effect(Ok(Outcome(true, false)), [])
    case Ok(false) => Effect(Ok(Outcome(false, true)), [options])
  }

  /**
   * "always" scrolls once and reports `{visible: false, scrolled: true}`
   * whatever the visibility (which it never asks for); "if-needed" is the
   * skip-or-scroll decision. Either way at most one scroll happens and
   * `scrolled` says whether it did.
   */
  function IfNeededEffect(mode: ScrollMode, visibility: Result<bool>, options: ScrollIntoViewOptions): (e: Effect)
    ensures mode == Always ==> e == Effect(Ok(Outcome(false, true)), [options])
    ensures mode == IfNeeded ==> e == UnlessVisibleEffect(visibility, options)
    ensures |e.calls| <= 1
    ensures e.result.Ok? ==> (e.result.value.scrolled <==> |e.calls| == 1)
    ensures e.result.Err? ==> e.calls == []
  {
    if mode == Always then Effect(Ok(Outcome(false, true)), [options])
    else UnlessVisibleEffect(visibility, options)
  }

  /** `{ ...opts, root }` with the resolved boundary (null meaning the viewport). */
  function WithRoot(v: VisibilityOptions, root: Element?): (w: VisibilityOptions)
    ensures NormalizeRoot(w.root) == root
  {
    v.(root := if root == null then None else Some(RootElement(root)))
  }

  /** `scrollUnlessVisible`. */
  method ScrollUnlessVisible(target: Element, opts: ScrollUnlessVisibleOptions, host: Host)
    returns (r: Result<Outcome>)
    modifies target
    ensures var e := UnlessVisibleEffect(IsVisible(target, opts.visibility, host), ScrollOptionsFor(opts));
      r == e.result && target.scrollCalls == old(target.scrollCalls) + e.calls
  {
    var visible := IsVisible(target, opts.visibility, host);
    if visible.Err? {
      return Err(visible.message);
    }
    if visible.value {
      return Ok(Outcome(true, false));
    }
    target.ScrollIntoView(ScrollOptionsFor(opts));
    return Ok(Outcome(false, true));
  }

  /**
   * Everything `scrollIntoViewIfNeeded` does. The root is resolved before the
   * mode is looked at, so a failure of `resolveRoot` ends the call in either
   * mode, with no scroll; once the root is known the mode decides.
   */
  function IfNeededCall(target: Element, opts: ScrollIntoViewIfNeededOptions, host: Host): (e: Effect)
    requires target.Valid()
    ensures !host.elementClass ==> e == Effect(Err(ElementUndeclared), [])
    ensures host.elementClass && !host.documentClass ==> e == Effect(Err(DocumentUndeclared), [])
    ensures host.elementClass && host.documentClass ==>
      var root := ResolvedRoot(target, opts.boundary, opts.scroll.visibility.root);
      e == IfNeededEffect(opts.scrollMode.GetOr(IfNeeded),
                          IsVisible(target, WithRoot(opts.scroll.visibility, root), host),
                          ScrollOptionsFor(opts.scroll))
    ensures |e.calls| <= 1
    ensures e.result.Ok? ==> (e.result.value.scrolled <==> e.calls == [ScrollOptionsFor(opts.scroll)])
  {
    match Resolution(target, opts.boundary, opts.scroll.visibility.root, host)
    case Err(message) => Effect(Err(message), [])
    case Ok(root) =>
      IfNeededEffect(opts.scrollMode.GetOr(IfNeeded),
                     IsVisible(target, WithRoot(opts.scroll.visibility, root), host),
                     ScrollOptionsFor(opts.scroll))
  }

  /** `scrollIntoViewIfNeeded`. */
  method ScrollIntoViewIfNeeded(target: Element, opts: ScrollIntoViewIfNeededOptions, host: Host)
    returns (r: Result<Outcome>)
    requires target.Valid()
    modifies target
    ensures var e := IfNeededCall(target, opts, host);
      r == e.result && target.scrollCalls == old(target.scrollCalls) + e.calls
  {
    var resolved := ResolveRoot(target, opts.boundary, opts.scroll.visibility.root, host);
    if resolved.Err? {
      return Err(resolved.message);
    }
    var root := resolved.value;
    var scrollMode := opts.scrollMode.GetOr(IfNeeded);
    if scrollMode == Always {
      target.ScrollIntoView(ScrollOptionsFor(opts.scroll));
      return Ok(Outcome(false, true));
    }
    var visible := IsVisible(target, WithRoot(opts.scroll.visibility, root), host);
    if visible.Err? {
      return Err(visible.message);
    }
    if visible.value {
      return Ok(Outcome(true, false));
    }
    target.ScrollIntoView(ScrollOptionsFor(opts.scroll));
    return Ok(Outcome(false, true));
  }

  /** `isVisible` depends on the root only through its normalised form (the
      normalisation itself needs the `Document` constructor). */
  lemma IsVisibleNormalisesRoot(target: Element, v: VisibilityOptions, host: Host)
    requires host.documentClass
    ensures IsVisible(target, WithRoot(v, NormalizeRoot(v.root)), host) == IsVisible(target, v, host)
  {
  }

  /**
   * Where `Element` and `Document` are declared, `scrollIntoViewIfNeeded`
   * without a boundary and outside "always" mode behaves exactly as
   * `scrollUnlessVisible` with the same options.
   */
  lemma IfNeededWithoutBoundary(target: Element, opts: ScrollIntoViewIfNeededOptions, host: Host)
    requires target.Valid()
    requires opts.boundary.None? && opts.scrollMode != Some(Always)
    requires host.elementClass && host.documentClass
    ensures IfNeededCall(target, opts, host)
         == UnlessVisibleEffect(IsVisible(target, opts.scroll.visibility, host), ScrollOptionsFor(opts.scroll))
  {
    IsVisibleNormalisesRoot(target, opts.scroll.visibility, host);
  }

  /**
   * Where `Element` is not declared (no DOM), the two entry points fail
   * differently: `scrollIntoViewIfNeeded` with the ReferenceError of its
   * `instanceof` test, in either mode, and `scrollUnlessVisible` with the
   * library's own message. Neither scrolls.
   */
  lemma MissingElementSkipsGuard(target: Element, opts: ScrollIntoViewIfNeededOptions, host: Host)
    requires target.Valid()
    requires !host.elementClass
    ensures IfNeededCall(target, opts, host) == Effect(Err(ElementUndeclared), [])
    ensures UnlessVisibleEffect(IsVisible(target, opts.scroll.visibility, host), ScrollOptionsFor(opts.scroll))
         == Effect(Err(EnvironmentError), [])
    ensures IfNeededCall(target, opts, host).result != Err(EnvironmentError)
  {
    assert |ElementUndeclared| != |EnvironmentError|;
  }

  /**
   * `scrollIntoViewIfNeeded` with the DOM guard of `isVisible` checked first,
   * as the library's message evidently intends: without a DOM it fails with
   * that message and does not scroll, in either mode.
   */
  function GuardedIfNeededCall(target: Element, opts: ScrollIntoViewIfNeededOptions, host: Host): (e: Effect)
    requires target.Valid()
    ensures !host.HasDom() ==> e == Effect(Err(EnvironmentError), [])
    ensures host.HasDom() ==> e == IfNeededCall(target, opts, host)
  {
    if !host.HasDom() then Effect(Err(EnvironmentError), []) else IfNeededCall(target, opts, host)
  }

  /** With the guard first, `scrollIntoViewIfNeeded` and `scrollUnlessVisible`
      fail alike without a DOM, and still agree wherever there is one and no
      boundary or "always" mode is involved. */
  lemma GuardedAgreesWithUnlessVisible(target: Element, opts: ScrollIntoViewIfNeededOptions, host: Host)
    requires target.Valid()
    requires opts.boundary.None? && opts.scrollMode != Some(Always)
    requires !host.HasDom() || host.documentClass
    ensures GuardedIfNeededCall(target, opts, host)
         == UnlessVisibleEffect(IsVisible(target, opts.scroll.visibility, host), ScrollOptionsFor(opts.scroll))
  {
    if host.HasDom() {
      IfNeededWithoutBoundary(target, opts, host);
    }
  }
}

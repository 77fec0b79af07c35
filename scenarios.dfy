/**
 * The situations the repository's tests exercise, proved against the model:
 * elements are built with the rectangles the tests give them and the
 * geometry fallback is forced by leaving IntersectionObserver out.
 */
module Scenarios {
  import opened Wrappers
  import opened Dom
  import opened Types
  import opened RootMargin
  import opened Geometry
  import opened Threshold
  import opened Visibility
  import opened Scroll
  import opened BoundaryResolver

  /** A DOM without IntersectionObserver, with the given window size and a
      document element of client size 0. */
  function GeometryHost(width: real, height: real): Host {
    Host(true, true, true, true, None, Some(width), Some(height), Some(0.0), Some(0.0))
  }

  /** A server-side or Node environment: no window, document or DOM constructors. */
  const NoDomHost := Host(false, false, false, false, None, None, None, None, None)

  function Square(top: real, left: real, side: real): Rect {
    Rect(top, left, left + side, top + side, side, side)
  }

  /** With the default options a laid-out square is visible against a root
      exactly when it lies inside it; these are the cases the tests use. */
  lemma SquareAgainstRoot(el: Element, root: Element?, host: Host, inside: bool)
    requires host.HasDom() && host.documentClass && host.observation.None?
    requires el.rect.Consistent() && el.rect.width > 0.0 && el.rect.height > 0.0
    requires inside <==> Inside(BoxOf(el.rect), RootBox(root, host))
    ensures IsVisible(el, WithRoot(NoVisibilityOptions, root), host) == Ok(inside)
  {
    DefaultMeansFullyInRoot(el, WithRoot(NoVisibilityOptions, root).root, host);
  }

  /** The end-to-end below-the-fold target lies past the boundary's bottom
      edge, so with the default options it is not visible. */
  lemma BelowFoldIsHidden(el: Element, container: Element, host: Host)
    requires host.HasDom() && host.documentClass && host.observation.None?
    requires el.rect == Rect(200.0, 0.0, 250.0, 250.0, 50.0, 50.0)
    requires container.rect == Square(0.0, 0.0, 120.0)
    ensures IsVisible(el, WithRoot(NoVisibilityOptions, container), host) == Ok(false)
  {
    ApartFromRootIsHidden(el, WithRoot(NoVisibilityOptions, container).root, host);
  }

  /** In "if-needed" mode, with the DOM constructors declared, once the root
      and the visibility are known the outcome is the skip-or-scroll decision
      on that visibility. */
  lemma IfNeededDecision(target: Element, opts: ScrollIntoViewIfNeededOptions, host: Host, root: Element?, visible: bool)
    requires target.Valid() && opts.scrollMode.None?
    requires host.elementClass && host.documentClass
    requires ResolvedRoot(target, opts.boundary, opts.scroll.visibility.root) == root
    requires IsVisible(target, WithRoot(opts.scroll.visibility, root), host) == Ok(visible)
    ensures IfNeededCall(target, opts, host).result == Ok(Outcome(visible, !visible))
    ensures IfNeededCall(target, opts, host).calls == (if visible then [] else [ScrollOptionsFor(opts.scroll)])
  {
  }

  /** A 50x50 target at (10, 10) in a 200x200 viewport is visible with the defaults. */
  method InsideViewportIsVisible() returns (visible: Result<bool>)
    ensures visible == Ok(true)
  {
    var host := GeometryHost(200.0, 200.0);
    var el := new Element(null, Square(10.0, 10.0, 50.0), []);
    DefaultMeansFullyInRoot(el, None, host);
    visible := IsVisible(el, NoVisibilityOptions, host);
  }

  /** A 50x50 target at (150, 150) in a 100x100 viewport is not visible. */
  method OutsideViewportIsHidden() returns (visible: Result<bool>)
    ensures visible == Ok(false)
  {
    var host := GeometryHost(100.0, 100.0);
    var el := new Element(null, Square(150.0, 150.0, 50.0), []);
    DefaultMeansFullyInRoot(el, None, host);
    visible := IsVisible(el, NoVisibilityOptions, host);
  }

  /** A 50x50 target at (95, 95) against a 100x100 root grown by `"20px"`
      covers a quarter of its area, enough for threshold 0.2. */
  method RootMarginAndThreshold() returns (visible: Result<bool>)
    ensures visible == Ok(true)
  {
    var root := new Element(null, Square(0.0, 0.0, 100.0), []);
    var el := new Element(null, Square(95.0, 95.0, 50.0), []);
    var expanded := Box(-20.0, -20.0, 120.0, 120.0);
    assert ApplyMargin(BoxOf(root.rect), "20px") == expanded by {
      TwentyPixelMargin();
    }
    assert OverlapWidth(el.rect, expanded) == 25.0 && OverlapHeight(el.rect, expanded) == 25.0;
    CoversByProduct(el.rect, expanded, 0.2);
    assert RectVisible(el.rect, BoxOf(root.rect), "20px", 0.2);
    var opts := VisibilityOptions(Some(RootElement(root)), Some(Finite(0.2)), Some("20px"), None);
    visible := IsVisible(el, opts, GeometryHost(0.0, 0.0));
  }

  /** A visible target is not scrolled. */
  method VisibleTargetIsLeftAlone() returns (r: Result<Outcome>, calls: nat)
    ensures r == Ok(Outcome(true, false)) && calls == 0
  {
    var host := GeometryHost(200.0, 200.0);
    var el := new Element(null, Square(10.0, 10.0, 50.0), []);
    SquareAgainstRoot(el, null, host, true);
    IfNeededDecision(el, NoIfNeededOptions, host, null, true);
    r := ScrollIntoViewIfNeeded(el, NoIfNeededOptions, host);
    calls := |el.scrollCalls|;
  }

  /** A hidden target is scrolled once, smoothly to the nearest edge. */
  method HiddenTargetIsScrolledOnce() returns (r: Result<Outcome>, calls: seq<ScrollIntoViewOptions>)
    ensures r == Ok(Outcome(false, true))
    ensures calls == [map["behavior" := "smooth", "block" := "nearest", "inline" := "nearest"]]
  {
    var host := GeometryHost(100.0, 100.0);
    var el := new Element(null, Square(150.0, 150.0, 50.0), []);
    SquareAgainstRoot(el, null, host, false);
    IfNeededDecision(el, NoIfNeededOptions, host, null, false);
    DefaultScrollOptions(NoScrollOptions);
    r := ScrollIntoViewIfNeeded(el, NoIfNeededOptions, host);
    calls := el.scrollCalls;
  }

  /** "always" scrolls a fully visible target and reports it as not visible. */
  method AlwaysModeScrolls() returns (r: Result<Outcome>, calls: nat)
    ensures r == Ok(Outcome(false, true)) && calls == 1
  {
    var container := new Element(null, Square(0.0, 0.0, 150.0), []);
    var el := new Element(null, Square(20.0, 20.0, 50.0), []);
    var opts := ScrollIntoViewIfNeededOptions(
      NoScrollOptions.(behavior := Some(Auto)), Some(Always), Some(BoundaryElement(container)));
    r := ScrollIntoViewIfNeeded(el, opts, GeometryHost(0.0, 0.0));
    calls := |el.scrollCalls|;
  }

  /** The predicate boundary picks the parent carrying the class; the target
      lies outside it and is scrolled once. */
  method PredicateBoundaryScrolls() returns (root: Element?, r: Result<Outcome>, calls: nat)
    ensures root != null && root.classes == ["scroll-container"]
    ensures r == Ok(Outcome(false, true)) && calls == 1
  {
    var host := GeometryHost(0.0, 0.0);
    var container := new Element(null, Square(0.0, 0.0, 100.0), ["scroll-container"]);
    var el := new Element(container, Square(150.0, 150.0, 50.0), []);
    var holds := (e: Element) => "scroll-container" in e.classes;
    var opts := NoIfNeededOptions.(boundary := Some(BoundaryPredicate(holds)));
    var resolved := ResolveRoot(el, opts.boundary, opts.scroll.visibility.root, host);
    root := resolved.value;
    assert root == container;
    SquareAgainstRoot(el, container, host, false);
    IfNeededDecision(el, opts, host, container, false);
    r := ScrollIntoViewIfNeeded(el, opts, host);
    calls := |el.scrollCalls|;
  }

  /** `scrollUnlessVisible` scrolls a target outside the viewport once. */
  method UnlessVisibleScrolls() returns (r: Result<Outcome>, calls: nat)
    ensures r == Ok(Outcome(false, true)) && calls == 1
  {
    var host := GeometryHost(100.0, 100.0);
    var el := new Element(null, Square(150.0, 150.0, 50.0), []);
    SquareAgainstRoot(el, null, host, false);
    r := ScrollUnlessVisible(el, NoScrollOptions, host);
    calls := |el.scrollCalls|;
  }

  /** Inside a 120x120 boundary element the target is left alone. */
  method InsideBoundaryIsLeftAlone() returns (r: Result<Outcome>, calls: nat)
    ensures r == Ok(Outcome(true, false)) && calls == 0
  {
    var host := GeometryHost(0.0, 0.0);
    var container := new Element(null, Square(0.0, 0.0, 120.0), []);
    var el := new Element(null, Square(10.0, 10.0, 50.0), []);
    SquareAgainstRoot(el, container, host, true);
    var opts := ScrollIntoViewIfNeededOptions(
      NoScrollOptions.(behavior := Some(Auto)), None, Some(BoundaryElement(container)));
    IfNeededDecision(el, opts, host, container, true);
    r := ScrollIntoViewIfNeeded(el, opts, host);
    calls := |el.scrollCalls|;
  }

  /** A target below the fold of its boundary is scrolled once, with the
      caller's behavior. The rectangle is the one the end-to-end test reports,
      whose right edge does not match its width; only the vertical overlap,
      which is negative, decides. */
  method BelowFoldIsScrolled() returns (r: Result<Outcome>, calls: seq<ScrollIntoViewOptions>)
    ensures r == Ok(Outcome(false, true))
    ensures |calls| == 1 && "behavior" in calls[0] && calls[0]["behavior"] == "auto"
  {
    var host := GeometryHost(0.0, 0.0);
    var container := new Element(null, Square(0.0, 0.0, 120.0), []);
    var el := new Element(null, Rect(200.0, 0.0, 250.0, 250.0, 50.0, 50.0), []);
    BelowFoldIsHidden(el, container, host);
    var opts := ScrollIntoViewIfNeededOptions(
      NoScrollOptions.(behavior := Some(Auto)), None, Some(BoundaryElement(container)));
    IfNeededDecision(el, opts, host, container, false);
    r := ScrollIntoViewIfNeeded(el, opts, host);
    calls := el.scrollCalls;
  }

  /** A target to the right of a 150x100 boundary is scrolled once. */
  method HorizontalIsScrolled() returns (r: Result<Outcome>, calls: nat)
    ensures r == Ok(Outcome(false, true)) && calls == 1
  {
    var host := GeometryHost(0.0, 0.0);
    var container := new Element(null, Rect(0.0, 0.0, 150.0, 100.0, 150.0, 100.0), []);
    var el := new Element(null, Square(0.0, 300.0, 50.0), []);
    SquareAgainstRoot(el, container, host, false);
    var opts := ScrollIntoViewIfNeededOptions(
      NoScrollOptions.(behavior := Some(Auto)), None, Some(BoundaryElement(container)));
    IfNeededDecision(el, opts, host, container, false);
    r := ScrollIntoViewIfNeeded(el, opts, host);
    calls := |el.scrollCalls|;
  }

  /** Without a DOM, `scrollUnlessVisible` fails with the library's message
      and makes no scroll call. */
  method NoDomIsAnError() returns (r: Result<Outcome>, calls: nat)
    ensures r == Err(EnvironmentError) && calls == 0
  {
    var el := new Element(null, Square(10.0, 10.0, 50.0), []);
    r := ScrollUnlessVisible(el, NoScrollOptions, NoDomHost);
    calls := |el.scrollCalls|;
  }

  /** Without a DOM, `scrollIntoViewIfNeeded` fails in both modes with the
      ReferenceError of its first `instanceof Element` test, before any scroll. */
  method NoDomIsAReferenceError() returns (ifNeeded: Result<Outcome>, always: Result<Outcome>, calls: nat)
    ensures ifNeeded == Err(ElementUndeclared) && always == Err(ElementUndeclared)
    ensures calls == 0
  {
    var el := new Element(null, Square(10.0, 10.0, 50.0), []);
    ifNeeded := ScrollIntoViewIfNeeded(el, NoIfNeededOptions, NoDomHost);
    always := ScrollIntoViewIfNeeded(el, NoIfNeededOptions.(scrollMode := Some(Always)), NoDomHost);
    calls := |el.scrollCalls|;
  }
}

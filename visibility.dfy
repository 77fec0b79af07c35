/** `isVisible` and the element-level geometry test `visibleByGeometry`. */
module Visibility {
  import opened Wrappers
  import opened Dom
  import opened Types
  import opened Threshold
  import opened RootMargin
  import opened Geometry
  import opened BoundaryResolver

  const EnvironmentError: string := "scroll-unless-visible requires a DOM-like environment."

  /** The rectangle the target is measured against: the root's reported edges,
      or the viewport when there is no root. */
  function RootBox(root: Element?, host: Host): Box {
    if root != null then BoxOf(root.rect) else ViewportBox(host)
  }

  /** `visibleByGeometry`. */
  function VisibleByGeometry(target: Element, root: Element?, rootMargin: string, threshold: real, host: Host): (visible: bool)
    ensures target.rect.width == 0.0 || target.rect.height == 0.0 ==> !visible
    ensures visible ==> NonEmpty(Meet(BoxOf(target.rect), ApplyMargin(RootBox(root, host), rootMargin)))
  {
    RectVisible(target.rect, RootBox(root, host), rootMargin, threshold)
  }

  /**
   * `isVisible`: fails without a DOM; then normalising a given root fails
   * when `Document` is undeclared; with IntersectionObserver available it
   * yields what the observation resolved to; otherwise it runs the geometry
   * test with the clamped threshold, the margin (default `"0px"`) and the
   * normalised root.
   */
  function IsVisible(target: Element, opts: VisibilityOptions, host: Host): (r: Result<bool>)
    ensures r.Err? <==> !host.HasDom() || (opts.root.Some? && !host.documentClass)
    ensures !host.HasDom() ==> r == Err(EnvironmentError)
    ensures host.HasDom() && opts.root.Some? && !host.documentClass ==> r == Err(DocumentUndeclared)
    ensures r.Ok? && host.observation.Some? ==> r.value == host.observation.value
    ensures r == Ok(true) && host.observation.None? ==> target.rect.width != 0.0 && target.rect.height != 0.0
  {
    if !host.HasDom() then Err(EnvironmentError)
    else
      var threshold := ClampRatio(opts.threshold);
      var rootMargin := opts.rootMargin.GetOr(DefaultRootMargin);
      if opts.root.Some? && !host.documentClass then Err(DocumentUndeclared)
      else
        var root := NormalizeRoot(opts.root);
        match host.observation
        case Some(observed) => Ok(observed)
        case None => Ok(VisibleByGeometry(target, root, rootMargin, threshold, host))
  }

  /** With a DOM, no observer and a root that can be normalised, `isVisible`
      is the geometry test on the normalised root, with the given margin (or
      `"0px"`) and the clamped threshold, whatever the options. */
  lemma GeometryBranch(target: Element, opts: VisibilityOptions, host: Host)
    requires host.HasDom() && host.observation.None?
    requires opts.root.None? || host.documentClass
    ensures IsVisible(target, opts, host)
         == Ok(RectVisible(target.rect, RootBox(NormalizeRoot(opts.root), host),
                           opts.rootMargin.GetOr(DefaultRootMargin), ClampRatio(opts.threshold)))
  {
  }

  /**
   * The geometry branch for every option: a laid-out target is visible
   * exactly when its intersection with the root (or viewport) expanded by the
   * given margin is non-empty and covers at least the clamped threshold's
   * fraction of its area. (With no margin given, `DefaultMeansFullyInRoot`
   * and `ApplyDefaultMargin` cover the default `"0px"`.)
   */
  lemma GeometryBranchIffCovered(target: Element, opts: VisibilityOptions, host: Host, margin: string)
    requires host.HasDom() && host.observation.None?
    requires opts.root.None? || host.documentClass
    requires opts.rootMargin == Some(margin)
    requires target.rect.Consistent() && target.rect.width > 0.0 && target.rect.height > 0.0
    ensures IsVisible(target, opts, host) == Ok(true)
        <==> CoveredFraction(target.rect, ApplyMargin(RootBox(NormalizeRoot(opts.root), host), margin), ClampRatio(opts.threshold))
  {
    var b := RootBox(NormalizeRoot(opts.root), host);
    var t := ClampRatio(opts.threshold);
    var r := IsVisible(target, opts, host);
    assert r == Ok(RectVisible(target.rect, b, margin, t)) by {
      GeometryBranch(target, opts, host);
    }
    VisibleResultIffCovered(r, target.rect, b, margin, t);
  }

  /** A result carrying the geometry test is `Ok(true)` exactly when the
      target is covered. */
  lemma VisibleResultIffCovered(r: Result<bool>, rect: Rect, b: Box, margin: string, t: real)
    requires rect.Consistent() && rect.width > 0.0 && rect.height > 0.0
    requires r == Ok(RectVisible(rect, b, margin, t))
    ensures r == Ok(true) <==> CoveredFraction(rect, ApplyMargin(b, margin), t)
  {
    VisibleIffCovered(rect, b, margin, t);
  }

  lemma OverlapWithinTarget(rect: Rect, e: Box)
    requires rect.Consistent()
    ensures OverlapWidth(rect, e) <= rect.width && OverlapHeight(rect, e) <= rect.height
  {
  }

  lemma StrictProduct(a: real, b: real, c: real, d: real)
    requires 0.0 < a <= c && 0.0 < b <= d && (a < c || b < d)
    ensures a * b < c * d
  {
    if a < c {
      assert a * b < c * b;
      assert c * b <= c * d;
    } else {
      assert a * b == c * b;
      assert c * b < c * d;
    }
  }

  /** At threshold 1 a laid-out target counts as covered exactly when it lies
      wholly inside the expanded root. */
  lemma {:induction false} FullCoverIffInside(rect: Rect, e: Box)
    requires rect.Consistent() && rect.width > 0.0 && rect.height > 0.0
    ensures Covers(rect, e, 1.0) <==> Inside(BoxOf(rect), e)
  {
    if Inside(BoxOf(rect), e) {
      ContainedCovers(rect, e, 1.0);
    } else {
      var w, h := OverlapWidth(rect, e), OverlapHeight(rect, e);
      OverlapWithinTarget(rect, e);
      assert w < rect.width || h < rect.height;
      CoversByProduct(rect, e, 1.0);
      if w > 0.0 && h > 0.0 {
        StrictProduct(w, h, rect.width, rect.height);
      }
    }
  }

  /**
   * With no options besides the root (threshold 1, margin `"0px"`) the
   * geometry fallback reports a laid-out target visible exactly when it lies
   * wholly inside the root's rectangle, or the viewport when there is no root.
   */
  lemma DefaultMeansFullyInRoot(target: Element, root: Option<RootRef>, host: Host)
    requires host.HasDom() && host.observation.None?
    requires root.None? || host.documentClass
    requires target.rect.Consistent() && target.rect.width > 0.0 && target.rect.height > 0.0
    ensures IsVisible(target, NoVisibilityOptions.(root := root), host) == Ok(true)
        <==> Inside(BoxOf(target.rect), RootBox(NormalizeRoot(root), host))
  {
    var b := RootBox(NormalizeRoot(root), host);
    ApplyDefaultMargin(b);
    FullCoverIffInside(target.rect, b);
  }

  /** With no options besides the root, a target whose reported box does not
      meet the root's rectangle (or the viewport) is not visible, whatever its
      reported size. */
  lemma ApartFromRootIsHidden(target: Element, root: Option<RootRef>, host: Host)
    requires host.HasDom() && host.observation.None?
    requires root.None? || host.documentClass
    requires !NonEmpty(Meet(BoxOf(target.rect), RootBox(NormalizeRoot(root), host)))
    ensures IsVisible(target, NoVisibilityOptions.(root := root), host) == Ok(false)
  {
    ApplyDefaultMargin(RootBox(NormalizeRoot(root), host));
  }
}

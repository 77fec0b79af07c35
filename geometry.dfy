/**
 * The synchronous geometry fallback: the viewport rectangle, the expansion
 * of the root rectangle by the margin (`applyMargin`) and the covered-area
 * test (`visibleByGeometry` on rectangles).
 */
module Geometry {
  import opened Wrappers
  import opened Dom
  import opened MarginTokens
  import opened RootMargin
  import opened Threshold

  /** `inner` lies within `outer`. */
  predicate Inside(inner: Box, outer: Box) {
    outer.top <= inner.top && outer.left <= inner.left
    && inner.right <= outer.right && inner.bottom <= outer.bottom
  }

  /** Moves the top and left edges out by their margins and the right and
      bottom edges out by theirs: positive margins enlarge the box. */
  function Grow(b: Box, m: Margin): (g: Box)
    ensures g.right - g.left == (b.right - b.left) + m.left + m.right
    ensures g.bottom - g.top == (b.bottom - b.top) + m.top + m.bottom
    ensures m == ZeroMargin ==> g == b
    ensures m.top >= 0.0 && m.right >= 0.0 && m.bottom >= 0.0 && m.left >= 0.0 ==> Inside(b, g)
  {
    Box(b.top - m.top, b.left - m.left, b.right + m.right, b.bottom + m.bottom)
  }

  function Negate(m: Margin): Margin {
    Margin(-m.top, -m.right, -m.bottom, -m.left)
  }

  /** Shrinking by a margin undoes growing by it. */
  lemma GrowInverse(b: Box, m: Margin)
    ensures Grow(Grow(b, m), Negate(m)) == b
  {
  }

  /** `applyMargin`: the root rectangle expanded by the parsed margin string,
      top and left outwards by their offsets, right and bottom outwards by
      theirs; a margin with no words leaves the rectangle as it is. */
  function ApplyMargin(b: Box, margin: string): (g: Box)
    ensures var m := ParseRootMargin(margin);
      && g.top == b.top - m.top && g.left == b.left - m.left
      && g.right == b.right + m.right && g.bottom == b.bottom + m.bottom
    ensures Tokens(margin) == [] ==> g == b
  {
    Grow(b, ParseRootMargin(margin))
  }

  /** The default margin leaves the root rectangle as it is. */
  lemma ApplyDefaultMargin(b: Box)
    ensures ApplyMargin(b, DefaultRootMargin) == b
  {
    DefaultMarginIsZero();
  }

  /** JavaScript truthiness of a possibly undefined number. */
  predicate Truthy(x: Option<real>) {
    x.Some? && x.value != 0.0
  }

  /** `a || b || 0` over possibly undefined numbers. */
  function FirstTruthy(a: Option<real>, b: Option<real>): (r: real)
    ensures Truthy(a) ==> r == a.value
    ensures !Truthy(a) && Truthy(b) ==> r == b.value
    ensures r == 0.0 <==> !Truthy(a) && !Truthy(b)
  {
    if Truthy(a) then a.value else if Truthy(b) then b.value else 0.0
  }

  /** `viewportRect`: the window's inner size, falling back to the document
      element's client size, then to 0. */
  function ViewportBox(host: Host): (b: Box)
    ensures b.top == 0.0 && b.left == 0.0
    ensures b.right == FirstTruthy(host.innerWidth, host.clientWidth)
    ensures b.bottom == FirstTruthy(host.innerHeight, host.clientHeight)
  {
    Box(0.0, 0.0, FirstTruthy(host.innerWidth, host.clientWidth),
        FirstTruthy(host.innerHeight, host.clientHeight))
  }

  // ---- the covered-area test ----------------------------------------------

  /** The common part of two boxes (possibly empty). */
  function Meet(a: Box, b: Box): Box {
    Box(Max(a.top, b.top), Max(a.left, b.left), Min(a.right, b.right), Min(a.bottom, b.bottom))
  }

  predicate NonEmpty(b: Box) {
    b.right - b.left > 0.0 && b.bottom - b.top > 0.0
  }

  function Area(b: Box): real {
    (b.right - b.left) * (b.bottom - b.top)
  }

  /** The reference reading of the covered-area test: the target's box meets
      `e` in a non-empty box holding at least the fraction `t` of its area. */
  predicate CoveredFraction(rect: Rect, e: Box, t: real) {
    var overlap := Meet(BoxOf(rect), e);
    NonEmpty(overlap) && Area(overlap) >= t * Area(BoxOf(rect))
  }

  lemma ProductNonZero(a: real, b: real)
    requires a != 0.0 && b != 0.0
    ensures a * b != 0.0
  {
  }

  /**
   * `part / whole >= t` for a non-zero `whole`, written without the division
   * (multiplying through by `whole` flips the comparison when it is negative).
   */
  predicate AtLeastFraction(part: real, whole: real, t: real)
    requires whole != 0.0
  {
    if whole > 0.0 then part >= t * whole else part <= t * whole
  }

  /** The multiplied-out comparison is the ratio comparison of the source. */
  lemma AtLeastFractionIsRatio(part: real, whole: real, t: real)
    requires whole != 0.0
    ensures AtLeastFraction(part, whole, t) <==> part / whole >= t
  {
    assert part / whole * whole == part;
    if whole > 0.0 {
      if part / whole >= t {
        assert part / whole * whole >= t * whole;
      } else {
        assert part / whole * whole < t * whole;
      }
    } else {
      if part / whole >= t {
        assert part / whole * whole <= t * whole;
      } else {
        assert part / whole * whole > t * whole;
      }
    }
  }

  /** Width of the overlap of the target with the expanded root. */
  function OverlapWidth(rect: Rect, e: Box): real {
    Min(rect.right, e.right) - Max(rect.left, e.left)
  }

  /** Height of the overlap of the target with the expanded root. */
  function OverlapHeight(rect: Rect, e: Box): real {
    Min(rect.bottom, e.bottom) - Max(rect.top, e.top)
  }
  /** The overlap's width and height are those of the common part of the
      target's box and the expanded root, and neither exceeds the extent of
      either box. */
  lemma OverlapIsMeet(rect: Rect, e: Box)
    ensures var m := Meet(BoxOf(rect), e);
      OverlapWidth(rect, e) == m.right - m.left && OverlapHeight(rect, e) == m.bottom - m.top
    ensures OverlapWidth(rect, e) <= rect.right - rect.left && OverlapWidth(rect, e) <= e.right - e.left
    ensures OverlapHeight(rect, e) <= rect.bottom - rect.top && OverlapHeight(rect, e) <= e.bottom - e.top
  {
  }


  /**
   * The covered-area comparison against an already expanded root: the
   * overlap must have positive width and height, and its area divided by the
   * reported area must reach the threshold.
   */
  function Covers(rect: Rect, expanded: Box, threshold: real): (covered: bool)
    requires rect.width != 0.0 && rect.height != 0.0
    ensures covered ==> NonEmpty(Meet(BoxOf(rect), expanded))
  {
    var visibleWidth := OverlapWidth(rect, expanded);
    var visibleHeight := OverlapHeight(rect, expanded);
    if visibleWidth <= 0.0 || visibleHeight <= 0.0 then false
    else
      var visibleArea := visibleWidth * visibleHeight;
      var totalArea := rect.width * rect.height;
      assert totalArea != 0.0 by { ProductNonZero(rect.width, rect.height); }
      AtLeastFraction(visibleArea, totalArea, threshold)
  }

  /**
   * `visibleByGeometry` once both rectangles are known: a target with a
   * reported width or height of 0 is never visible; otherwise it is visible
   * when the overlap with the root expanded by the margin covers enough.
   */
  function RectVisible(rect: Rect, root: Box, margin: string, threshold: real): (visible: bool)
    ensures rect.width == 0.0 || rect.height == 0.0 ==> !visible
    ensures visible ==> NonEmpty(Meet(BoxOf(rect), ApplyMargin(root, margin)))
  {
    if rect.width == 0.0 || rect.height == 0.0 then false
    else Covers(rect, ApplyMargin(root, margin), threshold)
  }

  /** The covered-area test, for a target of positive size. */
  lemma CoversByProduct(rect: Rect, e: Box, threshold: real)
    requires rect.width > 0.0 && rect.height > 0.0
    ensures var w, h := OverlapWidth(rect, e), OverlapHeight(rect, e);
      (Covers(rect, e, threshold)
       <==> w > 0.0 && h > 0.0 && w * h >= threshold * (rect.width * rect.height))
  {
    assert rect.width * rect.height > 0.0;
  }

  /** The covered-area test is the source's `visibleArea / totalArea >= threshold`. */
  lemma CoversIsRatio(rect: Rect, e: Box, threshold: real)
    requires rect.width != 0.0 && rect.height != 0.0
    ensures var w, h := OverlapWidth(rect, e), OverlapHeight(rect, e);
      (Covers(rect, e, threshold)
       <==> w > 0.0 && h > 0.0 && (w * h) / (rect.width * rect.height) >= threshold)
  {
    ProductNonZero(rect.width, rect.height);
    AtLeastFractionIsRatio(OverlapWidth(rect, e) * OverlapHeight(rect, e), rect.width * rect.height, threshold);
  }

  lemma ScaleAtMost(t: real, a: real)
    requires a > 0.0 && t <= 1.0
    ensures t * a <= a
  {
    assert (1.0 - t) * a >= 0.0;
  }

  lemma {:induction false} CoversIff(rect: Rect, e: Box, threshold: real)
    requires rect.Consistent() && rect.width > 0.0 && rect.height > 0.0
    ensures Covers(rect, e, threshold) <==> CoveredFraction(rect, e, threshold)
  {
    var overlap := Meet(BoxOf(rect), e);
    var w, h := OverlapWidth(rect, e), OverlapHeight(rect, e);
    assert overlap.right - overlap.left == w && overlap.bottom - overlap.top == h;
    assert Area(overlap) == w * h;
    var total := rect.width * rect.height;
    assert Area(BoxOf(rect)) == total;
    CoversByProduct(rect, e, threshold);
  }

  /**
   * For a laid-out target (edges agreeing with a positive width and height)
   * the test is the covered-area comparison written without division: the
   * overlap is non-empty and its area is at least `threshold` times the
   * target's area.
   */
  lemma VisibleIffCovered(rect: Rect, root: Box, margin: string, threshold: real)
    requires rect.Consistent() && rect.width > 0.0 && rect.height > 0.0
    ensures RectVisible(rect, root, margin, threshold)
        <==> CoveredFraction(rect, ApplyMargin(root, margin), threshold)
  {
    CoversIff(rect, ApplyMargin(root, margin), threshold);
  }

  lemma {:induction false} ContainedCovers(rect: Rect, e: Box, threshold: real)
    requires rect.Consistent() && rect.width > 0.0 && rect.height > 0.0
    requires Inside(BoxOf(rect), e)
    requires threshold <= 1.0
    ensures Covers(rect, e, threshold)
  {
    var area := rect.width * rect.height;
    assert OverlapWidth(rect, e) == rect.width && OverlapHeight(rect, e) == rect.height;
    assert area > 0.0 && threshold * area <= area by {
      ScaleAtMost(threshold, area);
    }
    CoversByProduct(rect, e, threshold);
  }

  /** A target lying wholly within the expanded root is visible at every
      threshold up to 1. */
  lemma ContainedIsVisible(rect: Rect, root: Box, margin: string, threshold: real)
    requires rect.Consistent() && rect.width > 0.0 && rect.height > 0.0
    requires Inside(BoxOf(rect), ApplyMargin(root, margin))
    requires threshold <= 1.0
    ensures RectVisible(rect, root, margin, threshold)
  {
    ContainedCovers(rect, ApplyMargin(root, margin), threshold);
  }

  lemma ScaleMonotone(t': real, t: real, x: real)
    requires t' <= t
    ensures x > 0.0 ==> t' * x <= t * x
    ensures x < 0.0 ==> t' * x >= t * x
  {
    assert (t - t') * x == t * x - t' * x;
    if x > 0.0 {
      assert (t - t') * x >= 0.0;
    } else if x < 0.0 {
      assert (t - t') * x <= 0.0;
    }
  }

  lemma {:induction false} CoversLowerThreshold(rect: Rect, e: Box, t: real, t': real)
    requires rect.width != 0.0 && rect.height != 0.0
    requires t' <= t
    requires Covers(rect, e, t)
    ensures Covers(rect, e, t')
  {
    var total := rect.width * rect.height;
    assert total != 0.0 by {
      ProductNonZero(rect.width, rect.height);
    }
    ScaleMonotone(t', t, total);
  }

  /** Lowering the threshold never hides a visible target. */
  lemma LowerThresholdStaysVisible(rect: Rect, root: Box, margin: string, t: real, t': real)
    requires t' <= t
    requires RectVisible(rect, root, margin, t)
    ensures RectVisible(rect, root, margin, t')
  {
    CoversLowerThreshold(rect, ApplyMargin(root, margin), t, t');
  }

  lemma ProductMonotone(a: real, b: real, c: real, d: real)
    requires 0.0 < a <= c && 0.0 < b <= d
    ensures a * b <= c * d
  {
    assert a * b <= c * b;
    assert c * b <= c * d;
  }

  lemma OverlapGrows(rect: Rect, ea: Box, eb: Box)
    requires Inside(ea, eb)
    ensures OverlapWidth(rect, ea) <= OverlapWidth(rect, eb)
    ensures OverlapHeight(rect, ea) <= OverlapHeight(rect, eb)
  {
  }

  lemma {:induction false} CoversGrows(rect: Rect, ea: Box, eb: Box, t: real)
    requires rect.width > 0.0 && rect.height > 0.0
    requires Inside(ea, eb)
    requires Covers(rect, ea, t)
    ensures Covers(rect, eb, t)
  {
    CoversByProduct(rect, ea, t);
    OverlapAreaGrows(rect, ea, eb);
    CoversByProduct(rect, eb, t);
  }

  /** A larger expanded root overlaps a target in at least the same area. */
  lemma OverlapAreaGrows(rect: Rect, ea: Box, eb: Box)
    requires Inside(ea, eb)
    requires OverlapWidth(rect, ea) > 0.0 && OverlapHeight(rect, ea) > 0.0
    ensures OverlapWidth(rect, ea) * OverlapHeight(rect, ea) <= OverlapWidth(rect, eb) * OverlapHeight(rect, eb)
  {
    var wa, ha, wb, hb := OverlapWidth(rect, ea), OverlapHeight(rect, ea), OverlapWidth(rect, eb), OverlapHeight(rect, eb);
    assert wa <= wb && ha <= hb;
    ProductMonotone(wa, ha, wb, hb);
  }

  /**
   * A larger expanded root (a bigger root rectangle or a bigger margin)
   * never hides a target of positive size that was visible.
   */
  lemma LargerRootStaysVisible(rect: Rect, a: Box, ma: string, b: Box, mb: string, t: real)
    requires rect.width > 0.0 && rect.height > 0.0
    requires Inside(ApplyMargin(a, ma), ApplyMargin(b, mb))
    requires RectVisible(rect, a, ma, t)
    ensures RectVisible(rect, b, mb, t)
  {
    CoversGrows(rect, ApplyMargin(a, ma), ApplyMargin(b, mb), t);
  }

  /** A target whose box misses the expanded root is not visible, whatever the threshold. */
  lemma DisjointIsHidden(rect: Rect, root: Box, margin: string, threshold: real)
    requires var e := ApplyMargin(root, margin);
      rect.right <= e.left || e.right <= rect.left || rect.bottom <= e.top || e.bottom <= rect.top
    ensures !RectVisible(rect, root, margin, threshold)
  {
  }
}

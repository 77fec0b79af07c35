# scroll-unless-visible, modelled in Dafny

`scroll-unless-visible` is a small browser utility. Before it scrolls an
element into view, it asks whether the element is already visible enough
inside a root: the viewport, an element, or an ancestor chosen by a
predicate. If it is, the page is left alone.
The model covers the synchronous core of `src/index.ts`:

- `clampRatio` normalises the threshold.
- `normalizeRoot` and `resolveRoot` choose the root; `resolveRoot` walks up
  `parentElement`.
- `viewportRect` gives the viewport rectangle.
- `parseRootMargin` and its `toPx` read the CSS-style margin shorthand.
- `applyMargin` expands the root rectangle by that margin.
- `visibleByGeometry` is the covered-area test.
- `isVisible` is the entry point that picks between the observer and the
  geometry test.
- `scrollUnlessVisible` and `scrollIntoViewIfNeeded` make the skip-or-scroll
  decision and build the options passed to `scrollIntoView`.

Layout, one module per file:

| file | module | what it holds |
|---|---|---|
| `wrappers.dfy` | `Wrappers` | `Option`, and `Result` (a thrown `Error` is `Err(message)`) |
| `dom.dfy` | `Dom` | the reported `Rect`, the edge `Box`, the `Host` environment, and the `Element` class with its parent chain and its log of `scrollIntoView` calls |
| `types.dfy` | `Types` | the option records and enumerations of the public API |
| `threshold.dfy` | `Threshold` | `clampRatio` |
| `margin_tokens.dfy` | `MarginTokens` | splitting on white space, and the `toPx` token pattern and its value |
| `root_margin.dfy` | `RootMargin` | `parseRootMargin` and the four-side shorthand |
| `geometry.dfy` | `Geometry` | `viewportRect`, `applyMargin`, and the covered-area test on rectangles |
| `boundary.dfy` | `BoundaryResolver` | `normalizeRoot`, and `resolveRoot` as a loop proved against a specification function |
| `visibility.dfy` | `Visibility` | `visibleByGeometry` and `isVisible` |
| `scroll.dfy` | `Scroll` | the two scroll entry points as methods that change the target |
| `scenarios.dfy` | `Scenarios` | the situations of `test/index.test.ts` and `test/e2e.test.ts`, proved against the model |

How the environment is modelled:

- Pixel values are real numbers.
- An element is an object with a fixed parent, a fixed bounding rectangle
  and a fixed class list. The one thing the utility changes on it is the
  sequence of `scrollIntoView` calls, which the scroll methods append to.
- The globals the code looks at are boolean fields of a `Host` value passed
  in: whether `window`, `document`, the `Element` constructor and the
  `Document` constructor are declared. `hasDOM` is the first three together.
- The window sizes are also `Host` fields.
- The result of the asynchronous `IntersectionObserver` path is a `Host`
  field too: an `Option<bool>` that is `None` when the observer is
  unavailable.
- A thrown exception is an `Err` carrying its message. An `instanceof` test
  against an undeclared constructor throws a ReferenceError, modelled as
  `Err("Element is not defined")` or `Err("Document is not defined")`.

Notable behaviours of the code:

- A negative threshold is clamped to 0 by `Math.max(0, value)`. It is not
  replaced by the default of 1.
- The geometry test divides by the width and height the rectangle reports.
  It does not use `right - left` or `bottom - top`.
- `scrollIntoViewIfNeeded` resolves the root before it looks at the mode.
  `"always"` mode then scrolls without calling `isVisible`.
- `resolveRoot` evaluates `boundary instanceof Element` on every call, and
  `boundary instanceof Document` on every call whose boundary is not an
  element. Without a DOM, `Element` is undeclared, so
  `scrollIntoViewIfNeeded` throws a ReferenceError in both modes and never
  reaches the DOM check of `isVisible`. `scrollUnlessVisible` fails with the
  library's own message instead. This is recorded under "## Findings".
- `normalizeRoot` tests a given root against `Document`, so a given root
  fails where `Document` is undeclared.
- The methods follow the code as written. The corrected entry point is
  stated alongside them as a function with its own proofs.

## Model

| member | source | states |
|---|---|---|
| `Threshold.ClampRatio` | src/index.ts:20-23 | the result lies in [0, 1]; an absent or NaN threshold gives the default 1; a finite value in [0, 1] is kept; above 1 gives 1 and below 0 gives 0, and likewise for the infinities |
| `Threshold.ClampIsNearest` | src/index.ts:22 | a finite threshold is moved to the nearest point of [0, 1] |
| `Threshold.ClampIdempotent` | src/index.ts:20-23 | clamping an already clamped threshold changes nothing |
| `Dom.Host.HasDom` | src/index.ts:13-16 | `window`, `document` and `Element` are all declared (a predicate, no contract of its own) |
| `Dom.Element.constructor` | test/index.test.ts:7-32 | a new element has a well-founded parent chain, the given parent, rectangle and classes, and no scroll calls |
| `Dom.Element.Ancestors` | src/index.ts:40-43 | the `parentElement` chain holds only valid elements above the element, excludes the element itself, and is empty exactly when there is no parent |
| `Dom.Element.AncestorsRise` | src/index.ts:40-43 | each ancestor lies strictly above the one before it, so the walk up `parentElement` ends |
| `Dom.Element.ScrollIntoView` | src/index.ts:194 | a call to `scrollIntoView` appends its options to the element's log and changes nothing else |
| `MarginTokens.IsSpace` | src/index.ts:58 | the characters `trim` and `\s` treat as white space: the ASCII spaces and line breaks, no-break space, the Unicode space separators, line and paragraph separators and the byte-order mark (a predicate, no contract of its own) |
| `MarginTokens.WordLength` | src/index.ts:58 | the run of non-space characters at the front is exactly as long as the text before the first white space |
| `MarginTokens.Tokens` | src/index.ts:58 | every token after trimming, splitting on `\s+` and dropping empty strings is non-empty and free of white space |
| `MarginTokens.NonSpaceAppend` | src/index.ts:58 | removing white space distributes over concatenation |
| `MarginTokens.NonSpaceOfWord` | src/index.ts:58 | a text without white space loses nothing when white space is removed |
| `MarginTokens.TokensKeepNonSpace` | src/index.ts:58 | the tokens, concatenated, are the input with its white space removed: no other character is lost or reordered |
| `MarginTokens.TokensSkipSpace` | src/index.ts:58 | leading white space does not change the tokens |
| `MarginTokens.WordLengthOfWord` | src/index.ts:58 | a word followed by white space or the end is taken whole |
| `MarginTokens.TokensOfUnwords` | src/index.ts:58 | words joined by single spaces split back into the same words |
| `MarginTokens.TokensOfSeparated` | src/index.ts:58 | a word followed by any non-empty run of white space (tabs, line breaks, several spaces) is split off whole and the run is dropped |
| `MarginTokens.TokensOfAllSpace` | src/index.ts:58 | text made only of white space, trailing white space included, has no tokens |
| `MarginTokens.DigitRun` | src/index.ts:60 | the digit run at the front is all ASCII digits and is followed by a non-digit or the end |
| `MarginTokens.ScanTail` | src/index.ts:60 | an accepted tail is an optional `.digits` and an optional case-insensitive `px`, and renders back to the input |
| `MarginTokens.ScanUnsigned` | src/index.ts:60 | an accepted unsigned part has a non-empty digit run, a well-formed tail, and renders back to the input |
| `MarginTokens.ScanPx` | src/index.ts:60 | whatever the pattern `^(-?\d+(?:\.\d+)?)(px)?$` (case-insensitive) accepts is a well-formed token whose text is the input |
| `MarginTokens.DigitRunOfDigits` | src/index.ts:60 | the digit run of a digit string followed by a non-digit is the whole digit string |
| `MarginTokens.ScanTailRender` | src/index.ts:60 | a well-formed fraction and unit are recognised as themselves |
| `MarginTokens.ScanUnsignedRender` | src/index.ts:60 | a well-formed unsigned number with its unit is recognised as itself |
| `MarginTokens.ScanRender` | src/index.ts:60 | every well-formed token is accepted and read back as itself, so the pattern and the rendering are inverse |
| `MarginTokens.RenderIsWord` | src/index.ts:58-60 | a well-formed token contains no white space, so splitting keeps it as one token |
| `MarginTokens.FractionValue` | src/index.ts:61 | the digits after the point are worth less than 1 |
| `MarginTokens.PxValue` | src/index.ts:61 | the integer digits are the integer part of the magnitude, and the sign is the token's: a plain token lies in [n, n+1), a negative one in (-n-1, -n] |
| `MarginTokens.ToPxOfRender` | src/index.ts:59-62 | a token that matches the pattern reads as its signed decimal value |
| `MarginTokens.ToPxOfMalformed` | src/index.ts:59-62 | a token that does not match the pattern reads as 0 |
| `MarginTokens.ToPx` | src/index.ts:59-62 | only a token the pattern accepts reads as non-zero, and only a token written with a leading minus reads as negative |
| `RootMargin.Shorthand` | src/index.ts:64-73 | no values give four zeros; one value applies to all sides; two give top/bottom and right/left; three give top, right/left and bottom; four give each side in order |
| `RootMargin.ShorthandIgnoresExtra` | src/index.ts:65-73 | values after the fourth play no part |
| `RootMargin.PixelValues` | src/index.ts:64 | one pixel value per token, each token read by `toPx` |
| `RootMargin.ParseRootMargin` | src/index.ts:57-74 | no words give no margin; otherwise the first word gives the top, the second the right (else the top), the third the bottom (else the top), the fourth the left (else the right), each read by `toPx` |
| `RootMargin.ParseWords` | src/index.ts:57-74 | a margin written as space-separated words parses as the shorthand of those words' pixel values |
| `RootMargin.ParseSingleLength` | src/index.ts:57-74 | a margin of one length applies that length to all four sides |
| `RootMargin.DefaultMarginIsZero` | src/index.ts:10 | the default margin `"0px"` is zero on every side |
| `RootMargin.TwentyPixelMargin` | test/index.test.ts:128 | `"20px"` is twenty pixels on every side |
| `Geometry.Grow` | src/index.ts:76-87 | the expanded box is wider by the left plus right margins and taller by the top plus bottom margins; a zero margin leaves it unchanged; non-negative margins contain the original |
| `Geometry.GrowInverse` | src/index.ts:81-86 | shrinking by the same margin undoes the expansion |
| `Geometry.ApplyMargin` | src/index.ts:76-87 | top and left move out (up and left) by their offsets and right and bottom move out by theirs; a margin with no words leaves the rectangle unchanged |
| `Geometry.ApplyDefaultMargin` | src/index.ts:10 | the default margin leaves the root rectangle unchanged |
| `Geometry.FirstTruthy` | src/index.ts:52-53 | `a \|\| b \|\| 0`: the first truthy size, else 0; the result is 0 exactly when neither size is truthy |
| `Geometry.ViewportBox` | src/index.ts:51-55 | the viewport has its corner at the origin and the inner size, falling back to the client size and then 0 |
| `Geometry.OverlapWidth` | src/index.ts:101 | the visible width, `min` of the right edges less `max` of the left edges (no contract of its own; see `OverlapIsMeet`) |
| `Geometry.OverlapHeight` | src/index.ts:102 | the visible height, likewise (no contract of its own; see `OverlapIsMeet`) |
| `Geometry.OverlapIsMeet` | src/index.ts:101-102 | the visible width and height are those of the common part of the target's box and the expanded root, and neither exceeds the extent of either box |
| `Geometry.AtLeastFractionIsRatio` | src/index.ts:108-110 | the multiplied-out comparison agrees with `part / whole >= threshold` for every non-zero whole, negative wholes included |
| `Geometry.Covers` | src/index.ts:101-110 | if a target is covered, its box meets the expanded root |
| `Geometry.RectVisible` | src/index.ts:95-110 | a target of zero width or height is never visible; a visible target meets the expanded root |
| `Geometry.CoversByProduct` | src/index.ts:101-110 | for a target of positive size, covered iff both overlaps are positive and their product reaches threshold times the reported area |
| `Geometry.CoversIsRatio` | src/index.ts:101-110 | covered iff both overlaps are positive and `visibleArea / totalArea >= threshold`, as the source computes it |
| `Geometry.CoversIff` | src/index.ts:101-110 | for a laid-out target, covered iff its intersection with the expanded root is non-empty and has at least the threshold fraction of its area (`CoveredFraction`) |
| `Geometry.VisibleIffCovered` | src/index.ts:95-110 | the same characterisation for the whole geometry test, against the root expanded by the margin string |
| `Geometry.ContainedCovers` | src/index.ts:101-110 | a laid-out target inside the expanded box is covered at any threshold up to 1 |
| `Geometry.ContainedIsVisible` | src/index.ts:95-110 | a laid-out target inside the expanded root is visible at any threshold up to 1 |
| `Geometry.CoversLowerThreshold` | src/index.ts:110 | a target covered at one threshold is covered at every lower one |
| `Geometry.LowerThresholdStaysVisible` | src/index.ts:110 | lowering the threshold never hides a visible target |
| `Geometry.OverlapGrows` | src/index.ts:101-102 | a larger expanded root never shrinks the overlaps |
| `Geometry.OverlapAreaGrows` | src/index.ts:101-106 | a larger expanded root overlaps a target in at least the same area |
| `Geometry.CoversGrows` | src/index.ts:99-110 | a target covered by an expanded root is covered by every larger one |
| `Geometry.LargerRootStaysVisible` | src/index.ts:98-110 | a bigger root or margin never hides a visible target of positive size |
| `Geometry.DisjointIsHidden` | src/index.ts:104 | a target wholly beside, above or below the expanded root is not visible at any threshold |
| `BoundaryResolver.NormalizeRoot` | src/index.ts:25-28 | the result is an element exactly when the root is given as an element, and it is that element; absent and document mean null |
| `BoundaryResolver.FirstMatch` | src/index.ts:41-44 | the index of the first chain element the predicate accepts, every earlier one rejected, or the chain's length when none is accepted |
| `BoundaryResolver.FirstMatchIsNearest` | src/index.ts:41-44 | along a chain of decreasing depth, every element deeper than the first accepted one is rejected |
| `BoundaryResolver.FirstAccepted` | src/index.ts:41-45 | null exactly when the predicate rejects every element of the chain; otherwise an accepted element of the chain |
| `BoundaryResolver.FirstAcceptedIsNearest` | src/index.ts:40-44 | along the `parentElement` chain, every ancestor deeper than the first accepted one is rejected |
| `BoundaryResolver.NearestAccepted` | src/index.ts:39-46 | null exactly when the predicate rejects every ancestor; otherwise an accepted proper ancestor (never the target), with every nearer ancestor rejected |
| `BoundaryResolver.ResolvedRoot` | src/index.ts:30-49 | an element boundary gives itself, the document gives null, a predicate gives the nearest accepted ancestor, and no boundary gives the normalised fallback |
| `BoundaryResolver.Resolution` | src/index.ts:25-49 | an undeclared `Element` fails every call with its ReferenceError; a declared `Element` with an undeclared `Document` fails every call with that one; with both the result is the resolved root |
| `BoundaryResolver.WalkToBoundary` | src/index.ts:39-46 | the loop up `parentElement` stops at the nearest accepted ancestor, or gives null when the predicate rejects them all |
| `BoundaryResolver.ResolveRoot` | src/index.ts:30-49 | the `instanceof` tests fail first when a constructor is undeclared; otherwise the boundary, the viewport, the walk or the fallback gives the resolved root; the result is exactly `Resolution` |
| `Visibility.RootBox` | src/index.ts:98 | the root's reported edges, or the viewport rectangle when there is no root (no contract of its own) |
| `Visibility.VisibleByGeometry` | src/index.ts:89-111 | a target of zero width or height is not visible; a visible target meets the expanded root or viewport |
| `Visibility.IsVisible` | src/index.ts:152-175 | fails exactly when there is no DOM (with the library's message) or a root is given while `Document` is undeclared (with its ReferenceError); with an observer the observation is returned; otherwise a visible target has non-zero size |
| `Visibility.GeometryBranch` | src/index.ts:160-174 | with a DOM, no observer and a root that can be normalised, the result is the geometry test on the normalised root with the given margin or `"0px"` and the clamped threshold, for every option |
| `Visibility.GeometryBranchIffCovered` | src/index.ts:160-174 | in that branch, for every given margin and threshold, a laid-out target is visible iff its intersection with the root expanded by that margin is non-empty and covers at least the clamped threshold's fraction of its area |
| `Visibility.OverlapWithinTarget` | src/index.ts:101-102 | the overlap of a laid-out target is never wider or taller than the target |
| `Visibility.FullCoverIffInside` | src/index.ts:101-110 | at threshold 1 a laid-out target is covered iff it lies wholly inside the expanded root |
| `Visibility.DefaultMeansFullyInRoot` | src/index.ts:9-10 | with a DOM (and a declared `Document` when a root is given), default options and no observer, a laid-out target is visible iff it lies wholly inside its root, or the viewport when there is none |
| `Visibility.ApartFromRootIsHidden` | src/index.ts:98-104 | with a DOM (and a declared `Document` when a root is given), default options and no observer, a target whose box does not meet its root is not visible, whatever its reported size |
| `Scroll.ScrollOptionsFor` | src/index.ts:187-192 | the keys are behavior, block and inline plus the extra keys; extra keys win; otherwise the defaults are "smooth", "nearest" and "nearest" |
| `Scroll.DefaultScrollOptions` | src/index.ts:187-192 | with nothing given, the scroll is smooth and to the nearest edge |
| `Scroll.UnlessVisibleEffect` | src/index.ts:181-195 | an error passes through with no scroll; `visible` is the visibility; `scrolled` holds iff the target was not visible, iff exactly one scroll with the built options is made |
| `Scroll.IfNeededEffect` | src/index.ts:203-227 | "always" reports not visible and scrolled, with one scroll; "if-needed" is the skip-or-scroll decision; at most one scroll, and `scrolled` says whether one happened |
| `Scroll.WithRoot` | src/index.ts:215 | `{ ...opts, root }` normalises back to the resolved root |
| `Scroll.ScrollUnlessVisible` | src/index.ts:177-196 | the result and the appended scroll calls are those of the skip-or-scroll decision on `isVisible` |
| `Scroll.IfNeededCall` | src/index.ts:198-228 | an undeclared `Element` or `Document` ends the call with its ReferenceError and no scroll, whatever the mode; otherwise the mode's decision with `isVisible` on the resolved root; at most one scroll, made exactly when `scrolled` is reported |
| `Scroll.ScrollIntoViewIfNeeded` | src/index.ts:198-228 | the result and the appended scroll calls are exactly those of `IfNeededCall`: a failed root resolution in either mode, else the mode's decision on `isVisible` with the resolved root |
| `Scroll.IsVisibleNormalisesRoot` | src/index.ts:163 | where `Document` is declared, `isVisible` depends on the root only through its normalised form |
| `Scroll.IfNeededWithoutBoundary` | src/index.ts:202-227 | where `Element` and `Document` are declared, without a boundary and outside "always" mode, `scrollIntoViewIfNeeded` behaves exactly as `scrollUnlessVisible` |
| `Scroll.MissingElementSkipsGuard` | src/index.ts:198-205 | the root is resolved (line 202) before anything else, and its first test (line 35) needs `Element`: without it, `scrollIntoViewIfNeeded` fails with the ReferenceError and no scroll in either mode, while `scrollUnlessVisible` fails with the library's message; the two errors differ |
| `Scroll.GuardedIfNeededCall` | src/index.ts:156-158 | the corrected entry point: without a DOM it fails with the library's message and makes no scroll, in either mode; with one it is `IfNeededCall` |
| `Scroll.GuardedAgreesWithUnlessVisible` | src/index.ts:177-228 | with the guard first, `scrollIntoViewIfNeeded` without a boundary and outside "always" mode equals `scrollUnlessVisible` wherever there is no DOM or `Document` is declared |
| `Scenarios.SquareAgainstRoot` | test/index.test.ts:91-103 | with a DOM, a declared `Document`, no observer and default options, a laid-out target is visible against a given root iff it lies inside it |
| `Scenarios.BelowFoldIsHidden` | test/e2e.test.ts:42-50 | the below-the-fold target is not visible in its boundary |
| `Scenarios.IfNeededDecision` | src/index.ts:215-227 | once root and visibility are known, "if-needed" reports that visibility and scrolls once exactly when the target is hidden |
| `Scenarios.InsideViewportIsVisible` | test/index.test.ts:91-103 | a target fully inside the viewport is visible |
| `Scenarios.OutsideViewportIsHidden` | test/index.test.ts:105-116 | a target outside the viewport is not visible |
| `Scenarios.RootMarginAndThreshold` | test/index.test.ts:118-130 | a quarter-covered target against a root grown by `"20px"` is visible at threshold 0.2 |
| `Scenarios.VisibleTargetIsLeftAlone` | test/index.test.ts:134-146 | a visible target reports visible, not scrolled, with no scroll call |
| `Scenarios.HiddenTargetIsScrolledOnce` | test/index.test.ts:148-160 | a hidden target is scrolled once, smoothly to the nearest edge |
| `Scenarios.AlwaysModeScrolls` | test/e2e.test.ts:52-63 | "always" scrolls a visible target once and reports it as scrolled |
| `Scenarios.PredicateBoundaryScrolls` | test/index.test.ts:171-189 | the predicate picks the ancestor with the class, and the target outside it is scrolled once |
| `Scenarios.UnlessVisibleScrolls` | test/index.test.ts:193-205 | `scrollUnlessVisible` scrolls a hidden target once |
| `Scenarios.InsideBoundaryIsLeftAlone` | test/e2e.test.ts:33-40 | a target inside its boundary is left alone |
| `Scenarios.BelowFoldIsScrolled` | test/e2e.test.ts:42-50 | a target below the fold is scrolled once with the caller's behavior "auto" |
| `Scenarios.HorizontalIsScrolled` | test/e2e.test.ts:65-72 | a target to the right of its boundary is scrolled once |
| `Scenarios.NoDomIsAnError` | src/index.ts:156-158 | without a DOM, `scrollUnlessVisible` fails with the library's message and makes no scroll call |
| `Scenarios.NoDomIsAReferenceError` | src/index.ts:30-36 | without a DOM, `scrollIntoViewIfNeeded` fails with the `Element` ReferenceError in "if-needed" and in "always" mode, and makes no scroll call |

## Left out

- `waitForIntersection` (the `IntersectionObserver` path with its timeout) is asynchronous and runs in the browser. The value it resolves to is an input, `Host.observation`. `timeoutMs` and its default of 150 ms play no part in the model.
- `hasDOM`, `observerSupported` and the `instanceof` tests inspect globals. They are the `Host` inputs `window`, `document`, `elementClass`, `documentClass` and `observation`. The model does not tell a ReferenceError from an `Error` except by its message.
- A boundary predicate is a total function from elements to booleans. A predicate that throws is not modelled.
- Scroll.IfNeededWithoutBoundary: is stated only where `Element` and `Document` are declared. Without `Element` the two fail with different errors (`Scroll.MissingElementSkipsGuard`). With `Element` but not `Document`, `scrollIntoViewIfNeeded` fails at the `instanceof Document` test of `resolveRoot`, while `scrollUnlessVisible` without a root answers.
- Scroll.GuardedAgreesWithUnlessVisible: holds only where there is no DOM or `Document` is declared. With a DOM but no `Document`, the guarded call still fails at the `instanceof Document` test of `resolveRoot`, while `scrollUnlessVisible` without a root never tests `Document` and answers.
- Scroll.IsVisibleNormalisesRoot: holds only where `Document` is declared. Without it a document root makes `isVisible` fail, while its normalised form, no root, does not; an element root fails on both sides.
- The effect of `scrollIntoView` on the page is not modelled. The model records only that the call happened and with which options.
- Numbers are exact reals. The model ignores IEEE-754 rounding, `-0`, and overflow of `Number(match[1])` for very long digit strings.
- A threshold that is not a number is modelled as an absent one. `typeof value !== "number"` treats both the same way.
- `ScrollIntoViewOptions` is a map from string to string. A key given explicitly as `undefined` in `scrollIntoViewOptions` is not representable.
- `src/types.ts` holds only type declarations. Its records and unions are the datatypes of `types.dfy`, and it has no logic of its own.
- An element's rectangle, parent and classes stay fixed while one call runs. Layout changes made by script during a call are not modelled.
- The Playwright suite exercises a real browser and is not modelled.

## Findings

| source | as written | input that shows it | evidently intended | confidence | as-written member | corrected member |
|---|---|---|---|---|---|---|
| src/index.ts:202 | `scrollIntoViewIfNeeded` calls `resolveRoot` before `isVisible`'s DOM check, and `resolveRoot` begins with `boundary instanceof Element` (line 35) | a host without DOM globals (server-side rendering): `Element` is undeclared, so the call throws "Element is not defined" in either mode | the call fails with "scroll-unless-visible requires a DOM-like environment.", as `scrollUnlessVisible` does | medium, not executed | `Scroll.MissingElementSkipsGuard` | `Scroll.GuardedIfNeededCall` |

/** Which element bounds the visibility test (`normalizeRoot`, `resolveRoot`). */
module BoundaryResolver {
  import opened Wrappers
  import opened Dom
  import opened Types

  /** `normalizeRoot`: absent, null and the document all mean the viewport
      (`null`). A given root is compared with `Document` by `instanceof`, so the callers
      rule out an undeclared `Document` first. */
  function NormalizeRoot(root: Option<RootRef>): (r: Element?)
    ensures r != null <==> root.Some? && root.value.RootElement?
    ensures r != null ==> r == root.value.element
  {
    match root
    case None => null
    case Some(RootDocument) => null
    case Some(RootElement(e)) => e
  }

  /** Index of the first element of `chain` satisfying `holds`, or `|chain|`. */
  function FirstMatch(chain: seq<Element>, holds: Element -> bool): (k: nat)
    ensures k <= |chain|
    ensures forall j :: 0 <= j < k ==> !holds(chain[j])
    ensures k < |chain| ==> holds(chain[k])
  {
    if chain == [] then 0
    else if holds(chain[0]) then 0
    else 1 + FirstMatch(chain[1..], holds)
  }

  /** Along a chain of strictly decreasing depth, everything deeper than the
      first accepted element comes before it and so was rejected. */
  lemma FirstMatchIsNearest(chain: seq<Element>, holds: Element -> bool)
    requires forall i, j :: 0 <= i < j < |chain| ==> chain[j].depth < chain[i].depth
    requires FirstMatch(chain, holds) < |chain|
    ensures var r := chain[FirstMatch(chain, holds)];
      forall a :: a in chain && a.depth > r.depth ==> !holds(a)
  {
    var k := FirstMatch(chain, holds);
    forall a | a in chain && a.depth > chain[k].depth
      ensures !holds(a)
    {
      var j :| 0 <= j < |chain| && chain[j] == a;
      DeeperComesFirst(chain, j, k);
    }
  }

  /** Along a chain of strictly decreasing depth, a deeper element comes first. */
  lemma DeeperComesFirst(chain: seq<Element>, j: nat, k: nat)
    requires forall p, q :: 0 <= p < q < |chain| ==> chain[q].depth < chain[p].depth
    requires j < |chain| && k < |chain| && chain[j].depth > chain[k].depth
    ensures j < k
  {
  }

  /**
   * The nearest proper ancestor of `target` that `holds` accepts, every
   * nearer ancestor being rejected; null (the viewport) when none is accepted.
   */
  function NearestAccepted(target: Element, holds: Element -> bool): (r: Element?)
    requires target.Valid()
    ensures r == null <==> forall j :: 0 <= j < |target.Ancestors()| ==> !holds(target.Ancestors()[j])
    ensures r != null ==> r in target.Ancestors() && r != target && holds(r)
    ensures r != null ==> forall a :: a in target.Ancestors() && a.depth > r.depth ==> !holds(a)
  {
    FirstAcceptedIsNearest(target, holds);
    FirstAccepted(target.Ancestors(), holds)
  }

  /** The first element of `chain` that `holds` accepts, or null. */
  function FirstAccepted(chain: seq<Element>, holds: Element -> bool): (r: Element?)
    ensures r == null <==> forall j :: 0 <= j < |chain| ==> !holds(chain[j])
    ensures r != null ==> r in chain && holds(r)
  {
    var k := FirstMatch(chain, holds);
    if k < |chain| then chain[k] else null
  }

  /** The first accepted ancestor is the nearest accepted one. */
  lemma FirstAcceptedIsNearest(target: Element, holds: Element -> bool)
    requires target.Valid()
    ensures var r := FirstAccepted(target.Ancestors(), holds);
      r != null ==> forall a :: a in target.Ancestors() && a.depth > r.depth ==> !holds(a)
  {
    var chain := target.Ancestors();
    if FirstMatch(chain, holds) < |chain| {
      target.AncestorsRise();
      FirstMatchIsNearest(chain, holds);
    }
  }


  /**
   * The boundary element for `target`: an element boundary as given, the
   * document as the viewport, a predicate as its nearest accepted ancestor,
   * and no boundary as the normalised fallback root.
   */
  function ResolvedRoot(target: Element, boundary: Option<Boundary>, fallback: Option<RootRef>): (r: Element?)
    requires target.Valid()
    ensures boundary.Some? && boundary.value.BoundaryElement? ==> r == boundary.value.element
    ensures boundary.Some? && boundary.value.BoundaryDocument? ==> r == null
    ensures boundary.Some? && boundary.value.BoundaryPredicate? ==> r == NearestAccepted(target, boundary.value.holds)
    ensures boundary.None? ==> r == NormalizeRoot(fallback)
  {
    match boundary
    case Some(BoundaryElement(e)) => e
    case Some(BoundaryDocument) => null
    case Some(BoundaryPredicate(holds)) => NearestAccepted(target, holds)
    case None => NormalizeRoot(fallback)
  }

  /**
   * `resolveRoot` with its failures. Its first test evaluates
   * `boundary instanceof Element` and, unless that holds, `boundary
   * instanceof Document`, whatever the boundary (absent included); the
   * element case then normalises, which tests against `Document` too. So an
   * undeclared `Element` fails every call, an undeclared `Document` fails
   * every call, and otherwise the root is the resolved one.
   */
  function Resolution(target: Element, boundary: Option<Boundary>, fallback: Option<RootRef>, host: Host): (r: Result<Element?>)
    requires target.Valid()
    ensures !host.elementClass ==> r == Err(ElementUndeclared)
    ensures host.elementClass && !host.documentClass ==> r == Err(DocumentUndeclared)
    ensures host.elementClass && host.documentClass ==> r == Ok(ResolvedRoot(target, boundary, fallback))
  {
    if !host.elementClass then Err(ElementUndeclared)
    else if !host.documentClass then Err(DocumentUndeclared)
    else Ok(ResolvedRoot(target, boundary, fallback))
  }

  /** The walk up `parentElement` from `target` that stops at the first
      ancestor `holds` accepts, or runs off the top (null). */
  method WalkToBoundary(target: Element, holds: Element -> bool) returns (root: Element?)
    requires target.Valid()
    ensures root == NearestAccepted(target, holds)
  {
    ghost var chain := target.Ancestors();
    ghost var i := 0;
    var current := target.parent;
    while current != null
      invariant current != null ==> current.Valid()
      invariant 0 <= i <= |chain|
      invariant Lineage(current) == chain[i..]
      invariant forall j :: 0 <= j < i ==> !holds(chain[j])
      decreases |chain| - i
    {
      assert chain[i] == current;
      if holds(current) {
        assert FirstMatch(chain, holds) == i;
        return current;
      }
      assert chain[i + 1..] == chain[i..][1..];
      current := current.parent;
      i := i + 1;
    }
    assert FirstMatch(chain, holds) == |chain|;
    root := null;
  }

  /** `resolveRoot`: the `instanceof` tests, then the boundary as given, the
      viewport for the document, the walk for a predicate, or the normalised
      fallback. */
  method ResolveRoot(target: Element, boundary: Option<Boundary>, fallback: Option<RootRef>, host: Host)
    returns (root: Result<Element?>)
    requires target.Valid()
    ensures root == Resolution(target, boundary, fallback, host)
  {
    if !host.elementClass {
      return Err(ElementUndeclared);
    }
    if !host.documentClass {
      return Err(DocumentUndeclared);
    }
    match boundary {
      case Some(BoundaryElement(e)) =>
        root := Ok(e);
      case Some(BoundaryDocument) =>
        root := Ok(null);
      case Some(BoundaryPredicate(holds)) =>
        var found := WalkToBoundary(target, holds);
        root := Ok(found);
      case None =>
        root := Ok(NormalizeRoot(fallback));
    }
  }
}

/** The option records and enumerations of the public interface. */
module Types {
  import opened Wrappers
  import opened Dom

  datatype ScrollMode = Always | IfNeeded

  /** A `root` option: an element or the document (absent or null is `None`). */
  datatype RootRef = RootElement(element: Element) | RootDocument

  /** A `boundary` option: an element, the document, or an ancestor predicate. */
  datatype Boundary =
    | BoundaryElement(element: Element)
    | BoundaryDocument
    | BoundaryPredicate(holds: Element -> bool)

  /** A JavaScript number, as far as the threshold is concerned. */
  datatype JsNumber = Finite(value: real) | NaN | PositiveInfinity | NegativeInfinity

  datatype Behavior = Auto | Instant | Smooth

  datatype LogicalPosition = Start | Center | End | Nearest

  function BehaviorName(b: Behavior): string {
    match b
    case Auto => "auto"
    case Instant => "instant"
    case Smooth => "smooth"
  }

  function PositionName(p: LogicalPosition): string {
    match p
    case Start => "start"
    case Center => "center"
    case End => "end"
    case Nearest => "nearest"
  }

  /** `threshold` is None when undefined or not of type number. */
  datatype VisibilityOptions = VisibilityOptions(
    root: Option<RootRef>,
    threshold: Option<JsNumber>,
    rootMargin: Option<string>,
    timeoutMs: Option<real>)

  datatype ScrollUnlessVisibleOptions = ScrollUnlessVisibleOptions(
    visibility: VisibilityOptions,
    behavior: Option<Behavior>,
    block: Option<LogicalPosition>,
    inline: Option<LogicalPosition>,
    scrollIntoViewOptions: Option<ScrollIntoViewOptions>)

  datatype ScrollIntoViewIfNeededOptions = ScrollIntoViewIfNeededOptions(
    scroll: ScrollUnlessVisibleOptions,
    scrollMode: Option<ScrollMode>,
    boundary: Option<Boundary>)

  /** The `{}` each entry point defaults to. */
  const NoVisibilityOptions := VisibilityOptions(None, None, None, None)
  const NoScrollOptions := ScrollUnlessVisibleOptions(NoVisibilityOptions, None, None, None, None)
  const NoIfNeededOptions := ScrollIntoViewIfNeededOptions(NoScrollOptions, None, None)
}

/** `parseRootMargin`: the margin shorthand read as four pixel offsets. */
module RootMargin {
  import opened Wrappers
  import opened MarginTokens

  /** Offsets in pixels, in the order of the CSS margin shorthand. */
  datatype Margin = Margin(top: real, right: real, bottom: real, left: real)

  const DefaultRootMargin: string := "0px"

  const ZeroMargin := Margin(0.0, 0.0, 0.0, 0.0)

  function Nth(values: seq<real>, i: nat): Option<real> {
    if i < |values| then Some(values[i]) else None
  }

  /**
   * The destructuring of the parsed values into four sides, each missing
   * side falling back through `??` to the one the shorthand copies it from.
   * The result follows the table of the margin shorthand in section 8.3 of
   * CSS 2.1.
   */
  function Shorthand(values: seq<real>): (m: Margin)
    ensures |values| == 0 ==> m == ZeroMargin
    ensures |values| == 1 ==> m == Margin(values[0], values[0], values[0], values[0])
    ensures |values| == 2 ==> m == Margin(values[0], values[1], values[0], values[1])
    ensures |values| == 3 ==> m == Margin(values[0], values[1], values[2], values[1])
    ensures |values| >= 4 ==> m == Margin(values[0], values[1], values[2], values[3])
  {
    var vs := if |values| > 0 then values else [0.0, 0.0, 0.0, 0.0];
    var top, right, bottom, left := Nth(vs, 0), Nth(vs, 1), Nth(vs, 2), Nth(vs, 3);
    Margin(
      top.GetOr(0.0),
      right.GetOr(top.GetOr(0.0)),
      bottom.GetOr(top.GetOr(0.0)),
      left.GetOr(right.GetOr(top.GetOr(0.0))))
  }

  /** Values after the fourth play no part. */
  lemma ShorthandIgnoresExtra(values: seq<real>)
    requires |values| > 4
    ensures Shorthand(values) == Shorthand(values[..4])
  {
  }

  /** `tokens.map(toPx)`. */
  function PixelValues(tokens: seq<string>): (vs: seq<real>)
    ensures |vs| == |tokens|
    ensures forall i :: 0 <= i < |tokens| ==> vs[i] == ToPx(tokens[i])
  {
    seq(|tokens|, i requires 0 <= i < |tokens| => ToPx(tokens[i]))
  }

  /** `parseRootMargin`: the words of the margin, each read by `toPx`, laid
      out on the four sides by the shorthand; no words at all is no margin. */
  function ParseRootMargin(margin: string): (m: Margin)
    ensures var ts := Tokens(margin);
      && (|ts| == 0 ==> m == ZeroMargin)
      && (|ts| > 0 ==> m.top == ToPx(ts[0]))
      && (|ts| > 0 ==> m.right == if |ts| > 1 then ToPx(ts[1]) else m.top)
      && (|ts| > 0 ==> m.bottom == if |ts| > 2 then ToPx(ts[2]) else m.top)
      && (|ts| > 0 ==> m.left == if |ts| > 3 then ToPx(ts[3]) else m.right)
  {
    Shorthand(PixelValues(Tokens(margin)))
  }

  /** Words separated by spaces are read side by side, in shorthand order. */
  lemma ParseWords(words: seq<string>)
    requires forall i :: 0 <= i < |words| ==> IsWord(words[i])
    ensures ParseRootMargin(Unwords(words)) == Shorthand(PixelValues(words))
  {
    TokensOfUnwords(words);
  }

  /** A margin written as one length applies that length to all four sides. */
  lemma ParseSingleLength(t: PxToken)
    requires WellFormed(t)
    ensures var v := PxValue(t);
      ParseRootMargin(Render(t)) == Margin(v, v, v, v)
  {
    var s := Render(t);
    RenderIsWord(t);
    ParseWords([s]);
    ToPxOfRender(t);
  }

  /** The default margin `"0px"` is zero on every side. */
  lemma DefaultMarginIsZero()
    ensures ParseRootMargin(DefaultRootMargin) == ZeroMargin
  {
    var t := PxToken(false, "0", None, "px");
    assert Render(t) == DefaultRootMargin;
    assert "0"[..0] == "";
    ParseSingleLength(t);
  }

  /** `"20px"` is twenty pixels on every side. */
  lemma TwentyPixelMargin()
    ensures ParseRootMargin("20px") == Margin(20.0, 20.0, 20.0, 20.0)
  {
    var t := PxToken(false, "20", None, "px");
    assert Render(t) == "20px";
    assert "20"[..1] == "2" && "2"[..0] == "";
    assert DigitsValue("2") == 2;
    assert DigitsValue("20") == 20;
    ParseSingleLength(t);
  }
}

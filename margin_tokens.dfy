/**
 * The lexical part of `parseRootMargin`: splitting the margin string into
 * whitespace-separated tokens (`trim().split(/\s+/).filter(Boolean)`) and
 * reading one token as a pixel length (`toPx`).
 */
module MarginTokens {
  import opened Wrappers

  /** The characters JavaScript's `\s` and `trim` treat as white space. */
  predicate IsSpace(c: char) {
    || c == ' ' || c == '\t' || c == '\n' || c == '\r'
    || c == '\U{000B}' || c == '\U{000C}' || c == '\U{00A0}' || c == '\U{1680}'
    || ('\U{2000}' <= c <= '\U{200A}')
    || c == '\U{2028}' || c == '\U{2029}' || c == '\U{202F}' || c == '\U{205F}'
    || c == '\U{3000}' || c == '\U{FEFF}'
  }

  /** A token: non-empty and free of white space. */
  predicate IsWord(t: string) {
    |t| > 0 && forall i :: 0 <= i < |t| ==> !IsSpace(t[i])
  }

  /** Length of the run of non-space characters that starts `s`. */
  function WordLength(s: string): (n: nat)
    ensures n <= |s|
    ensures forall i :: 0 <= i < n ==> !IsSpace(s[i])
    ensures n < |s| ==> IsSpace(s[n])
  {
    if s == [] || IsSpace(s[0]) then 0 else 1 + WordLength(s[1..])
  }

  /** The maximal runs of non-space characters of `s`, in order. */
  function Tokens(s: string): (ts: seq<string>)
    ensures forall i :: 0 <= i < |ts| ==> IsWord(ts[i])
    decreases |s|
  {
    if s == [] then []
    else if IsSpace(s[0]) then Tokens(s[1..])
    else
      var n := WordLength(s);
      [s[..n]] + Tokens(s[n..])
  }

  /** The characters of `s` that are not white space, in order. */
  function NonSpace(s: string): string {
    if s == [] then [] else (if IsSpace(s[0]) then [] else [s[0]]) + NonSpace(s[1..])
  }

  function Concat(ts: seq<string>): string {
    if ts == [] then [] else ts[0] + Concat(ts[1..])
  }

  /** Tokens joined by single spaces. */
  function Unwords(ts: seq<string>): string {
    if ts == [] then []
    else if |ts| == 1 then ts[0]
    else ts[0] + " " + Unwords(ts[1..])
  }

  lemma {:induction false} NonSpaceAppend(a: string, b: string)
    ensures NonSpace(a + b) == NonSpace(a) + NonSpace(b)
  {
    if a == [] {
      assert a + b == b;
    } else {
      assert (a + b)[1..] == a[1..] + b;
      NonSpaceAppend(a[1..], b);
    }
  }

  lemma {:induction false} NonSpaceOfWord(w: string)
    requires forall i :: 0 <= i < |w| ==> !IsSpace(w[i])
    ensures NonSpace(w) == w
  {
    if w != [] {
      NonSpaceOfWord(w[1..]);
    }
  }

  /** Splitting loses exactly the white space: no other character is dropped,
      reordered or invented. */
  lemma {:induction false} TokensKeepNonSpace(s: string)
    ensures Concat(Tokens(s)) == NonSpace(s)
    decreases |s|
  {
    if s == [] {
    } else if IsSpace(s[0]) {
      TokensKeepNonSpace(s[1..]);
    } else {
      var n := WordLength(s);
      assert s == s[..n] + s[n..];
      NonSpaceAppend(s[..n], s[n..]);
      NonSpaceOfWord(s[..n]);
      TokensKeepNonSpace(s[n..]);
      assert Tokens(s) == [s[..n]] + Tokens(s[n..]);
      assert ([s[..n]] + Tokens(s[n..]))[1..] == Tokens(s[n..]);
    }
  }

  /** Leading white space (what `trim` removes at the front) does not matter. */
  lemma {:induction false} TokensSkipSpace(w: string, s: string)
    requires forall i :: 0 <= i < |w| ==> IsSpace(w[i])
    ensures Tokens(w + s) == Tokens(s)
  {
    if w == [] {
      assert w + s == s;
    } else {
      assert (w + s)[0] == w[0];
      assert (w + s)[1..] == w[1..] + s;
      TokensSkipSpace(w[1..], s);
    }
  }

  lemma {:induction false} WordLengthOfWord(t: string, rest: string)
    requires forall i :: 0 <= i < |t| ==> !IsSpace(t[i])
    requires rest == [] || IsSpace(rest[0])
    ensures WordLength(t + rest) == |t|
  {
    if t != [] {
      assert (t + rest)[1..] == t[1..] + rest;
      WordLengthOfWord(t[1..], rest);
    } else {
      assert t + rest == rest;
    }
  }

  /** Splitting undoes joining: words joined by spaces split back into the same words. */
  lemma {:induction false} TokensOfUnwords(ts: seq<string>)
    requires forall i :: 0 <= i < |ts| ==> IsWord(ts[i])
    ensures Tokens(Unwords(ts)) == ts
  {
    if ts == [] {
    } else if |ts| == 1 {
      var t := ts[0];
      WordLengthOfWord(t, []);
      assert t + [] == t;
      assert t[..|t|] == t && t[|t|..] == [];
    } else {
      var t, rest := ts[0], Unwords(ts[1..]);
      var s := t + " " + rest;
      assert s == t + (" " + rest);
      WordLengthOfWord(t, " " + rest);
      assert s[..|t|] == t;
      assert s[|t|..] == " " + rest;
      TokensSkipSpace(" ", rest);
      TokensOfUnwords(ts[1..]);
      assert Tokens(s) == [t] + ts[1..];
    }
  }

  /** A word followed by any non-empty run of white space (tabs, line breaks,
      several spaces) is split off whole, and the run is dropped. */
  lemma TokensOfSeparated(w: string, sp: string, s: string)
    requires IsWord(w)
    requires |sp| > 0 && forall i :: 0 <= i < |sp| ==> IsSpace(sp[i])
    ensures Tokens(w + (sp + s)) == [w] + Tokens(s)
  {
    var t := w + (sp + s);
    WordLengthOfWord(w, sp + s);
    assert t[..|w|] == w;
    assert t[|w|..] == sp + s;
    TokensSkipSpace(sp, s);
  }

  /** Text made only of white space (trailing white space included) has no tokens. */
  lemma TokensOfAllSpace(sp: string)
    requires forall i :: 0 <= i < |sp| ==> IsSpace(sp[i])
    ensures Tokens(sp) == []
  {
    TokensSkipSpace(sp, []);
    assert sp + [] == sp;
  }

  // ---- one token as a pixel length ----------------------------------------

  predicate IsDigit(c: char) { '0' <= c <= '9' }

  predicate AllDigits(s: string) {
    forall i :: 0 <= i < |s| ==> IsDigit(s[i])
  }

  /** The optional, case-insensitive `px` suffix. */
  predicate IsPxUnit(u: string) {
    u == [] || (|u| == 2 && (u[0] == 'p' || u[0] == 'P') && (u[1] == 'x' || u[1] == 'X'))
  }

  /** A token of the form `-?\d+(\.\d+)?(px)?`, taken apart. */
  datatype PxToken = PxToken(negative: bool, whole: string, fraction: Option<string>, unit: string)

  predicate FractionOk(f: Option<string>) {
    f.Some? ==> |f.value| > 0 && AllDigits(f.value)
  }

  predicate WellFormed(t: PxToken) {
    |t.whole| > 0 && AllDigits(t.whole) && FractionOk(t.fraction) && IsPxUnit(t.unit)
  }

  function SignText(negative: bool): string {
    if negative then "-" else ""
  }

  function FractionText(f: Option<string>): string {
    match f
    case None => ""
    case Some(digits) => "." + digits
  }

  /** The text of a token. */
  function Render(t: PxToken): string {
    SignText(t.negative) + (t.whole + (FractionText(t.fraction) + t.unit))
  }

  /** Length of the run of ASCII digits that starts `s`. */
  function DigitRun(s: string): (n: nat)
    ensures n <= |s|
    ensures AllDigits(s[..n])
    ensures n < |s| ==> !IsDigit(s[n])
  {
    if s == [] || !IsDigit(s[0]) then 0
    else
      var n := DigitRun(s[1..]);
      assert s[..n + 1] == [s[0]] + s[1..][..n];
      n + 1
  }

  /** What may follow the integer digits: an optional `.digits`, then the unit. */
  function ScanTail(rest: string): (r: Option<(Option<string>, string)>)
    ensures r.Some? ==> FractionOk(r.value.0) && IsPxUnit(r.value.1)
    ensures r.Some? ==> FractionText(r.value.0) + r.value.1 == rest
  {
    if |rest| > 0 && rest[0] == '.' then
      var after := rest[1..];
      var f := DigitRun(after);
      if f > 0 && IsPxUnit(after[f..]) then
        var digits, unit := after[..f], after[f..];
        assert FractionText(Some(digits)) + unit == rest by {
          assert after == digits + unit;
          assert rest == [rest[0]] + after;
        }
        Some((Some(digits), unit))
      else None
    else if IsPxUnit(rest) then
      assert FractionText(None) + rest == rest;
      Some((None, rest))
    else None
  }

  /** The unsigned part `\d+(\.\d+)?(px)?`, taken apart. */
  function ScanUnsigned(body: string): (r: Option<(string, Option<string>, string)>)
    ensures r.Some? ==> |r.value.0| > 0 && AllDigits(r.value.0)
    ensures r.Some? ==> FractionOk(r.value.1) && IsPxUnit(r.value.2)
    ensures r.Some? ==> r.value.0 + (FractionText(r.value.1) + r.value.2) == body
  {
    var w := DigitRun(body);
    if w == 0 then None
    else
      match ScanTail(body[w..])
      case None => None
      case Some((fraction, unit)) =>
        assert body == body[..w] + body[w..];
        Some((body[..w], fraction, unit))
  }

  /**
   * The anchored match of `^(-?\d+(?:\.\d+)?)(px)?$` (case-insensitive):
   * the parts of `s`, or None when the pattern does not match.
   */
  function ScanPx(s: string): (r: Option<PxToken>)
    ensures r.Some? ==> WellFormed(r.value) && Render(r.value) == s
  {
    var negative := |s| > 0 && s[0] == '-';
    var body := if negative then s[1..] else s;
    assert s == SignText(negative) + body;
    match ScanUnsigned(body)
    case None => None
    case Some((whole, fraction, unit)) => Some(PxToken(negative, whole, fraction, unit))
  }

  lemma {:induction false} DigitRunOfDigits(d: string, tail: string)
    requires AllDigits(d)
    requires tail == [] || !IsDigit(tail[0])
    ensures DigitRun(d + tail) == |d|
  {
    if d == [] {
      assert d + tail == tail;
    } else {
      assert (d + tail)[0] == d[0];
      assert (d + tail)[1..] == d[1..] + tail;
      DigitRunOfDigits(d[1..], tail);
    }
  }

  lemma ScanTailRender(f: Option<string>, unit: string)
    requires FractionOk(f) && IsPxUnit(unit)
    ensures ScanTail(FractionText(f) + unit) == Some((f, unit))
  {
    var rest := FractionText(f) + unit;
    match f
    case None =>
      assert rest == unit;
    case Some(digits) =>
      assert rest == "." + (digits + unit);
      assert rest[1..] == digits + unit;
      DigitRunOfDigits(digits, unit);
      assert rest[1..][..|digits|] == digits;
      assert rest[1..][|digits|..] == unit;
  }

  lemma ScanUnsignedRender(whole: string, f: Option<string>, unit: string)
    requires |whole| > 0 && AllDigits(whole) && FractionOk(f) && IsPxUnit(unit)
    ensures ScanUnsigned(whole + (FractionText(f) + unit)) == Some((whole, f, unit))
  {
    var tail := FractionText(f) + unit;
    var body := whole + tail;
    assert tail == [] || !IsDigit(tail[0]);
    DigitRunOfDigits(whole, tail);
    assert body[..|whole|] == whole;
    assert body[|whole|..] == tail;
    ScanTailRender(f, unit);
  }

  /** Every well-formed token is recognised and taken apart into itself. */
  lemma ScanRender(t: PxToken)
    requires WellFormed(t)
    ensures ScanPx(Render(t)) == Some(t)
  {
    var body := t.whole + (FractionText(t.fraction) + t.unit);
    var s := Render(t);
    if t.negative {
      assert s == "-" + body;
      assert s[0] == '-' && s[1..] == body;
    } else {
      assert s == body && s[0] == t.whole[0];
    }
    ScanUnsignedRender(t.whole, t.fraction, t.unit);
  }

  /** A rendered token contains no white space. */
  lemma RenderIsWord(t: PxToken)
    requires WellFormed(t)
    ensures IsWord(Render(t))
  {
    var s := Render(t);
    var f := FractionText(t.fraction);
    assert forall i :: 0 <= i < |f| ==> f[i] == '.' || IsDigit(f[i]);
    assert forall i :: 0 <= i < |t.unit| ==> t.unit[i] in "pPxX";
    assert s == SignText(t.negative) + (t.whole + (f + t.unit));
  }

  /** Decimal value of a digit string. */
  function DigitsValue(ds: string): nat
    requires AllDigits(ds)
  {
    if ds == [] then 0
    else DigitsValue(ds[..|ds| - 1]) * 10 + (ds[|ds| - 1] as int - '0' as int)
  }

  function Pow10(n: nat): (p: nat)
    ensures p >= 1
  {
    if n == 0 then 1 else 10 * Pow10(n - 1)
  }

  /** A digit string of length `n` is worth less than `10^n`, so a fraction
      `.digits` is worth less than 1. */
  lemma {:induction false} DigitsBelowPow10(ds: string)
    requires AllDigits(ds)
    ensures DigitsValue(ds) < Pow10(|ds|)
  {
    if ds != [] {
      DigitsBelowPow10(ds[..|ds| - 1]);
    }
  }

  /** The digits after the point, as a fraction below 1. */
  function FractionValue(f: string): (v: real)
    requires AllDigits(f)
    ensures 0.0 <= v < 1.0
  {
    DigitsBelowPow10(f);
    RatioBelowOne(DigitsValue(f) as real, Pow10(|f|) as real);
    DigitsValue(f) as real / Pow10(|f|) as real
  }

  lemma RatioBelowOne(x: real, y: real)
    requires 0.0 <= x < y
    ensures 0.0 <= x / y < 1.0
  {
  }

  /** `Number(match[1])`: the signed decimal value of a well-formed token.
      The integer digits give its integer part and the sign its sign. */
  function PxValue(t: PxToken): (r: real)
    requires WellFormed(t)
    ensures var whole := DigitsValue(t.whole) as real;
      !t.negative ==> whole <= r < whole + 1.0
    ensures var whole := DigitsValue(t.whole) as real;
      t.negative ==> -whole - 1.0 < r <= -whole
  {
    var magnitude := DigitsValue(t.whole) as real
      + if t.fraction.Some? then FractionValue(t.fraction.value) else 0.0;
    if t.negative then -magnitude else magnitude
  }



  /** `toPx`: a token's pixel value, or 0 when it does not match the pattern.
      Only a matching token reads as non-zero, and only one written with a
      leading minus reads as negative. */
  function ToPx(token: string): (r: real)
    ensures r != 0.0 ==> ScanPx(token).Some?
    ensures r < 0.0 ==> |token| > 0 && token[0] == '-'
  {
    match ScanPx(token)
    case Some(t) => PxValue(t)
    case None => 0.0
  }

  /** A token written as a signed decimal with an optional `px` reads as its value. */
  lemma ToPxOfRender(t: PxToken)
    requires WellFormed(t)
    ensures ToPx(Render(t)) == PxValue(t)
  {
    ScanRender(t);
  }

  /** Any token that is not a signed decimal with an optional `px` reads as 0. */
  lemma ToPxOfMalformed(s: string)
    requires forall t :: WellFormed(t) ==> Render(t) != s
    ensures ToPx(s) == 0.0
  {
  }
}

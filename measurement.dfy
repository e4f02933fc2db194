/**
 * Measurement fields of a log line. The line pattern captures either the
 * sentinel `err` or a token of the shape `-?[\d.]+`; the parser maps the
 * sentinel to an absent value and hands the token to `float()`, which raises
 * ValueError unless the token is an optional minus, digits and at most one
 * decimal point with at least one digit. Values are kept as exact decimals
 * rather than binary floating point.
 */
module Measurement {

  import opened Wrappers
  import opened Text

  /** The number (-1)^negative * units / 10^scale; `negative` keeps float's -0.0 apart from 0.0. */
  datatype Decimal = Decimal(negative: bool, units: nat, scale: nat)

  /** A measurement column: None in the source when the sentinel was logged. */
  datatype Reading = Missing | Present(value: Decimal)

  ghost function Value(d: Decimal): real {
    (if d.negative then -1.0 else 1.0) * (d.units as real / Pow10(d.scale) as real)
  }

  /** `[\d.]+`. */
  predicate IsNumerals(s: string) {
    s != [] && All(s, IsNumeral)
  }

  /** `-?[\d.]+`, the numeric alternative of a measurement group. */
  predicate IsNumberToken(t: string) {
    IsNumerals(t) || (t != [] && t[0] == '-' && IsNumerals(t[1..]))
  }

  /** What a measurement group can capture: the sentinel or a numeric token. */
  predicate IsReadingText(t: string) {
    t == "err" || IsNumberToken(t)
  }

  /** The token without its minus sign. */
  function Magnitude(t: string): (b: string)
    requires IsNumberToken(t)
    ensures IsNumerals(b)
  {
    if t[0] == '-' then t[1..] else t
  }

  predicate AtMostOneDot(b: string) {
    forall i, j :: 0 <= i < |b| && 0 <= j < |b| && b[i] == '.' && b[j] == '.' ==> i == j
  }

  predicate HasDigit(b: string) {
    exists i :: 0 <= i < |b| && IsDigit(b[i])
  }

  /**
   * `float(t)` for a token of the shape `-?[\d.]+`: None is the ValueError it
   * raises (".", "1.2.3", "-.", ...).
   */
  function ParseNumber(t: string): (r: Option<Decimal>)
    requires IsNumberToken(t)
    ensures r.Some? <==> AtMostOneDot(Magnitude(t)) && HasDigit(Magnitude(t))
    ensures r.Some? ==> r.value.negative == (t[0] == '-')
  {
    var negative := t[0] == '-';
    var b := Magnitude(t);
    var k := Span(b, IsDigit);
    var whole := b[..k];
    if k == |b| then
      assert IsDigit(b[0]);
      Some(Decimal(negative, DigitsValue(whole), 0))
    else
      assert b[k] == '.';
      var frac := b[k + 1..];
      if All(frac, IsDigit) && (k > 0 || frac != []) then
        assert HasDigit(b) by {
          if k > 0 { assert IsDigit(b[0]); } else { assert IsDigit(b[k + 1]); }
        }
        AllAppend(whole, frac, IsDigit);
        Some(Decimal(negative, DigitsValue(whole + frac), |frac|))
      else if k == 0 && frac == [] then
        assert b == ".";
        None
      else
        var j :| 0 <= j < |frac| && !IsDigit(frac[j]);
        assert b[k + 1 + j] == '.';
        None
  }

  /** The measurement conversion: the sentinel, compared case-sensitively, is absent; anything else goes through `float()`. */
  function ConvertReading(t: string): (r: Option<Reading>)
    requires IsReadingText(t)
    ensures r == Some(Missing) <==> t == "err"
    ensures t != "err" ==> (r.Some? <==> ParseNumber(t).Some?)
    ensures t != "err" && ParseNumber(t).Some? ==> r == Some(Present(ParseNumber(t).value))
  {
    if t == "err" then Some(Missing)
    else
      match ParseNumber(t)
      case None => None
      case Some(d) => Some(Present(d))
  }

  /** The token `[-]whole[.frac]`: the decimal notation of a number. */
  function Notation(negative: bool, whole: string, dot: bool, frac: string): string {
    (if negative then "-" else "") + whole + (if dot then "." + frac else "")
  }

  lemma NotationIsToken(negative: bool, whole: string, dot: bool, frac: string)
    requires All(whole, IsDigit) && All(frac, IsDigit)
    requires whole != [] || (dot && frac != [])
    requires !dot ==> frac == []
    ensures IsNumberToken(Notation(negative, whole, dot, frac))
    ensures Magnitude(Notation(negative, whole, dot, frac)) == whole + (if dot then "." + frac else "")
  {
    var b := whole + (if dot then "." + frac else "");
    var t := Notation(negative, whole, dot, frac);
    assert t == (if negative then "-" else "") + b;
    assert IsNumerals(b) by {
      forall i | 0 <= i < |b| ensures IsNumeral(b[i]) {
        if i < |whole| { assert b[i] == whole[i]; } else if i > |whole| { assert b[i] == frac[i - |whole| - 1]; }
      }
    }
    if negative { assert t[1..] == b; }
  }

  /** How `float()` reads a token split at its point: the digits on both sides, scaled by the fraction length. */
  lemma ParseSplit(t: string, whole: string, dot: bool, frac: string)
    requires IsNumberToken(t)
    requires All(whole, IsDigit) && All(frac, IsDigit)
    requires !dot ==> frac == []
    requires whole != [] || frac != []
    requires Magnitude(t) == whole + (if dot then "." + frac else "")
    ensures All(whole + frac, IsDigit)
    ensures ParseNumber(t) == Some(Decimal(t[0] == '-', DigitsValue(whole + frac), |frac|))
  {
    var tail := if dot then "." + frac else "";
    var b := whole + tail;
    AllAppend(whole, frac, IsDigit);
    SpanOf(whole, tail, IsDigit);
    assert b[..|whole|] == whole;
    if dot {
      assert b[|whole| + 1..] == frac;
    } else {
      assert b == whole;
      assert whole + frac == whole;
    }
  }

  /** The value a measurement column takes for any numeric token, split at its point. */
  lemma TokenReading(t: string, whole: string, dot: bool, frac: string)
    requires IsNumberToken(t)
    requires All(whole, IsDigit) && All(frac, IsDigit)
    requires !dot ==> frac == []
    requires whole != [] || frac != []
    requires Magnitude(t) == whole + (if dot then "." + frac else "")
    ensures IsReadingText(t) && t != "err"
    ensures All(whole + frac, IsDigit)
    ensures ConvertReading(t) == Some(Present(Decimal(t[0] == '-', DigitsValue(whole + frac), |frac|)))
  {
    assert IsNumeral(Magnitude(t)[0]);
    ParseSplit(t, whole, dot, frac);
  }

  /**
   * Decimal notation is read digit for digit: `[-]whole.frac` (or `[-]whole`)
   * is accepted whenever it has a digit, and becomes the digits of both sides
   * scaled by the length of the fraction, with the sign.
   */
  lemma NotationDigits(negative: bool, whole: string, dot: bool, frac: string)
    requires All(whole, IsDigit) && All(frac, IsDigit)
    requires whole != [] || (dot && frac != [])
    requires !dot ==> frac == []
    ensures IsNumberToken(Notation(negative, whole, dot, frac))
    ensures All(whole + frac, IsDigit)
    ensures ParseNumber(Notation(negative, whole, dot, frac)) == Some(Decimal(negative, DigitsValue(whole + frac), |frac|))
    ensures DigitsValue(whole + frac) == DigitsValue(whole) * Pow10(|frac|) + DigitsValue(frac)
  {
    var t := Notation(negative, whole, dot, frac);
    NotationIsToken(negative, whole, dot, frac);
    assert t[0] == '-' <==> negative;
    ParseSplit(t, whole, dot, frac);
    DigitsValueAppend(whole, frac);
  }

  /**
   * Decimal notation means what it says: the value of `[-]whole.frac` is
   * whole + frac / 10^|frac| with the sign; leading zeros and a trailing point
   * change nothing.
   */
  lemma NotationValue(negative: bool, whole: string, dot: bool, frac: string)
    requires All(whole, IsDigit) && All(frac, IsDigit)
    requires whole != [] || (dot && frac != [])
    requires !dot ==> frac == []
    ensures IsNumberToken(Notation(negative, whole, dot, frac))
    ensures var r := ParseNumber(Notation(negative, whole, dot, frac));
      && r.Some? && r.value.negative == negative
      && Value(r.value) == (if negative then -1.0 else 1.0) *
           (DigitsValue(whole) as real + DigitsValue(frac) as real / Pow10(|frac|) as real)
  {
    NotationDigits(negative, whole, dot, frac);
    ScaledValue(negative, DigitsValue(whole + frac), DigitsValue(whole), DigitsValue(frac), |frac|);
  }

  /** `units` read as `w` followed by the `k` fraction digits of `f`. */
  lemma ScaledValue(negative: bool, units: nat, w: nat, f: nat, k: nat)
    requires units == w * Pow10(k) + f
    ensures Value(Decimal(negative, units, k))
         == (if negative then -1.0 else 1.0) * (w as real + f as real / Pow10(k) as real)
  {
    var p := Pow10(k);
    Rescale(w, f, p);
  }

  lemma Rescale(w: nat, f: nat, p: nat)
    requires p >= 1
    ensures (w * p + f) as real / p as real == w as real + f as real / p as real
  {
  }

  /** The canonical decimal text of a number: minimal integer part, exactly `scale` fraction digits. */
  function FormatDecimal(d: Decimal): (t: string)
    ensures IsNumberToken(t)
  {
    var s := DigitsOf(d.units, d.scale + 1);
    var whole := s[..|s| - d.scale];
    var frac := s[|s| - d.scale..];
    NotationIsToken(d.negative, whole, d.scale > 0, frac);
    Notation(d.negative, whole, d.scale > 0, frac)
  }

  /** Every decimal survives a trip through its text and back, sign of zero included. */
  lemma NumberRoundTrip(d: Decimal)
    ensures ParseNumber(FormatDecimal(d)) == Some(d)
  {
    var s := DigitsOf(d.units, d.scale + 1);
    var whole := s[..|s| - d.scale];
    var frac := s[|s| - d.scale..];
    SplitDigits(s, whole, frac);
    var t := Notation(d.negative, whole, d.scale > 0, frac);
    NotationIsToken(d.negative, whole, d.scale > 0, frac);
    assert t[0] == '-' <==> d.negative;
    ParseSplit(t, whole, d.scale > 0, frac);
  }

  lemma SplitDigits(s: string, whole: string, frac: string)
    requires All(s, IsDigit) && |frac| <= |s| && whole == s[..|s| - |frac|] && frac == s[|s| - |frac|..]
    ensures s == whole + frac && All(whole, IsDigit) && All(frac, IsDigit)
  {
    assert forall i :: 0 <= i < |whole| ==> whole[i] == s[i];
    assert forall i :: 0 <= i < |frac| ==> frac[i] == s[|whole| + i];
  }

  /** Tokens the pattern captures but `float()` rejects, so the whole line fails. */
  lemma RejectedTokens()
    ensures IsNumberToken(".") && ParseNumber(".") == None
    ensures IsNumberToken("1.2.3") && ParseNumber("1.2.3") == None
    ensures IsNumberToken("-.") && ParseNumber("-.") == None
    ensures IsNumberToken("..5") && ParseNumber("..5") == None
  {
    assert Magnitude("1.2.3")[1] == '.' && Magnitude("1.2.3")[3] == '.';
    assert Magnitude("..5")[0] == '.' && Magnitude("..5")[1] == '.';
    assert Magnitude("-.") == ".";
  }

  /** The text a reading is written as in a log line: the sentinel, or its decimal. */
  function ReadingText(r: Reading): (t: string)
    ensures IsReadingText(t)
  {
    match r
    case Missing => "err"
    case Present(d) => FormatDecimal(d)
  }

  /** Each reading is recovered from its text; the sentinel never collides with a number. */
  lemma ReadingRoundTrip(r: Reading)
    ensures ConvertReading(ReadingText(r)) == Some(r)
  {
    if r.Present? {
      var t := FormatDecimal(r.value);
      assert IsNumeral(Magnitude(t)[0]);
      NumberRoundTrip(r.value);
    }
  }
}

/**
 * Character classes and the small lexical helpers that both the line pattern
 * and the timestamp formats are built from. Strings are read left to right;
 * a helper that consumes a prefix returns the value it read and the rest.
 */
module Text {

  import opened Wrappers

  /** What a lexer read from the front of a string, and what is left after it. */
  datatype Parsed<T> = Parsed(value: T, rest: string)

  /** `\d`, restricted to the ASCII digits. */
  predicate IsDigit(c: char) { '0' <= c <= '9' }

  /** `[A-Z]`. */
  predicate IsUpper(c: char) { 'A' <= c <= 'Z' }

  /** `[\d.]`, the characters of a measurement token. */
  predicate IsNumeral(c: char) { IsDigit(c) || c == '.' }

  /**
   * `\s` of a str pattern in Python's re module: the characters for which
   * str.isspace() holds.
   */
  predicate IsSpace(c: char) {
    || '\t' <= c <= '\r'
    || '\U{1C}' <= c <= ' '
    || c == '\U{85}' || c == '\U{A0}' || c == '\U{1680}'
    || '\U{2000}' <= c <= '\U{200A}'
    || c == '\U{2028}' || c == '\U{2029}' || c == '\U{202F}' || c == '\U{205F}' || c == '\U{3000}'
  }

  /** The ASCII blanks and the Unicode spaces are whitespace; letters, digits, ']' and the zero-width characters are not. */
  lemma SpaceMembers()
    ensures IsSpace(' ') && IsSpace('\t') && IsSpace('\n') && IsSpace('\r') && IsSpace('\U{0B}') && IsSpace('\U{0C}')
    ensures IsSpace('\U{1F}') && IsSpace('\U{85}') && IsSpace('\U{A0}') && IsSpace('\U{2003}') && IsSpace('\U{3000}')
    ensures !IsSpace('a') && !IsSpace('0') && !IsSpace(']') && !IsSpace('\U{200B}') && !IsSpace('\U{FEFF}')
  {
  }

  /** Every character of `s` is in the class `p`. */
  predicate All(s: string, p: char -> bool) {
    forall i :: 0 <= i < |s| ==> p(s[i])
  }

  /** The length of the longest prefix of `s` in the class `p` (a greedy `p*`). */
  function Span(s: string, p: char -> bool): (n: nat)
    ensures n <= |s|
    ensures forall i :: 0 <= i < n ==> p(s[i])
    ensures n < |s| ==> !p(s[n])
  {
    if s != [] && p(s[0]) then 1 + Span(s[1..], p) else 0
  }

  /** A greedy run stops exactly where the class changes. */
  lemma SpanOf(piece: string, rest: string, p: char -> bool)
    requires All(piece, p)
    requires rest == [] || !p(rest[0])
    ensures Span(piece + rest, p) == |piece|
  {
    if piece != [] {
      assert (piece + rest)[1..] == piece[1..] + rest;
      SpanOf(piece[1..], rest, p);
    }
  }

  /** A string is its greedy run of class `p` followed by the rest. */
  lemma SpanText(s: string, p: char -> bool)
    ensures All(s[..Span(s, p)], p) && s == s[..Span(s, p)] + s[Span(s, p)..]
  {
    var n := Span(s, p);
    assert forall i :: 0 <= i < n ==> s[..n][i] == s[i];
  }

  /** A greedy run of at least one character of class `p` (`p+`). */
  function Run(s: string, p: char -> bool): (r: Option<Parsed<string>>)
    ensures r.Some? ==> r.value.value != [] && All(r.value.value, p) && s == r.value.value + r.value.rest
    ensures r.Some? ==> r.value.rest == [] || !p(r.value.rest[0])
  {
    var n := Span(s, p);
    if n == 0 then None
    else
      assert s == s[..n] + s[n..];
      Some(Parsed(s[..n], s[n..]))
  }

  lemma RunOf(piece: string, rest: string, p: char -> bool)
    requires piece != [] && All(piece, p)
    requires rest == [] || !p(rest[0])
    ensures Run(piece + rest, p) == Some(Parsed(piece, rest))
  {
    SpanOf(piece, rest, p);
    var s := piece + rest;
    assert s[..|piece|] == piece;
    assert s[|piece|..] == rest;
  }

  /** The literal `lit` at the front of `s`. */
  function Literal(s: string, lit: string): (r: Option<string>)
    ensures r.Some? ==> s == lit + r.value
  {
    if |lit| <= |s| && s[..|lit|] == lit then
      assert s == s[..|lit|] + s[|lit|..];
      Some(s[|lit|..])
    else None
  }

  lemma LiteralOf(lit: string, rest: string)
    ensures Literal(lit + rest, lit) == Some(rest)
  {
    var s := lit + rest;
    assert s[..|lit|] == lit;
    assert s[|lit|..] == rest;
  }

  function Pow10(n: nat): (p: nat)
    ensures p >= 1
  {
    if n == 0 then 1 else 10 * Pow10(n - 1)
  }

  /** The numeric value of the decimal digit `c`. */
  function DigitValue(c: char): (d: nat)
    requires IsDigit(c)
    ensures d < 10
  {
    c as int - '0' as int
  }

  /** The digit character for `d`. */
  function Digit(d: nat): (c: char)
    requires d < 10
    ensures IsDigit(c) && DigitValue(c) == d
  {
    ('0' as int + d) as char
  }

  /** `int(s)` for a string of decimal digits (most significant first). */
  function DigitsValue(s: string): (n: nat)
    requires All(s, IsDigit)
    ensures n < Pow10(|s|)
  {
    if s == [] then 0
    else DigitsValue(s[..|s| - 1]) * 10 + DigitValue(s[|s| - 1])
  }

  /**
   * CPython's default limit on the number of digits `int()` converts from a
   * string (`sys.int_info.default_max_str_digits`).
   */
  const MaxStrDigits := 4300

  /**
   * `int(s)` for a string of decimal digits: its value, or None for the
   * ValueError raised when the string has more than MaxStrDigits digits
   * (leading zeros included).
   */
  function IntOf(s: string): (r: Option<nat>)
    requires All(s, IsDigit)
    ensures r.Some? <==> |s| <= MaxStrDigits
    ensures r.Some? ==> r.value == DigitsValue(s) && r.value < Pow10(|s|)
  {
    if |s| <= MaxStrDigits then Some(DigitsValue(s)) else None
  }

  lemma AllAppend(a: string, b: string, p: char -> bool)
    requires All(a, p) && All(b, p)
    ensures All(a + b, p)
  {
    var s := a + b;
    forall i | 0 <= i < |s| ensures p(s[i]) {
      if i < |a| { assert s[i] == a[i]; } else { assert s[i] == b[i - |a|]; }
    }
  }

  /** Reading a concatenation of digit strings shifts the left part. */
  lemma {:induction false} DigitsValueAppend(a: string, b: string)
    requires All(a, IsDigit) && All(b, IsDigit)
    ensures All(a + b, IsDigit)
    ensures DigitsValue(a + b) == DigitsValue(a) * Pow10(|b|) + DigitsValue(b)
  {
    var s := a + b;
    AllAppend(a, b, IsDigit);
    if b == [] {
      assert s == a;
    } else {
      var b' := b[..|b| - 1];
      var last := b[|b| - 1];
      assert s[..|s| - 1] == a + b';
      assert s[|s| - 1] == last;
      assert All(b', IsDigit);
      DigitsValueAppend(a, b');
      var x, y, d, q := DigitsValue(a), DigitsValue(b'), DigitValue(last), Pow10(|b'|);
      assert DigitsValue(s) == DigitsValue(a + b') * 10 + d;
      assert DigitsValue(b) == y * 10 + d;
      assert Pow10(|b|) == q * 10;
      ShiftDigit(x, q, y, d);
    }
  }

  lemma ShiftDigit(x: int, q: int, y: int, d: int)
    ensures (x * q + y) * 10 + d == x * (q * 10) + (y * 10 + d)
  {
  }

  /**
   * The decimal text of `n` with at least `width` digits, padded with leading
   * zeros; exactly `width` digits when `n` fits in them.
   */
  function DigitsOf(n: nat, width: nat): (s: string)
    ensures s != [] && All(s, IsDigit) && DigitsValue(s) == n
    ensures |s| >= width
    ensures width >= 1 && n < Pow10(width) ==> |s| == width
    decreases n + width
  {
    if n < 10 && width <= 1 then [Digit(n)]
    else
      var s := DigitsOf(n / 10, if width > 0 then width - 1 else 0) + [Digit(n % 10)];
      assert s[..|s| - 1] == DigitsOf(n / 10, if width > 0 then width - 1 else 0);
      s
  }

  /** The shortest decimal text of `n` has at most `k` digits exactly when `n` is below 10^k. */
  lemma {:induction false} DecimalWidth(n: nat, w: nat, k: nat)
    requires w <= 1 && k >= 1
    ensures |DigitsOf(n, w)| <= k <==> n < Pow10(k)
    decreases n
  {
    if n < 10 {
      assert Pow10(k) == 10 * Pow10(k - 1);
    } else {
      var q := n / 10;
      assert |DigitsOf(n, w)| == |DigitsOf(q, 0)| + 1;
      if k == 1 {
        assert Pow10(1) == 10;
      } else {
        DecimalWidth(q, 0, k - 1);
        var p := Pow10(k - 1);
        assert Pow10(k) == 10 * p;
        assert q < p <==> n < 10 * p;
      }
    }
  }

  /** `n` has at most MaxStrDigits decimal digits, that is, it is below 10^MaxStrDigits. */
  predicate IntFits(n: nat) {
    n < Pow10(MaxStrDigits)
  }

  /** `int()` of the shortest decimal text of `n` gives `n` back exactly when `n` has at most MaxStrDigits digits. */
  lemma IntOfDecimal(n: nat)
    ensures IntOf(DigitsOf(n, 1)) == if IntFits(n) then Some(n) else None
  {
    DecimalWidth(n, 1, MaxStrDigits);
  }

  /** The first character of the right part can be moved to the left one. */
  lemma JoinFirst(a: string, b: string)
    requires b != []
    ensures a + b == (a + [b[0]]) + b[1..]
  {
    assert b == [b[0]] + b[1..];
  }

  /** No ']' in `s`. */
  predicate NoCloseBracket(s: string) {
    forall i :: 0 <= i < |s| ==> s[i] != ']'
  }

  /** A text is free of ']' when both sides of any cut are. */
  lemma CleanJoin(s: string, n: nat)
    requires n <= |s| && NoCloseBracket(s[..n]) && NoCloseBracket(s[n..])
    ensures NoCloseBracket(s)
  {
    forall i | 0 <= i < |s| ensures s[i] != ']' {
      if i < n { assert s[i] == s[..n][i]; } else { assert s[i] == s[n..][i - n]; }
    }
  }

  predicate IsZero(c: char) { c == '0' }

  /** Leading zeros do not change the value of a digit string. */
  lemma {:induction false} LeadingZeros(zeros: string, s: string)
    requires All(zeros, IsZero) && All(s, IsDigit)
    ensures All(zeros + s, IsDigit)
    ensures DigitsValue(zeros + s) == DigitsValue(s)
  {
    assert All(zeros, IsDigit);
    DigitsValueAppend(zeros, s);
    ZerosValue(zeros);
  }

  lemma {:induction false} ZerosValue(zeros: string)
    requires All(zeros, IsZero)
    ensures All(zeros, IsDigit) && DigitsValue(zeros) == 0
  {
    if zeros != [] {
      assert All(zeros[..|zeros| - 1], IsZero);
      ZerosValue(zeros[..|zeros| - 1]);
    }
  }
}

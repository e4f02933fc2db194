/**
 * The two timestamp formats the log parser tries, in order:
 * `datetime.strptime(text, "%Y-%m-%d %H:%M:%S")` and, when that raises,
 * `datetime.strptime(text, "%Y/%m/%d")`.
 *
 * strptime compiles a format into a regular expression and then builds a
 * datetime from the captured fields. For these two formats that comes to:
 * `%Y` is exactly four digits; `%m`, `%H`, `%M`, `%S` are one or two digits;
 * `%d` is one or two digits or a space followed by a digit 1-9; a space in the
 * format matches any non-empty run of whitespace; the whole text must be
 * consumed. Because every field is followed by a separator that is not a digit,
 * a field in the middle takes its whole digit run. The last field takes the
 * first alternative that matches and whatever is left over is an error. Range
 * violations (month 13, hour 24, second 60, 30 February, year 0) all raise
 * ValueError, the same failure as a shape mismatch, so they are folded into one
 * final validity check.
 */
module Timestamp {

  import opened Wrappers
  import opened Text

  datatype DateTime = DateTime(year: nat, month: nat, day: nat, hour: nat, minute: nat, second: nat)

  /** The Gregorian leap-year rule of Python's datetime. */
  predicate IsLeapYear(y: nat) {
    y % 4 == 0 && (y % 100 != 0 || y % 400 == 0)
  }

  function DaysInMonth(y: nat, m: nat): (n: nat)
    requires 1 <= m <= 12
    ensures 28 <= n <= 31
    ensures n == 29 <==> m == 2 && IsLeapYear(y)
  {
    if m == 2 then (if IsLeapYear(y) then 29 else 28)
    else if m == 4 || m == 6 || m == 9 || m == 11 then 30
    else 31
  }

  /** The values a Python datetime accepts (MINYEAR = 1, MAXYEAR = 9999). */
  predicate Valid(d: DateTime) {
    && 1 <= d.year <= 9999
    && 1 <= d.month <= 12
    && 1 <= d.day <= DaysInMonth(d.year, d.month)
    && d.hour <= 23 && d.minute <= 59 && d.second <= 59
  }

  /** The datetime constructor: the value, or the ValueError it raises. */
  function Checked(d: DateTime): (r: Option<DateTime>)
    ensures r.Some? <==> Valid(d)
    ensures r.Some? ==> r.value == d
  {
    if Valid(d) then Some(d) else None
  }

  /**
   * The fields the constructor accepts, month by month: years 1-9999, months
   * 1-12, days 1-31 but at most 30 in April, June, September and November and
   * at most 29 in February, 29 February only in a leap year (every fourth year,
   * except the centuries not divisible by 400), hours 0-23, minutes and seconds 0-59.
   */
  lemma CalendarRule(d: DateTime)
    ensures Checked(d).Some? <==>
      && 1 <= d.year <= 9999 && 1 <= d.month <= 12 && 1 <= d.day <= 31
      && !(d.day == 31 && (d.month == 4 || d.month == 6 || d.month == 9 || d.month == 11))
      && !(d.month == 2 && d.day >= 30)
      && !(d.month == 2 && d.day == 29 && !(d.year % 4 == 0 && (d.year % 100 != 0 || d.year % 400 == 0)))
      && d.hour < 24 && d.minute < 60 && d.second < 60
  {
  }

  /** 29 February is accepted exactly in the leap years from 1 to 9999. */
  lemma LeapDay(y: nat, h: nat, mi: nat, sec: nat)
    requires h < 24 && mi < 60 && sec < 60
    ensures Checked(DateTime(y, 2, 29, h, mi, sec)).Some? <==> 1 <= y <= 9999 && IsLeapYear(y)
  {
  }

  /** Dates and times at the edges of the ranges. */
  lemma CalendarEdges()
    ensures Checked(DateTime(1, 1, 1, 0, 0, 0)).Some? && Checked(DateTime(9999, 12, 31, 23, 59, 59)).Some?
    ensures Checked(DateTime(2024, 2, 29, 0, 0, 0)).Some? && Checked(DateTime(2000, 2, 29, 0, 0, 0)).Some?
    ensures Checked(DateTime(2023, 2, 29, 0, 0, 0)).None? && Checked(DateTime(1900, 2, 29, 0, 0, 0)).None?
    ensures Checked(DateTime(2023, 4, 31, 0, 0, 0)).None? && Checked(DateTime(2023, 11, 31, 0, 0, 0)).None?
    ensures Checked(DateTime(0, 1, 1, 0, 0, 0)).None? && Checked(DateTime(10000, 1, 1, 0, 0, 0)).None?
    ensures Checked(DateTime(2023, 0, 1, 0, 0, 0)).None? && Checked(DateTime(2023, 13, 1, 0, 0, 0)).None?
    ensures Checked(DateTime(2023, 1, 0, 0, 0, 0)).None? && Checked(DateTime(2023, 1, 1, 24, 0, 0)).None?
    ensures Checked(DateTime(2023, 1, 1, 0, 60, 0)).None? && Checked(DateTime(2023, 1, 1, 0, 0, 60)).None?
  {
  }

  /** `%Y`: exactly four digits. */
  function Year(s: string): (r: Option<Parsed<nat>>)
    ensures r.Some? ==> r.value.value <= 9999 && |s| >= 4 && r.value.rest == s[4..]
  {
    if |s| >= 4 && All(s[..4], IsDigit) then Some(Parsed(DigitsValue(s[..4]), s[4..])) else None
  }

  /** A one-character literal separator of the format. */
  function Sep(s: string, c: char): (r: Option<string>)
    ensures r.Some? ==> s == [c] + r.value
  {
    if s != [] && s[0] == c then Some(s[1..]) else None
  }

  /** `%m`, `%H`, `%M` (and `%d` away from a space) followed by a separator: the whole digit run, of length one or two. */
  function Field(s: string): (r: Option<Parsed<nat>>)
    ensures r.Some? ==> r.value.value < 100 && |r.value.rest| < |s|
    ensures r.Some? ==> r.value.rest == [] || !IsDigit(r.value.rest[0])
  {
    var n := Span(s, IsDigit);
    if 1 <= n <= 2 then Some(Parsed(DigitsValue(s[..n]), s[n..])) else None
  }

  /** `%d` in the middle of a format: a digit field, or a space and a digit 1-9. */
  function InnerDay(s: string): (r: Option<Parsed<nat>>)
    ensures r.Some? ==> r.value.value < 100
  {
    if s != [] && s[0] == ' ' then
      if |s| >= 2 && '1' <= s[1] <= '9' then Some(Parsed(DigitValue(s[1]), s[2..])) else None
    else Field(s)
  }

  /** `%S` at the end of the text: one or two digits and nothing after them. */
  function LastSecond(s: string): (r: Option<nat>)
    ensures r.Some? ==> r.value < 100
  {
    if 1 <= |s| <= 2 && All(s, IsDigit) then Some(DigitsValue(s)) else None
  }

  /** `%d` at the end of the text: one or two digits, or a space and a digit 1-9, and nothing after. */
  function LastDay(s: string): (r: Option<nat>)
    ensures r.Some? ==> r.value < 100
  {
    if |s| == 2 && s[0] == ' ' && '1' <= s[1] <= '9' then Some(DigitValue(s[1]))
    else if 1 <= |s| <= 2 && All(s, IsDigit) then Some(DigitsValue(s))
    else None
  }

  /** `%Y<c>%m<c>`, the part both formats share; `c` is '-' or '/'. */
  function YearMonth(t: string, c: char): (r: Option<Parsed<(nat, nat)>>)
    ensures r.Some? ==> r.value.value.0 <= 9999 && r.value.value.1 < 100
  {
    var y :- Year(t);
    var a :- Sep(y.rest, c);
    var m :- Field(a);
    var b :- Sep(m.rest, c);
    Some(Parsed((y.value, m.value), b))
  }

  /** ` %H:%M:%S` at the end of the text (the format's space is `\s+`). */
  function TimeOfDay(s: string): (r: Option<(nat, nat, nat)>)
    ensures r.Some? ==> r.value.0 < 100 && r.value.1 < 100 && r.value.2 < 100
  {
    var gap := Span(s, IsSpace);
    if gap == 0 then None
    else
      var h :- Field(s[gap..]);
      var c :- Sep(h.rest, ':');
      var mi :- Field(c);
      var e :- Sep(mi.rest, ':');
      var sec :- LastSecond(e);
      Some((h.value, mi.value, sec))
  }

  /** `strptime(text, "%Y-%m-%d %H:%M:%S")`; None is the ValueError it raises. */
  function ParseDateTime(t: string): (r: Option<DateTime>)
    ensures r.Some? ==> Valid(r.value)
  {
    var ym :- YearMonth(t, '-');
    var d :- InnerDay(ym.rest);
    var hms :- TimeOfDay(d.rest);
    Checked(DateTime(ym.value.0, ym.value.1, d.value, hms.0, hms.1, hms.2))
  }

  /** `strptime(text, "%Y/%m/%d")`: a date at midnight; None is the ValueError it raises. */
  function ParseDate(t: string): (r: Option<DateTime>)
    ensures r.Some? ==> Valid(r.value) && r.value.hour == 0 && r.value.minute == 0 && r.value.second == 0
  {
    var ym :- YearMonth(t, '/');
    var d :- LastDay(ym.rest);
    Checked(DateTime(ym.value.0, ym.value.1, d, 0, 0, 0))
  }

  /**
   * The timestamp fallback of the log parser: the full format first, the
   * date-only format when the first raises. None is the ValueError of the
   * second attempt, which the parser does not catch.
   */
  function Resolve(t: string): (r: Option<DateTime>)
    ensures r.Some? ==> Valid(r.value)
    ensures ParseDateTime(t).Some? ==> r == ParseDateTime(t)
  {
    match ParseDateTime(t)
    case Some(d) => Some(d)
    case None => ParseDate(t)
  }

  /** The two formats never both accept a text (`t[4]` is '-' for one and '/' for the other), so the fallback order never changes a result. */
  lemma FormatsDisjoint(t: string)
    ensures ParseDateTime(t).None? || ParseDate(t).None?
    ensures Resolve(t).Some? <==> ParseDateTime(t).Some? || ParseDate(t).Some?
    ensures ParseDate(t).Some? ==> Resolve(t) == ParseDate(t)
  {
  }

  // ---- Rendering: the zero-padded texts of both formats, and their round trips ----

  /** Each field fits the width its format gives it. */
  predicate FitsWidths(d: DateTime) {
    d.year < 10000 && d.month < 100 && d.day < 100 && d.hour < 100 && d.minute < 100 && d.second < 100
  }

  function Pad(n: nat, width: nat): (s: string)
    requires 1 <= width && n < Pow10(width)
    ensures |s| == width && All(s, IsDigit) && DigitsValue(s) == n
  {
    DigitsOf(n, width)
  }

  /** `d.strftime("%Y-%m-%d %H:%M:%S")`. */
  function FormatDateTime(d: DateTime): (s: string)
    requires FitsWidths(d)
    ensures |s| == 19
  {
    Pad(d.year, 4) + ("-" + (Pad(d.month, 2) + ("-" + (Pad(d.day, 2) + (" " +
      (Pad(d.hour, 2) + (":" + (Pad(d.minute, 2) + (":" + Pad(d.second, 2))))))))))
  }

  /** `d.strftime("%Y/%m/%d")`. */
  function FormatDate(d: DateTime): (s: string)
    requires FitsWidths(d)
    ensures |s| == 10
  {
    Pad(d.year, 4) + ("/" + (Pad(d.month, 2) + ("/" + Pad(d.day, 2))))
  }

  /** The same date at 00:00:00. */
  function Midnight(d: DateTime): DateTime {
    d.(hour := 0, minute := 0, second := 0)
  }

  lemma YearOf(digits: string, rest: string)
    requires |digits| == 4 && All(digits, IsDigit)
    ensures Year(digits + rest) == Some(Parsed(DigitsValue(digits), rest))
  {
    var s := digits + rest;
    assert s[..4] == digits;
    assert s[4..] == rest;
  }

  lemma SepOf(c: char, rest: string)
    ensures Sep([c] + rest, c) == Some(rest)
  {
    assert ([c] + rest)[1..] == rest;
  }

  lemma FieldOf(digits: string, rest: string)
    requires 1 <= |digits| <= 2 && All(digits, IsDigit)
    requires rest == [] || !IsDigit(rest[0])
    ensures Field(digits + rest) == Some(Parsed(DigitsValue(digits), rest))
  {
    SpanOf(digits, rest, IsDigit);
    var s := digits + rest;
    assert s[..|digits|] == digits;
    assert s[|digits|..] == rest;
  }

  /** One or two digits: the text of a `%m`, `%d`, `%H`, `%M` or `%S` field as strptime reads it. */
  predicate ShortField(f: string) {
    1 <= |f| <= 2 && All(f, IsDigit)
  }

  lemma YearMonthOf(yy: string, mm: string, c: char, rest: string)
    requires |yy| == 4 && All(yy, IsDigit) && ShortField(mm) && !IsDigit(c)
    ensures YearMonth(yy + ([c] + (mm + ([c] + rest))), c) == Some(Parsed((DigitsValue(yy), DigitsValue(mm)), rest))
  {
    var t0 := mm + ([c] + rest);
    YearOf(yy, [c] + t0);
    SepOf(c, t0);
    FieldOf(mm, [c] + rest);
    SepOf(c, rest);
  }

  lemma TimeOfDayOf(gap: string, hh: string, mi: string, ss: string)
    requires gap != [] && All(gap, IsSpace)
    requires ShortField(hh) && ShortField(mi) && ShortField(ss)
    ensures TimeOfDay(gap + (hh + (":" + (mi + (":" + ss))))) == Some((DigitsValue(hh), DigitsValue(mi), DigitsValue(ss)))
  {
    var t7 := ":" + ss;
    var t6 := mi + t7;
    var t5 := ":" + t6;
    var t4 := hh + t5;
    var t3 := gap + t4;
    SpanOf(gap, t4, IsSpace);
    assert t3[|gap|..] == t4;
    FieldOf(hh, t5);
    SepOf(':', t6);
    FieldOf(mi, t7);
    SepOf(':', ss);
  }

  /** The text of a `%d` field: one or two digits, or a space and a digit 1-9. */
  predicate DayField(f: string) {
    ShortField(f) || (|f| == 2 && f[0] == ' ' && '1' <= f[1] <= '9')
  }

  /** The day a `%d` text stands for. */
  function DayValue(f: string): nat
    requires DayField(f)
  {
    if f[0] == ' ' then DigitValue(f[1]) else DigitsValue(f)
  }

  lemma InnerDayOf(dd: string, rest: string)
    requires DayField(dd) && (rest == [] || !IsDigit(rest[0]))
    ensures InnerDay(dd + rest) == Some(Parsed(DayValue(dd), rest))
  {
    if dd[0] == ' ' {
      assert dd == [' ', dd[1]];
      SpacePaddedDay(dd[1], rest);
    } else {
      FieldOf(dd, rest);
    }
  }

  /** The text `yy-mm-dd<gap>hh:mi:ss`, whose fields need not be zero-padded and whose gap is any whitespace run. */
  function DateTimeText(yy: string, mm: string, dd: string, gap: string, hh: string, mi: string, ss: string): string {
    yy + ("-" + (mm + ("-" + (dd + (gap + (hh + (":" + (mi + (":" + ss)))))))))
  }

  /** The fields of a `%Y-%m-%d %H:%M:%S` text: a four-digit year, a `%d` day, a whitespace gap, and one- or two-digit other fields. */
  predicate DateTimeShaped(yy: string, mm: string, dd: string, gap: string, hh: string, mi: string, ss: string) {
    && |yy| == 4 && All(yy, IsDigit)
    && ShortField(mm) && DayField(dd) && ShortField(hh) && ShortField(mi) && ShortField(ss)
    && gap != [] && All(gap, IsSpace)
  }

  /**
   * Every text of the `%Y-%m-%d %H:%M:%S` shape, zero-padded or not, yields
   * exactly the values of its fields when they form a valid date-time, and is
   * rejected otherwise (30 February, 29 February outside a leap year, month 0
   * or 13, hour 24, second 60, year 0, ...).
   */
  lemma DateTimeFields(yy: string, mm: string, dd: string, gap: string, hh: string, mi: string, ss: string)
    requires DateTimeShaped(yy, mm, dd, gap, hh, mi, ss)
    ensures ParseDateTime(DateTimeText(yy, mm, dd, gap, hh, mi, ss))
         == Checked(DateTime(DigitsValue(yy), DigitsValue(mm), DayValue(dd), DigitsValue(hh), DigitsValue(mi), DigitsValue(ss)))
  {
    var time := gap + (hh + (":" + (mi + (":" + ss))));
    YearMonthOf(yy, mm, '-', dd + time);
    assert !IsDigit(gap[0]);
    InnerDayOf(dd, time);
    TimeOfDayOf(gap, hh, mi, ss);
  }

  /** The text `yy/mm/dd`. */
  function DateText(yy: string, mm: string, dd: string): string {
    yy + ("/" + (mm + ("/" + dd)))
  }

  /** Every text of the `%Y/%m/%d` shape yields its date at midnight when valid, and is rejected otherwise. */
  lemma DateFields(yy: string, mm: string, dd: string)
    requires |yy| == 4 && All(yy, IsDigit)
    requires ShortField(mm) && DayField(dd)
    ensures ParseDate(DateText(yy, mm, dd)) == Checked(DateTime(DigitsValue(yy), DigitsValue(mm), DayValue(dd), 0, 0, 0))
  {
    YearMonthOf(yy, mm, '/', dd);
  }

  // ---- Conversely, every text a format accepts has that format's shape ----

  lemma FieldText(s: string) returns (f: string)
    requires Field(s).Some?
    ensures ShortField(f) && s == f + Field(s).value.rest && Field(s).value.value == DigitsValue(f)
  {
    var n := Span(s, IsDigit);
    f := s[..n];
    SpanText(s, IsDigit);
  }

  lemma YearMonthText(t: string, c: char) returns (yy: string, mm: string)
    requires YearMonth(t, c).Some?
    ensures |yy| == 4 && All(yy, IsDigit) && ShortField(mm)
    ensures t == yy + ([c] + (mm + ([c] + YearMonth(t, c).value.rest)))
  {
    var y := Year(t).value;
    yy := t[..4];
    assert t == yy + y.rest;
    var a := Sep(y.rest, c).value;
    mm := FieldText(a);
  }

  lemma InnerDayText(s: string) returns (dd: string)
    requires InnerDay(s).Some?
    ensures DayField(dd) && s == dd + InnerDay(s).value.rest
  {
    if s[0] == ' ' {
      dd := s[..2];
      assert s == dd + s[2..];
    } else {
      dd := FieldText(s);
    }
  }

  lemma TimeOfDayText(s: string) returns (gap: string, hh: string, mi: string, ss: string)
    requires TimeOfDay(s).Some?
    ensures gap != [] && All(gap, IsSpace) && ShortField(hh) && ShortField(mi) && ShortField(ss)
    ensures s == gap + (hh + (":" + (mi + (":" + ss))))
  {
    var g := Span(s, IsSpace);
    gap := s[..g];
    SpanText(s, IsSpace);
    var h := Field(s[g..]).value;
    hh := FieldText(s[g..]);
    var c := Sep(h.rest, ':').value;
    var m := Field(c).value;
    mi := FieldText(c);
    ss := Sep(m.rest, ':').value;
  }

  /** Every text the full format accepts is a text of its shape, read as its fields. */
  lemma DateTimeShape(t: string)
    requires ParseDateTime(t).Some?
    ensures exists yy, mm, dd, gap, hh, mi, ss ::
      && DateTimeShaped(yy, mm, dd, gap, hh, mi, ss)
      && t == DateTimeText(yy, mm, dd, gap, hh, mi, ss)
      && ParseDateTime(t) == Checked(DateTime(DigitsValue(yy), DigitsValue(mm), DayValue(dd), DigitsValue(hh), DigitsValue(mi), DigitsValue(ss)))
  {
    var yy, mm := YearMonthText(t, '-');
    var rest := YearMonth(t, '-').value.rest;
    var dd := InnerDayText(rest);
    var gap, hh, mi, ss := TimeOfDayText(InnerDay(rest).value.rest);
    assert t == DateTimeText(yy, mm, dd, gap, hh, mi, ss);
    DateTimeFields(yy, mm, dd, gap, hh, mi, ss);
  }

  /** Every text the date-only format accepts is a text of its shape, read as its date at midnight. */
  lemma DateShape(t: string)
    requires ParseDate(t).Some?
    ensures exists yy, mm, dd ::
      && |yy| == 4 && All(yy, IsDigit) && ShortField(mm) && DayField(dd)
      && t == DateText(yy, mm, dd)
      && ParseDate(t) == Checked(DateTime(DigitsValue(yy), DigitsValue(mm), DayValue(dd), 0, 0, 0))
  {
    var yy, mm := YearMonthText(t, '/');
    var dd := YearMonth(t, '/').value.rest;
    assert t == DateText(yy, mm, dd);
    DateFields(yy, mm, dd);
  }

  /** The zero-padded `YYYY-MM-DD HH:MM:SS` text of a date-time yields exactly its fields when valid. */
  lemma DateTimeRoundTrip(d: DateTime)
    requires FitsWidths(d)
    ensures ParseDateTime(FormatDateTime(d)) == Checked(d)
  {
    DateTimeFields(Pad(d.year, 4), Pad(d.month, 2), Pad(d.day, 2), " ", Pad(d.hour, 2), Pad(d.minute, 2), Pad(d.second, 2));
  }

  /** The zero-padded `YYYY/MM/DD` text of a date yields that date at midnight when valid. */
  lemma DateRoundTrip(d: DateTime)
    requires FitsWidths(d)
    ensures ParseDate(FormatDate(d)) == Checked(Midnight(d))
  {
    DateFields(Pad(d.year, 4), Pad(d.month, 2), Pad(d.day, 2));
  }

  /** `%d` also takes a space followed by a digit 1-9, in the middle and at the end of a format. */
  lemma SpacePaddedDay(c: char, rest: string)
    requires '1' <= c <= '9'
    ensures InnerDay([' ', c] + rest) == Some(Parsed(DigitValue(c), rest))
    ensures LastDay([' ', c]) == Some(DigitValue(c))
  {
    assert ([' ', c] + rest)[2..] == rest;
  }

  /** The fallback as a whole: a full timestamp resolves to itself, a date-only one to its midnight, an invalid one to the uncaught error. */
  lemma ResolveRendered(d: DateTime)
    requires FitsWidths(d)
    ensures Resolve(FormatDateTime(d)) == Checked(d)
    ensures Resolve(FormatDate(d)) == Checked(Midnight(d))
  {
    DateTimeRoundTrip(d);
    DateRoundTrip(d);
    var t := FormatDateTime(d);
    YearOf(Pad(d.year, 4), t[4..]);
    assert t == Pad(d.year, 4) + t[4..];
    assert t[4] == '-';
    var u := FormatDate(d);
    YearOf(Pad(d.year, 4), u[4..]);
    assert u == Pad(d.year, 4) + u[4..];
    assert u[4] == '/';
  }

  // ---- An accepted timestamp text never holds a ']' ----

  lemma YearClean(s: string)
    requires Year(s).Some? && NoCloseBracket(Year(s).value.rest)
    ensures NoCloseBracket(s)
  {
    CleanJoin(s, 4);
  }

  lemma SepClean(s: string, c: char)
    requires c != ']' && Sep(s, c).Some? && NoCloseBracket(Sep(s, c).value)
    ensures NoCloseBracket(s)
  {
    CleanJoin(s, 1);
  }

  lemma FieldClean(s: string)
    requires Field(s).Some? && NoCloseBracket(Field(s).value.rest)
    ensures NoCloseBracket(s)
  {
    CleanJoin(s, Span(s, IsDigit));
  }

  lemma InnerDayClean(s: string)
    requires InnerDay(s).Some? && NoCloseBracket(InnerDay(s).value.rest)
    ensures NoCloseBracket(s)
  {
    if s[0] == ' ' {
      CleanJoin(s, 2);
    } else {
      FieldClean(s);
    }
  }

  lemma YearMonthClean(t: string, c: char)
    requires c != ']' && YearMonth(t, c).Some? && NoCloseBracket(YearMonth(t, c).value.rest)
    ensures NoCloseBracket(t)
  {
    var y := Year(t).value;
    var a := Sep(y.rest, c).value;
    var m := Field(a).value;
    SepClean(m.rest, c);
    FieldClean(a);
    SepClean(y.rest, c);
    YearClean(t);
  }

  lemma MinuteSecondClean(c: string)
    requires Field(c).Some? && Sep(Field(c).value.rest, ':').Some?
    requires LastSecond(Sep(Field(c).value.rest, ':').value).Some?
    ensures NoCloseBracket(c)
  {
    var mi := Field(c).value;
    var e := Sep(mi.rest, ':').value;
    assert NoCloseBracket(e);
    SepClean(mi.rest, ':');
    FieldClean(c);
  }

  lemma TimeOfDayClean(s: string)
    requires TimeOfDay(s).Some?
    ensures NoCloseBracket(s)
  {
    var gap := Span(s, IsSpace);
    var u := s[gap..];
    var h := Field(u).value;
    var c := Sep(h.rest, ':').value;
    assert NoCloseBracket(c) by { MinuteSecondClean(c); }
    assert NoCloseBracket(u) by {
      SepClean(h.rest, ':');
      FieldClean(u);
    }
    assert NoCloseBracket(s[..gap]) by { SpacesClean(s, gap); }
    CleanJoin(s, gap);
  }

  /** Whitespace holds no ']'. */
  lemma SpacesClean(s: string, n: nat)
    requires n <= |s| && forall i :: 0 <= i < n ==> IsSpace(s[i])
    ensures NoCloseBracket(s[..n])
  {
    assert forall i :: 0 <= i < n ==> s[..n][i] == s[i];
  }

  lemma LastDayClean(s: string)
    requires LastDay(s).Some?
    ensures NoCloseBracket(s)
  {
  }

  lemma ParseDateTimeClean(t: string)
    requires ParseDateTime(t).Some?
    ensures NoCloseBracket(t)
  {
    var ym := YearMonth(t, '-').value;
    var d := InnerDay(ym.rest).value;
    TimeOfDayClean(d.rest);
    InnerDayClean(ym.rest);
    YearMonthClean(t, '-');
  }

  lemma ParseDateClean(t: string)
    requires ParseDate(t).Some?
    ensures NoCloseBracket(t)
  {
    var ym := YearMonth(t, '/').value;
    LastDayClean(ym.rest);
    YearMonthClean(t, '/');
  }

  /** Whatever text either format accepts is free of ']'. */
  lemma ResolveClean(t: string)
    requires Resolve(t).Some?
    ensures NoCloseBracket(t)
  {
    if ParseDateTime(t).Some? {
      ParseDateTimeClean(t);
    } else {
      ParseDateClean(t);
    }
  }

  /** The characters the two formats are written with. */
  predicate IsPlain(c: char) {
    IsDigit(c) || c == '-' || c == '/' || c == ':' || c == ' '
  }

  lemma PadPlain(n: nat, width: nat, rest: string)
    requires 1 <= width && n < Pow10(width) && All(rest, IsPlain)
    ensures All(Pad(n, width) + rest, IsPlain)
  {
    AllAppend(Pad(n, width), rest, IsPlain);
  }

  lemma SepPlain(c: char, rest: string)
    requires IsPlain(c) && All(rest, IsPlain)
    ensures All([c] + rest, IsPlain)
  {
    AllAppend([c], rest, IsPlain);
  }

  /** Both formatted texts are made of digits and the formats' separators only. */
  lemma FormatsPlain(d: DateTime)
    requires FitsWidths(d)
    ensures All(FormatDateTime(d), IsPlain)
    ensures All(FormatDate(d), IsPlain)
  {
    PadPlain(d.second, 2, []);
    SepPlain(':', Pad(d.second, 2));
    PadPlain(d.minute, 2, ":" + Pad(d.second, 2));
    var hms := Pad(d.hour, 2) + (":" + (Pad(d.minute, 2) + (":" + Pad(d.second, 2))));
    SepPlain(':', Pad(d.minute, 2) + (":" + Pad(d.second, 2)));
    PadPlain(d.hour, 2, ":" + (Pad(d.minute, 2) + (":" + Pad(d.second, 2))));
    SepPlain(' ', hms);
    PadPlain(d.day, 2, " " + hms);
    SepPlain('-', Pad(d.day, 2) + (" " + hms));
    PadPlain(d.month, 2, "-" + (Pad(d.day, 2) + (" " + hms)));
    SepPlain('-', Pad(d.month, 2) + ("-" + (Pad(d.day, 2) + (" " + hms))));
    PadPlain(d.year, 4, "-" + (Pad(d.month, 2) + ("-" + (Pad(d.day, 2) + (" " + hms)))));
    PadPlain(d.day, 2, []);
    SepPlain('/', Pad(d.day, 2));
    PadPlain(d.month, 2, "/" + Pad(d.day, 2));
    SepPlain('/', Pad(d.month, 2) + ("/" + Pad(d.day, 2)));
    PadPlain(d.year, 4, "/" + (Pad(d.month, 2) + ("/" + Pad(d.day, 2))));
    assert Pad(d.second, 2) + [] == Pad(d.second, 2);
    assert Pad(d.day, 2) + [] == Pad(d.day, 2);
  }
}

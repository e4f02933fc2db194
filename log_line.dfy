/**
 * `EquipmentLog.parse_log_line`: one line of the equipment log, such as
 *
 *   [2023-01-01 10:00:00] WARN sensor[7]: (temperature 36.5, vibration err)
 *
 * is matched from its start against
 *
 *   \[(.*?)\]\s+([A-Z]+)\s+sensor\[(\d+)\]:\s+\(temperature\s+(-?[\d.]+|\berr\b),\s+vibration\s+(-?[\d.]+|\berr\b)\)
 *
 * and the five groups become a record. The match is anchored at the start only,
 * so text after the closing parenthesis is ignored.
 *
 * The pattern after the lazy first group is a sequence of pieces, and it is
 * deterministic: each greedy run is followed by a piece that cannot start with
 * a character of the run's class (whitespace is followed by a letter, a
 * literal or a measurement; letters and digits by whitespace or ']'), so
 * giving characters back never helps, and the two alternatives of a
 * measurement start with different characters. The word boundaries around
 * `err` always hold there, since `err` follows whitespace and precedes ',' or
 * ')'. The lazy `(.*?)` is a search from left to right for the first ']' after
 * which the rest matches; `.` does not match a newline, so the search stops at one.
 */
module LogLine {

  import opened Wrappers
  import opened Text
  import opened Timestamp
  import opened Measurement

  /**
   * One piece of the pattern after `\]`: a literal, a greedy run of
   * whitespace, capitals or digits, or a measurement group together with the
   * ',' or ')' that must follow it.
   */
  datatype Piece = Lit(text: string) | Spaces | Capitals | Digits | Reading(closing: bool)

  /** `\s+([A-Z]+)\s+sensor\[(\d+)\]:\s+\(temperature\s+(...),\s+vibration\s+(...)\)`, piece by piece. */
  const TailPattern: seq<Piece> := [
    Spaces, Capitals, Spaces, Lit("sensor["), Digits, Lit("]:"), Spaces, Lit("(temperature"),
    Spaces, Reading(false), Spaces, Lit("vibration"), Spaces, Reading(true)]

  /** The pieces that hold the pattern's groups 2 to 5. */
  const StatusGroup := 1
  const SensorGroup := 4
  const TemperatureGroup := 9
  const VibrationGroup := 13

  /** A matched line: the timestamp group and the text each piece of the tail matched. */
  datatype Layout = Layout(stamp: string, tail: seq<string>)

  /** What `parse_log_line` returns: the keyword arguments of an EquipmentLog row. */
  datatype LogRecord = LogRecord(
    timestamp: DateTime, status: string, sensorId: nat, temperature: Reading, vibration: Reading)

  /**
   * Why a line is not turned into a record: the pattern does not match
   * (`Exception("Log parse error")`), or the ValueError raised by the second
   * strptime, by `int()` on a sensor id of more than MaxStrDigits digits, or by
   * `float()` on one of the two measurements.
   */
  datatype ParseError = StructureMismatch | BadTimestamp | BadSensorId | BadTemperature | BadVibration

  /** The character that ends a measurement group. */
  function Term(closing: bool): char {
    if closing then ')' else ','
  }

  /** `t` is a text the piece `p` matches (a measurement without its terminator). */
  predicate Fits(p: Piece, t: string) {
    match p
    case Lit(x) => t == x
    case Spaces => t != [] && All(t, IsSpace)
    case Capitals => t != [] && All(t, IsUpper)
    case Digits => t != [] && All(t, IsDigit)
    case Reading(_) => IsReadingText(t)
  }

  /** One text per piece, each fitting its piece. */
  predicate FitsAll(ps: seq<Piece>, ts: seq<string>) {
    |ts| == |ps| && forall i :: 0 <= i < |ps| ==> Fits(ps[i], ts[i])
  }

  predicate NoNewline(s: string) {
    forall i :: 0 <= i < |s| ==> s[i] != '\n'
  }

  /** The shape of every line the pattern matches. */
  predicate WellFormed(l: Layout) {
    NoNewline(l.stamp) && FitsAll(TailPattern, l.tail)
  }

  /** The status group of a matched line. */
  function StatusText(l: Layout): (t: string)
    requires WellFormed(l)
    ensures t != [] && All(t, IsUpper)
  {
    assert Fits(TailPattern[StatusGroup], l.tail[StatusGroup]);
    l.tail[StatusGroup]
  }

  /** The sensor group of a matched line. */
  function SensorText(l: Layout): (t: string)
    requires WellFormed(l)
    ensures t != [] && All(t, IsDigit)
  {
    assert Fits(TailPattern[SensorGroup], l.tail[SensorGroup]);
    l.tail[SensorGroup]
  }

  /** The temperature group of a matched line. */
  function TemperatureText(l: Layout): (t: string)
    requires WellFormed(l)
    ensures IsReadingText(t)
  {
    assert Fits(TailPattern[TemperatureGroup], l.tail[TemperatureGroup]);
    l.tail[TemperatureGroup]
  }

  /** The vibration group of a matched line. */
  function VibrationText(l: Layout): (t: string)
    requires WellFormed(l)
    ensures IsReadingText(t)
  {
    assert Fits(TailPattern[VibrationGroup], l.tail[VibrationGroup]);
    l.tail[VibrationGroup]
  }

  /** The text of one piece as it stands in the line. */
  function RenderPiece(p: Piece, t: string): string {
    if p.Reading? then t + [Term(p.closing)] else t
  }

  /** The text the pieces match, followed by `rest`. */
  function RenderPieces(ps: seq<Piece>, ts: seq<string>, rest: string): string
    requires |ts| == |ps|
  {
    if ps == [] then rest else RenderPiece(ps[0], ts[0]) + RenderPieces(ps[1..], ts[1..], rest)
  }

  /** The text the whole pattern matches, followed by `rest`. */
  function Render(l: Layout, rest: string): string
    requires |l.tail| == |TailPattern|
  {
    "[" + (l.stamp + ("]" + RenderPieces(TailPattern, l.tail, rest)))
  }

  /** `-?[\d.]+`, greedy: an optional minus and the whole run of digits and points after it. */
  function NumberToken(s: string): (r: Option<Parsed<string>>)
    ensures r.Some? ==> IsNumberToken(r.value.value) && s == r.value.value + r.value.rest
    ensures r.Some? ==> r.value.rest == [] || !IsNumeral(r.value.rest[0])
  {
    if s != [] && s[0] == '-' then
      var run :- Run(s[1..], IsNumeral);
      assert ("-" + run.value)[1..] == run.value;
      Some(Parsed("-" + run.value, run.rest))
    else
      Run(s, IsNumeral)
  }

  /** The first alternative of a measurement group, followed by `term`. */
  function NumberGroup(s: string, term: char): (r: Option<Parsed<string>>)
    ensures r.Some? ==> IsNumberToken(r.value.value) && s == (r.value.value + [term]) + r.value.rest
  {
    var num :- NumberToken(s);
    if num.rest != [] && num.rest[0] == term then
      JoinFirst(num.value, num.rest);
      Some(Parsed(num.value, num.rest[1..]))
    else None
  }

  /** The second alternative, the sentinel, followed by `term`. */
  function SentinelGroup(s: string, term: char): (r: Option<Parsed<string>>)
    ensures r.Some? ==> r.value.value == "err" && s == ("err" + [term]) + r.value.rest
  {
    if |s| >= 4 && s[..3] == "err" && s[3] == term then
      assert s == s[..3] + s[3..];
      JoinFirst(s[..3], s[3..]);
      Some(Parsed("err", s[4..]))
    else None
  }

  /** `(-?[\d.]+|\berr\b)` followed by `term`: the measurement group, its alternatives tried in order. */
  function MeasurementGroup(s: string, term: char): (r: Option<Parsed<string>>)
    ensures r.Some? ==> IsReadingText(r.value.value) && s == (r.value.value + [term]) + r.value.rest
  {
    var num := NumberGroup(s, term);
    if num.Some? then num else SentinelGroup(s, term)
  }

  /** One piece at the front of `s`: the text it matched and the rest. */
  function MatchPiece(p: Piece, s: string): (r: Option<Parsed<string>>)
    ensures r.Some? ==> Fits(p, r.value.value)
    ensures r.Some? ==> s == RenderPiece(p, r.value.value) + r.value.rest
  {
    match p
    case Lit(x) =>
      var rest :- Literal(s, x);
      Some(Parsed(x, rest))
    case Spaces => Run(s, IsSpace)
    case Capitals => Run(s, IsUpper)
    case Digits => Run(s, IsDigit)
    case Reading(closing) => MeasurementGroup(s, Term(closing))
  }

  /** The pieces one after another at the front of `s`, each greedy run taking all it can. */
  function MatchPieces(ps: seq<Piece>, s: string): (r: Option<Parsed<seq<string>>>)
    ensures r.Some? ==> FitsAll(ps, r.value.value)
  {
    if ps == [] then Some(Parsed([], s))
    else
      var h :- MatchPiece(ps[0], s);
      var t :- MatchPieces(ps[1..], h.rest);
      var ts := [h.value] + t.value;
      assert forall i :: 0 < i < |ts| ==> ts[i] == t.value[i - 1] && ps[i] == ps[1..][i - 1];
      Some(Parsed(ts, t.rest))
  }

  /** The pattern after `\]`, at the front of `s`. */
  function MatchTail(s: string): Option<Parsed<seq<string>>> {
    MatchPieces(TailPattern, s)
  }

  /** What the pieces matched is really there, followed by the unmatched rest. */
  lemma {:induction false} PiecesSound(ps: seq<Piece>, s: string)
    requires MatchPieces(ps, s).Some?
    ensures var r := MatchPieces(ps, s).value; s == RenderPieces(ps, r.value, r.rest)
  {
    if ps != [] {
      var h := MatchPiece(ps[0], s).value;
      var t := MatchPieces(ps[1..], h.rest).value;
      PiecesSound(ps[1..], h.rest);
      var ts := ([h.value] + t.value);
      assert ts[0] == h.value && ts[1..] == t.value;
    }
  }

  /** Where the lazy group ends, and what the pattern after its `\]` read. */
  datatype Close<T> = Close(at: nat, after: Parsed<T>)

  /**
   * The lazy `(.*?)` followed by `\]` and the pattern `p`, in `s` (the line
   * after its opening '['), tried from position `i` on: the first ']' at or
   * after `i` after which `p` matches, when no newline comes before it.
   */
  function LazyClose<T>(s: string, i: nat, p: string -> Option<Parsed<T>>): (r: Option<Close<T>>)
    requires i <= |s|
    ensures r.Some? ==> i <= r.value.at < |s| && s[r.value.at] == ']'
    ensures r.Some? ==> p(s[r.value.at + 1..]) == Some(r.value.after)
    ensures r.Some? ==> forall j :: i <= j < r.value.at ==> s[j] != '\n'
    decreases |s| - i
  {
    if i == |s| || s[i] == '\n' then None
    else if s[i] == ']' && p(s[i + 1..]).Some? then Some(Close(i, p(s[i + 1..]).value))
    else LazyClose(s, i + 1, p)
  }

  /** `re.match` of the line pattern: the layout of the matched prefix and the ignored rest of the line. */
  function Match(line: string): Option<Parsed<Layout>> {
    if line != [] && line[0] == '[' then
      var s := line[1..];
      match LazyClose(s, 0, MatchTail)
      case None => None
      case Some(c) => Some(Parsed(Layout(s[..c.at], c.after.value), c.after.rest))
    else None
  }

  /** A match always has the pattern's shape. */
  lemma MatchWellFormed(line: string)
    requires Match(line).Some?
    ensures WellFormed(Match(line).value.value)
  {
    var s := line[1..];
    var c := LazyClose(s, 0, MatchTail).value;
    assert forall j :: 0 <= j < c.at ==> s[..c.at][j] == s[j];
  }

  /** Soundness of the match: a matched line is the rendering of what was matched, followed by the ignored rest. */
  lemma MatchSound(line: string)
    requires Match(line).Some?
    ensures |Match(line).value.value.tail| == |TailPattern|
    ensures line == Render(Match(line).value.value, Match(line).value.rest)
  {
    var c := LazyClose(line[1..], 0, MatchTail).value;
    PiecesSound(TailPattern, line[1..][c.at + 1..]);
    Bracketed(line, c.at, c.after.value, c.after.rest);
  }

  /** A line that opens with '[' and has a ']' at `k` of what follows, then a rendered tail, is the rendering of its parts. */
  lemma Bracketed(line: string, k: nat, ts: seq<string>, rest: string)
    requires line != [] && line[0] == '[' && k < |line[1..]| && line[1..][k] == ']' && |ts| == |TailPattern|
    requires line[1..][k + 1..] == RenderPieces(TailPattern, ts, rest)
    ensures line == Render(Layout(line[1..][..k], ts), rest)
  {
    var s := line[1..];
    SplitAt(s, k);
    assert line == [line[0]] + s;
  }

  /** A string is what comes before position `k`, the character there, and what follows it. */
  lemma SplitAt(s: string, k: nat)
    requires k < |s|
    ensures s == s[..k] + ([s[k]] + s[k + 1..])
  {
  }

  /**
   * The conversions `parse_log_line` applies to the groups of a match. The
   * timestamp is resolved first, then the dictionary is built in order (status,
   * sensor id, temperature, vibration), so the first failing conversion decides
   * the error.
   */
  function Convert(l: Layout): (r: Result<LogRecord, ParseError>)
    requires WellFormed(l)
    ensures r.Ok? ==> Valid(r.value.timestamp) && Resolve(l.stamp) == Some(r.value.timestamp)
    ensures r == Err(BadTimestamp) <==> Resolve(l.stamp).None?
    ensures r.Ok? ==> r.value.status == StatusText(l) && r.value.sensorId == DigitsValue(SensorText(l))
    ensures r == Err(BadSensorId) <==> Resolve(l.stamp).Some? && |SensorText(l)| > MaxStrDigits
    ensures r != Err(StructureMismatch)
  {
    match Resolve(l.stamp)
    case None => Err(BadTimestamp)
    case Some(timestamp) =>
      match IntOf(SensorText(l))
      case None => Err(BadSensorId)
      case Some(sensorId) =>
        match ConvertReading(TemperatureText(l))
        case None => Err(BadTemperature)
        case Some(temperature) =>
          match ConvertReading(VibrationText(l))
          case None => Err(BadVibration)
          case Some(vibration) =>
            Ok(LogRecord(timestamp, StatusText(l), sensorId, temperature, vibration))
  }

  /** `EquipmentLog.parse_log_line`: "Log parse error" when the pattern does not match, else the conversions of its groups. */
  function ParseLogLine(line: string): (r: Result<LogRecord, ParseError>)
    ensures r == Err(StructureMismatch) <==> Match(line).None?
  {
    match Match(line)
    case None => Err(StructureMismatch)
    case Some(m) => MatchWellFormed(line); Convert(m.value)
  }

  /** The measurement columns of a record are absent exactly when their text is the sentinel. */
  lemma SentinelsMissing(l: Layout)
    requires WellFormed(l) && Convert(l).Ok?
    ensures Convert(l).value.temperature == Missing <==> TemperatureText(l) == "err"
    ensures Convert(l).value.vibration == Missing <==> VibrationText(l) == "err"
  {
  }

  /** The status of a parsed record is a non-empty run of capital letters. */
  lemma StatusUpper(line: string)
    requires ParseLogLine(line).Ok?
    ensures ParseLogLine(line).value.status != [] && All(ParseLogLine(line).value.status, IsUpper)
  {
    MatchWellFormed(line);
  }

  // ---- Completeness: every text of the pattern's shape is matched, with the shortest timestamp group ----

  /** A piece that is a greedy run. */
  predicate IsRun(p: Piece) {
    p.Spaces? || p.Capitals? || p.Digits?
  }

  /** The characters a greedy run goes on taking. */
  predicate Takes(p: Piece, c: char) {
    match p
    case Spaces => IsSpace(c)
    case Capitals => IsUpper(c)
    case Digits => IsDigit(c)
    case _ => false
  }

  /** `c` can begin a text that `p` matches. */
  predicate CanStart(p: Piece, c: char) {
    match p
    case Lit(x) => x != [] && c == x[0]
    case Reading(_) => IsNumeral(c) || c == '-' || c == 'e'
    case _ => Takes(p, c)
  }

  /**
   * No greedy run can eat into what follows it: no literal is empty, whatever
   * follows a run starts outside the run's class, and the last piece is not a run.
   */
  predicate Deterministic(ps: seq<Piece>) {
    && (forall i :: 0 <= i < |ps| ==> ps[i] != Lit([]))
    && (forall i, c :: 0 <= i < |ps| - 1 && Takes(ps[i], c) ==> !CanStart(ps[i + 1], c))
    && (ps != [] ==> !IsRun(ps[|ps| - 1]))
  }

  /** Whitespace is never a capital, a digit, a minus or the first character of a literal of the tail. */
  lemma SpaceApart(c: char)
    requires IsSpace(c)
    ensures !IsUpper(c) && !IsNumeral(c) && c != '-' && c != 'e' && c != 's' && c != '(' && c != 'v'
  {
  }

  lemma TailDeterministic()
    ensures Deterministic(TailPattern)
  {
    var ps := TailPattern;
    forall i, c | 0 <= i < |ps| - 1 && Takes(ps[i], c) ensures !CanStart(ps[i + 1], c) {
      if ps[i].Spaces? { SpaceApart(c); }
    }
  }

  lemma FitsStart(p: Piece, t: string)
    requires Fits(p, t) && p != Lit([])
    ensures t != [] && CanStart(p, t[0])
  {
    if p.Reading? && t != "err" {
      assert IsNumeral(Magnitude(t)[0]);
    }
  }

  lemma MeasurementGroupOf(tok: string, term: char, rest: string)
    requires term == ',' || term == ')'
    requires IsReadingText(tok)
    ensures MeasurementGroup((tok + [term]) + rest, term) == Some(Parsed(tok, rest))
  {
    if tok == "err" {
      SentinelGroupOf(term, rest);
    } else {
      assert NumberGroup((tok + [term]) + rest, term) == Some(Parsed(tok, rest)) by {
        NumberTokenOf(tok, [term] + rest);
        assert (tok + [term]) + rest == tok + ([term] + rest);
      }
    }
  }

  /** The sentinel is not a number, and is read by the second alternative. */
  lemma SentinelGroupOf(term: char, rest: string)
    ensures MeasurementGroup(("err" + [term]) + rest, term) == Some(Parsed("err", rest))
  {
    var s := ("err" + [term]) + rest;
    assert NumberGroup(s, term).None? by {
      assert s[0] == 'e';
    }
    assert s[..3] == "err" && s[3] == term && s[4..] == rest;
  }

  /** A numeric token is read whole when no digit or point follows it. */
  lemma NumberTokenOf(tok: string, x: string)
    requires IsNumberToken(tok) && (x == [] || !IsNumeral(x[0]))
    ensures NumberToken(tok + x) == Some(Parsed(tok, x))
  {
    var s := tok + x;
    assert s[0] == tok[0];
    if tok[0] == '-' {
      assert s[1..] == tok[1..] + x;
      RunOf(tok[1..], x, IsNumeral);
      assert "-" + tok[1..] == tok;
    } else {
      RunOf(tok, x, IsNumeral);
    }
  }

  /** A piece matches its own text when what follows cannot extend a run. */
  lemma PieceOf(p: Piece, t: string, x: string)
    requires Fits(p, t)
    requires IsRun(p) ==> x != [] && !Takes(p, x[0])
    ensures MatchPiece(p, RenderPiece(p, t) + x) == Some(Parsed(t, x))
  {
    match p
    case Lit(_) => LiteralOf(t, x);
    case Spaces => RunOf(t, x, IsSpace);
    case Capitals => RunOf(t, x, IsUpper);
    case Digits => RunOf(t, x, IsDigit);
    case Reading(closing) => MeasurementGroupOf(t, Term(closing), x);
  }

  /** What is left of a deterministic pattern after its first piece is deterministic, and the texts still fit. */
  lemma DropPiece(ps: seq<Piece>, ts: seq<string>)
    requires FitsAll(ps, ts) && Deterministic(ps) && ps != []
    ensures FitsAll(ps[1..], ts[1..]) && Deterministic(ps[1..])
  {
    assert forall i :: 0 <= i < |ps| - 1 ==> ps[1..][i] == ps[i + 1] && ts[1..][i] == ts[i + 1];
  }

  /** A rendering begins with a character its first piece can start with. */
  lemma RenderStart(ps: seq<Piece>, ts: seq<string>, rest: string)
    requires FitsAll(ps, ts) && ps != [] && ps[0] != Lit([])
    ensures RenderPieces(ps, ts, rest) != [] && CanStart(ps[0], RenderPieces(ps, ts, rest)[0])
  {
    FitsStart(ps[0], ts[0]);
    assert RenderPieces(ps, ts, rest)[0] == RenderPiece(ps[0], ts[0])[0];
  }

  /** The pieces of a deterministic pattern match exactly the texts they render, whatever follows. */
  lemma {:induction false} PiecesOf(ps: seq<Piece>, ts: seq<string>, rest: string)
    requires FitsAll(ps, ts) && Deterministic(ps)
    ensures MatchPieces(ps, RenderPieces(ps, ts, rest)) == Some(Parsed(ts, rest))
  {
    if ps != [] {
      var x := RenderPieces(ps[1..], ts[1..], rest);
      DropPiece(ps, ts);
      PiecesOf(ps[1..], ts[1..], rest);
      if IsRun(ps[0]) {
        RenderStart(ps[1..], ts[1..], rest);
      }
      PieceOf(ps[0], ts[0], x);
      assert [ts[0]] + ts[1..] == ts;
    }
  }

  lemma MatchTailOf(ts: seq<string>, rest: string)
    requires FitsAll(TailPattern, ts)
    ensures MatchTail(RenderPieces(TailPattern, ts, rest)) == Some(Parsed(ts, rest))
  {
    TailDeterministic();
    PiecesOf(TailPattern, ts, rest);
  }

  /**
   * The search from `i` reaches every later ']' after which `p` matches, when
   * no newline comes before it, unless an earlier ']' already succeeds.
   */
  lemma {:induction false} LazyReaches<T>(s: string, i: nat, k: nat, p: string -> Option<Parsed<T>>)
    requires i <= k < |s|
    requires s[k] == ']' && p(s[k + 1..]).Some?
    requires forall j :: i <= j < k ==> s[j] != '\n'
    ensures LazyClose(s, i, p).Some?
    ensures LazyClose(s, i, p).value.at <= k
    decreases k - i
  {
    if !(s[i] == ']' && p(s[i + 1..]).Some?) {
      LazyReaches(s, i + 1, k, p);
    }
  }

  /** The search reaches the ']' after a text without newlines that begins `s`, when `p` matches after it. */
  lemma LazyReachesStamp<T>(s: string, stamp: string, p: string -> Option<Parsed<T>>)
    requires NoNewline(stamp) && |stamp| < |s| && s[..|stamp|] == stamp
    requires s[|stamp|] == ']' && p(s[|stamp| + 1..]).Some?
    ensures LazyClose(s, 0, p).Some?
    ensures LazyClose(s, 0, p).value.at <= |stamp|
  {
    assert forall j :: 0 <= j < |stamp| ==> s[j] == stamp[j];
    LazyReaches(s, 0, |stamp|, p);
  }

  /** The line after its '[' is the timestamp text, a ']' and the tail. */
  lemma AfterBracket(l: Layout, rest: string)
    requires |l.tail| == |TailPattern|
    ensures var s := Render(l, rest)[1..];
      && Render(l, rest)[0] == '['
      && |l.stamp| < |s| && s[..|l.stamp|] == l.stamp && s[|l.stamp|] == ']'
      && s[|l.stamp| + 1..] == RenderPieces(TailPattern, l.tail, rest)
  {
    var x := RenderPieces(TailPattern, l.tail, rest);
    var s := l.stamp + ("]" + x);
    assert Render(l, rest) == "[" + s;
    assert s[|l.stamp|] == ("]" + x)[0];
  }

  /** Whenever a line has the pattern's shape it is matched, with the shortest timestamp group that works: the lazy `(.*?)`. */
  lemma MatchShortest(line: string, l: Layout, rest: string)
    requires WellFormed(l) && line == Render(l, rest)
    ensures Match(line).Some?
    ensures |Match(line).value.value.stamp| <= |l.stamp|
  {
    var s := line[1..];
    AfterBracket(l, rest);
    assert MatchTail(s[|l.stamp| + 1..]).Some? by { MatchTailOf(l.tail, rest); }
    LazyReachesStamp(s, l.stamp, MatchTail);
  }

  /**
   * A line of the pattern's shape is matched whatever follows the closing
   * parenthesis; when its timestamp text holds no ']' the match recovers
   * exactly its parts.
   */
  lemma MatchComplete(l: Layout, rest: string)
    requires WellFormed(l) && NoCloseBracket(l.stamp)
    ensures Match(Render(l, rest)) == Some(Parsed(l, rest))
  {
    var line := Render(l, rest);
    var s := line[1..];
    MatchShortest(line, l, rest);
    AfterBracket(l, rest);
    MatchTailOf(l.tail, rest);
    var c := LazyClose(s, 0, MatchTail).value;
    CloseAfterStamp(s, l.stamp, c.at);
    assert c.after == Parsed(l.tail, rest);
    assert s[..c.at] == l.stamp;
  }

  /** A ']' no later than the end of a ']'-free prefix is the one right after it. */
  lemma CloseAfterStamp(s: string, stamp: string, k: nat)
    requires |stamp| < |s| && s[..|stamp|] == stamp && NoCloseBracket(stamp)
    requires k <= |stamp| && s[k] == ']'
    ensures k == |stamp|
  {
  }

  // ---- What the parser makes of a line of the pattern's shape ----

  /** A timestamp either format accepts holds no ']', so the lazy group stops exactly at its end. */
  lemma MatchRendered(l: Layout, rest: string)
    requires WellFormed(l) && Resolve(l.stamp).Some?
    ensures Match(Render(l, rest)) == Some(Parsed(l, rest))
  {
    ResolveClean(l.stamp);
    MatchComplete(l, rest);
  }

  /** A line whose timestamp holds no ']' is parsed by converting its parts, whatever follows the ')'. */
  lemma ParsedAsParts(l: Layout, rest: string)
    requires WellFormed(l) && NoCloseBracket(l.stamp)
    ensures ParseLogLine(Render(l, rest)) == Convert(l)
  {
    MatchComplete(l, rest);
  }

  /**
   * A line whose timestamp and both measurements convert gives the record of
   * its parts, whatever follows the ')', unless its sensor id has more digits
   * than `int()` converts.
   */
  lemma LineAccepted(l: Layout, rest: string)
    requires WellFormed(l) && Resolve(l.stamp).Some?
    requires ConvertReading(TemperatureText(l)).Some?
    requires ConvertReading(VibrationText(l)).Some?
    ensures ParseLogLine(Render(l, rest)) == if |SensorText(l)| <= MaxStrDigits then Ok(LogRecord(
      Resolve(l.stamp).value, StatusText(l), DigitsValue(SensorText(l)),
      ConvertReading(TemperatureText(l)).value, ConvertReading(VibrationText(l)).value)) else Err(BadSensorId)
  {
    ResolveClean(l.stamp);
    ParsedAsParts(l, rest);
  }

  /**
   * A timestamp text that neither format accepts fails the line: the error of
   * the second `strptime` is not caught, whatever the other groups hold.
   */
  lemma TimestampRejected(l: Layout, rest: string)
    requires WellFormed(l) && NoCloseBracket(l.stamp) && Resolve(l.stamp).None?
    ensures ParseLogLine(Render(l, rest)) == Err(BadTimestamp)
  {
    ParsedAsParts(l, rest);
  }

  /** A sensor id of more than MaxStrDigits digits fails the line once the timestamp has resolved, whatever the measurements. */
  lemma SensorRejected(l: Layout, rest: string)
    requires WellFormed(l) && Resolve(l.stamp).Some? && |SensorText(l)| > MaxStrDigits
    ensures ParseLogLine(Render(l, rest)) == Err(BadSensorId)
  {
    ResolveClean(l.stamp);
    ParsedAsParts(l, rest);
  }

  /** A temperature token `float()` rejects (two dots, or no digit) fails the line, whatever the vibration. */
  lemma TemperatureRejected(l: Layout, rest: string)
    requires WellFormed(l) && Resolve(l.stamp).Some? && |SensorText(l)| <= MaxStrDigits
    requires TemperatureText(l) != "err"
    requires !AtMostOneDot(Magnitude(TemperatureText(l))) || !HasDigit(Magnitude(TemperatureText(l)))
    ensures ParseLogLine(Render(l, rest)) == Err(BadTemperature)
  {
    ResolveClean(l.stamp);
    ParsedAsParts(l, rest);
  }

  /** A vibration token `float()` rejects fails the line once the temperature has converted. */
  lemma VibrationRejected(l: Layout, rest: string)
    requires WellFormed(l) && Resolve(l.stamp).Some? && |SensorText(l)| <= MaxStrDigits
    requires ConvertReading(TemperatureText(l)).Some?
    requires VibrationText(l) != "err"
    requires !AtMostOneDot(Magnitude(VibrationText(l))) || !HasDigit(Magnitude(VibrationText(l)))
    ensures ParseLogLine(Render(l, rest)) == Err(BadVibration)
  {
    ResolveClean(l.stamp);
    ParsedAsParts(l, rest);
  }

  /** "Log parse error" is raised exactly for the lines that do not begin with a text of the pattern's shape. */
  lemma MismatchExactly(line: string)
    ensures ParseLogLine(line) == Err(StructureMismatch) <==> !exists l: Layout, rest: string :: WellFormed(l) && line == Render(l, rest)
  {
    if Match(line).Some? {
      MatchWellFormed(line);
      MatchSound(line);
      var m := Match(line).value;
      assert WellFormed(m.value) && line == Render(m.value, m.rest);
    }
    if exists l: Layout, rest: string :: WellFormed(l) && line == Render(l, rest) {
      var l: Layout, rest: string :| WellFormed(l) && line == Render(l, rest);
      MatchShortest(line, l, rest);
    }
  }

  /** Text after the closing parenthesis never changes the outcome. */
  lemma TrailingTextIgnored(l: Layout, rest: string)
    requires WellFormed(l) && NoCloseBracket(l.stamp)
    ensures ParseLogLine(Render(l, rest)) == ParseLogLine(Render(l, []))
  {
    ParsedAsParts(l, rest);
    ParsedAsParts(l, []);
  }

  /** Replacing the text of one piece by another text that fits it keeps the shape. */
  lemma FitsUpdate(ps: seq<Piece>, ts: seq<string>, k: nat, t: string)
    requires FitsAll(ps, ts) && k < |ps| && Fits(ps[k], t)
    ensures FitsAll(ps, ts[k := t])
  {
  }

  /**
   * Conversion only looks at the timestamp text, the status, the value of the
   * sensor digits, whether they are within the `int()` limit, and the two
   * measurement texts.
   */
  lemma ConvertSame(l: Layout, m: Layout)
    requires WellFormed(l) && WellFormed(m) && l.stamp == m.stamp
    requires StatusText(l) == StatusText(m) && DigitsValue(SensorText(l)) == DigitsValue(SensorText(m))
    requires |SensorText(l)| <= MaxStrDigits <==> |SensorText(m)| <= MaxStrDigits
    requires TemperatureText(l) == TemperatureText(m) && VibrationText(l) == VibrationText(m)
    ensures Convert(l) == Convert(m)
  {
  }

  /**
   * Leading zeros of the sensor id are accepted and do not change it, as long
   * as the padded id stays within the `int()` limit; "0" is the id 0.
   */
  lemma SensorLeadingZeros(l: Layout, zeros: string, rest: string)
    requires WellFormed(l) && NoCloseBracket(l.stamp) && All(zeros, IsZero)
    requires |zeros| + |SensorText(l)| <= MaxStrDigits
    ensures var padded := l.(tail := l.tail[SensorGroup := zeros + SensorText(l)]);
      WellFormed(padded) && ParseLogLine(Render(padded, rest)) == ParseLogLine(Render(l, rest))
  {
    var padded := l.(tail := l.tail[SensorGroup := zeros + SensorText(l)]);
    LeadingZeros(zeros, SensorText(l));
    FitsUpdate(TailPattern, l.tail, SensorGroup, zeros + SensorText(l));
    assert WellFormed(padded);
    ConvertSame(l, padded);
    ParsedAsParts(l, rest);
    ParsedAsParts(padded, rest);
  }

  // ---- Writing a record as a line, and reading it back ----

  /** The canonical layout of a record: single spaces, zero-padded timestamp, minimal sensor digits. */
  function RecordLayout(r: LogRecord, stamp: string): (l: Layout)
    requires r.status != [] && All(r.status, IsUpper)
    ensures NoNewline(stamp) ==> WellFormed(l)
  {
    Layout(stamp, [" ", r.status, " ", "sensor[", DigitsOf(r.sensorId, 1), "]:", " ", "(temperature",
      " ", ReadingText(r.temperature), " ", "vibration", " ", ReadingText(r.vibration)])
  }

  /** The parts of a record's canonical layout are what the record holds. */
  lemma RecordParts(r: LogRecord, stamp: string)
    requires r.status != [] && All(r.status, IsUpper) && NoNewline(stamp)
    ensures var l := RecordLayout(r, stamp);
      && WellFormed(l) && StatusText(l) == r.status
      && SensorText(l) == DigitsOf(r.sensorId, 1) && DigitsValue(SensorText(l)) == r.sensorId
      && ConvertReading(TemperatureText(l)) == Some(r.temperature)
      && ConvertReading(VibrationText(l)) == Some(r.vibration)
  {
    var l := RecordLayout(r, stamp);
    assert StatusText(l) == r.status;
    assert SensorText(l) == DigitsOf(r.sensorId, 1);
    assert ConvertReading(TemperatureText(l)) == Some(r.temperature) by {
      assert TemperatureText(l) == ReadingText(r.temperature);
      ReadingRoundTrip(r.temperature);
    }
    assert ConvertReading(VibrationText(l)) == Some(r.vibration) by {
      assert VibrationText(l) == ReadingText(r.vibration);
      ReadingRoundTrip(r.vibration);
    }
  }

  /**
   * A record written with any timestamp text that resolves is read back with
   * the resolved timestamp, whatever follows its ')', unless its sensor id has
   * more digits than `int()` converts.
   */
  lemma RecordRead(r: LogRecord, stamp: string, rest: string)
    requires r.status != [] && All(r.status, IsUpper)
    requires NoNewline(stamp) && Resolve(stamp).Some?
    ensures ParseLogLine(Render(RecordLayout(r, stamp), rest))
         == if IntFits(r.sensorId) then Ok(r.(timestamp := Resolve(stamp).value)) else Err(BadSensorId)
  {
    RecordParts(r, stamp);
    IntOfDecimal(r.sensorId);
    ResolveClean(stamp);
    ParsedAsParts(RecordLayout(r, stamp), rest);
  }

  /** A record written in the full format is read back unchanged, whatever follows its ')', unless its sensor id is too long for `int()`. */
  lemma RecordRoundTrip(r: LogRecord, rest: string)
    requires Valid(r.timestamp) && r.status != [] && All(r.status, IsUpper)
    ensures ParseLogLine(Render(RecordLayout(r, FormatDateTime(r.timestamp)), rest))
         == if IntFits(r.sensorId) then Ok(r) else Err(BadSensorId)
  {
    var stamp := FormatDateTime(r.timestamp);
    assert Resolve(stamp) == Some(r.timestamp) by { ResolveRendered(r.timestamp); }
    assert NoNewline(stamp) by { FormatsPlain(r.timestamp); }
    RecordRead(r, stamp, rest);
  }

  /** A record written with the date-only format is read back at midnight of its day, unless its sensor id is too long for `int()`. */
  lemma DateOnlyRoundTrip(r: LogRecord, rest: string)
    requires Valid(r.timestamp) && r.status != [] && All(r.status, IsUpper)
    ensures ParseLogLine(Render(RecordLayout(r, FormatDate(r.timestamp)), rest))
         == if IntFits(r.sensorId) then Ok(r.(timestamp := Midnight(r.timestamp))) else Err(BadSensorId)
  {
    var stamp := FormatDate(r.timestamp);
    assert Resolve(stamp) == Some(Midnight(r.timestamp)) by { ResolveRendered(r.timestamp); }
    assert NoNewline(stamp) by { FormatsPlain(r.timestamp); }
    RecordRead(r, stamp, rest);
  }
}

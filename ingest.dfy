/**
 * `EquipmentLog.load_from_txt`: the two ways a log file is turned into
 * stored rows. The file is a sequence of lines (each as `readlines()` gives
 * it, newline included) and the relational store is a table of committed
 * rows together with the integrity rule that decides whether an insert
 * raises `IntegrityError`.
 *
 * Bulk mode parses every line first (a list comprehension: the first line
 * that fails raises, before any storage call) and then saves the whole list
 * in one transaction, which commits all rows or, on an integrity error,
 * none. Non-bulk mode goes line by line: each record is inserted and
 * committed on its own, a record the store refuses is skipped, and a line
 * that fails to parse raises out of the loop, leaving the records committed
 * before it in place.
 */
module Ingest {

  import opened Wrappers
  import opened LogLine

  /**
   * The integrity rule of the store: whether inserting a record after the
   * given committed rows succeeds. It stands for the constraints the
   * database enforces (for example, that the sensor id is a known sensor).
   */
  type Admission = (seq<LogRecord>, LogRecord) -> bool

  /**
   * What a load raises: the exception of the parser on the line at `index`
   * (counted from 0), or the `IntegrityError` of the bulk transaction.
   */
  datatype LoadError = LineRejected(index: nat, reason: ParseError) | BatchRejected

  /** What a load returns (the list of saved records, or what it raises) and the rows committed when it ends. */
  datatype Outcome = Outcome(result: Result<seq<LogRecord>, LoadError>, rows: seq<LogRecord>)

  /** What `parse_log_line` makes of one line: a record, or the exception it raises. */
  type LineResult = Result<LogRecord, ParseError>

  // ---- Parsing every line, in order ----

  /** `f` applied to each element, in order. */
  function Map<A, B>(f: A -> B, xs: seq<A>): (ys: seq<B>)
    ensures |ys| == |xs|
  {
    if xs == [] then [] else Map(f, xs[..|xs| - 1]) + [f(xs[|xs| - 1])]
  }

  lemma {:induction false} MapAt<A, B>(f: A -> B, xs: seq<A>, i: nat)
    requires i < |xs|
    ensures Map(f, xs)[i] == f(xs[i])
  {
    var n := |xs| - 1;
    if i < n {
      MapAt(f, xs[..n], i);
      assert xs[..n][i] == xs[i];
    }
  }

  /** The outcome of the parser on each line of the file, in file order. */
  function Outcomes(lines: seq<string>): (parsed: seq<LineResult>)
    ensures |parsed| == |lines|
  {
    Map(ParseLogLine, lines)
  }

  /** One step of both loops: the line parser `parse` on the line at `i`. */
  method ParseAt(parse: string -> LineResult, lines: seq<string>, i: nat) returns (line: LineResult)
    requires i < |lines|
    ensures line == Map(parse, lines)[i]
  {
    line := parse(lines[i]);
    MapAt(parse, lines, i);
  }

  /**
   * `[parse_log_line(line) for line in lines]`, given the outcome on each
   * line: every record, in line order, or the error of the first line that
   * fails, which stops the comprehension.
   */
  function Collect(parsed: seq<LineResult>): (r: Result<seq<LogRecord>, LoadError>)
    ensures r.Ok? <==> forall i :: 0 <= i < |parsed| ==> parsed[i].Ok?
    ensures r.Ok? ==> |r.value| == |parsed|
    ensures r.Ok? ==> forall i :: 0 <= i < |parsed| ==> parsed[i] == Ok(r.value[i])
    ensures r.Err? ==> r.error.LineRejected? && r.error.index < |parsed|
    ensures r.Err? ==> parsed[r.error.index] == Err(r.error.reason)
    ensures r.Err? ==> forall i :: 0 <= i < r.error.index ==> parsed[i].Ok?
  {
    if parsed == [] then Ok([])
    else
      var n := |parsed| - 1;
      assert forall i :: 0 <= i < n ==> parsed[..n][i] == parsed[i];
      match Collect(parsed[..n])
      case Err(e) => Err(e)
      case Ok(recs) =>
        match parsed[n]
        case Err(reason) => Err(LineRejected(n, reason))
        case Ok(rec) => Ok(recs + [rec])
  }

  /** The records of the lines before the first one that fails (of all lines when none does). */
  function Accepted(parsed: seq<LineResult>): (recs: seq<LogRecord>)
    ensures |recs| <= |parsed|
    ensures Collect(parsed[..|recs|]) == Ok(recs)
    ensures |recs| < |parsed| ==> parsed[|recs|].Err?
  {
    if Collect(parsed).Ok? then
      assert parsed[..|parsed|] == parsed;
      Collect(parsed).value
    else
      var n := |parsed| - 1;
      var recs := Accepted(parsed[..n]);
      assert parsed[..n][..|recs|] == parsed[..|recs|];
      if |recs| < n then
        assert parsed[..n][|recs|] == parsed[|recs|];
        recs
      else
        recs
  }

  /** At the first line that fails, the comprehension raises that line's error, and the accepted records are those before it. */
  lemma AcceptedStopsAt(parsed: seq<LineResult>, i: nat)
    requires i < |parsed| && Collect(parsed[..i]).Ok? && parsed[i].Err?
    ensures Accepted(parsed) == Collect(parsed[..i]).value
    ensures Collect(parsed) == Err(LineRejected(i, parsed[i].error))
  {
    var recs := Accepted(parsed);
    var k := |recs|;
    forall j | 0 <= j < k ensures parsed[j].Ok? {
      assert parsed[..k][j] == parsed[j];
    }
    forall j | 0 <= j < i ensures parsed[j].Ok? {
      assert parsed[..i][j] == parsed[j];
    }
    FirstFailure(parsed, k, i);
    var e := Collect(parsed).error;
    FirstFailure(parsed, e.index, i);
  }

  /** Two positions that both fail first are the same position. */
  lemma FirstFailure(parsed: seq<LineResult>, a: nat, b: nat)
    requires a <= |parsed| && b < |parsed|
    requires forall j :: 0 <= j < a ==> parsed[j].Ok?
    requires forall j :: 0 <= j < b ==> parsed[j].Ok?
    requires a < |parsed| ==> parsed[a].Err?
    requires parsed[b].Err?
    ensures a == b
  {
  }

  // ---- The store ----

  /** Inserting `batch` after `rows`, record by record, raises no integrity error. */
  predicate Admitted(admits: Admission, rows: seq<LogRecord>, batch: seq<LogRecord>) {
    batch == [] || (Admitted(admits, rows, batch[..|batch| - 1]) && admits(rows + batch[..|batch| - 1], batch[|batch| - 1]))
  }

  /** A batch is admitted exactly when each of its records is admitted after the rows and the records before it. */
  lemma {:induction false} AdmittedEach(admits: Admission, rows: seq<LogRecord>, batch: seq<LogRecord>)
    ensures Admitted(admits, rows, batch) <==> forall i :: 0 <= i < |batch| ==> admits(rows + batch[..i], batch[i])
  {
    if batch != [] {
      var n := |batch| - 1;
      AdmittedEach(admits, rows, batch[..n]);
      assert forall i :: 0 <= i < n ==> batch[..n][..i] == batch[..i] && batch[..n][i] == batch[i];
    }
  }

  /**
   * The records that survive one-at-a-time inserts: each is tried after the
   * rows committed so far and kept when the store accepts it.
   */
  function Kept(admits: Admission, rows: seq<LogRecord>, recs: seq<LogRecord>): (k: seq<LogRecord>)
    ensures |k| <= |recs|
  {
    if recs == [] then []
    else
      var n := |recs| - 1;
      var k := Kept(admits, rows, recs[..n]);
      if admits(rows + k, recs[n]) then k + [recs[n]] else k
  }

  /** Every kept record passed the integrity check after the rows committed before it. */
  lemma {:induction false} KeptAdmitted(admits: Admission, rows: seq<LogRecord>, recs: seq<LogRecord>)
    ensures Admitted(admits, rows, Kept(admits, rows, recs))
  {
    if recs != [] {
      var n := |recs| - 1;
      var k := Kept(admits, rows, recs[..n]);
      KeptAdmitted(admits, rows, recs[..n]);
      assert (k + [recs[n]])[..|k|] == k;
    }
  }

  /** The kept records are the tried ones with some left out, in the order they were tried. */
  lemma {:induction false} KeptInOrder(admits: Admission, rows: seq<LogRecord>, recs: seq<LogRecord>)
    ensures IsSubsequence(Kept(admits, rows, recs), recs)
  {
    if recs != [] {
      var n := |recs| - 1;
      var k := Kept(admits, rows, recs[..n]);
      KeptInOrder(admits, rows, recs[..n]);
      assert (k + [recs[n]])[..|k|] == k;
    }
  }

  /** `a` is `b` with some elements left out, the rest in their order. */
  predicate IsSubsequence<T(==)>(a: seq<T>, b: seq<T>) {
    if b == [] then a == []
    else
      (a != [] && a[|a| - 1] == b[|b| - 1] && IsSubsequence(a[..|a| - 1], b[..|b| - 1]))
      || IsSubsequence(a, b[..|b| - 1])
  }

  // ---- The two modes ----

  /**
   * Bulk mode: parse every line, then insert them all in one transaction.
   * A parse failure raises before the store is touched; an integrity error
   * rolls the whole batch back.
   */
  function BulkLoad(admits: Admission, rows: seq<LogRecord>, parsed: seq<LineResult>): (o: Outcome)
    ensures o.rows == rows || (Collect(parsed).Ok? && o.rows == rows + Collect(parsed).value)
    ensures o.result.Ok? <==> Collect(parsed).Ok? && Admitted(admits, rows, Collect(parsed).value)
    ensures o.result.Ok? ==> o.result.value == Collect(parsed).value && o.rows == rows + o.result.value
    ensures o.result.Err? ==> o.rows == rows
    ensures Collect(parsed).Err? ==> o.result == Collect(parsed)
    ensures Collect(parsed).Ok? && !Admitted(admits, rows, Collect(parsed).value) ==> o.result == Err(BatchRejected)
  {
    match Collect(parsed)
    case Err(e) => Outcome(Err(e), rows)
    case Ok(recs) =>
      if Admitted(admits, rows, recs) then Outcome(Ok(recs), rows + recs)
      else Outcome(Err(BatchRejected), rows)
  }

  /**
   * Non-bulk mode: every line before the first that fails to parse is
   * inserted on its own and the refused ones are skipped; the load returns
   * the saved records, or raises the parse error with the earlier commits
   * kept.
   */
  function TolerantLoad(admits: Admission, rows: seq<LogRecord>, parsed: seq<LineResult>): (o: Outcome)
    ensures o.result.Ok? ==> Collect(parsed).Ok? && o.rows == rows + o.result.value
    ensures o.result.Err? ==> o.result == Collect(parsed)
  {
    var k := Kept(admits, rows, Accepted(parsed));
    match Collect(parsed)
    case Ok(_) => Outcome(Ok(k), rows + k)
    case Err(e) => Outcome(Err(e), rows + k)
  }

  /**
   * Non-bulk mode only ever adds rows: the earlier rows stay, every new row
   * passed the integrity check when it was inserted, and the new rows are
   * records of lines before the first failure, in file order.
   */
  lemma TolerantCommits(admits: Admission, rows: seq<LogRecord>, parsed: seq<LineResult>)
    ensures var o := TolerantLoad(admits, rows, parsed);
      |rows| <= |o.rows| && o.rows[..|rows|] == rows
    ensures var o := TolerantLoad(admits, rows, parsed); Admitted(admits, rows, o.rows[|rows|..])
    ensures var o := TolerantLoad(admits, rows, parsed); IsSubsequence(o.rows[|rows|..], Accepted(parsed))
  {
    var k := Kept(admits, rows, Accepted(parsed));
    assert (rows + k)[..|rows|] == rows && (rows + k)[|rows|..] == k;
    KeptAdmitted(admits, rows, Accepted(parsed));
    KeptInOrder(admits, rows, Accepted(parsed));
  }

  // ---- What the modes promise ----

  /** Records the store accepts one at a time are all kept, in order. */
  lemma {:induction false} KeptAll(admits: Admission, rows: seq<LogRecord>, recs: seq<LogRecord>)
    requires Admitted(admits, rows, recs)
    ensures Kept(admits, rows, recs) == recs
  {
    if recs != [] {
      KeptAll(admits, rows, recs[..|recs| - 1]);
      assert recs[..|recs| - 1] + [recs[|recs| - 1]] == recs;
    }
  }

  /** On a file whose every line parses and whose every record the store accepts, the two modes store and return the same. */
  lemma ModesAgree(admits: Admission, rows: seq<LogRecord>, parsed: seq<LineResult>)
    requires Collect(parsed).Ok? && Admitted(admits, rows, Collect(parsed).value)
    ensures TolerantLoad(admits, rows, parsed) == BulkLoad(admits, rows, parsed)
    ensures BulkLoad(admits, rows, parsed) == Outcome(Collect(parsed), rows + Collect(parsed).value)
  {
    assert parsed[..|parsed|] == parsed;
    assert Accepted(parsed) == Collect(parsed).value;
    KeptAll(admits, rows, Collect(parsed).value);
  }

  /**
   * A line that fails to parse ends a non-bulk load: what follows it is never
   * read, the error names it, and the records of the lines before it stay
   * committed. Bulk mode commits nothing.
   */
  lemma FailureStopsTolerant(admits: Admission, rows: seq<LogRecord>, parsed: seq<LineResult>, i: nat)
    requires i < |parsed| && parsed[i].Err?
    requires forall j :: 0 <= j < i ==> parsed[j].Ok?
    ensures TolerantLoad(admits, rows, parsed).result == Err(LineRejected(i, parsed[i].error))
    ensures TolerantLoad(admits, rows, parsed) == TolerantLoad(admits, rows, parsed[..i + 1])
    ensures TolerantLoad(admits, rows, parsed).rows == rows + Kept(admits, rows, Collect(parsed[..i]).value)
    ensures BulkLoad(admits, rows, parsed) == Outcome(Err(LineRejected(i, parsed[i].error)), rows)
  {
    var short := parsed[..i + 1];
    assert short[..i] == parsed[..i] && short[i] == parsed[i];
    assert forall j :: 0 <= j < i ==> parsed[..i][j] == parsed[j];
    AcceptedStopsAt(parsed, i);
    AcceptedStopsAt(short, i);
  }

  /** A record the store refuses is skipped and the load goes on: the result is the same as without it. */
  lemma {:induction false} KeptSkips(admits: Admission, rows: seq<LogRecord>, recs: seq<LogRecord>, r: LogRecord, more: seq<LogRecord>)
    requires !admits(rows + Kept(admits, rows, recs), r)
    ensures Kept(admits, rows, recs + [r] + more) == Kept(admits, rows, recs + more)
  {
    if more == [] {
      assert (recs + [r])[..|recs|] == recs;
      assert recs + [r] + more == recs + [r];
      assert recs + more == recs;
    } else {
      var n := |more| - 1;
      KeptSkips(admits, rows, recs, r, more[..n]);
      assert (recs + [r] + more)[..|recs| + 1 + n] == recs + [r] + more[..n];
      assert (recs + more)[..|recs| + n] == recs + more[..n];
      assert (recs + [r] + more)[|recs| + 1 + n] == more[n];
      assert (recs + more)[|recs| + n] == more[n];
    }
  }

  /** Committed records are never undone by a later line: the rows after a prefix of the file are a prefix of the final rows. */
  lemma CommitsSurvive(admits: Admission, rows: seq<LogRecord>, parsed: seq<LineResult>, j: nat)
    requires j <= |parsed|
    ensures var early := TolerantLoad(admits, rows, parsed[..j]).rows;
      var late := TolerantLoad(admits, rows, parsed).rows;
      |early| <= |late| && late[..|early|] == early
  {
    var a := Accepted(parsed[..j]);
    var b := Accepted(parsed);
    AcceptedPrefix(parsed, j);
    KeptPrefix(admits, rows, b, |a|);
  }

  /** What parses before the first failure of a prefix of the file is a prefix of what parses before the first failure of the file. */
  lemma AcceptedPrefix(parsed: seq<LineResult>, j: nat)
    requires j <= |parsed|
    ensures var a := Accepted(parsed[..j]); var b := Accepted(parsed);
      |a| <= |b| && b[..|a|] == a
  {
    var a := Accepted(parsed[..j]);
    var b := Accepted(parsed);
    assert parsed[..j][..|a|] == parsed[..|a|];
    if |a| < j {
      assert parsed[..j][|a|] == parsed[|a|];
    }
    assert |a| <= |b|;
    ParseAllPrefix(parsed[..|b|], |a|);
    assert parsed[..|b|][..|a|] == parsed[..|a|];
  }

  /** The records of a prefix of the lines are the prefix of the records. */
  lemma {:induction false} ParseAllPrefix(parsed: seq<LineResult>, j: nat)
    requires j <= |parsed| && Collect(parsed).Ok?
    ensures Collect(parsed[..j]) == Ok(Collect(parsed).value[..j])
  {
    if j < |parsed| {
      var n := |parsed| - 1;
      var recs := Collect(parsed[..n]).value;
      assert Collect(parsed).value == recs + [parsed[n].value];
      assert parsed[..n][..j] == parsed[..j];
      ParseAllPrefix(parsed[..n], j);
      assert (recs + [parsed[n].value])[..j] == recs[..j];
    } else {
      assert parsed[..j] == parsed;
      assert Collect(parsed).value[..j] == Collect(parsed).value;
    }
  }

  /** Trying fewer records keeps a prefix of what trying all of them keeps. */
  lemma {:induction false} KeptPrefix(admits: Admission, rows: seq<LogRecord>, recs: seq<LogRecord>, j: nat)
    requires j <= |recs|
    ensures var a := Kept(admits, rows, recs[..j]); var b := Kept(admits, rows, recs);
      |a| <= |b| && b[..|a|] == a
  {
    if j < |recs| {
      var n := |recs| - 1;
      assert recs[..n][..j] == recs[..j];
      KeptPrefix(admits, rows, recs[..n], j);
    } else {
      assert recs[..j] == recs;
    }
  }

  /** The store: the committed rows of the equipment log table and the integrity rule it enforces. */
  class LogTable {
    var rows: seq<LogRecord>
    const admits: Admission

    constructor (admits: Admission)
      ensures rows == [] && this.admits == admits
    {
      rows := [];
      this.admits := admits;
    }

    /** `bulk_create`: one session, one commit; an integrity error anywhere in the batch commits none of it. */
    method BulkCreate(batch: seq<LogRecord>) returns (ok: bool)
      modifies this
      ensures ok == Admitted(admits, old(rows), batch)
      ensures rows == if ok then old(rows) + batch else old(rows)
    {
      ok := Admitted(admits, rows, batch);
      if ok {
        rows := rows + batch;
      }
    }

    /** `create`: one record, one commit; false is the `IntegrityError` it raises. */
    method Create(record: LogRecord) returns (ok: bool)
      modifies this
      ensures ok == admits(old(rows), record)
      ensures rows == if ok then old(rows) + [record] else old(rows)
    {
      ok := admits(rows, record);
      if ok {
        rows := rows + [record];
      }
    }
  }

  /** The list comprehension of bulk mode: parse line after line, stopping at the first that raises. */
  method ParseLines(parse: string -> LineResult, lines: seq<string>) returns (r: Result<seq<LogRecord>, LoadError>)
    ensures r == Collect(Map(parse, lines))
  {
    ghost var parsed := Map(parse, lines);
    var recs: seq<LogRecord> := [];
    var i := 0;
    while i < |lines|
      invariant 0 <= i <= |lines|
      invariant Collect(parsed[..i]) == Ok(recs)
    {
      assert parsed[..i + 1][..i] == parsed[..i];
      var line := ParseAt(parse, lines, i);
      match line
      case Err(reason) =>
        AcceptedStopsAt(parsed, i);
        return Err(LineRejected(i, reason));
      case Ok(rec) =>
        recs := recs + [rec];
      i := i + 1;
    }
    assert parsed[..i] == parsed;
    r := Ok(recs);
  }

  /**
   * `EquipmentLog.load_from_txt` over the lines of the file: what it returns
   * or raises, and the rows committed when it ends.
   */
  method LoadFromTxt(table: LogTable, lines: seq<string>, bulk: bool) returns (r: Result<seq<LogRecord>, LoadError>)
    modifies table
    ensures var o := if bulk then BulkLoad(table.admits, old(table.rows), Outcomes(lines))
      else TolerantLoad(table.admits, old(table.rows), Outcomes(lines));
      r == o.result && table.rows == o.rows
  {
    if bulk {
      r := LoadBulk(table, ParseLogLine, lines);
    } else {
      r := LoadEach(table, ParseLogLine, lines);
    }
  }

  /** The bulk branch, for the line parser `parse`: the comprehension, then one `bulk_create`. */
  method LoadBulk(table: LogTable, parse: string -> LineResult, lines: seq<string>) returns (r: Result<seq<LogRecord>, LoadError>)
    modifies table
    ensures r == BulkLoad(table.admits, old(table.rows), Map(parse, lines)).result
    ensures table.rows == BulkLoad(table.admits, old(table.rows), Map(parse, lines)).rows
  {
    var all := ParseLines(parse, lines);
    if all.Err? {
      return all;
    }
    var ok := table.BulkCreate(all.value);
    r := if ok then Ok(all.value) else Err(BatchRejected);
  }

  /**
   * The non-bulk branch, for the line parser `parse`: one `create` per parsed
   * line; an `IntegrityError` is logged and the loop goes on, a parse error
   * leaves the loop and the method.
   */
  method LoadEach(table: LogTable, parse: string -> LineResult, lines: seq<string>) returns (r: Result<seq<LogRecord>, LoadError>)
    modifies table
    ensures r == TolerantLoad(table.admits, old(table.rows), Map(parse, lines)).result
    ensures table.rows == TolerantLoad(table.admits, old(table.rows), Map(parse, lines)).rows
  {
    ghost var parsed := Map(parse, lines);
    ghost var rows0 := table.rows;
    var saved: seq<LogRecord> := [];
    ghost var recs: seq<LogRecord> := [];
    var i := 0;
    while i < |lines|
      invariant 0 <= i <= |lines|
      invariant Collect(parsed[..i]) == Ok(recs)
      invariant saved == Kept(table.admits, rows0, recs)
      invariant table.rows == rows0 + saved
    {
      var line := ParseAt(parse, lines, i);
      if line.Err? {
        TolerantAtFailure(table.admits, rows0, parsed, i, recs);
        return Err(LineRejected(i, line.error));
      }
      var rec := line.value;
      CollectStep(parsed, i);
      KeptStep(table.admits, rows0, recs, rec);
      var ok := table.Create(rec);
      if ok {
        saved := saved + [rec];
      }
      recs := recs + [rec];
      i := i + 1;
    }
    TolerantAtEnd(table.admits, rows0, parsed, recs);
    r := Ok(saved);
  }

  /** Where the non-bulk loop leaves on a parse error, it has done all the work the load does. */
  lemma TolerantAtFailure(admits: Admission, rows: seq<LogRecord>, parsed: seq<LineResult>, i: nat, recs: seq<LogRecord>)
    requires i < |parsed| && Collect(parsed[..i]) == Ok(recs) && parsed[i].Err?
    ensures TolerantLoad(admits, rows, parsed) == Outcome(Err(LineRejected(i, parsed[i].error)), rows + Kept(admits, rows, recs))
  {
    AcceptedStopsAt(parsed, i);
  }

  /** Where the non-bulk loop runs out of lines, it has done all the work the load does. */
  lemma TolerantAtEnd(admits: Admission, rows: seq<LogRecord>, parsed: seq<LineResult>, recs: seq<LogRecord>)
    requires Collect(parsed[..|parsed|]) == Ok(recs)
    ensures TolerantLoad(admits, rows, parsed) == Outcome(Ok(Kept(admits, rows, recs)), rows + Kept(admits, rows, recs))
  {
    assert parsed[..|parsed|] == parsed;
  }

  lemma KeptStep(admits: Admission, rows: seq<LogRecord>, recs: seq<LogRecord>, rec: LogRecord)
    ensures var k := Kept(admits, rows, recs);
      Kept(admits, rows, recs + [rec]) == if admits(rows + k, rec) then k + [rec] else k
  {
    assert (recs + [rec])[..|recs|] == recs;
  }

  lemma CollectStep(parsed: seq<LineResult>, i: nat)
    requires i < |parsed| && Collect(parsed[..i]).Ok? && parsed[i].Ok?
    ensures Collect(parsed[..i + 1]) == Ok(Collect(parsed[..i]).value + [parsed[i].value])
  {
    assert parsed[..i + 1][..i] == parsed[..i];
  }

  /** `EquipmentLog.load_data`: the equipment log file, loaded in bulk mode. */
  method LoadData(table: LogTable, lines: seq<string>) returns (r: Result<seq<LogRecord>, LoadError>)
    modifies table
    ensures r == BulkLoad(table.admits, old(table.rows), Outcomes(lines)).result
    ensures table.rows == BulkLoad(table.admits, old(table.rows), Outcomes(lines)).rows
  {
    r := LoadFromTxt(table, lines, true);
  }
}

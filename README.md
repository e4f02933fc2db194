# Equipment log ingestion

A Dafny model of the equipment-log ingestion of `models.py`:

- `EquipmentLog.parse_log_line` turns one log line into the five fields of an
  `EquipmentLog` row. It has four stages:
  - the structure regular expression;
  - the timestamp, tried first in the format `%Y-%m-%d %H:%M:%S` and then in `%Y/%m/%d`;
  - the status and `int()` of the sensor id, which raises for more than 4300 digits;
  - the two measurements, where the literal `err` stands for an absent value and anything else goes through `float()`.
- `EquipmentLog.load_from_txt` stores the records of a log file in one of two modes:
  - bulk: parse every line, then one `bulk_create`;
  - non-bulk: one `create` per line, in file order.
- `load_data` is the bulk load of the equipment log file.

The modules follow the program's layers:

| file | module | what it holds |
|---|---|---|
| `wrappers.dfy` | `Wrappers` | `Option` and `Result` |
| `text.dfy` | `Text` | the character classes of the pattern (`\d`, `[A-Z]`, `[\d.]`, `\s`); greedy runs and literals; decimal digit strings and `int()` |
| `timestamp.dfy` | `Timestamp` | the two `strptime` formats as CPython's `_strptime` compiles them, the `datetime` range checks, and the fallback from one format to the other |
| `measurement.dfy` | `Measurement` | the measurement tokens, the sentinel, and `float()` on exact decimals |
| `log_line.dfy` | `LogLine` | the structure regex and `parse_log_line` |
| `ingest.dfy` | `Ingest` | the two load modes, the store as a class, and the methods of `load_from_txt` |

The structure regex is modelled in two parts:

- The lazy group `(.*?)` is a search from left to right: it stops at the first `]` after which the rest of the pattern matches, and it never crosses a newline.
- The rest of the pattern is a list of pieces matched one after another. Each greedy run in it is followed by a piece that cannot start with a character of the run's class, so backtracking can never change the result.

Both halves are proved:

- `MatchSound`: what the model matches really has the pattern's shape.
- `MatchShortest` and `MatchComplete`: every line of the pattern's shape is matched, with the shortest timestamp group.

The store is the class `LogTable`:

- its committed rows are a sequence;
- its integrity rule is a function (`Admission`) that decides whether an insert after the given committed rows raises `IntegrityError`;
- `bulk_create` and `create` are its two methods.

What the code does, in four places where a reader might expect otherwise:

- **Parse failure in non-bulk mode.** `load_from_txt` catches only `IntegrityError` (models.py:127). A line that fails to parse therefore ends the load with the parser's exception, and the earlier commits stay. It does not skip the line and continue.
- **Sensor id.** The sensor id is `int()` of any digit run, so `0` and zero-padded ids are accepted. They are not restricted to positive values. A run of more than 4300 digits, leading zeros included, makes `int()` raise ValueError under CPython's default limit on integer strings (`sys.int_info.default_max_str_digits`), and the line fails (`LogLine.SensorRejected`).
- **`Err` and `ERR`.** These fail the structure pattern, since neither alternative `-?[\d.]+` nor `err` matches them. The line fails with "Log parse error" instead of a numeric conversion error.
- **Timestamp fields.** `strptime` accepts one-digit fields, a space-padded day, and any whitespace run where the full format has its space. The model accepts them too (`Timestamp.DateTimeFields`, `Timestamp.SpacePaddedDay`).

## Model

| member | source | states |
|---|---|---|
| Text.Span | models.py:135-137 | the greedy run of a class: every character before the returned length is in the class and the next one is not |
| Text.IsSpace | models.py:135-137 | `\s` of a str pattern: the characters for which `str.isspace()` holds |
| Text.SpaceMembers | models.py:135-137 | the ASCII blanks, the information separators and the Unicode spaces are whitespace; letters, digits, `]` and the zero-width characters are not |
| Text.Run | models.py:135-137 | `p+`: a non-empty run of the class, the whole run, with the line split into it and the rest |
| Text.SpanOf | models.py:135-137 | a run stops exactly where the class changes |
| Text.DigitsValue | models.py:153 | `int()` of a digit string is below 10 to the power of its length |
| Text.DigitsValueAppend | models.py:153 | reading a concatenation of digit strings shifts the left part by the length of the right |
| Text.LeadingZeros | models.py:153 | zeros in front of a digit string do not change its value |
| Text.DigitsOf | models.py:153 | the decimal text of a number has its value and at least the requested width, exactly that width when the number fits |
| Text.IntOf | models.py:153 | `int()` of a digit string: its value exactly when it has at most 4300 digits, the ValueError otherwise |
| Text.DecimalWidth | models.py:153 | the shortest decimal text of a number has at most k digits exactly when the number is below 10^k |
| Text.IntOfDecimal | models.py:153 | `int()` of the decimal text of a number gives it back exactly when it is below 10^4300, and raises otherwise |
| Timestamp.Checked | models.py:146-148 | the `datetime` constructor keeps the fields it is given whenever it accepts them; which fields it accepts is `Valid`, written out in `CalendarRule` |
| Timestamp.Valid | models.py:146-148 | the fields a `datetime` accepts: year 1-9999 (MINYEAR, MAXYEAR), month 1-12, day within its month, hour 0-23, minute and second 0-59 |
| Timestamp.CalendarRule | models.py:146-148 | the constructor accepts exactly: years 1-9999, months 1-12, days 1-31 but at most 30 in April, June, September and November and at most 29 in February, 29 February only in a Gregorian leap year, hours below 24, minutes and seconds below 60 |
| Timestamp.LeapDay | models.py:146-148 | 29 February is accepted exactly in the leap years from 1 to 9999 |
| Timestamp.CalendarEdges | models.py:146-148 | the first and last representable instants and the leap days of 2000 and 2024 are accepted; 29 February of 1900 and 2023, 31 April and 31 November, year 0 and 10000, month 0 and 13, day 0, hour 24, minute 60 and second 60 are rejected |
| Timestamp.DaysInMonth | models.py:146-148 | 28 to 31 days, and 29 exactly in February of a leap year |
| Timestamp.Year | models.py:146-148 | `%Y` takes exactly four digits, a value of at most 9999 |
| Timestamp.Field | models.py:146-148 | `%m`, `%H`, `%M` before a separator take the whole digit run when it has one or two digits, and what follows is not a digit |
| Timestamp.InnerDay | models.py:146 | `%d` before the format's space: one or two digits, or a space and a digit 1-9 |
| Timestamp.LastSecond | models.py:146 | `%S` at the end: one or two digits and nothing after them |
| Timestamp.LastDay | models.py:148 | `%d` at the end: one or two digits, or a space and a digit 1-9, and nothing after them |
| Timestamp.YearMonth | models.py:146-148 | `%Y<c>%m<c>`, shared by both formats: a year of at most 9999 and a month field below 100 |
| Timestamp.TimeOfDay | models.py:146 | ` %H:%M:%S` at the end, the space being any whitespace run: three fields below 100 |
| Timestamp.ParseDateTime | models.py:146 | `strptime` with `%Y-%m-%d %H:%M:%S`: every result is a valid date-time |
| Timestamp.ParseDate | models.py:148 | `strptime` with `%Y/%m/%d`: every result is a valid date at 00:00:00 |
| Timestamp.Resolve | models.py:145-148 | the fallback: a valid date-time, and the full format's result whenever that format accepts the text |
| Timestamp.FormatsDisjoint | models.py:145-148 | the two formats never both accept a text; the fallback succeeds exactly when one of them does, and gives the date-only result when that one does |
| Timestamp.DateTimeFields | models.py:146 | a text of the shape `yyyy-m-d<whitespace>h:m:s`, padded or not and with a space-padded day allowed, yields exactly its fields when they form a valid date-time, and is rejected otherwise |
| Timestamp.DateFields | models.py:148 | a text of the shape `yyyy/m/d`, with a space-padded day allowed, yields its date at midnight when valid, and is rejected otherwise |
| Timestamp.DateTimeShape | models.py:146 | conversely, every text the full format accepts is a text of that shape, read as its fields |
| Timestamp.DateShape | models.py:148 | conversely, every text the date-only format accepts is a text of that shape, read as its date at midnight |
| Timestamp.SpacePaddedDay | models.py:146-148 | `%d` also takes a space followed by a digit 1-9, in the middle and at the end of a format |
| Timestamp.DateTimeRoundTrip | models.py:146 | the zero-padded full text of a date-time is read back as that date-time, or rejected when it is invalid |
| Timestamp.DateRoundTrip | models.py:148 | the zero-padded date-only text is read back as that date at midnight, or rejected when it is invalid |
| Timestamp.ResolveRendered | models.py:145-148 | through the fallback, a full text resolves to its date-time and a date-only text to its midnight |
| Timestamp.ResolveClean | models.py:135-148 | a text that either format accepts holds no `]` |
| Timestamp.FormatsPlain | models.py:146-148 | both formatted texts are made of digits and the formats' separators only |
| Measurement.Magnitude | models.py:136-137 | the token without its minus sign is a non-empty run of digits and points |
| Measurement.ParseNumber | models.py:154-155 | `float()` of a `-?[\d.]+` token succeeds exactly when the token has at most one point and at least one digit, and keeps its sign |
| Measurement.ConvertReading | models.py:154-155 | the measurement is absent exactly when the text is `err`; otherwise it converts exactly when `float()` accepts it, to the value `float()` reads |
| Measurement.NotationIsToken | models.py:136-137 | `[-]whole[.frac]` is a token of the pattern's numeric alternative |
| Measurement.ParseSplit | models.py:154-155 | `float()` reads the digits on both sides of the point, scaled by the length of the fraction |
| Measurement.TokenReading | models.py:154-155 | the measurement column of any numeric token holds the digits on both sides of its point, scaled by the fraction length, with the token's sign |
| Measurement.NotationDigits | models.py:154-155 | decimal notation with a digit is accepted and read as the digits of both sides, scaled by the fraction's length, with the sign |
| Measurement.NotationValue | models.py:154-155 | the value of `[-]whole.frac` is whole + frac / 10^\|frac\| with the sign, so leading zeros and a trailing point change nothing |
| Measurement.ScaledValue | models.py:154-155 | the units of a decimal read as a whole part and a fraction give that real value |
| Measurement.FormatDecimal | models.py:154-155 | the canonical text of a decimal is a numeric token of the pattern |
| Measurement.NumberRoundTrip | models.py:154-155 | every decimal, negative zero included, is read back from its canonical text |
| Measurement.RejectedTokens | models.py:154-155 | `.`, `1.2.3`, `-.` and `..5` fit the pattern but `float()` rejects them |
| Measurement.ReadingText | models.py:154-155 | the text of a reading is the sentinel or a numeric token |
| Measurement.ReadingRoundTrip | models.py:154-155 | every reading is recovered from its text, and the sentinel never collides with a number |
| LogLine.StatusText | models.py:143 | the status group of a match is a non-empty run of capitals |
| LogLine.SensorText | models.py:143 | the sensor group of a match is a non-empty run of digits |
| LogLine.TemperatureText | models.py:143 | the temperature group of a match is the sentinel or a numeric token |
| LogLine.VibrationText | models.py:143 | the vibration group of a match is the sentinel or a numeric token |
| LogLine.NumberToken | models.py:136-137 | `-?[\d.]+` takes a numeric token and leaves no digit or point right after it |
| LogLine.NumberGroup | models.py:136-137 | the numeric alternative followed by its terminator: a numeric token, then `,` or `)`, then the rest |
| LogLine.SentinelGroup | models.py:136-137 | the `\berr\b` alternative followed by its terminator |
| LogLine.MeasurementGroup | models.py:136-137 | a measurement group is the sentinel or a numeric token, followed by its terminator |
| LogLine.MatchPiece | models.py:135-137 | what one piece matched fits the piece and stands at the front of the text |
| LogLine.MatchPieces | models.py:135-137 | the pieces matched one after another give one fitting text per piece |
| LogLine.PiecesSound | models.py:135-137 | what the pieces matched is really there, followed by the unmatched rest |
| LogLine.LazyClose | models.py:135 | the lazy `(.*?)\]`: the `]` it stops at is followed by a match of the rest, and no newline comes before it |
| LogLine.Match | models.py:133-142 | `re.match` of the line pattern: `[`, the lazy group up to the first `]` after which the rest matches, the rest of the pattern; what it matches is given by `MatchSound`, `MatchShortest` and `MismatchExactly` |
| LogLine.MatchWellFormed | models.py:133-142 | every match has the pattern's shape: no newline in the timestamp group, one fitting text per piece |
| LogLine.MatchSound | models.py:133-142 | a matched line is the rendering of what was matched, followed by the ignored rest |
| LogLine.Bracketed | models.py:135 | a line made of `[`, a text, `]` and a rendered tail is the rendering of those parts |
| LogLine.TailDeterministic | models.py:135-137 | no greedy run of the pattern can eat into the piece after it |
| LogLine.FitsStart | models.py:135-137 | a text that fits a piece starts with a character the piece can start with |
| LogLine.MeasurementGroupOf | models.py:136-137 | the sentinel or a numeric token, followed by its terminator, is read back whole |
| LogLine.SentinelGroupOf | models.py:136-137 | `err` is not a number and is read by the second alternative |
| LogLine.NumberTokenOf | models.py:136-137 | a numeric token is read whole when no digit or point follows it |
| LogLine.PieceOf | models.py:135-137 | a piece matches its own text when what follows cannot extend a run |
| LogLine.DropPiece | models.py:135-137 | after the first piece, the rest of a deterministic pattern is deterministic and its texts still fit |
| LogLine.RenderStart | models.py:135-137 | a rendering begins with a character its first piece can start with |
| LogLine.PiecesOf | models.py:135-137 | the pieces of a deterministic pattern match exactly the texts they render, whatever follows |
| LogLine.MatchTailOf | models.py:135-137 | the pattern after `\]` matches exactly the texts it renders, whatever follows |
| LogLine.LazyReaches | models.py:135 | the lazy search reaches every later `]` that works and has no newline before it, unless an earlier one already works |
| LogLine.LazyReachesStamp | models.py:135 | the search stops no later than the `]` after a timestamp text without newlines |
| LogLine.AfterBracket | models.py:135 | a rendered line splits into `[`, the timestamp text, `]` and the rendered tail |
| LogLine.MatchShortest | models.py:133-142 | a line of the pattern's shape is matched, with a timestamp group no longer than any that works |
| LogLine.MatchComplete | models.py:133-142 | a line whose timestamp text holds no `]` is matched into exactly its parts, whatever follows the `)` |
| LogLine.MatchRendered | models.py:133-148 | a line whose timestamp text either format accepts is matched into exactly its parts |
| LogLine.Convert | models.py:143-156 | the conversions of the groups: the timestamp error exactly when neither format accepts the stamp, otherwise the resolved (valid) timestamp, the captured status, `int()` of the sensor digits; the sensor error comes exactly when the timestamp resolved and the id has more than 4300 digits; no failure is a structure mismatch |
| LogLine.ParseLogLine | models.py:131-157 | "Log parse error" exactly when the pattern does not match |
| LogLine.SentinelsMissing | models.py:154-155 | each measurement column is absent exactly when its text is `err`, independently of the other |
| LogLine.StatusUpper | models.py:135-152 | the status of a parsed record is a non-empty run of capitals |
| LogLine.ParsedAsParts | models.py:131-157 | a line of the pattern's shape, with no `]` in its timestamp text, parses as the conversions of its parts |
| LogLine.LineAccepted | models.py:142-156 | a line whose timestamp and both measurements convert gives the record of its parts, whatever follows the `)`, or the sensor error when the id has more than 4300 digits |
| LogLine.TimestampRejected | models.py:145-148 | a timestamp text that fits neither format fails the line; the second format's error is not caught |
| LogLine.SensorRejected | models.py:153 | a sensor id of more than 4300 digits fails the line once the timestamp has resolved, whatever the measurements |
| LogLine.TemperatureRejected | models.py:154 | a temperature token `float()` rejects fails the whole line, whatever the vibration, once the timestamp and the sensor id have converted |
| LogLine.VibrationRejected | models.py:155 | a vibration token `float()` rejects fails the whole line once the timestamp, the sensor id and the temperature have converted |
| LogLine.MismatchExactly | models.py:133-157 | "Log parse error" is raised exactly for the lines that do not begin with a text of the pattern's shape |
| LogLine.TrailingTextIgnored | models.py:133-140 | text after the closing parenthesis never changes the outcome |
| LogLine.FitsUpdate | models.py:135-137 | replacing the text of one piece by another text that fits it keeps the pattern's shape |
| LogLine.ConvertSame | models.py:143-156 | conversion looks only at the timestamp text, the status, the value of the sensor digits and whether they are within the `int()` limit, and the two measurement texts |
| LogLine.SensorLeadingZeros | models.py:153 | leading zeros of the sensor id are accepted and do not change it, while the padded id stays within 4300 digits |
| LogLine.RecordLayout | models.py:131-157 | the canonical layout of a record has the pattern's shape |
| LogLine.RecordParts | models.py:143-156 | the groups of a record's canonical layout are the record's status, the decimal text of its sensor id and the texts of its readings, which convert back to the readings |
| LogLine.RecordRead | models.py:131-157 | a record written with any timestamp text that resolves is read back with the resolved timestamp, whatever follows, or fails with the sensor error when its id is 10^4300 or more |
| LogLine.RecordRoundTrip | models.py:131-157 | a record written in the full timestamp format is read back unchanged, or fails with the sensor error when its id is 10^4300 or more |
| LogLine.DateOnlyRoundTrip | models.py:131-157 | a record written with the date-only format is read back at midnight of its day, or fails with the sensor error when its id is 10^4300 or more |
| Ingest.Map | models.py:116 | the parser applied to each line keeps the number of lines |
| Ingest.MapAt | models.py:116 | the outcome at each position is the parser on that line |
| Ingest.Outcomes | models.py:116-125 | one parse outcome per line of the file |
| Ingest.ParseAt | models.py:116-125 | one step of both loops is the parser on that line |
| Ingest.Collect | models.py:116 | the comprehension succeeds exactly when every line parses, with every record in line order; otherwise it raises the error of the first failing line |
| Ingest.Accepted | models.py:120-126 | the records of the lines before the first one that fails to parse |
| Ingest.AcceptedStopsAt | models.py:116-126 | at the first failing line, the comprehension raises that line's error, and the accepted records are those before it |
| Ingest.FirstFailure | models.py:116 | the first failing line is unique |
| Ingest.Kept | models.py:122-128 | one-at-a-time inserts keep at most the records tried |
| Ingest.KeptAdmitted | models.py:125-128 | every kept record passed the integrity check after the rows committed before it |
| Ingest.KeptInOrder | models.py:122-126 | the kept records are the tried ones with some left out, in order |
| Ingest.KeptAll | models.py:125-128 | records the store accepts one at a time are all kept |
| Ingest.KeptSkips | models.py:127-128 | a refused record is skipped and later inserts go on as if it had never been tried |
| Ingest.KeptPrefix | models.py:122-126 | trying fewer records keeps a prefix of what trying them all keeps |
| Ingest.Admitted | models.py:97-102 | a batch inserted record by record raises no integrity error |
| Ingest.AdmittedEach | models.py:97-102 | a batch is admitted exactly when each record is admitted after the committed rows and the records before it |
| Ingest.BulkLoad | models.py:97-118 | bulk mode commits all records in line order or none; a parse failure raises before the store is touched; a batch that parses but is refused raises the integrity error and commits nothing |
| Ingest.TolerantLoad | models.py:120-129 | non-bulk mode returns the saved records and commits exactly them; a parse failure raises that line's error |
| Ingest.TolerantCommits | models.py:120-129 | non-bulk mode only adds rows: each new row passed the integrity check, and the new rows come from lines before the first failure, in file order |
| Ingest.ModesAgree | models.py:112-129 | when every line parses and the store accepts every record, both modes return and commit the same |
| Ingest.FailureStopsTolerant | models.py:116-126 | a failing line ends a non-bulk load; the lines after it are never read, and the records before it stay committed; bulk mode commits nothing |
| Ingest.CommitsSurvive | models.py:120-126 | records committed by non-bulk mode are never undone by a later line |
| Ingest.AcceptedPrefix | models.py:120-126 | what parses in a prefix of the file is a prefix of what parses in the file |
| Ingest.ParseAllPrefix | models.py:116 | the records of a prefix of the lines are the prefix of the records |
| Ingest.LogTable.constructor | models.py:78-88 | the equipment log table: its committed rows, starting from none, and the integrity rule the database enforces |
| Ingest.LogTable.BulkCreate | models.py:97-102 | one transaction: succeeds and commits the whole batch exactly when every insert is admitted, otherwise commits none of it |
| Ingest.LogTable.Create | models.py:104-109 | one record, one commit: appended exactly when the store admits it |
| Ingest.ParseLines | models.py:116 | the loop of the comprehension computes the comprehension |
| Ingest.LoadBulk | models.py:113-118 | the bulk branch returns and commits what bulk mode does |
| Ingest.LoadEach | models.py:120-129 | the non-bulk loop returns or raises, and commits, what non-bulk mode does |
| Ingest.TolerantAtFailure | models.py:122-126 | where the loop leaves on a parse error, it has done all the work of the load |
| Ingest.TolerantAtEnd | models.py:120-129 | where the loop runs out of lines, it has done all the work of the load |
| Ingest.KeptStep | models.py:125-128 | one more record is kept exactly when the store admits it after the rows kept so far |
| Ingest.CollectStep | models.py:116 | one more parsed line extends the comprehension by its record |
| Ingest.LoadFromTxt | models.py:111-129 | `load_from_txt` returns or raises, and commits, what the chosen mode does |
| Ingest.LoadData | models.py:90-94 | `load_data` is the bulk load |

## Left out

- The SQLAlchemy schema, the ORM classes and the other loaders (`load_from_json`, `load_from_csv`) are not part of this model. They are declarations, or they insert rows without parsing logic of their own.
- Opening and reading the file, `Session` handling, `logging.error` and `main.py` are left out. The file is the sequence of its lines as `readlines()` gives them, newline included.
- `float()` is modelled on exact decimals, so binary rounding is left out. So is the infinity that `float()` returns for a token with hundreds of digits.
- `\d`, `int()` and `strptime` also accept Unicode decimal digits. The model accepts only the ASCII digits.
- The limit of `int()` is fixed at CPython's default of 4300 digits, which applies from 3.11 and from the 3.7.14, 3.8.14, 3.9.14 and 3.10.7 releases. An older interpreter without the limit, or a limit changed through `PYTHONINTMAXSTRDIGITS` or `sys.set_int_max_str_digits`, is not modelled.
- The integrity rule of the store is a parameter (`Ingest.Admission`). Storage errors other than `IntegrityError` are left out; they would propagate out of both modes.
- The `load_from_txt` loop methods (`Ingest.ParseLines`, `Ingest.LoadBulk`, `Ingest.LoadEach`) take the line parser as a parameter. `Ingest.LoadFromTxt` passes `LogLine.ParseLogLine` to them.
- LogLine.MatchComplete: requires the timestamp text to hold no `]`. When it holds one, the lazy group may stop at an earlier `]` whose rest also matches. `LogLine.MatchShortest` covers that case with a shorter group.
- LogLine.ParsedAsParts: requires the timestamp text to hold no `]`, for the same reason. A text that either format accepts never holds one (`Timestamp.ResolveClean`).
- LogLine.TimestampRejected: requires the timestamp text to hold no `]`, for the same reason.
- LogLine.TrailingTextIgnored: requires the timestamp text to hold no `]`, for the same reason.
- LogLine.SensorLeadingZeros: requires the timestamp text to hold no `]`, for the same reason. It also requires the padded id to stay within 4300 digits; beyond that the padded line fails (`LogLine.SensorRejected`).
- LogLine.TemperatureRejected: requires the sensor id to be within 4300 digits, because otherwise the sensor error comes first (`LogLine.SensorRejected`).
- LogLine.VibrationRejected: requires the sensor id to be within 4300 digits, for the same reason.

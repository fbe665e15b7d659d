# ProcessRobot log handler, modelled in Dafny

This project models the monitoring API of ProcessRobot. The API is a
small web service. It reads the ProcessRobot database and answers four
kinds of question:

- the latest log record, of any level or of one level (`INFO`, `WARN`, `ERROR`);
- the timestamp and level of that record;
- how many seconds have passed since it was written;
- how many new items each work queue holds.

The model consists of:

- `option.dfy` (module `Optional`): the `Option` type.
- `calendar.dfy` (module `Calendar`): Python's proleptic Gregorian
  `datetime` between years 1 and 9999, counted in whole seconds. It
  covers seconds since `0001-01-01 00:00:00`, the inverse conversion, and
  `datetime ± timedelta`. That arithmetic fails when the result leaves the
  year range, just as Python raises `OverflowError`.
- `datetime_text.dfy` (module `DateTimeText`): the `%Y-%m-%d %H:%M:%S`
  pattern and the text handling around it:
  - `Format` is what `str()` of a whole-second `datetime` prints;
  - `Parse` is `strptime` on zero-padded text;
  - `BeforeFirstDot` is `split(".")[0]`.
- `log_handler.dfy` (module `LogHandler`): the methods of the
  `LogHandler` class, which are
  - `AddTimeOffset`;
  - the two latest-record selectors;
  - `TimeSinceLastLogEntry`, both as written and corrected.

  The `logs` table is a sequence of rows. The clock reading is a parameter.
- `queue_stats.dfy` (module `QueueStats`): `GetQueueStats` over the
  `queues` and `queue_items` tables, given as sequences of rows.
- `api.dfy` (module `Api`): the resource handlers' shared prelude
  (`event_type` defaults to `ALL`, is upper-cased and is checked), plus
  `check_parameter`, `unknown_parameter` and the three `get` handlers that
  use them.

The `TOP 1 … ORDER BY timestamp DESC` query is modelled by
`IsLatest`/`LatestMatch`. These pick a matching row whose timestamp no
other matching row exceeds. When several rows tie, the database may
return any of them, and the model proves that all of them carry the same
timestamp. A failed normalisation returns the integer `0`. The model
represents it as the explicit `Fail` value, and an exception that nothing
catches as `Raises`.

Two places where the code differs from what its documentation and names promise:

- The "no log entry" payload carries `status` 400, while the HTTP
  status is 200. The model follows the code.
- `TimeSinceLastLogEntry` reports `timedelta.seconds`, which is the
  elapsed time modulo one day. The documented value is the total number
  of seconds. See "## Findings". The model keeps the code as written
  (`ElapsedSince`, `TimeSinceLastLogEntry`) and states the intended
  behaviour separately (`ElapsedSinceTotal`,
  `TimeSinceLastLogEntryTotal`). The HTTP handler
  `Api.TimeSinceLastLogEntryGet` calls the code as written, as api.py:192
  does, and `Api.TimeSinceLastLogEntryTotalGet` is the same handler with
  the corrected version.

## Model

| member | source | states |
|---|---|---|
| Calendar.Shift | LogHandler.py:64 | `datetime - timedelta(seconds=…)` succeeds exactly when the result stays in years 1..9999. The result is then a valid date-time exactly `delta` seconds from the input. |
| Calendar.ShiftLandsOn | LogHandler.py:64 | Whenever a valid date-time lies `delta` seconds after the input, shifting by `delta` yields exactly it. |
| Calendar.ShiftZero | LogHandler.py:64 | A zero timedelta leaves every valid date-time unchanged. |
| Calendar.ShiftUndo | LogHandler.py:64 | Shifting back by the same amount restores the original date-time. |
| Calendar.ShiftCompose | LogHandler.py:64 | Two successive shifts, when both succeed, equal one shift by their sum. |
| Calendar.ShiftOneSecond | LogHandler.py:64 | One second later is the next second of the clock. It rolls 59 s over into the next minute, hour, day, month and year. |
| Calendar.ShiftOneDay | LogHandler.py:64 | One day later is the same time on the next calendar date, with month lengths and leap years observed. |
| Calendar.NextDateOrdinal | LogHandler.py:64 | The next calendar date has the day number one higher, across month and year ends, February 29 included. |
| Calendar.SecondsInjective | LogHandler.py:150 | Distinct valid date-times are distinct counts of seconds, so subtracting two of them loses nothing. |
| Calendar.SecondsRange | LogHandler.py:64 | Every valid date-time lies between 0 and the last second of year 9999. |
| Calendar.FromSecondsHolds | LogHandler.py:64 | Every count of seconds in range converts to a valid date-time with exactly that count. |
| Calendar.FromSecondsOfSeconds | LogHandler.py:64 | Converting a valid date-time to seconds and back gives the same date-time. |
| Calendar.YearOfOrdinal | LogHandler.py:64 | The day number of a valid date lies in the calendar's range, and the year search finds that date's year. |
| Calendar.MonthOfDayOfYear | LogHandler.py:64 | The day of the year of a valid date lies inside its year, and the month search finds that date's month. |
| Calendar.DateOfDayOfOrdinal | LogHandler.py:64 | Converting a valid date to its day number and back gives the same date. |
| DateTimeText.Format | LogHandler.py:64 | `str()` of a whole-second date-time is 19 characters long. |
| DateTimeText.Parse | LogHandler.py:63 | Whatever `strptime` accepts in the fixed pattern is a valid date-time. |
| DateTimeText.ParseFormat | LogHandler.py:63-64 | Parsing the printed text of a valid date-time gives the date-time back. |
| DateTimeText.FormatParse | LogHandler.py:63-64 | Printing a parsed text gives the text back. |
| DateTimeText.ParseFormatWhole | LogHandler.py:61-63 | The printed text of a valid date-time, cut at its first `.` and parsed, is that date-time again. |
| DateTimeText.FormatHasNoDot | LogHandler.py:62 | Printed whole-second text contains no `.`, so cutting at the first `.` leaves it whole. |
| DateTimeText.BeforeFirstDotPrefix | LogHandler.py:62 | `split(".")[0]` is a prefix of the text and contains no `.`. |
| DateTimeText.BeforeFirstDotFraction | LogHandler.py:62 | Any text followed by `.` and anything else cuts back to what the text alone cuts back to. |
| LogHandler.AddTimeOffsetResult | LogHandler.py:55-67 | Normalisation gives the sentinel when the text before the first `.` does not parse. Otherwise it succeeds exactly when the parsed instant minus the offset stays in years 1..9999, and the result parses to that instant. |
| LogHandler.AddTimeOffsetIgnoresFraction | LogHandler.py:61-62 | A `.` and anything after it, appended to any text, never change the result. |
| LogHandler.AddTimeOffsetZero | LogHandler.py:60-64 | With offset 0, well-formed text comes back unchanged. |
| LogHandler.AddTimeOffsetOfFormat | LogHandler.py:60-67 | For every offset, the printed form of a valid `from` normalises to the printed form of `from` moved back by `offset`. It gives the sentinel when that move leaves years 1..9999. |
| LogHandler.AddTimeOffsetBetween | LogHandler.py:60-67 | Whenever `to` is exactly `offset` seconds before `from`, normalising the printed `from` gives the printed `to`. |
| LogHandler.AddTimeOffsetUndo | LogHandler.py:60-67 | Normalising with `offset` and then with `-offset` gives back the whole-second text. |
| LogHandler.AddTimeOffsetExample | LogHandler.py:38-67 | With the default offset −3600, `2020-02-10 06:50:15` becomes `2020-02-10 07:50:15`. |
| LogHandler.AddTimeOffsetYearEnd | LogHandler.py:64 | The added hour rolls 2019-12-31 23:59:59 into 2020-01-01 00:59:59. |
| LogHandler.AddTimeOffsetLeapDay | LogHandler.py:64 | The added hour reaches February 29 in the leap year 2020. |
| LogHandler.AddTimeOffsetCenturyYear | LogHandler.py:64 | The added hour passes from February 28 to March 1 in 1900, which is not a leap year. |
| LogHandler.AddTimeOffsetBackwards | LogHandler.py:64 | A positive offset moves back across February 29 in 2024. |
| LogHandler.AddTimeOffsetGarbage | LogHandler.py:60-67 | For every offset, text that does not start with an ASCII digit gives the sentinel and never an exception. This covers the empty text and `not a timestamp`. Text that fails to parse only after its first `.` is a different case: it can still succeed, since only the part before the `.` is parsed (see `AddTimeOffsetIgnoresFraction`). |
| LogHandler.AddTimeOffsetImpossibleDate | LogHandler.py:60-67 | February 29 of a common year gives the sentinel. |
| LogHandler.AddTimeOffsetRejects | LogHandler.py:60-67 | Text without a `.` that does not parse gives the sentinel, whatever the offset. |
| LogHandler.AddTimeOffsetOverflow | LogHandler.py:64-66 | Adding an hour past the end of year 9999 gives the sentinel. |
| LogHandler.LatestMatch | LogHandler.py:77-82 | Finds no row exactly when no row matches the filter. Otherwise it finds a matching row whose timestamp no matching row exceeds. |
| LogHandler.LatestRowsShareTimestamp | LogHandler.py:78-80 | All rows the `TOP 1 … DESC` query may return carry the same timestamp. |
| LogHandler.ParseRendered | LogHandler.py:61-63 | The text of a stored column value, cut at the first `.`, always parses to its whole-second date-time. |
| LogHandler.NormalizeStored | LogHandler.py:55-67 | A stored timestamp normalises successfully exactly when its whole-second part minus the offset stays in range. The result then parses to that instant. |
| LogHandler.GetLastLogRecord | LogHandler.py:69-100 | Returns "no log entry" (status 400) exactly when no row matches. Otherwise it returns the fields of a latest matching row, timestamp normalised, with the requested level unless `ALL` was asked for. |
| LogHandler.GetLastLogTimestamp | LogHandler.py:103-128 | The same, for the normalised timestamp and level only. |
| LogHandler.SelectorsAgree | LogHandler.py:69-128 | Both selectors find a row on the same tables and report the same normalised timestamp, even when rows tie. |
| LogHandler.LatestTimestampIsMaximal | LogHandler.py:112-120 | The reported timestamp is no earlier than the normalised timestamp of any matching row. |
| LogHandler.TimedeltaSeconds | LogHandler.py:151 | `timedelta.seconds` lies in 0..86399, differs from the difference by whole days, and equals it below one day. |
| LogHandler.TimedeltaSecondsUnique | LogHandler.py:151 | Only one value in 0..86399 differs from the difference by whole days. |
| LogHandler.TimedeltaSecondsPeriodic | LogHandler.py:151 | One more day leaves `.seconds` unchanged. |
| LogHandler.ElapsedSince | LogHandler.py:142-160 | As written: "no log entry" passes through, and the method raises exactly when the timestamp text cannot be parsed. Otherwise it returns a found reply (status 200) with the level of the found entry and a value in 0..86399. |
| LogHandler.ElapsedSinceTotal | LogHandler.py:131-160 | As intended: the same, except that the last entry's time plus the reported seconds is `now`. A readable timestamp always gives a found reply. |
| LogHandler.ElapsedSinceTotalReachesNow | LogHandler.py:131-135 | Moving the last entry's time forward by the reported seconds lands on `now`. |
| LogHandler.ElapsedIsTotalModuloDay | LogHandler.py:150-151 | The code as written and the intended behaviour agree on "no log entry" and on raising. The reported seconds are the total modulo a day. |
| LogHandler.ElapsedWithinDay | LogHandler.py:150-151 | Less than a day after the last entry, the code as written reports the total. |
| LogHandler.ElapsedRepeatsAfterOneDay | LogHandler.py:150-151 | One day later, the code as written reports the same seconds again. |
| LogHandler.ElapsedLosesWholeDays | LogHandler.py:150-151 | Counterexample: for any found entry last seen at 2020-02-10 07:50:15 and a clock at 2020-02-12 07:50:20, the code reports 5 seconds where the intended version reports 172805. |
| LogHandler.TimeSinceLastLogEntry | LogHandler.py:131-160 | As written: reports a value in 0..86399, of the requested level unless `ALL` was asked for. |
| LogHandler.TimeSinceLastLogEntryTotal | LogHandler.py:131-160 | As intended: reports the requested level unless `ALL` was asked for. |
| LogHandler.LastTimeOfFormat | LogHandler.py:145-146 | The printed form of a date-time in a found envelope is read back, by `split` and `strptime`, as that date-time. |
| LogHandler.ReparseNormalized | LogHandler.py:145-146 | A successfully normalised timestamp, re-read by `split` and `strptime`, is the stored time minus the offset. |
| LogHandler.LastTimeOfStored | LogHandler.py:119-146 | A row's envelope parses back exactly when its normalisation succeeded, and then to the stored time minus the offset. |
| LogHandler.TimeSinceNoEntry | LogHandler.py:137-158 | Both versions report "no log entry" exactly when no row matches the filter. |
| LogHandler.TimeSinceRaises | LogHandler.py:144-146 | Both versions raise exactly when the latest matching row's timestamp minus the offset leaves years 1..9999: the sentinel `0` that LogHandler.py:65-66 returns has no `split`. |
| LogHandler.ElapsedTotalOfRow | LogHandler.py:144-155 | For one row, the intended behaviour reports its level and the full seconds from its normalised time to `now`. |
| LogHandler.ElapsedOfRow | LogHandler.py:144-155 | For one row, the code as written reports its level and those seconds modulo a day. |
| LogHandler.TimeSinceLatestRow | LogHandler.py:131-160 | Every reported value is about a latest matching row: its level, and the seconds since its normalised time (in full when intended, modulo a day as written). |
| QueueStats.NewItemsCountsPositions | LogHandler.py:169-172 | The `COUNT(*)` of new items equals the number of positions holding an item of the queue with status 0. |
| QueueStats.NewItemPositionsStep | LogHandler.py:169 | The positions of new items in a table are those in all but its last item, plus the last one exactly when it is new. |
| QueueStats.NewItemsZero | LogHandler.py:169-174 | The count is 0 exactly when the queue has no item with status 0. |
| QueueStats.NewItemsAppend | LogHandler.py:169 | The count over two tables joined end to end is the sum of their counts. |
| QueueStats.GetQueueStats | LogHandler.py:162-188 | The report has one entry under each key `0 .. n-1`, one per queue in listing order. Each entry carries the queue's id, name and item type, and the number of its items with status 0. `total_queues` is the number of queues. |
| Api.UpperIdempotent | api.py:242 | Upper-casing twice equals upper-casing once. |
| Api.SameIgnoringCaseUpper | api.py:242-243 | Two texts differ only in letter case exactly when their upper-cased forms are equal. |
| Api.CheckParameterIgnoresCase | api.py:241-246 | `check_parameter` accepts a text exactly when it spells INFO, WARN, ERROR or ALL in any mix of case. |
| Api.CheckParameterOfUpper | api.py:241-246 | `check_parameter` upper-cases its argument itself, so upper-casing it beforehand, as the handlers do at api.py:75, 120 and 189, never changes its answer. |
| Api.CheckParameterExamples | api.py:241-246 | Accepts `info`, `Warn`, `eRRoR` and `all`; refuses `DEBUG`, the empty text and `INFO ` with a trailing space. |
| Api.Prelude | api.py:74-82 | A missing parameter stands for `ALL`. An accepted parameter reaches the query as one of the four upper-case levels. Anything else is refused with the body of `unknown_parameter()` (api.py:248-253: status 404 and its fixed message) and HTTP 404, exactly when `check_parameter` fails. The other two handlers share these lines (api.py:119-127, 188-196). |
| Api.PreludePassesLevel | api.py:75-78 | Any spelling of a level, in any case, reaches the query as that level. |
| Api.LatestLogRecordGet | api.py:74-82 | An accepted parameter gets HTTP 200 with `GetLastLogRecord`'s answer for the checked level. Any other parameter gets the 404 refusal. |
| Api.LatestLogTimestampGet | api.py:119-127 | An accepted parameter gets HTTP 200 with `GetLastLogTimestamp`'s answer for the checked level. Any other parameter gets the 404 refusal. |
| Api.TimeSinceLastLogEntryGet | api.py:188-196 | The 404 refusal exactly when the parameter is refused. An accepted parameter raises exactly when `TimeSinceLastLogEntry` as written (`.seconds`) raises for the checked level. Otherwise it gets HTTP 200 with that method's answer. |
| Api.TimeSinceLastLogEntryTotalGet | api.py:188-196 | The corrected handler: the same, with `TimeSinceLastLogEntryTotal` in place of the code as written. It raises exactly when that raises, and otherwise its answer is the 200 body. |
| Api.HandlersIgnoreCase | api.py:74-82 | Every handler (this one and those at api.py:119-127 and 188-196) answers a parameter the same way as its upper-cased form. |
| Api.HandlersDefaultToAll | api.py:74-82 | Without a parameter, every handler (this one and those at api.py:119-127 and 188-196) answers as for `ALL`. |
| Api.HandlersFilterByLevel | api.py:74-82 | For every handler (this one and those at api.py:119-127 and 188-196), asking for a level in any case yields HTTP 200 with an answer, and any record found is of that level. For the elapsed time this holds whenever the handler does not raise. |

## Left out

- The database connection is left out: the `pyodbc` connection, the cursors, the SQL text and the credentials. The tables are given as sequences of rows and the queries as selections over them.
- `cursor.close()` after the `return` statements is left out. It is unreachable, so no explicit close runs; the cursor and its connection are released when the method returns.
- LogHandler.Matches: models `WHERE level='…'` as exact string equality. The database compares by the column's collation, and SQL Server's default one ignores letter case and trailing spaces. So the contracts of `GetLastLogRecord` and `GetLastLogTimestamp` that the reported level equals the requested one hold only under a binary collation. With the default one, the API's upper-cased parameter can also match rows stored as `info` or `INFO `.
- SQL injection through the `level='…'` string concatenation is left out. The API's parameter check limits the level to the four upper-case words before any query runs.
- The Flask application and its route registration are left out, along with the `DefaultCall` and `QueueStats` resources. Those resources only wrap a call in a 200 reply.
- `GetQueueItemsFromQueue` is left out: it calls a `LogHandler` method that the class does not define.
- `datetime.now()` is left out: the local clock reading is the parameter `now`, already truncated to whole seconds.
- Time zones are left out. The offset is one fixed number of seconds all year round, with no daylight-saving time.
- Calendar.FromSeconds: finds the year and the month by an ascending search from year 1 and from January, with a proof that the search finds the only fit. Python's own day-number decomposition (`_ord2ymd`) is not modelled.
- DateTimeText.Parse: accepts only the zero-padded form. `strptime` also accepts one-digit fields, a space-padded day such as ` 5`, any run of whitespace where the pattern has its single space, and non-ASCII decimal digits (the pattern matches `\d` without `re.ASCII`, so fullwidth `２０２０` reads as 2020). That leniency is not modelled.
- LogHandler.AddTimeOffsetGarbage: the opening character is tested against the ASCII digits only. In Python the statement holds for text whose first character is no Unicode decimal digit; text that opens with, say, a fullwidth digit falls under the `DateTimeText.Parse` leniency above.
- Api.UpperChar: upper-cases only ASCII letters. Python's full Unicode `str.upper()` is not modelled, so a non-ASCII text that upper-cases to a level is not covered.
- LogHandler.AddTimeOffset: models the value `str()` produces for the column's `datetime`. Driver-specific column types other than `datetime` are not modelled.
- QueueStats.GetQueueStats: counts every queue from one snapshot of `items`. The code lists the queues once and then counts each queue's items with a separate query on a new connection, outside any transaction. Items that arrive or change status meanwhile can make the counts describe different moments. The model assumes a store that does not change during the call.
- The `else` branch of `if sub_row:` (LogHandler.py:173-174) has no separate model, because `COUNT(*)` always returns one row. Its count 0 is the count of an empty selection.
- The two branches of LogHandler.py:137-140 are merged: both call `GetLastLogTimestamp` with the same level, because its default is `"ALL"`.
- Exceptions that reach the web framework are modelled as `Raises`. The framework's own error response is not modelled.

## Findings

| source | as written | input that shows it | evidently intended | confidence | as-written member | corrected member |
|---|---|---|---|---|---|---|
| LogHandler.py:150-151 | `seconds_since_last_log` is `time_diff.seconds`, the elapsed time modulo one day | last INFO entry normalised to 2020-02-10 07:50:15, clock at 2020-02-12 07:50:20: reports 5 instead of 172805 | the total elapsed seconds (`time_diff.total_seconds()` as an integer) | high; not executed | LogHandler.ElapsedSince (with LogHandler.ElapsedLosesWholeDays), used by Api.TimeSinceLastLogEntryGet | LogHandler.ElapsedSinceTotal (with LogHandler.ElapsedSinceTotalReachesNow), used by Api.TimeSinceLastLogEntryTotalGet |

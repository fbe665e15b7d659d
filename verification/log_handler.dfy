/**
  The query logic of the ProcessRobot log handler, lifted off the database:
  the `logs` table is a sequence of rows, the clock reading is a parameter,
  and every operation is a total function.
 */
module LogHandler {
  import opened Optional
  import opened Calendar
  import opened DateTimeText

  /** Seconds subtracted from stored (GMT) timestamps: Danish winter time by default. */
  const DefaultTimeOffset: int := -3600

  /** A normalised timestamp, or the `0` the handler returns when normalisation fails. */
  datatype Normalized = Ok(text: string) | Fail

  /**
    Normalises a stored timestamp's text: drops everything from the first
    `.`, parses `YYYY-MM-DD HH:MM:SS`, subtracts `offset` seconds and prints
    the result in the same pattern. Any failure gives `Fail`.
   */
  function AddTimeOffset(timestamp: string, offset: int): Normalized {
    match Parse(BeforeFirstDot(timestamp))
    case None => Fail
    case Some(dt) =>
      match Shift(dt, -offset)
      case None => Fail
      case Some(moved) => Ok(Format(moved))
  }

  /**
    Normalisation fails exactly when the text does not parse or the moved
    date-time leaves years 1..9999; otherwise its result parses back to the
    instant `offset` seconds before the parsed one.
   */
  lemma AddTimeOffsetResult(timestamp: string, offset: int)
    ensures var r := AddTimeOffset(timestamp, offset);
      && (Parse(BeforeFirstDot(timestamp)).None? ==> r == Fail)
      && (Parse(BeforeFirstDot(timestamp)).Some? ==>
            var s := Seconds(Parse(BeforeFirstDot(timestamp)).value) - offset;
            && (r.Ok? <==> 0 <= s <= MaxSeconds)
            && (r.Ok? ==> Parse(r.text).Some? && Seconds(Parse(r.text).value) == s))
  {
    var r := AddTimeOffset(timestamp, offset);
    if r.Ok? {
      var dt := Parse(BeforeFirstDot(timestamp)).value;
      ParseFormat(Shift(dt, -offset).value);
    }
  }

  /** Only the text before the first `.` matters. */
  lemma AddTimeOffsetIgnoresFraction(timestamp: string, fraction: string, offset: int)
    ensures AddTimeOffset(timestamp + "." + fraction, offset) == AddTimeOffset(timestamp, offset)
  {
    BeforeFirstDotFraction(timestamp, fraction);
  }

  /** With a zero offset, normalisation is the identity on well-formed text. */
  lemma AddTimeOffsetZero(timestamp: string)
    requires Parse(timestamp).Some?
    ensures AddTimeOffset(timestamp, 0) == Ok(timestamp)
  {
    var dt := Parse(timestamp).value;
    FormatParse(timestamp);
    FormatHasNoDot(dt);
    ShiftZero(dt);
  }

  /**
    `AddTimeOffset` unfolded for a text whose whole-second part parses to
    `from`: a solver aid for the lemmas below, stating no more than the body.
   */
  lemma AddTimeOffsetOf(timestamp: string, from: DateTime, offset: int)
    requires Parse(BeforeFirstDot(timestamp)) == Some(from)
    ensures Valid(from)
    ensures AddTimeOffset(timestamp, offset) == (if Shift(from, -offset).Some? then Ok(Format(Shift(from, -offset).value)) else Fail)
  {
  }

  /** Normalising the printed form of `from` prints `from` moved back by `offset`, when that stays in range. */
  lemma AddTimeOffsetOfFormat(from: DateTime, offset: int)
    requires Valid(from)
    ensures AddTimeOffset(Format(from), offset) == (if Shift(from, -offset).Some? then Ok(Format(Shift(from, -offset).value)) else Fail)
  {
    FormatHasNoDot(from);
    ParseFormat(from);
    AddTimeOffsetOf(Format(from), from, offset);
  }

  /** The successful branch of `AddTimeOffset` unfolded: a solver aid, stating no more than the body. */
  lemma AddTimeOffsetShifted(timestamp: string, from: DateTime, moved: DateTime, offset: int)
    requires Parse(BeforeFirstDot(timestamp)) == Some(from) && Shift(from, -offset) == Some(moved)
    ensures AddTimeOffset(timestamp, offset) == Ok(Format(moved))
  {
  }

  /** A solver aid: `AddTimeOffsetShifted` with the shift's target named by its second count. */
  lemma AddTimeOffsetLandsOn(timestamp: string, from: DateTime, to: DateTime, offset: int)
    requires Parse(BeforeFirstDot(timestamp)) == Some(from)
    requires Valid(to) && Seconds(to) == Seconds(from) - offset
    ensures AddTimeOffset(timestamp, offset) == Ok(Format(to))
  {
    assert Valid(from);
    assert Shift(from, -offset) == Some(to) by {
      assert Seconds(to) == Seconds(from) + -offset;
      ShiftLandsOn(from, -offset, to);
    }
    AddTimeOffsetShifted(timestamp, from, to, offset);
  }



  /** Normalising the printed form of `from` gives the printed form of `to`, `offset` seconds earlier. */
  lemma AddTimeOffsetBetween(from: DateTime, to: DateTime, offset: int)
    requires Valid(from) && Valid(to) && Seconds(to) == Seconds(from) - offset
    ensures AddTimeOffset(Format(from), offset) == Ok(Format(to))
  {
    ParseFormatWhole(from);
    AddTimeOffsetLandsOn(Format(from), from, to, offset);
  }

  /** Normalising the result with the opposite offset recovers the whole-second input. */
  lemma AddTimeOffsetUndo(timestamp: string, offset: int)
    requires AddTimeOffset(timestamp, offset).Ok?
    ensures AddTimeOffset(AddTimeOffset(timestamp, offset).text, -offset) == Ok(BeforeFirstDot(timestamp))
  {
    var head := BeforeFirstDot(timestamp);
    var dt := Parse(head).value;
    AddTimeOffsetOf(timestamp, dt, offset);
    var moved := Shift(dt, -offset).value;
    assert AddTimeOffset(timestamp, offset).text == Format(moved);
    assert Seconds(dt) == Seconds(moved) + offset;
    AddTimeOffsetBetween(moved, dt, -offset);
    assert Format(dt) == head by {
      FormatParse(head);
    }
  }

  /** The digit groups of the documented example, each padded as `str()` pads it. */
  lemma DocumentedPads()
    ensures Pad(2020, 4) == "2020" && Pad(2, 2) == "02" && Pad(10, 2) == "10"
    ensures Pad(6, 2) == "06" && Pad(7, 2) == "07" && Pad(50, 2) == "50" && Pad(15, 2) == "15"
  {
    assert Pad(2020, 4) == "2020";
    assert Pad(2, 2) == "02";
    assert Pad(10, 2) == "10";
    assert Pad(6, 2) == "06";
    assert Pad(7, 2) == "07";
    assert Pad(50, 2) == "50";
    assert Pad(15, 2) == "15";
  }

  /** The GMT text of the documented example is the printed form of its date-time. */
  lemma DocumentedGmtText()
    ensures Format(DateTime(2020, 2, 10, 6, 50, 15)) == "2020-02-10 06:50:15"
  {
    DocumentedPads();
    assert Valid(DateTime(2020, 2, 10, 6, 50, 15));
    assert "2020" + "-" == "2020-";
    assert "2020-" + "02" + "-" == "2020-02-";
    assert "2020-02-" + "10" + " " == "2020-02-10 ";
    assert "2020-02-10 " + "06" + ":" == "2020-02-10 06:";
    assert "2020-02-10 06:" + "50" + ":" == "2020-02-10 06:50:";
    assert "2020-02-10 06:50:" + "15" == "2020-02-10 06:50:15";
  }

  /** The local text of the documented example is the printed form of its date-time. */
  lemma DocumentedLocalText()
    ensures Format(DateTime(2020, 2, 10, 7, 50, 15)) == "2020-02-10 07:50:15"
  {
    DocumentedPads();
    assert Valid(DateTime(2020, 2, 10, 7, 50, 15));
    assert "2020" + "-" == "2020-";
    assert "2020-" + "02" + "-" == "2020-02-";
    assert "2020-02-" + "10" + " " == "2020-02-10 ";
    assert "2020-02-10 " + "07" + ":" == "2020-02-10 07:";
    assert "2020-02-10 07:" + "50" + ":" == "2020-02-10 07:50:";
    assert "2020-02-10 07:50:" + "15" == "2020-02-10 07:50:15";
  }

  /** The documented example: 06:50:15 GMT is 07:50:15 Danish winter time. */
  lemma AddTimeOffsetExample()
    ensures AddTimeOffset("2020-02-10 06:50:15", DefaultTimeOffset) == Ok("2020-02-10 07:50:15")
  {
    DocumentedGmtText();
    DocumentedLocalText();
    AddTimeOffsetBetween(DateTime(2020, 2, 10, 6, 50, 15), DateTime(2020, 2, 10, 7, 50, 15), DefaultTimeOffset);
  }

  /** The last hour of a year rolls into the next year. */
  lemma AddTimeOffsetYearEnd()
    ensures AddTimeOffset(Format(DateTime(2019, 12, 31, 23, 59, 59)), DefaultTimeOffset) == Ok(Format(DateTime(2020, 1, 1, 0, 59, 59)))
  {
    DaysBeforeYearStep(2019);
    DaysBeforeMonthStep(2019, 12);
    assert Ordinal(2020, 1, 1) == Ordinal(2019, 12, 31) + 1;
    AddTimeOffsetBetween(DateTime(2019, 12, 31, 23, 59, 59), DateTime(2020, 1, 1, 0, 59, 59), DefaultTimeOffset);
  }

  /** 2020 is a leap year: the hour after 23:30 on 28 February is on the 29th. */
  lemma AddTimeOffsetLeapDay()
    ensures AddTimeOffset(Format(DateTime(2020, 2, 28, 23, 30, 0)), DefaultTimeOffset) == Ok(Format(DateTime(2020, 2, 29, 0, 30, 0)))
  {
    AddTimeOffsetBetween(DateTime(2020, 2, 28, 23, 30, 0), DateTime(2020, 2, 29, 0, 30, 0), DefaultTimeOffset);
  }

  /** 1900 is not a leap year: 28 February is followed by 1 March. */
  lemma AddTimeOffsetCenturyYear()
    ensures AddTimeOffset(Format(DateTime(1900, 2, 28, 23, 30, 0)), DefaultTimeOffset) == Ok(Format(DateTime(1900, 3, 1, 0, 30, 0)))
  {
    AddTimeOffsetBetween(DateTime(1900, 2, 28, 23, 30, 0), DateTime(1900, 3, 1, 0, 30, 0), DefaultTimeOffset);
  }

  /** A positive offset moves backwards, here over the 2024 leap day. */
  lemma AddTimeOffsetBackwards()
    ensures AddTimeOffset(Format(DateTime(2024, 3, 1, 0, 10, 0)), 3600) == Ok(Format(DateTime(2024, 2, 29, 23, 10, 0)))
  {
    AddTimeOffsetBetween(DateTime(2024, 3, 1, 0, 10, 0), DateTime(2024, 2, 29, 23, 10, 0), 3600);
  }

  /**
    Text that does not open with a digit, such as `not a timestamp` or the
    empty text, gives the sentinel whatever the offset, never an exception.
   */
  lemma AddTimeOffsetGarbage(text: string, offset: int)
    requires |text| == 0 || !IsDigit(text[0])
    ensures AddTimeOffset(text, offset) == Fail
  {
    var head := BeforeFirstDot(text);
    BeforeFirstDotPrefix(text);
    if |head| == LayoutLength {
      assert head[0] == text[0];
      assert !Fits(head[0], LayoutAt(0));
    }
    assert !Shaped(head);
  }

  /** A well-shaped but impossible date, 29 February of a common year, gives the sentinel. */
  lemma AddTimeOffsetImpossibleDate(text: string, offset: int)
    requires '.' !in text && Shaped(text)
    requires Fields(text).month == 2 && Fields(text).day == 29 && !IsLeapYear(Fields(text).year)
    ensures AddTimeOffset(text, offset) == Fail
  {
    AddTimeOffsetRejects(text, offset);
  }

  /** Dot-free text that does not parse is rejected whatever the offset. */
  lemma AddTimeOffsetRejects(text: string, offset: int)
    requires '.' !in text && Parse(text).None?
    ensures AddTimeOffset(text, offset) == Fail
  {
    BeforeFirstDotNoDot(text);
  }

  /** A shift past 9999-12-31 23:59:59 gives the sentinel. */
  lemma AddTimeOffsetOverflow()
    ensures AddTimeOffset(Format(DateTime(9999, 12, 31, 23, 30, 0)), DefaultTimeOffset) == Fail
  {
    var last := DateTime(9999, 12, 31, 23, 30, 0);
    assert Seconds(last) - DefaultTimeOffset > MaxSeconds;
    AddTimeOffsetOfFormat(last, DefaultTimeOffset);
  }

  // ---------------------------------------------------------------------
  // The `logs` table and the latest-record queries
  // ---------------------------------------------------------------------

  /** A value the `datetime` column can hold. */
  type ValidDateTime = dt: DateTime | Valid(dt) witness DateTime(1, 1, 1, 0, 0, 0)

  type Microsecond = n: int | 0 <= n < 1000000

  /** The stored timestamp (column 15): a GMT date-time with microseconds. */
  datatype StoredTime = StoredTime(when: ValidDateTime, microsecond: Microsecond)

  /** `str()` of the column value: the fraction is printed only when it is non-zero. */
  function Render(t: StoredTime): string {
    if t.microsecond == 0 then Format(t.when) else Format(t.when) + "." + Pad(t.microsecond, 6)
  }

  /** Microseconds since 0001-01-01 00:00:00, the order `ORDER BY timestamp` sorts by. */
  function Instant(t: StoredTime): int {
    Seconds(t.when) * 1000000 + t.microsecond
  }

  /**
    A row of the `logs` table, reduced to the columns the queries read:
    columns 0, 2, 6, 7, 8, 9, 11 and 15.
   */
  datatype LogRow = LogRow(
    id: int,
    processName: string,
    eventId: int,
    level: string,
    message: string,
    additionalData: Option<string>,
    processId: string,
    timestamp: StoredTime)

  /** The filter value that selects every row. */
  const AllLevels: string := "ALL"

  /** The `WHERE level='…'` filter, absent for `ALL`. */
  predicate Matches(row: LogRow, logType: string) {
    logType == AllLevels || row.level == logType
  }

  /** Row `i` matches the filter and no matching row is later: a row `TOP 1 … DESC` may return. */
  predicate IsLatest(rows: seq<LogRow>, logType: string, i: int) {
    && 0 <= i < |rows|
    && Matches(rows[i], logType)
    && forall j :: 0 <= j < |rows| && Matches(rows[j], logType) ==>
         Instant(rows[j].timestamp) <= Instant(rows[i].timestamp)
  }

  /** Some latest matching row, or None when no row matches. */
  function LatestMatch(rows: seq<LogRow>, logType: string): (r: Option<nat>)
    ensures r.None? <==> forall j :: 0 <= j < |rows| ==> !Matches(rows[j], logType)
    ensures r.Some? ==> IsLatest(rows, logType, r.value)
  {
    if |rows| == 0 then None
    else
      var last := |rows| - 1;
      var earlier := LatestMatch(rows[..last], logType);
      LatestMatchStep(rows, logType, earlier);
      if !Matches(rows[last], logType) then earlier
      else if earlier.Some? && Instant(rows[last].timestamp) <= Instant(rows[earlier.value].timestamp) then earlier
      else Some(last)
  }

  /** How a latest match of all but the last row extends to the whole table. */
  lemma LatestMatchStep(rows: seq<LogRow>, logType: string, earlier: Option<nat>)
    requires |rows| > 0
    requires earlier.None? <==> forall j :: 0 <= j < |rows| - 1 ==> !Matches(rows[j], logType)
    requires earlier.Some? ==> IsLatest(rows[..|rows| - 1], logType, earlier.value)
    ensures earlier.Some? ==> 0 <= earlier.value < |rows| - 1 && Matches(rows[earlier.value], logType)
    ensures earlier.Some? ==> forall j :: 0 <= j < |rows| - 1 && Matches(rows[j], logType) ==>
      Instant(rows[j].timestamp) <= Instant(rows[earlier.value].timestamp)
  {
    var prefix := rows[..|rows| - 1];
    if earlier.Some? {
      forall j | 0 <= j < |rows| - 1 && Matches(rows[j], logType)
        ensures Instant(rows[j].timestamp) <= Instant(rows[earlier.value].timestamp)
      {
        assert prefix[j] == rows[j];
      }
    }
  }

  /** All latest matching rows carry the same timestamp, so ties only choose among equal times. */
  lemma LatestRowsShareTimestamp(rows: seq<LogRow>, logType: string, i: int, j: int)
    requires IsLatest(rows, logType, i) && IsLatest(rows, logType, j)
    ensures rows[i].timestamp == rows[j].timestamp
  {
    var a, b := rows[i].timestamp, rows[j].timestamp;
    assert Instant(a) == Instant(b);
    assert Seconds(a.when) == Seconds(b.when);
    SecondsInjective(a.when, b.when);
  }

  /** The column value's text always parses, fraction dropped, to its whole-second date-time. */
  lemma ParseRendered(t: StoredTime)
    ensures Parse(BeforeFirstDot(Render(t))) == Some(t.when)
  {
    FormatHasNoDot(t.when);
    ParseFormat(t.when);
    if t.microsecond != 0 {
      BeforeFirstDotFraction(Format(t.when), Pad(t.microsecond, 6));
    }
  }

  /**
    A stored timestamp normalises to its whole-second part moved back by
    `offset`, failing only when that leaves years 1..9999.
   */
  lemma NormalizeStored(t: StoredTime, offset: int)
    ensures AddTimeOffset(Render(t), offset).Ok? <==> 0 <= Seconds(t.when) - offset <= MaxSeconds
    ensures AddTimeOffset(Render(t), offset).Ok? ==>
      Parse(AddTimeOffset(Render(t), offset).text).Some? &&
      Seconds(Parse(AddTimeOffset(Render(t), offset).text).value) == Seconds(t.when) - offset
  {
    ParseRendered(t);
    AddTimeOffsetResult(Render(t), offset);
  }

  /** The status code the handler puts in a "no log entry" payload. */
  const NotFoundStatus: int := 400
  const NotFoundMessage: string := "No log entry found"

  /** A handler result: the found payload (status 200) or the not-found payload. */
  datatype Envelope<T> = Found(payload: T) | NotFound(status: int, message: string)

  /** `{"status": 400, "message": "No log entry found"}`. */
  function NoLogEntry<T>(): Envelope<T> {
    NotFound(NotFoundStatus, NotFoundMessage)
  }

  /** The fields `GetLastLogRecord` returns. */
  datatype LogRecord = LogRecord(
    logId: int,
    processName: string,
    eventId: int,
    logLevel: string,
    message: string,
    additionalData: Option<string>,
    processId: string,
    timestamp: Normalized)

  /** The fields `GetLastLogTimestamp` returns. */
  datatype LevelStamp = LevelStamp(timestamp: Normalized, logLevel: string)

  /** A row mapped to the output fields, its timestamp normalised. */
  function RecordOf(row: LogRow, offset: int): LogRecord {
    LogRecord(row.id, row.processName, row.eventId, row.level, row.message,
              row.additionalData, row.processId, AddTimeOffset(Render(row.timestamp), offset))
  }

  /** The latest log record matching `logType` (`ALL` for any level). */
  function GetLastLogRecord(rows: seq<LogRow>, logType: string, offset: int): (r: Envelope<LogRecord>)
    ensures r.NotFound? <==> forall j :: 0 <= j < |rows| ==> !Matches(rows[j], logType)
    ensures r.NotFound? ==> r == NoLogEntry()
    ensures r.Found? ==> exists i :: IsLatest(rows, logType, i) && r.payload == RecordOf(rows[i], offset)
    ensures r.Found? && logType != AllLevels ==> r.payload.logLevel == logType
  {
    match LatestMatch(rows, logType)
    case None => NoLogEntry()
    case Some(i) => Found(RecordOf(rows[i], offset))
  }

  /** The envelope the timestamp selector builds from one row. */
  function StampOf(row: LogRow, offset: int): Envelope<LevelStamp> {
    Found(LevelStamp(AddTimeOffset(Render(row.timestamp), offset), row.level))
  }

  /** The normalised timestamp and level of the latest log record matching `logType`. */
  function GetLastLogTimestamp(rows: seq<LogRow>, logType: string, offset: int): (r: Envelope<LevelStamp>)
    ensures r.NotFound? <==> forall j :: 0 <= j < |rows| ==> !Matches(rows[j], logType)
    ensures r.NotFound? ==> r == NoLogEntry()
    ensures r.Found? ==> exists i ::
      IsLatest(rows, logType, i) && r.payload == LevelStamp(AddTimeOffset(Render(rows[i].timestamp), offset), rows[i].level)
    ensures r.Found? && logType != AllLevels ==> r.payload.logLevel == logType
  {
    match LatestMatch(rows, logType)
    case None => NoLogEntry()
    case Some(i) => StampOf(rows[i], offset)
  }

  /**
    The two selectors find a row on the same tables, and report the same
    timestamp whichever of several tied rows each one returns.
   */
  lemma SelectorsAgree(rows: seq<LogRow>, logType: string, offset: int)
    ensures GetLastLogRecord(rows, logType, offset).Found? <==> GetLastLogTimestamp(rows, logType, offset).Found?
    ensures GetLastLogRecord(rows, logType, offset).Found? ==>
      GetLastLogRecord(rows, logType, offset).payload.timestamp == GetLastLogTimestamp(rows, logType, offset).payload.timestamp
  {
    var record, stamp := GetLastLogRecord(rows, logType, offset), GetLastLogTimestamp(rows, logType, offset);
    if record.Found? {
      var i :| IsLatest(rows, logType, i) && record.payload == RecordOf(rows[i], offset);
      var k :| IsLatest(rows, logType, k) &&
        stamp.payload == LevelStamp(AddTimeOffset(Render(rows[k].timestamp), offset), rows[k].level);
      LatestRowsShareTimestamp(rows, logType, i, k);
    }
  }

  /** The reported timestamp is, after normalisation, no earlier than that of any matching row. */
  lemma LatestTimestampIsMaximal(rows: seq<LogRow>, logType: string, offset: int, j: int)
    requires 0 <= j < |rows| && Matches(rows[j], logType)
    requires GetLastLogTimestamp(rows, logType, offset).Found?
    requires GetLastLogTimestamp(rows, logType, offset).payload.timestamp.Ok?
    ensures var text := GetLastLogTimestamp(rows, logType, offset).payload.timestamp.text;
      Parse(text).Some? && Seconds(rows[j].timestamp.when) - offset <= Seconds(Parse(text).value)
  {
    var stamp := GetLastLogTimestamp(rows, logType, offset);
    var i :| IsLatest(rows, logType, i) &&
      stamp.payload == LevelStamp(AddTimeOffset(Render(rows[i].timestamp), offset), rows[i].level);
    NormalizeStored(rows[i].timestamp, offset);
    assert Instant(rows[j].timestamp) <= Instant(rows[i].timestamp);
  }

  // ---------------------------------------------------------------------
  // Time since the last log entry
  // ---------------------------------------------------------------------

  /** A call that returns a value, or one that raises an exception nothing catches. */
  datatype Outcome<T> = Returns(value: T) | Raises

  /** The fields `TimeSinceLastLogEntry` returns. */
  datatype Elapsed = Elapsed(logLevel: string, secondsSinceLastLog: int)

  /** Whole seconds from a row's normalised timestamp to the local clock reading `now`. */
  function TotalElapsed(now: DateTime, row: LogRow, offset: int): int
    requires Valid(now)
  {
    Seconds(now) - (Seconds(row.timestamp.when) - offset)
  }

  /**
    The `seconds` field of a Python `timedelta` of `d` seconds. The
    constructor normalises to `d == days * 86400 + seconds` with
    `0 <= seconds < 86400`, so `days` absorbs every whole day.
   */
  function TimedeltaSeconds(d: int): (r: int)
    ensures 0 <= r < 86400
    ensures (d - r) % 86400 == 0
    ensures 0 <= d < 86400 ==> r == d
  {
    d % 86400
  }

  /** The date-time a 200 envelope's text stands for, when `split` and `strptime` succeed on it. */
  function LastTime(last: Envelope<LevelStamp>): Option<DateTime>
    requires last.Found?
  {
    match last.payload.timestamp
    case Fail => None
    case Ok(text) => Parse(BeforeFirstDot(text))
  }

  /**
    What `TimeSinceLastLogEntry` makes of the envelope `GetLastLogTimestamp`
    returned, as written: a non-200 envelope becomes a fresh "no log entry"
    payload; otherwise the text is cut at the first '.', parsed, subtracted
    from `now`, and the `seconds` field of the difference is reported.
    `split` on the integer sentinel raises, as would `strptime` on text it
    cannot parse.
   */
  function ElapsedSince(last: Envelope<LevelStamp>, now: DateTime): (r: Outcome<Envelope<Elapsed>>)
    requires Valid(now)
    ensures last.NotFound? ==> r == Returns(NoLogEntry())
    ensures last.Found? ==> (r.Raises? <==> LastTime(last).None?)
    ensures last.Found? && LastTime(last).Some? ==> r.Returns? && r.value.Found?
    ensures r.Returns? && r.value.Found? ==>
      && last.Found? && LastTime(last).Some?
      && r.value.payload.logLevel == last.payload.logLevel
      && 0 <= r.value.payload.secondsSinceLastLog < 86400
  {
    if last.NotFound? then Returns(NoLogEntry())
    else
      match LastTime(last)
      case None => Raises
      case Some(when) =>
        Returns(Found(Elapsed(last.payload.logLevel, TimedeltaSeconds(Seconds(now) - Seconds(when)))))
  }

  /**
    The same with the total elapsed seconds, as the handler's documentation
    and the `seconds_since_last_log` name promise: the last entry's time
    plus the reported seconds is `now`.
   */
  function ElapsedSinceTotal(last: Envelope<LevelStamp>, now: DateTime): (r: Outcome<Envelope<Elapsed>>)
    requires Valid(now)
    ensures last.NotFound? ==> r == Returns(NoLogEntry())
    ensures last.Found? ==> (r.Raises? <==> LastTime(last).None?)
    ensures last.Found? && LastTime(last).Some? ==> r.Returns? && r.value.Found?
    ensures r.Returns? && r.value.Found? ==>
      && last.Found? && LastTime(last).Some?
      && r.value.payload.logLevel == last.payload.logLevel
      && Seconds(LastTime(last).value) + r.value.payload.secondsSinceLastLog == Seconds(now)
  {
    if last.NotFound? then Returns(NoLogEntry())
    else
      match LastTime(last)
      case None => Raises
      case Some(when) =>
        Returns(Found(Elapsed(last.payload.logLevel, Seconds(now) - Seconds(when))))
  }

  /** Moving the last entry's time forward by the total elapsed seconds lands on `now`. */
  lemma ElapsedSinceTotalReachesNow(last: Envelope<LevelStamp>, now: DateTime)
    requires Valid(now)
    requires ElapsedSinceTotal(last, now).Returns? && ElapsedSinceTotal(last, now).value.Found?
    ensures last.Found? && LastTime(last).Some?
    ensures Shift(LastTime(last).value, ElapsedSinceTotal(last, now).value.payload.secondsSinceLastLog) == Some(now)
  {
    var when := LastTime(last).value;
    ShiftLandsOn(when, ElapsedSinceTotal(last, now).value.payload.secondsSinceLastLog, now);
  }

  /** A remainder modulo a day is the `seconds` field: there is only one. */
  lemma TimedeltaSecondsUnique(d: int, r: int)
    requires 0 <= r < 86400 && (d - r) % 86400 == 0
    ensures r == TimedeltaSeconds(d)
  {
    var days := (d - r) / 86400;
    DivUnique(d, 86400, days, r);
  }

  /** A timedelta one day longer has the same `seconds` field. */
  lemma TimedeltaSecondsPeriodic(d: int)
    ensures TimedeltaSeconds(d + 86400) == TimedeltaSeconds(d)
  {
    DivUnique(d + 86400, 86400, d / 86400 + 1, d % 86400);
  }

  /**
    `TimedeltaSecondsPeriodic` with the two differences named: a solver aid
    that keeps the calendar arithmetic of the callers out of the modulus.
   */
  lemma TimedeltaShift(later: int, now: int)
    requires later == now + 86400
    ensures TimedeltaSeconds(later) == TimedeltaSeconds(now)
  {
    TimedeltaSecondsPeriodic(now);
  }

  /**
    The handler as written reports the `seconds` field of the total: the
    two agree on "no log entry" and on raising, and the reported seconds
    are the total's remainder modulo a day.
   */
  lemma ElapsedIsTotalModuloDay(last: Envelope<LevelStamp>, now: DateTime)
    requires Valid(now)
    ensures var written, total := ElapsedSince(last, now), ElapsedSinceTotal(last, now);
      && (written.Raises? <==> total.Raises?)
      && (written.Returns? ==> (written.value.Found? <==> total.value.Found?))
      && (written.Returns? && written.value.NotFound? ==> written == total)
      && (written.Returns? && written.value.Found? ==>
            && written.value.payload.logLevel == total.value.payload.logLevel
            && written.value.payload.secondsSinceLastLog == TimedeltaSeconds(total.value.payload.secondsSinceLastLog))
  {
    if last.Found? && LastTime(last).Some? {
      var d := Seconds(now) - Seconds(LastTime(last).value);
      assert ElapsedSince(last, now) == Returns(Found(Elapsed(last.payload.logLevel, TimedeltaSeconds(d))));
      assert ElapsedSinceTotal(last, now) == Returns(Found(Elapsed(last.payload.logLevel, d)));
    }
  }

  /** Under a day after the last entry, the `seconds` field is the whole difference. */
  lemma ElapsedWithinDay(last: Envelope<LevelStamp>, now: DateTime)
    requires Valid(now) && last.Found? && LastTime(last).Some?
    requires 0 <= Seconds(now) - Seconds(LastTime(last).value) < 86400
    ensures ElapsedSince(last, now) == ElapsedSinceTotal(last, now)
  {
    ElapsedIsTotalModuloDay(last, now);
  }

  /** A day later the handler as written reports the same seconds again. */
  lemma ElapsedRepeatsAfterOneDay(last: Envelope<LevelStamp>, now: DateTime, later: DateTime)
    requires Valid(now) && Valid(later) && Seconds(later) == Seconds(now) + 86400
    ensures ElapsedSince(last, later) == ElapsedSince(last, now)
  {
    if last.Found? && LastTime(last).Some? {
      var when := LastTime(last).value;
      TimedeltaShift(Seconds(later) - Seconds(when), Seconds(now) - Seconds(when));
    }
  }

  /**
    Seconds since the latest log entry matching `logType`, as the handler
    computes it. `now` is the local clock reading, truncated to whole seconds.
   */
  function TimeSinceLastLogEntry(rows: seq<LogRow>, logType: string, offset: int, now: DateTime): (r: Outcome<Envelope<Elapsed>>)
    requires Valid(now)
    ensures r.Returns? && r.value.Found? ==> 0 <= r.value.payload.secondsSinceLastLog < 86400
    ensures r.Returns? && r.value.Found? && logType != AllLevels ==> r.value.payload.logLevel == logType
  {
    ElapsedSince(GetLastLogTimestamp(rows, logType, offset), now)
  }

  /** The handler with the total elapsed seconds in place of `.seconds`. */
  function TimeSinceLastLogEntryTotal(rows: seq<LogRow>, logType: string, offset: int, now: DateTime): (r: Outcome<Envelope<Elapsed>>)
    requires Valid(now)
    ensures r.Returns? && r.value.Found? && logType != AllLevels ==> r.value.payload.logLevel == logType
  {
    ElapsedSinceTotal(GetLastLogTimestamp(rows, logType, offset), now)
  }

  /** A normalised stored timestamp re-parses, whole, to the stored date-time moved back by `offset`. */
  lemma ReparseNormalized(t: StoredTime, offset: int)
    requires AddTimeOffset(Render(t), offset).Ok?
    ensures var text := AddTimeOffset(Render(t), offset).text;
      Parse(BeforeFirstDot(text)).Some? && Seconds(Parse(BeforeFirstDot(text)).value) == Seconds(t.when) - offset
  {
    NormalizeStored(t, offset);
    var text := AddTimeOffset(Render(t), offset).text;
    FormatParse(text);
    FormatHasNoDot(Parse(text).value);
  }

  /** The envelope for one stored row: its time parses back exactly when it could be normalised. */
  lemma LastTimeOfStored(t: StoredTime, level: string, offset: int)
    ensures var last := Found(LevelStamp(AddTimeOffset(Render(t), offset), level));
      && (LastTime(last).Some? <==> 0 <= Seconds(t.when) - offset <= MaxSeconds)
      && (LastTime(last).Some? ==> Seconds(LastTime(last).value) == Seconds(t.when) - offset)
  {
    NormalizeStored(t, offset);
    if AddTimeOffset(Render(t), offset).Ok? {
      ReparseNormalized(t, offset);
    }
  }

  /** The handler reports "no log entry" exactly when no row matches the filter. */
  lemma TimeSinceNoEntry(rows: seq<LogRow>, logType: string, offset: int, now: DateTime)
    requires Valid(now)
    ensures TimeSinceLastLogEntry(rows, logType, offset, now) == Returns(NoLogEntry())
        <==> forall j :: 0 <= j < |rows| ==> !Matches(rows[j], logType)
    ensures TimeSinceLastLogEntryTotal(rows, logType, offset, now) == Returns(NoLogEntry())
        <==> forall j :: 0 <= j < |rows| ==> !Matches(rows[j], logType)
  {
  }

  /**
    The handler raises exactly when a latest matching row's timestamp,
    moved back by `offset`, leaves years 1..9999: the normalisation
    sentinel reaches `split`.
   */
  lemma TimeSinceRaises(rows: seq<LogRow>, logType: string, offset: int, now: DateTime)
    requires Valid(now)
    ensures TimeSinceLastLogEntry(rows, logType, offset, now).Raises?
        <==> exists i :: IsLatest(rows, logType, i) && !(0 <= Seconds(rows[i].timestamp.when) - offset <= MaxSeconds)
    ensures TimeSinceLastLogEntryTotal(rows, logType, offset, now).Raises?
        <==> TimeSinceLastLogEntry(rows, logType, offset, now).Raises?
  {
    var last := GetLastLogTimestamp(rows, logType, offset);
    if last.Found? {
      var i :| IsLatest(rows, logType, i) &&
        last.payload == LevelStamp(AddTimeOffset(Render(rows[i].timestamp), offset), rows[i].level);
      LastTimeOfStored(rows[i].timestamp, rows[i].level, offset);
      forall k | IsLatest(rows, logType, k)
        ensures Seconds(rows[k].timestamp.when) == Seconds(rows[i].timestamp.when)
      {
        LatestRowsShareTimestamp(rows, logType, i, k);
      }
    }
  }

  /** For one row's envelope, the corrected handler reports the row's level and total elapsed seconds. */
  lemma ElapsedTotalOfRow(row: LogRow, offset: int, now: DateTime)
    requires Valid(now)
    ensures var r := ElapsedSinceTotal(StampOf(row, offset), now);
      r.Returns? ==> r.value == Found(Elapsed(row.level, TotalElapsed(now, row, offset)))
  {
    var last := StampOf(row, offset);
    LastTimeOfStored(row.timestamp, row.level, offset);
    var r := ElapsedSinceTotal(last, now);
    if r.Returns? && r.value.Found? {
      assert r.value.payload.logLevel == row.level;
      assert r.value.payload.secondsSinceLastLog == TotalElapsed(now, row, offset);
    }
  }

  /** For one row's envelope, the handler as written reports the total modulo a day. */
  lemma ElapsedOfRow(row: LogRow, offset: int, now: DateTime)
    requires Valid(now)
    ensures var r := ElapsedSince(StampOf(row, offset), now);
      r.Returns? ==> r.value == Found(Elapsed(row.level, TimedeltaSeconds(TotalElapsed(now, row, offset))))
  {
    ElapsedTotalOfRow(row, offset, now);
    ElapsedIsTotalModuloDay(StampOf(row, offset), now);
  }

  /**
    Whatever the handler reports is about a latest matching row: its level,
    and the seconds from its normalised timestamp to `now` — in full for
    the corrected handler, modulo a day as written.
   */
  lemma TimeSinceLatestRow(rows: seq<LogRow>, logType: string, offset: int, now: DateTime)
    requires Valid(now)
    ensures var r := TimeSinceLastLogEntryTotal(rows, logType, offset, now);
      r.Returns? && r.value.Found? ==>
        exists i :: IsLatest(rows, logType, i) && r.value.payload == Elapsed(rows[i].level, TotalElapsed(now, rows[i], offset))
    ensures var r := TimeSinceLastLogEntry(rows, logType, offset, now);
      r.Returns? && r.value.Found? ==>
        exists i :: IsLatest(rows, logType, i) && r.value.payload == Elapsed(rows[i].level, TimedeltaSeconds(TotalElapsed(now, rows[i], offset)))
  {
    var last := GetLastLogTimestamp(rows, logType, offset);
    if last.Found? {
      var i :| IsLatest(rows, logType, i) && last == StampOf(rows[i], offset);
      ElapsedTotalOfRow(rows[i], offset, now);
      ElapsedOfRow(rows[i], offset, now);
    }
  }

  /**
    A last entry whose normalised timestamp reads 07:50:15 on 10 February
    2020, with the clock at 07:50:20 two days later: the handler as written
    reports 5 seconds, where 2 days and 5 seconds (172805 seconds) have passed.
   */
  lemma ElapsedLosesWholeDays(last: Envelope<LevelStamp>, now: DateTime)
    requires last.Found? && LastTime(last) == Some(DateTime(2020, 2, 10, 7, 50, 15))
    requires now == DateTime(2020, 2, 12, 7, 50, 20)
    ensures ElapsedSince(last, now) == Returns(Found(Elapsed(last.payload.logLevel, 5)))
    ensures ElapsedSinceTotal(last, now) == Returns(Found(Elapsed(last.payload.logLevel, 172805)))
  {
    var when := DateTime(2020, 2, 10, 7, 50, 15);
    assert Ordinal(2020, 2, 12) == Ordinal(2020, 2, 10) + 2;
    assert Seconds(now) - Seconds(when) == 2 * 86400 + 5;
  }

  /** A printed date-time in a found envelope is read back, by `split` and `strptime`, as that date-time. */
  lemma LastTimeOfFormat(dt: DateTime, level: string)
    requires Valid(dt)
    ensures LastTime(Found(LevelStamp(Ok(Format(dt)), level))) == Some(dt)
  {
    FormatHasNoDot(dt);
    ParseFormat(dt);
  }
}

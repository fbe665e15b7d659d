/**
  The parameter handling of the ProcessRobot HTTP API: the `event_type`
  path segment defaults to `ALL`, is upper-cased and checked against the
  four levels before any query sees it; anything else is answered with the
  "unknown parameter" body and HTTP status 404.
 */
module Api {
  import opened Optional
  import opened Calendar
  import opened LogHandler

  /** `str.upper()` on one character, for the ASCII letters. */
  function UpperChar(c: char): char {
    if 'a' <= c <= 'z' then (c as int - 32) as char else c
  }

  /** `str.upper()`, character by character. */
  function Upper(s: string): string {
    seq(|s|, i requires 0 <= i < |s| => UpperChar(s[i]))
  }

  /** Upper-casing twice is upper-casing once. */
  lemma UpperIdempotent(s: string)
    ensures Upper(Upper(s)) == Upper(s)
  {
    var once := Upper(s);
    assert forall i :: 0 <= i < |s| ==> UpperChar(once[i]) == once[i];
  }

  /** Two texts that differ at most in the case of their letters. */
  predicate SameIgnoringCase(a: string, b: string) {
    |a| == |b| && forall i :: 0 <= i < |a| ==> UpperChar(a[i]) == UpperChar(b[i])
  }

  /** Texts are equal ignoring case exactly when their upper-cased forms are equal. */
  lemma SameIgnoringCaseUpper(a: string, b: string)
    ensures SameIgnoringCase(a, b) <==> Upper(a) == Upper(b)
  {
    if Upper(a) == Upper(b) {
      forall i | 0 <= i < |a| ensures UpperChar(a[i]) == UpperChar(b[i]) {
        assert Upper(a)[i] == UpperChar(a[i]) && Upper(b)[i] == UpperChar(b[i]);
      }
    }
  }

  /** The four levels a request may ask for, in upper case. */
  predicate IsLevel(text: string) {
    text == "INFO" || text == "WARN" || text == "ERROR" || text == AllLevels
  }

  /** `check_parameter`: the upper-cased text is one of the four levels. */
  function CheckParameter(parameter: string): bool {
    IsLevel(Upper(parameter))
  }

  /** The four levels are already in upper case. */
  lemma LevelsAreUpper(v: string)
    requires IsLevel(v)
    ensures Upper(v) == v
  {
  }

  /**
    A parameter is accepted exactly when it spells one of the four levels,
    in any mix of upper and lower case.
   */
  lemma CheckParameterIgnoresCase(parameter: string)
    ensures CheckParameter(parameter) <==> exists v :: IsLevel(v) && SameIgnoringCase(parameter, v)
    ensures CheckParameter(parameter) ==> IsLevel(Upper(parameter))
  {
    var level := Upper(parameter);
    if CheckParameter(parameter) {
      LevelsAreUpper(level);
      SameIgnoringCaseUpper(parameter, level);
    } else {
      forall v | IsLevel(v) ensures !SameIgnoringCase(parameter, v) {
        LevelsAreUpper(v);
        SameIgnoringCaseUpper(parameter, v);
      }
    }
  }

  /** Upper-casing first, as every handler does, changes nothing about the check. */
  lemma CheckParameterOfUpper(parameter: string)
    ensures CheckParameter(Upper(parameter)) == CheckParameter(parameter)
  {
    UpperIdempotent(parameter);
  }

  /** Lower-case spellings pass; other levels do not. */
  lemma CheckParameterExamples()
    ensures CheckParameter("info") && CheckParameter("Warn") && CheckParameter("eRRoR") && CheckParameter("all")
    ensures !CheckParameter("DEBUG") && !CheckParameter("") && !CheckParameter("INFO ")
  {
    assert Upper("DEBUG")[0] == 'D';
    assert Upper("INFO ")[0] == 'I';
  }

  /** A JSON error body. */
  datatype ErrorBody = ErrorBody(status: int, message: string)

  /** The HTTP status of a refused request. */
  const UnknownParameterStatus: int := 404

  /** `unknown_parameter()`. */
  function UnknownParameter(): ErrorBody {
    ErrorBody(UnknownParameterStatus, "Unknown parameter. Only INFO, WARN, ERROR and ALL are valid parameters")
  }

  /** What the shared first lines of a handler decide. */
  datatype Gate = Accept(level: string) | Reject(body: ErrorBody, httpStatus: int)

  /**
    The prelude of the `get` handlers: the missing path segment stands for
    `ALL`; the value is upper-cased and passed on if `check_parameter`
    accepts it, and refused with `unknown_parameter()` and 404 otherwise.
   */
  function Prelude(eventType: Option<string>): (g: Gate)
    ensures g.Accept? ==> IsLevel(g.level)
    ensures g.Reject? ==> g == Reject(UnknownParameter(), UnknownParameterStatus)
    ensures eventType.None? ==> g == Accept(AllLevels)
    ensures eventType.Some? ==> (g.Accept? <==> CheckParameter(eventType.value))
  {
    var text := match eventType case None => AllLevels case Some(text) => text;
    var level := Upper(text);
    UpperIdempotent(text);
    CheckParameterOfUpper(text);
    CheckParameterIgnoresCase(level);
    if CheckParameter(level) then Accept(level) else Reject(UnknownParameter(), UnknownParameterStatus)
  }

  /** An accepted parameter reaches the query as the level it spells, in upper case. */
  lemma PreludePassesLevel(text: string, v: string)
    requires IsLevel(v) && SameIgnoringCase(text, v)
    ensures Prelude(Some(text)) == Accept(v)
  {
    CheckParameterIgnoresCase(text);
    LevelsAreUpper(v);
    SameIgnoringCaseUpper(text, v);
  }

  /** The body of a reply: the handler's own result, or the error body. */
  datatype Body<T> = Answer(envelope: Envelope<T>) | Refusal(error: ErrorBody)

  /** A reply with its HTTP status. */
  datatype Reply<T> = Reply(body: Body<T>, httpStatus: int)

  /** `GET /latestlogrecord/[event_type]`. */
  function LatestLogRecordGet(rows: seq<LogRow>, eventType: Option<string>, offset: int): (r: Reply<LogRecord>)
    ensures r.httpStatus == 200 || r == Reply(Refusal(UnknownParameter()), UnknownParameterStatus)
    ensures r.httpStatus == 200 <==> Prelude(eventType).Accept?
    ensures r.body.Answer? ==> r.body.envelope == GetLastLogRecord(rows, Prelude(eventType).level, offset)
    ensures Prelude(eventType).Accept? ==> r == Reply(Answer(GetLastLogRecord(rows, Prelude(eventType).level, offset)), 200)
  {
    match Prelude(eventType)
    case Accept(level) => Reply(Answer(GetLastLogRecord(rows, level, offset)), 200)
    case Reject(body, status) => Reply(Refusal(body), status)
  }

  /** `GET /latestlogtimestamp/[event_type]`. */
  function LatestLogTimestampGet(rows: seq<LogRow>, eventType: Option<string>, offset: int): (r: Reply<LevelStamp>)
    ensures r.httpStatus == 200 || r == Reply(Refusal(UnknownParameter()), UnknownParameterStatus)
    ensures r.httpStatus == 200 <==> Prelude(eventType).Accept?
    ensures r.body.Answer? ==> r.body.envelope == GetLastLogTimestamp(rows, Prelude(eventType).level, offset)
    ensures Prelude(eventType).Accept? ==> r == Reply(Answer(GetLastLogTimestamp(rows, Prelude(eventType).level, offset)), 200)
  {
    match Prelude(eventType)
    case Accept(level) => Reply(Answer(GetLastLogTimestamp(rows, level, offset)), 200)
    case Reject(body, status) => Reply(Refusal(body), status)
  }

  /**
    `GET /timesincelastlogentry/[event_type]`, as written: the handler
    reports `timedelta.seconds`. An exception in the handler reaches the web
    framework as `Raises`.
   */
  function TimeSinceLastLogEntryGet(rows: seq<LogRow>, eventType: Option<string>, offset: int, now: DateTime): (r: Outcome<Reply<Elapsed>>)
    requires Valid(now)
    ensures r.Raises? <==> Prelude(eventType).Accept? && TimeSinceLastLogEntry(rows, Prelude(eventType).level, offset, now).Raises?
    ensures r.Returns? ==> (r.value.httpStatus == 200 <==> Prelude(eventType).Accept?)
    ensures r.Returns? && Prelude(eventType).Accept? ==> r.value.body.Answer?
    ensures Prelude(eventType).Reject? ==> r == Returns(Reply(Refusal(UnknownParameter()), UnknownParameterStatus))
    ensures r.Returns? && r.value.body.Answer? ==>
      TimeSinceLastLogEntry(rows, Prelude(eventType).level, offset, now) == Returns(r.value.body.envelope)
  {
    match Prelude(eventType)
    case Reject(body, status) => Returns(Reply(Refusal(body), status))
    case Accept(level) =>
      match TimeSinceLastLogEntry(rows, level, offset, now)
      case Raises => Raises
      case Returns(result) => Returns(Reply(Answer(result), 200))
  }

  /** The same handler reporting the total elapsed seconds, as its documentation promises. */
  function TimeSinceLastLogEntryTotalGet(rows: seq<LogRow>, eventType: Option<string>, offset: int, now: DateTime): (r: Outcome<Reply<Elapsed>>)
    requires Valid(now)
    ensures r.Raises? <==> Prelude(eventType).Accept? && TimeSinceLastLogEntryTotal(rows, Prelude(eventType).level, offset, now).Raises?
    ensures r.Returns? ==> (r.value.httpStatus == 200 <==> Prelude(eventType).Accept?)
    ensures r.Returns? && Prelude(eventType).Accept? ==> r.value.body.Answer?
    ensures Prelude(eventType).Reject? ==> r == Returns(Reply(Refusal(UnknownParameter()), UnknownParameterStatus))
    ensures r.Returns? && r.value.body.Answer? ==>
      TimeSinceLastLogEntryTotal(rows, Prelude(eventType).level, offset, now) == Returns(r.value.body.envelope)
  {
    match Prelude(eventType)
    case Reject(body, status) => Returns(Reply(Refusal(body), status))
    case Accept(level) =>
      match TimeSinceLastLogEntryTotal(rows, level, offset, now)
      case Raises => Raises
      case Returns(result) => Returns(Reply(Answer(result), 200))
  }

  /**
    The handlers answer the same whatever the case of the parameter, and a
    missing parameter is the same as `ALL`.
   */
  lemma HandlersIgnoreCase(rows: seq<LogRow>, text: string, offset: int, now: DateTime)
    requires Valid(now)
    ensures LatestLogRecordGet(rows, Some(text), offset) == LatestLogRecordGet(rows, Some(Upper(text)), offset)
    ensures LatestLogTimestampGet(rows, Some(text), offset) == LatestLogTimestampGet(rows, Some(Upper(text)), offset)
    ensures TimeSinceLastLogEntryGet(rows, Some(text), offset, now) == TimeSinceLastLogEntryGet(rows, Some(Upper(text)), offset, now)
  {
    UpperIdempotent(text);
  }

  /** A request without a parameter is one for `ALL`: the latest record of any level. */
  lemma HandlersDefaultToAll(rows: seq<LogRow>, offset: int, now: DateTime)
    requires Valid(now)
    ensures LatestLogRecordGet(rows, None, offset) == LatestLogRecordGet(rows, Some(AllLevels), offset)
    ensures LatestLogRecordGet(rows, None, offset) == Reply(Answer(GetLastLogRecord(rows, AllLevels, offset)), 200)
    ensures LatestLogTimestampGet(rows, None, offset) == LatestLogTimestampGet(rows, Some(AllLevels), offset)
    ensures TimeSinceLastLogEntryGet(rows, None, offset, now) == TimeSinceLastLogEntryGet(rows, Some(AllLevels), offset, now)
  {
    LevelsAreUpper(AllLevels);
  }

  /**
    Every record a handler answers with is of the level asked for, when
    that is not `ALL`, whatever case the request used.
   */
  lemma HandlersFilterByLevel(rows: seq<LogRow>, text: string, v: string, offset: int, now: DateTime)
    requires Valid(now) && IsLevel(v) && v != AllLevels && SameIgnoringCase(text, v)
    ensures var r := LatestLogRecordGet(rows, Some(text), offset);
      r.httpStatus == 200 && r.body.Answer? && (r.body.envelope.Found? ==> r.body.envelope.payload.logLevel == v)
    ensures var r := LatestLogTimestampGet(rows, Some(text), offset);
      r.httpStatus == 200 && r.body.Answer? && (r.body.envelope.Found? ==> r.body.envelope.payload.logLevel == v)
    ensures var r := TimeSinceLastLogEntryGet(rows, Some(text), offset, now);
      r.Returns? ==>
        && r.value.httpStatus == 200 && r.value.body.Answer?
        && (r.value.body.envelope.Found? ==> r.value.body.envelope.payload.logLevel == v)
  {
    PreludePassesLevel(text, v);
  }
}

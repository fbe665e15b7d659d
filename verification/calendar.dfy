/**
  Proleptic Gregorian calendar arithmetic, done the way Python's `datetime`
  module does it. A civil date-time is turned into a count of seconds since
  0001-01-01 00:00:00 and back; adding or subtracting a `timedelta` is an
  addition on that count, failing when the result leaves years 1..9999.
 */
module Calendar {
  import opened Optional

  /** A civil date-time with whole seconds (no time zone, no fraction). */
  datatype DateTime = DateTime(year: int, month: int, day: int, hour: int, minute: int, second: int)

  const MinYear: int := 1
  const MaxYear: int := 9999

  /** Seconds from 0001-01-01 00:00:00 to 9999-12-31 23:59:59, the last representable instant. */
  const MaxSeconds: int := 315537897599

  predicate IsLeapYear(year: int) {
    year % 4 == 0 && (year % 100 != 0 || year % 400 == 0)
  }

  function DaysInYear(year: int): int {
    if IsLeapYear(year) then 366 else 365
  }

  function DaysInMonth(year: int, month: int): int
    requires 1 <= month <= 12
  {
    if month == 2 then (if IsLeapYear(year) then 29 else 28)
    else if month == 4 || month == 6 || month == 9 || month == 11 then 30
    else 31
  }

  predicate ValidDate(year: int, month: int, day: int) {
    && MinYear <= year <= MaxYear
    && 1 <= month <= 12
    && 1 <= day <= DaysInMonth(year, month)
  }

  /** What a Python `datetime` with zero microseconds can hold. */
  predicate Valid(dt: DateTime) {
    && ValidDate(dt.year, dt.month, dt.day)
    && 0 <= dt.hour < 24
    && 0 <= dt.minute < 60
    && 0 <= dt.second < 60
  }

  /** Days in the years 1 .. year-1. */
  function DaysBeforeYear(year: int): int
    requires year >= 1
  {
    var y := year - 1;
    y * 365 + y / 4 - y / 100 + y / 400
  }

  /** Days in the months 1 .. month-1 of `year`, accumulated month by month. */
  function DaysBeforeMonth(year: int, month: int): (days: int)
    requires 1 <= month <= 12
    ensures 0 <= days
  {
    if month == 1 then 0 else DaysBeforeMonth(year, month - 1) + DaysInMonth(year, month - 1)
  }

  /** Day number of a date, 0001-01-01 being day 1. */
  function Ordinal(year: int, month: int, day: int): int
    requires year >= 1 && 1 <= month <= 12
  {
    DaysBeforeYear(year) + DaysBeforeMonth(year, month) + day
  }

  /** Seconds elapsed since midnight. */
  function TimeOfDay(dt: DateTime): int {
    dt.hour * 3600 + dt.minute * 60 + dt.second
  }

  /** Seconds from 0001-01-01 00:00:00 to `dt`. */
  function Seconds(dt: DateTime): int
    requires Valid(dt)
  {
    (Ordinal(dt.year, dt.month, dt.day) - 1) * 86400 + TimeOfDay(dt)
  }

  /** A year has as many days as the difference of consecutive `DaysBeforeYear`. */
  lemma DaysBeforeYearStep(year: int)
    requires year >= 1
    ensures DaysBeforeYear(year + 1) == DaysBeforeYear(year) + DaysInYear(year)
  {
    var y := year - 1;
    DivStep(y, 4);
    DivStep(y, 100);
    DivStep(y, 400);
    var by4 := if year % 4 == 0 then 1 else 0;
    var by100 := if year % 100 == 0 then 1 else 0;
    var by400 := if year % 400 == 0 then 1 else 0;
    assert DaysBeforeYear(year + 1) == DaysBeforeYear(year) + 365 + by4 - by100 + by400;
    if year % 400 == 0 {
      DivUnique(year, 100, year / 400 * 4, 0);
      DivUnique(year, 4, year / 400 * 100, 0);
    } else if year % 100 == 0 {
      DivUnique(year, 4, year / 100 * 25, 0);
    }
  }

  /** Floor division by `d` steps up by one exactly at multiples of `d`. */
  lemma DivStep(y: int, d: int)
    requires y >= 0 && d > 0
    ensures (y + 1) / d == y / d + (if (y + 1) % d == 0 then 1 else 0)
  {
    var q, r := y / d, y % d;
    assert y == q * d + r && 0 <= r < d;
    if r + 1 < d {
      DivUnique(y + 1, d, q, r + 1);
    } else {
      assert y + 1 == (q + 1) * d + 0;
      DivUnique(y + 1, d, q + 1, 0);
    }
  }

  /** Quotient and remainder are determined by the dividend and divisor. */
  lemma DivUnique(x: int, d: int, q: int, r: int)
    requires d > 0 && 0 <= r < d && x == q * d + r
    ensures x / d == q && x % d == r
  {
    var q', r' := x / d, x % d;
    assert q * d + r == q' * d + r';
    if q > q' {
      assert (q - q') * d == q * d - q' * d;
      MulAtLeastDivisor(q - q', d);
    } else if q < q' {
      assert (q' - q) * d == q' * d - q * d;
      MulAtLeastDivisor(q' - q, d);
    }
  }

  /** A positive multiple of `d` is at least `d`. */
  lemma MulAtLeastDivisor(k: int, d: int)
    requires k >= 1 && d > 0
    ensures k * d >= d
  {
    assert k * d == (k - 1) * d + d;
    assert (k - 1) * d >= 0;
  }

  /** Later years start later. */
  lemma {:induction false} DaysBeforeYearMonotone(a: int, b: int)
    requires 1 <= a <= b
    ensures DaysBeforeYear(a) <= DaysBeforeYear(b)
    ensures a < b ==> DaysBeforeYear(a + 1) <= DaysBeforeYear(b)
    decreases b - a
  {
    if a < b {
      DaysBeforeYearStep(a);
      DaysBeforeYearMonotone(a + 1, b);
    }
  }

  /** The months of a year tile it without gaps or overlaps. */
  lemma DaysBeforeMonthStep(year: int, month: int)
    requires 1 <= month <= 12
    ensures month < 12 ==> DaysBeforeMonth(year, month + 1) == DaysBeforeMonth(year, month) + DaysInMonth(year, month)
    ensures month == 12 ==> DaysBeforeMonth(year, 12) + 31 == DaysInYear(year)
  {
    if month == 12 {
      var february := DaysInMonth(year, 2);
      assert DaysBeforeMonth(year, 2) == 31;
      assert DaysBeforeMonth(year, 3) == 31 + february;
      assert DaysBeforeMonth(year, 4) == 62 + february;
      assert DaysBeforeMonth(year, 5) == 92 + february;
      assert DaysBeforeMonth(year, 6) == 123 + february;
      assert DaysBeforeMonth(year, 7) == 153 + february;
      assert DaysBeforeMonth(year, 8) == 184 + february;
      assert DaysBeforeMonth(year, 9) == 215 + february;
      assert DaysBeforeMonth(year, 10) == 245 + february;
      assert DaysBeforeMonth(year, 11) == 276 + february;
      assert DaysBeforeMonth(year, 12) == 306 + february;
    }
  }

  /** Earlier months end no later than later months begin. */
  lemma {:induction false} DaysBeforeMonthMonotone(year: int, a: int, b: int)
    requires 1 <= a < b <= 12
    ensures DaysBeforeMonth(year, a) + DaysInMonth(year, a) <= DaysBeforeMonth(year, b)
    decreases b - a
  {
    DaysBeforeMonthStep(year, a);
    if a + 1 < b {
      DaysBeforeMonthMonotone(year, a + 1, b);
    }
  }

  /** The year holding the zero-based day number `n`, searched upwards from `year`. */
  function YearContaining(n: int, year: int): (r: int)
    requires year >= 1 && DaysBeforeYear(year) <= n
    ensures r >= year
    decreases n - DaysBeforeYear(year)
  {
    DaysBeforeYearStep(year);
    if n < DaysBeforeYear(year + 1) then year else YearContaining(n, year + 1)
  }

  /** The search finds a year, at or after the first one tried, whose days hold `n`. */
  lemma {:induction false} YearContainingHolds(n: int, year: int)
    requires year >= 1 && DaysBeforeYear(year) <= n
    ensures var r := YearContaining(n, year);
      r >= year && DaysBeforeYear(r) <= n < DaysBeforeYear(r + 1)
    decreases n - DaysBeforeYear(year)
  {
    DaysBeforeYearStep(year);
    if n >= DaysBeforeYear(year + 1) {
      YearContainingHolds(n, year + 1);
      assert YearContaining(n, year) == YearContaining(n, year + 1);
    } else {
      assert YearContaining(n, year) == year;
    }
  }

  /** The month holding the zero-based day of year `n`, searched upwards from `month`. */
  function MonthContaining(year: int, n: int, month: int): (r: int)
    requires 1 <= month <= 12
    requires DaysBeforeMonth(year, month) <= n < DaysInYear(year)
    ensures month <= r <= 12
    decreases 12 - month
  {
    DaysBeforeMonthStep(year, month);
    if month == 12 || n < DaysBeforeMonth(year, month + 1) then month
    else MonthContaining(year, n, month + 1)
  }

  /** The search finds a month, at or after the first one tried, whose days hold `n`. */
  lemma {:induction false} MonthContainingHolds(year: int, n: int, month: int)
    requires 1 <= month <= 12
    requires DaysBeforeMonth(year, month) <= n < DaysInYear(year)
    ensures var r := MonthContaining(year, n, month);
      month <= r <= 12 && DaysBeforeMonth(year, r) <= n < DaysBeforeMonth(year, r) + DaysInMonth(year, r)
    decreases 12 - month
  {
    DaysBeforeMonthStep(year, month);
    if month < 12 && n >= DaysBeforeMonth(year, month + 1) {
      MonthContainingHolds(year, n, month + 1);
      assert MonthContaining(year, n, month) == MonthContaining(year, n, month + 1);
    } else {
      assert MonthContaining(year, n, month) == month;
    }
  }

  /** Only one year can hold a given day number. */
  lemma YearUnique(n: int, a: int, b: int)
    requires a >= 1 && b >= 1
    requires DaysBeforeYear(a) <= n < DaysBeforeYear(a + 1)
    requires DaysBeforeYear(b) <= n < DaysBeforeYear(b + 1)
    ensures a == b
  {
    if a < b {
      DaysBeforeYearMonotone(a, b);
    } else if b < a {
      DaysBeforeYearMonotone(b, a);
    }
  }

  /** Only one month can hold a given day of the year. */
  lemma MonthUnique(year: int, n: int, a: int, b: int)
    requires 1 <= a <= 12 && 1 <= b <= 12
    requires DaysBeforeMonth(year, a) <= n < DaysBeforeMonth(year, a) + DaysInMonth(year, a)
    requires DaysBeforeMonth(year, b) <= n < DaysBeforeMonth(year, b) + DaysInMonth(year, b)
    ensures a == b
  {
    if a < b {
      DaysBeforeMonthMonotone(year, a, b);
    } else if b < a {
      DaysBeforeMonthMonotone(year, b, a);
    }
  }

  /** The date whose zero-based day number is `n`. */
  function DateOfDay(n: int): DateTime
    requires 0 <= n < DaysBeforeYear(MaxYear + 1)
  {
    YearContainingHolds(n, 1);
    var year := YearContaining(n, 1);
    DaysBeforeYearStep(year);
    var dayOfYear := n - DaysBeforeYear(year);
    var month := MonthContaining(year, dayOfYear, 1);
    DateTime(year, month, dayOfYear - DaysBeforeMonth(year, month) + 1, 0, 0, 0)
  }

  /** The date found is a valid one with day number `n`. */
  lemma DateOfDayHolds(n: int)
    requires 0 <= n < DaysBeforeYear(MaxYear + 1)
    ensures var r := DateOfDay(n);
      ValidDate(r.year, r.month, r.day) && Ordinal(r.year, r.month, r.day) == n + 1
  {
    YearContainingHolds(n, 1);
    var year := YearContaining(n, 1);
    if year > MaxYear {
      DaysBeforeYearMonotone(MaxYear + 1, year);
    }
    DaysBeforeYearStep(year);
    MonthContainingHolds(year, n - DaysBeforeYear(year), 1);
  }

  /** The date-time lying `s` seconds after 0001-01-01 00:00:00. */
  function FromSeconds(s: int): DateTime
    requires 0 <= s <= MaxSeconds
  {
    var days, rest := s / 86400, s % 86400;
    assert DaysBeforeYear(MaxYear + 1) == 3652059;
    var date := DateOfDay(days);
    DateTime(date.year, date.month, date.day, rest / 3600, rest % 3600 / 60, rest % 60)
  }

  /** The date-time found is valid and lies `s` seconds after the start. */
  lemma FromSecondsHolds(s: int)
    requires 0 <= s <= MaxSeconds
    ensures Valid(FromSeconds(s)) && Seconds(FromSeconds(s)) == s
  {
    assert DaysBeforeYear(MaxYear + 1) == 3652059;
    DateOfDayHolds(s / 86400);
  }

  /** Every valid date-time lies within the representable range of seconds. */
  lemma SecondsRange(dt: DateTime)
    requires Valid(dt)
    ensures 0 <= Seconds(dt) <= MaxSeconds
  {
    var n := Ordinal(dt.year, dt.month, dt.day) - 1;
    DateWithinYear(dt.year, dt.month, dt.day);
    DaysBeforeYearMonotone(dt.year + 1, MaxYear + 1);
    assert DaysBeforeYear(MaxYear + 1) == 3652059;
    assert 0 <= n < 3652059 && 0 <= TimeOfDay(dt) < 86400;
    assert Seconds(dt) == n * 86400 + TimeOfDay(dt);
  }

  /** A valid date lies inside its own year and month. */
  lemma DateWithinYear(year: int, month: int, day: int)
    requires ValidDate(year, month, day)
    ensures DaysBeforeYear(year) <= Ordinal(year, month, day) - 1 < DaysBeforeYear(year + 1)
    ensures DaysBeforeMonth(year, month) + day - 1 < DaysInYear(year)
  {
    DaysBeforeYearStep(year);
    DaysBeforeMonthStep(year, month);
    if month < 12 {
      DaysBeforeMonthMonotone(year, month, 12);
      DaysBeforeMonthStep(year, 12);
    }
  }

  /** The year search finds the year of a valid date from its day number. */
  lemma YearOfOrdinal(year: int, month: int, day: int)
    requires ValidDate(year, month, day)
    ensures 0 <= Ordinal(year, month, day) - 1 < DaysBeforeYear(MaxYear + 1)
    ensures YearContaining(Ordinal(year, month, day) - 1, 1) == year
  {
    var n := Ordinal(year, month, day) - 1;
    DateWithinYear(year, month, day);
    DaysBeforeYearMonotone(1, year);
    DaysBeforeYearMonotone(year + 1, MaxYear + 1);
    assert 0 <= n < DaysBeforeYear(MaxYear + 1);
    YearContainingHolds(n, 1);
    YearUnique(n, year, YearContaining(n, 1));
  }

  /** The month search finds the month of a valid date from its day of the year. */
  lemma MonthOfDayOfYear(year: int, month: int, day: int)
    requires ValidDate(year, month, day)
    ensures DaysBeforeMonth(year, month) + day - 1 < DaysInYear(year)
    ensures MonthContaining(year, DaysBeforeMonth(year, month) + day - 1, 1) == month
  {
    var dayOfYear := DaysBeforeMonth(year, month) + day - 1;
    DateWithinYear(year, month, day);
    MonthContainingHolds(year, dayOfYear, 1);
    MonthUnique(year, dayOfYear, month, MonthContaining(year, dayOfYear, 1));
  }

  /** A valid date is the only one with its day number. */
  lemma DateOfDayOfOrdinal(year: int, month: int, day: int)
    requires ValidDate(year, month, day)
    ensures 0 <= Ordinal(year, month, day) - 1 < DaysBeforeYear(MaxYear + 1)
    ensures DateOfDay(Ordinal(year, month, day) - 1) == DateTime(year, month, day, 0, 0, 0)
  {
    YearOfOrdinal(year, month, day);
    MonthOfDayOfYear(year, month, day);
    var n := Ordinal(year, month, day) - 1;
    var dayOfYear := n - DaysBeforeYear(YearContaining(n, 1));
    assert dayOfYear == DaysBeforeMonth(year, month) + day - 1;
    assert MonthContaining(YearContaining(n, 1), dayOfYear, 1) == month;
  }

  /** A valid date-time is the only one at its count of seconds. */
  lemma FromSecondsOfSeconds(dt: DateTime)
    requires Valid(dt)
    ensures 0 <= Seconds(dt) <= MaxSeconds && FromSeconds(Seconds(dt)) == dt
  {
    SecondsRange(dt);
    var n := Ordinal(dt.year, dt.month, dt.day) - 1;
    DivUnique(Seconds(dt), 86400, n, TimeOfDay(dt));
    var minutes := dt.minute * 60 + dt.second;
    DivUnique(TimeOfDay(dt), 3600, dt.hour, minutes);
    DivUnique(minutes, 60, dt.minute, dt.second);
    DivUnique(TimeOfDay(dt), 60, dt.hour * 60 + dt.minute, dt.second);
    DateOfDayOfOrdinal(dt.year, dt.month, dt.day);
  }

  /** Distinct valid date-times have distinct counts of seconds. */
  lemma SecondsInjective(a: DateTime, b: DateTime)
    requires Valid(a) && Valid(b) && Seconds(a) == Seconds(b)
    ensures a == b
  {
    FromSecondsOfSeconds(a);
    FromSecondsOfSeconds(b);
  }

  /**
    `dt` moved by `delta` seconds, or None when the result falls outside
    years 1..9999 (where Python raises OverflowError).
   */
  function Shift(dt: DateTime, delta: int): (r: Option<DateTime>)
    requires Valid(dt)
    ensures r.Some? <==> 0 <= Seconds(dt) + delta <= MaxSeconds
    ensures r.Some? ==> Valid(r.value) && Seconds(r.value) == Seconds(dt) + delta
  {
    var s := Seconds(dt) + delta;
    if 0 <= s <= MaxSeconds then
      FromSecondsHolds(s);
      Some(FromSeconds(s))
    else None
  }

  /** A shift lands on the one valid date-time that is `delta` seconds later. */
  lemma ShiftLandsOn(dt: DateTime, delta: int, target: DateTime)
    requires Valid(dt) && Valid(target) && Seconds(target) == Seconds(dt) + delta
    ensures Shift(dt, delta) == Some(target)
  {
    SecondsRange(target);
    SecondsInjective(Shift(dt, delta).value, target);
  }

  /** Shifting by zero seconds changes nothing. */
  lemma ShiftZero(dt: DateTime)
    requires Valid(dt)
    ensures Shift(dt, 0) == Some(dt)
  {
    SecondsRange(dt);
    SecondsInjective(Shift(dt, 0).value, dt);
  }

  /** Shifting by `delta` and then by `-delta` restores the original date-time. */
  lemma ShiftUndo(dt: DateTime, delta: int)
    requires Valid(dt) && Shift(dt, delta).Some?
    ensures Shift(Shift(dt, delta).value, -delta) == Some(dt)
  {
    var moved := Shift(dt, delta).value;
    SecondsRange(dt);
    SecondsInjective(Shift(moved, -delta).value, dt);
  }

  /** Two successive shifts are one shift by the sum. */
  lemma ShiftCompose(dt: DateTime, a: int, b: int)
    requires Valid(dt) && Shift(dt, a).Some?
    ensures Shift(Shift(dt, a).value, b) == Shift(dt, a + b)
  {
    var moved := Shift(dt, a).value;
    if Shift(moved, b).Some? {
      SecondsInjective(Shift(moved, b).value, Shift(dt, a + b).value);
    }
  }

  /** The calendar day after a valid date, carrying into month and year. */
  function NextDate(year: int, month: int, day: int): (int, int, int)
    requires ValidDate(year, month, day)
  {
    if day < DaysInMonth(year, month) then (year, month, day + 1)
    else if month < 12 then (year, month + 1, 1)
    else (year + 1, 1, 1)
  }

  /** The next second on the wall clock, carrying into minute, hour, day, month and year. */
  function NextSecond(dt: DateTime): DateTime
    requires Valid(dt)
  {
    if dt.second < 59 then dt.(second := dt.second + 1)
    else if dt.minute < 59 then dt.(minute := dt.minute + 1, second := 0)
    else if dt.hour < 23 then dt.(hour := dt.hour + 1, minute := 0, second := 0)
    else
      var (y, m, d) := NextDate(dt.year, dt.month, dt.day);
      DateTime(y, m, d, 0, 0, 0)
  }

  /** The day after a date has the next day number, across month and year ends and leap days. */
  lemma NextDateOrdinal(year: int, month: int, day: int)
    requires ValidDate(year, month, day) && (year, month, day) != (MaxYear, 12, 31)
    ensures var (y, m, d) := NextDate(year, month, day);
      ValidDate(y, m, d) && Ordinal(y, m, d) == Ordinal(year, month, day) + 1
  {
    DaysBeforeMonthStep(year, month);
    if day == DaysInMonth(year, month) && month == 12 {
      DaysBeforeYearStep(year);
    }
  }

  /**
    Adding one second to a valid date-time is the wall-clock carry of
    `NextSecond`, everywhere except at the very last representable second.
   */
  lemma ShiftOneSecond(dt: DateTime)
    requires Valid(dt) && dt != DateTime(MaxYear, 12, 31, 23, 59, 59)
    ensures Shift(dt, 1) == Some(NextSecond(dt))
  {
    var next := NextSecond(dt);
    if dt.second == 59 && dt.minute == 59 && dt.hour == 23 {
      NextDateOrdinal(dt.year, dt.month, dt.day);
    }
    assert Valid(next) && Seconds(next) == Seconds(dt) + 1;
    SecondsRange(next);
    SecondsInjective(Shift(dt, 1).value, next);
  }

  /**
    Adding a day keeps the clock time and moves to `NextDate`, everywhere
    except on the last representable day.
   */
  lemma ShiftOneDay(dt: DateTime)
    requires Valid(dt) && (dt.year, dt.month, dt.day) != (MaxYear, 12, 31)
    ensures var (y, m, d) := NextDate(dt.year, dt.month, dt.day);
      Shift(dt, 86400) == Some(DateTime(y, m, d, dt.hour, dt.minute, dt.second))
  {
    var (y, m, d) := NextDate(dt.year, dt.month, dt.day);
    var next := DateTime(y, m, d, dt.hour, dt.minute, dt.second);
    NextDateOrdinal(dt.year, dt.month, dt.day);
    assert Seconds(next) == Seconds(dt) + 86400;
    SecondsRange(next);
    SecondsInjective(Shift(dt, 86400).value, next);
  }
}

/** The timestamps of the events: text in the format `%Y-%m-%dT%H:%M:%S`
    as read by `datetime.strptime` in FMCopilot/analysis_tool.py, and the
    number of seconds by which those datetimes are compared and subtracted. */
module Timestamp {
  import opened Wrappers
  import opened Text

  datatype DateTime = DateTime(year: int, month: int, day: int, hour: int, minute: int, second: int)

  predicate IsLeapYear(y: int) {
    y % 4 == 0 && (y % 100 != 0 || y % 400 == 0)
  }

  function DaysInMonth(y: int, m: int): (n: int)
    requires 1 <= m <= 12
    ensures 28 <= n <= 31
  {
    if m == 2 then (if IsLeapYear(y) then 29 else 28)
    else if m == 4 || m == 6 || m == 9 || m == 11 then 30
    else 31
  }

  function DaysInYear(y: int): int {
    if IsLeapYear(y) then 366 else 365
  }

  /** The days of the year `y` before the first of month `m` (13 stands for
      the end of the year). */
  function DaysBeforeMonth(y: int, m: int): (n: nat)
    requires 1 <= m <= 13
  {
    [0, 31, 59, 90, 120, 151, 181, 212, 243, 273, 304, 334, 365][m - 1]
      + (if m > 2 && IsLeapYear(y) then 1 else 0)
  }

  /** The days of the proleptic Gregorian calendar before January 1 of `y`. */
  function DaysBeforeYear(y: int): int
    requires y >= 1
  {
    var p := y - 1;
    p * 365 + p / 4 - p / 100 + p / 400
  }

  /** The values `datetime` accepts: years 1 to 9999, a day that exists in
      its month, and a time of day without leap seconds. */
  predicate Valid(t: DateTime) {
    && 1 <= t.year <= 9999
    && 1 <= t.month <= 12
    && 1 <= t.day <= DaysInMonth(t.year, t.month)
    && 0 <= t.hour <= 23
    && 0 <= t.minute <= 59
    && 0 <= t.second <= 59
  }

  /** Python's `date.toordinal()`: January 1 of year 1 is day 1. */
  function Ordinal(t: DateTime): int
    requires Valid(t)
  {
    DaysBeforeYear(t.year) + DaysBeforeMonth(t.year, t.month) + t.day
  }

  /** Seconds since the start of the calendar; `(b - a).total_seconds()` of two
      datetimes is `Seconds(b) - Seconds(a)`. */
  function Seconds(t: DateTime): int
    requires Valid(t)
  {
    Ordinal(t) * 86400 + t.hour * 3600 + t.minute * 60 + t.second
  }

  /** The order in which `datetime` compares its values: field by field. */
  predicate Before(a: DateTime, b: DateTime) {
    || a.year < b.year
    || (a.year == b.year && a.month < b.month)
    || (a.year == b.year && a.month == b.month && a.day < b.day)
    || (a.year == b.year && a.month == b.month && a.day == b.day && a.hour < b.hour)
    || (a.year == b.year && a.month == b.month && a.day == b.day && a.hour == b.hour && a.minute < b.minute)
    || (a.year == b.year && a.month == b.month && a.day == b.day && a.hour == b.hour && a.minute == b.minute
        && a.second < b.second)
  }

  /** The timestamp text of a datetime, `YYYY-MM-DDTHH:MM:SS`. */
  function Format(t: DateTime): (s: string)
    requires Valid(t)
    ensures |s| == 19
  {
    Padded(t.year, 4) + "-" + Padded(t.month, 2) + "-" + Padded(t.day, 2) + "T"
      + Padded(t.hour, 2) + ":" + Padded(t.minute, 2) + ":" + Padded(t.second, 2)
  }

  /** The separators and digit positions of `YYYY-MM-DDTHH:MM:SS`. */
  predicate HasShape(s: string) {
    && |s| == 19
    && s[4] == '-' && s[7] == '-' && s[10] == 'T' && s[13] == ':' && s[16] == ':'
    && AllDigits(s[0..4]) && AllDigits(s[5..7]) && AllDigits(s[8..10])
    && AllDigits(s[11..13]) && AllDigits(s[14..16]) && AllDigits(s[17..19])
  }

  /** `datetime.strptime(s, "%Y-%m-%dT%H:%M:%S")` for the zero-padded form:
      None where it raises `ValueError` (wrong shape, or a date or time that
      does not exist). Only timestamps that are the exact text of a datetime
      are accepted. */
  function ParseTimestamp(s: string): (r: Option<DateTime>)
    ensures r.Some? ==> Valid(r.value) && Format(r.value) == s
  {
    if !HasShape(s) then None
    else
      var t := DateTime(DigitsValue(s[0..4]), DigitsValue(s[5..7]), DigitsValue(s[8..10]),
                        DigitsValue(s[11..13]), DigitsValue(s[14..16]), DigitsValue(s[17..19]));
      if !Valid(t) then None
      else
        ValuePadded(s[0..4]);
        ValuePadded(s[5..7]);
        ValuePadded(s[8..10]);
        ValuePadded(s[11..13]);
        ValuePadded(s[14..16]);
        ValuePadded(s[17..19]);
        FormatOfFields(s, t);
        Some(t)
  }

  /** A datetime whose padded fields are the digit fields of `s` formats
      as `s`. */
  lemma FormatOfFields(s: string, t: DateTime)
    requires |s| == 19 && s[4] == '-' && s[7] == '-' && s[10] == 'T' && s[13] == ':' && s[16] == ':'
    requires Valid(t)
    requires Padded(t.year, 4) == s[0..4] && Padded(t.month, 2) == s[5..7]
    requires Padded(t.day, 2) == s[8..10] && Padded(t.hour, 2) == s[11..13]
    requires Padded(t.minute, 2) == s[14..16] && Padded(t.second, 2) == s[17..19]
    ensures Format(t) == s
  {
    assert s[..4] == s[0..4];
    ExtendChar(s, 4);
    Extend(s, 5, 2, s[5..7]);
    ExtendChar(s, 7);
    Extend(s, 8, 2, s[8..10]);
    ExtendChar(s, 10);
    Extend(s, 11, 2, s[11..13]);
    ExtendChar(s, 13);
    Extend(s, 14, 2, s[14..16]);
    ExtendChar(s, 16);
    Extend(s, 17, 2, s[17..19]);
    assert s[..19] == s;
  }

  /** The next character of `s` extends its first `k`. */
  lemma ExtendChar(s: string, k: nat)
    requires k < |s|
    ensures s[..k] + [s[k]] == s[..k + 1]
  {
  }

  /** The next `n` characters of `s` extend its first `k`. */
  lemma Extend(s: string, k: nat, n: nat, piece: string)
    requires k + n <= |s| && s[k..k + n] == piece
    ensures s[..k] + piece == s[..k + n]
  {
  }

  /** Every valid datetime's text parses back to it. */
  lemma ParseFormat(t: DateTime)
    requires Valid(t)
    ensures ParseTimestamp(Format(t)) == Some(t)
  {
    var s := Format(t);
    assert s[0..4] == Padded(t.year, 4);
    assert s[5..7] == Padded(t.month, 2);
    assert s[8..10] == Padded(t.day, 2);
    assert s[11..13] == Padded(t.hour, 2);
    assert s[14..16] == Padded(t.minute, 2);
    assert s[17..19] == Padded(t.second, 2);
    PaddedValue(t.year, 4);
    PaddedValue(t.month, 2);
    PaddedValue(t.day, 2);
    PaddedValue(t.hour, 2);
    PaddedValue(t.minute, 2);
    PaddedValue(t.second, 2);
  }

  /** `y / k` steps up by one exactly where `k` divides `y`, for the three
      divisors of the leap-year rule. */
  lemma LeapDivisorSteps(y: int)
    ensures y / 4 - (y - 1) / 4 == if y % 4 == 0 then 1 else 0
    ensures y / 100 - (y - 1) / 100 == if y % 100 == 0 then 1 else 0
    ensures y / 400 - (y - 1) / 400 == if y % 400 == 0 then 1 else 0
  {
  }

  lemma DaysBeforeNextYear(y: int)
    requires y >= 1
    ensures DaysBeforeYear(y + 1) == DaysBeforeYear(y) + DaysInYear(y)
  {
    LeapDivisorSteps(y);
    DivisorChain(y);
  }

  /** A multiple of 400 is one of 100, and a multiple of 100 one of 4. */
  lemma DivisorChain(y: int)
    ensures y % 400 == 0 ==> y % 100 == 0
    ensures y % 100 == 0 ==> y % 4 == 0
  {
    if y % 400 == 0 {
      var k := y / 400;
      assert y == 400 * k;
      assert y / 100 == 4 * k;
    }
    if y % 100 == 0 {
      var k := y / 100;
      assert y == 100 * k;
      assert y / 4 == 25 * k;
    }
  }

  /** Earlier years end before later years begin. */
  lemma {:induction false} YearsInOrder(y1: int, y2: int)
    requires 1 <= y1 < y2
    ensures DaysBeforeYear(y1) + DaysInYear(y1) <= DaysBeforeYear(y2)
    decreases y2 - y1
  {
    DaysBeforeNextYear(y1);
    if y1 + 1 < y2 {
      YearsInOrder(y1 + 1, y2);
    }
  }

  /** Earlier months end before later months begin. */
  lemma {:induction false} MonthsInOrder(y: int, m1: int, m2: int)
    requires 1 <= m1 < m2 <= 13
    ensures DaysBeforeMonth(y, m1) + DaysInMonth(y, m1) <= DaysBeforeMonth(y, m2)
    decreases m2 - m1
  {
    NextMonth(y, m1);
    if m1 + 1 < m2 {
      MonthsInOrder(y, m1 + 1, m2);
    }
  }

  lemma NextMonth(y: int, m: int)
    requires 1 <= m <= 12
    ensures DaysBeforeMonth(y, m + 1) == DaysBeforeMonth(y, m) + DaysInMonth(y, m)
  {
  }

  lemma DaysBeforeEndOfYear(y: int)
    ensures DaysBeforeMonth(y, 13) == DaysInYear(y)
  {
  }

  /** The days of a calendar date count up with the date. */
  lemma OrdinalInOrder(a: DateTime, b: DateTime)
    requires Valid(a) && Valid(b)
    requires a.year < b.year || (a.year == b.year && a.month < b.month)
             || (a.year == b.year && a.month == b.month && a.day < b.day)
    ensures Ordinal(a) < Ordinal(b)
  {
    if a.year < b.year {
      MonthsInOrder(a.year, a.month, 13);
      DaysBeforeEndOfYear(a.year);
      YearsInOrder(a.year, b.year);
    } else if a.month < b.month {
      MonthsInOrder(a.year, a.month, b.month);
    }
  }

  /** Comparing the seconds is comparing the datetimes: sorting by
      `Seconds` orders events exactly as sorting by the parsed datetime does,
      and two timestamps tie exactly when they are the same datetime. */
  lemma SecondsOrderIsCalendarOrder(a: DateTime, b: DateTime)
    requires Valid(a) && Valid(b)
    ensures Before(a, b) <==> Seconds(a) < Seconds(b)
    ensures a == b <==> Seconds(a) == Seconds(b)
  {
    if Ordinal(a) != Ordinal(b) || a.year != b.year || a.month != b.month || a.day != b.day {
      if a.year < b.year || (a.year == b.year && a.month < b.month)
         || (a.year == b.year && a.month == b.month && a.day < b.day) {
        OrdinalInOrder(a, b);
      } else {
        OrdinalInOrder(b, a);
      }
    }
  }
}

/**
 * Time values as ECMA-262 defines them for `Date` (section 21.4.1, "Time Values
 * and Time Range", and section 21.4.4.36, `Date.prototype.toISOString`):
 * integral milliseconds since 1970-01-01T00:00:00Z, split into a proleptic
 * Gregorian UTC date and time of day.
 */
module EcmaTime {
  import opened Text

  const MsPerSecond: int := 1000
  const MsPerMinute: int := 60000
  const MsPerHour: int := 3600000
  const MsPerDay: int := 86400000

  /** A Date holds a time value of magnitude at most 8.64e15; beyond it the value is NaN. */
  const MaxTimeValue: int := 8640000000000000

  predicate IsTimeValue(t: int)
  {
    -MaxTimeValue <= t <= MaxTimeValue
  }

  /** Day(t): the day number, counted from 1970-01-01. */
  function Day(t: int): int
  {
    t / MsPerDay
  }

  function DaysInYear(y: int): int
  {
    if y % 4 != 0 then 365
    else if y % 100 != 0 then 366
    else if y % 400 != 0 then 365
    else 366
  }

  function InLeapYear(y: int): int
  {
    if DaysInYear(y) == 366 then 1 else 0
  }

  /** DayFromYear(y): the day number of the first day of year `y`. */
  function DayFromYear(y: int): int
  {
    365 * (y - 1970) + (y - 1969) / 4 - (y - 1901) / 100 + (y - 1601) / 400
  }

  /** Consecutive years start `DaysInYear` days apart. */
  lemma DayFromYearStep(y: int)
    ensures DayFromYear(y + 1) == DayFromYear(y) + DaysInYear(y)
  {
    FloorStep4(y);
    FloorStep100(y);
    FloorStep400(y);
    if y % 100 == 0 {
      CenturyIsMultipleOf4(y);
    }
    if y % 400 == 0 {
      FourCenturiesIsCentury(y);
    }
  }

  lemma CenturyIsMultipleOf4(y: int)
    requires y % 100 == 0
    ensures y % 4 == 0
  {
    var c := y / 100;
    assert y == 4 * (25 * c);
  }

  lemma FourCenturiesIsCentury(y: int)
    requires y % 400 == 0
    ensures y % 100 == 0
  {
    var c := y / 400;
    assert y == 100 * (4 * c);
  }

  lemma FloorStep4(y: int)
    ensures (y - 1968) / 4 == (y - 1969) / 4 + (if y % 4 == 0 then 1 else 0)
  {
  }

  lemma FloorStep100(y: int)
    ensures (y - 1900) / 100 == (y - 1901) / 100 + (if y % 100 == 0 then 1 else 0)
  {
  }

  lemma FloorStep400(y: int)
    ensures (y - 1600) / 400 == (y - 1601) / 400 + (if y % 400 == 0 then 1 else 0)
  {
  }

  /** Every year has at least 365 days. */
  lemma YearHasDays(y: int)
    ensures DayFromYear(y) + 365 <= DayFromYear(y + 1)
  {
    DayFromYearStep(y);
  }

  /** Searches upward from year `y` for the year that contains day `d`. */
  function YearSearchUp(d: int, y: int): (r: int)
    requires DayFromYear(y) <= d
    ensures DayFromYear(r) <= d < DayFromYear(r + 1)
    decreases d - DayFromYear(y)
  {
    YearHasDays(y);
    if d < DayFromYear(y + 1) then y else YearSearchUp(d, y + 1)
  }

  /** Searches downward from year `y` for the year that contains day `d`. */
  function YearSearchDown(d: int, y: int): (r: int)
    requires d < DayFromYear(y + 1)
    ensures DayFromYear(r) <= d < DayFromYear(r + 1)
    decreases DayFromYear(y + 1) - d
  {
    YearHasDays(y);
    if DayFromYear(y) <= d then y else YearSearchDown(d, y - 1)
  }

  /** YearFromTime: the largest year whose first day is not after day `d`. */
  function YearFromDay(d: int): (y: int)
    ensures DayFromYear(y) <= d < DayFromYear(y + 1)
  {
    if d >= 0 then YearSearchUp(d, 1970) else YearSearchDown(d, 1969)
  }

  /** The number of days of the year before month `m` (0 = January; 12 ends the year). */
  function MonthStart(m: int, leap: int): int
    requires 0 <= m <= 12
  {
    var common :=
      if m == 0 then 0 else if m == 1 then 31 else if m == 2 then 59 else if m == 3 then 90
      else if m == 4 then 120 else if m == 5 then 151 else if m == 6 then 181 else if m == 7 then 212
      else if m == 8 then 243 else if m == 9 then 273 else if m == 10 then 304 else if m == 11 then 334
      else 365;
    common + (if m >= 2 then leap else 0)
  }

  /** MonthFromTime, on the day within the year: the month whose days contain it. */
  function MonthFromDayInYear(dayInYear: int, leap: int): (m: int)
    requires 0 <= leap <= 1 && 0 <= dayInYear < 365 + leap
    ensures 0 <= m < 12 && MonthStart(m, leap) <= dayInYear < MonthStart(m + 1, leap)
  {
    if dayInYear < MonthStart(1, leap) then 0
    else if dayInYear < MonthStart(2, leap) then 1
    else if dayInYear < MonthStart(3, leap) then 2
    else if dayInYear < MonthStart(4, leap) then 3
    else if dayInYear < MonthStart(5, leap) then 4
    else if dayInYear < MonthStart(6, leap) then 5
    else if dayInYear < MonthStart(7, leap) then 6
    else if dayInYear < MonthStart(8, leap) then 7
    else if dayInYear < MonthStart(9, leap) then 8
    else if dayInYear < MonthStart(10, leap) then 9
    else if dayInYear < MonthStart(11, leap) then 10
    else 11
  }

  /** A UTC calendar date and time of day; `month` counts from 0 as in JavaScript. */
  datatype DateTime = DateTime(year: int, month: int, date: int, hours: int, minutes: int, seconds: int, ms: int)

  /** YearFromTime, MonthFromTime, DateFromTime, HourFromTime, MinFromTime, SecFromTime and msFromTime of `t`. */
  function UtcFields(t: int): (f: DateTime)
    ensures 0 <= f.month < 12 && 1 <= f.date <= 31
    ensures f.date <= MonthStart(f.month + 1, InLeapYear(f.year)) - MonthStart(f.month, InLeapYear(f.year))
    ensures 0 <= f.hours < 24 && 0 <= f.minutes < 60 && 0 <= f.seconds < 60 && 0 <= f.ms < 1000
  {
    var d := Day(t);
    var y := YearFromDay(d);
    var leap := InLeapYear(y);
    var dayInYear := d - DayFromYear(y);
    DayInYearBounds(d);
    var m := MonthFromDayInYear(dayInYear, leap);
    MonthLengthAtMost31(m, leap);
    DateTime(y, m, dayInYear - MonthStart(m, leap) + 1,
             (t / MsPerHour) % 24, (t / MsPerMinute) % 60, (t / MsPerSecond) % 60, t % MsPerSecond)
  }

  /** The day within its year of day `d` is below the length of that year. */
  lemma DayInYearBounds(d: int)
    ensures var y := YearFromDay(d); 0 <= d - DayFromYear(y) < 365 + InLeapYear(y)
  {
    var y := YearFromDay(d);
    DayFromYearStep(y);
    assert DaysInYear(y) == 365 + InLeapYear(y);
  }

  /** No month is longer than 31 days. */
  lemma MonthLengthAtMost31(m: int, leap: int)
    requires 0 <= m < 12 && 0 <= leap <= 1
    ensures MonthStart(m + 1, leap) - MonthStart(m, leap) <= 31
  {
  }

  /** MakeDate(MakeDay(year, month, date), MakeTime(hours, minutes, seconds, ms)) for in-range fields. */
  function TimeFromFields(f: DateTime): int
    requires 0 <= f.month < 12
  {
    (DayFromYear(f.year) + MonthStart(f.month, InLeapYear(f.year)) + f.date - 1) * MsPerDay
      + f.hours * MsPerHour + f.minutes * MsPerMinute + f.seconds * MsPerSecond + f.ms
  }

  /** The hours, minutes, seconds and milliseconds of `t` add up to its time within the day. */
  lemma TimeOfDaySplit(t: int)
    ensures ((t / MsPerHour) % 24) * MsPerHour + ((t / MsPerMinute) % 60) * MsPerMinute
            + ((t / MsPerSecond) % 60) * MsPerSecond + t % MsPerSecond == t - Day(t) * MsPerDay
  {
    var s, m, h := t / 1000, t / 60000, t / 3600000;
    assert s / 60 == m;
    assert m / 60 == h;
    assert h / 24 == t / 86400000;
  }

  /** Splitting a time value into UTC fields loses nothing: the fields denote `t` again. */
  lemma UtcFieldsRoundTrip(t: int)
    ensures TimeFromFields(UtcFields(t)) == t
  {
    TimeOfDaySplit(t);
  }

  /** The year field of an ISO string: four digits, or a sign and six digits outside 0..9999. */
  function IsoYear(y: int): string
  {
    if 0 <= y <= 9999 then FixedDigits(y, 4)
    else (if y < 0 then "-" else "+") + FixedDigits(if y < 0 then -y else y, 6)
  }

  /** The `YYYY-MM-DD` part of an ISO string. */
  function IsoDateText(f: DateTime): (s: string)
    requires 0 <= f.month < 12 && 1 <= f.date <= 31
    ensures 0 <= f.year <= 9999 ==> |s| == 10
  {
    IsoYear(f.year) + "-" + FixedDigits(f.month + 1, 2) + "-" + FixedDigits(f.date, 2)
  }

  /** The `HH:mm:ss` part of an ISO string. */
  function IsoTimeText(f: DateTime): (s: string)
    requires 0 <= f.hours < 24 && 0 <= f.minutes < 60 && 0 <= f.seconds < 60
    ensures |s| == 8
  {
    FixedDigits(f.hours, 2) + ":" + FixedDigits(f.minutes, 2) + ":" + FixedDigits(f.seconds, 2)
  }

  /** The `YYYY-MM-DDTHH:mm:ss` part of an ISO string for in-range fields. */
  function IsoDateTimeText(f: DateTime): (s: string)
    requires 0 <= f.month < 12 && 1 <= f.date <= 31
    requires 0 <= f.hours < 24 && 0 <= f.minutes < 60 && 0 <= f.seconds < 60
    ensures 0 <= f.year <= 9999 ==> |s| == 19
  {
    IsoDateText(f) + "T" + IsoTimeText(f)
  }

  /** `Date.prototype.toISOString`: `YYYY-MM-DDTHH:mm:ss.sssZ` in UTC. */
  function ToIsoString(t: int): (s: string)
    requires IsTimeValue(t)
    ensures |s| >= 24
    ensures 0 <= UtcFields(t).year <= 9999 ==> |s| == 24
    ensures s[|s| - 1] == 'Z' && s[|s| - 5] == '.'
    ensures s[|s| - 4..|s| - 1] == FixedDigits(UtcFields(t).ms, 3)
  {
    var f := UtcFields(t);
    var s := IsoDateTimeText(f) + "." + FixedDigits(f.ms, 3) + "Z";
    assert s[|s| - 4..|s| - 1] == FixedDigits(f.ms, 3);
    s
  }

  /** In years 0 to 9999 the first 19 characters of the ISO string are the date and the time of day. */
  lemma IsoStringPrefix(t: int)
    requires IsTimeValue(t) && 0 <= UtcFields(t).year <= 9999
    ensures ToIsoString(t)[..19] == IsoDateTimeText(UtcFields(t))
  {
    var f := UtcFields(t);
    PrefixOfConcatenation(IsoDateTimeText(f), ".", FixedDigits(f.ms, 3), "Z");
  }

  lemma PrefixOfConcatenation(a: string, b: string, c: string, d: string)
    ensures (a + b + c + d)[..|a|] == a
  {
    assert a + b + c + d == a + (b + c + d);
  }
}

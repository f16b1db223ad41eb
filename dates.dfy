/** Calendar dates, times of day and their `YYYY-MM-DD` / `HH:MM:SS` text forms
    (the extended calendar-date format of section 5.2.1.1 of ISO 8601:2004, as
    `Helper.to_date`, `Helper.from_date`, `Helper.to_time` and
    `Helper.datetime_format` read and write them). */
module Dates {
  import opened Text
  import opened Errors

  /** A date as its proleptic Gregorian ordinal: 1 is 0001-01-01, as returned by
      Python's `date.toordinal()`. Adding or subtracting `timedelta(1)` is +1/-1. */
  type Day = int

  const MinDay: Day := 1
  /** The ordinal of 9999-12-31, the last date Python can represent. */
  const MaxDay: Day := 3652059

  predicate InRange(d: Day) { MinDay <= d <= MaxDay }

  /** Python's `date.weekday()`: Monday is 0, Sunday is 6. */
  function Weekday(d: Day): (w: int)
    ensures 0 <= w < 7
  {
    (d + 6) % 7
  }

  predicate IsLeap(y: int) { y % 4 == 0 && (y % 100 != 0 || y % 400 == 0) }

  function DaysInYear(y: int): int { if IsLeap(y) then 366 else 365 }

  function DaysInMonth(y: int, m: int): (n: int)
    requires 1 <= m <= 12
    ensures 28 <= n <= 31
  {
    if m == 2 then (if IsLeap(y) then 29 else 28)
    else if m == 4 || m == 6 || m == 9 || m == 11 then 30
    else 31
  }

  /** Days in the months before month `m` of year `y` (the `_DAYS_BEFORE_MONTH` table
      plus one after February of a leap year). */
  function DaysBeforeMonth(y: int, m: int): int
    requires 1 <= m <= 12
  {
    [0, 31, 59, 90, 120, 151, 181, 212, 243, 273, 304, 334][m - 1]
      + (if m > 2 && IsLeap(y) then 1 else 0)
  }

  /** Days in the years before year `y`. */
  function DaysBeforeYear(y: int): int
    requires y >= 1
  {
    var k := y - 1;
    365 * k + k / 4 - k / 100 + k / 400
  }

  datatype Ymd = Ymd(year: int, month: int, day: int)

  predicate ValidYmd(t: Ymd)
  {
    1 <= t.year && 1 <= t.month <= 12 && 1 <= t.day <= DaysInMonth(t.year, t.month)
  }

  function ToOrdinal(t: Ymd): Day
    requires ValidYmd(t)
  {
    DaysBeforeYear(t.year) + DaysBeforeMonth(t.year, t.month) + t.day
  }

  lemma DaysBeforeNextYear(y: int)
    requires y >= 1
    ensures DaysBeforeYear(y + 1) == DaysBeforeYear(y) + DaysInYear(y)
  {
    var k := y - 1;
    assert (k + 1) / 4 == k / 4 + (if y % 4 == 0 then 1 else 0);
    assert (k + 1) / 100 == k / 100 + (if y % 100 == 0 then 1 else 0);
    assert (k + 1) / 400 == k / 400 + (if y % 400 == 0 then 1 else 0);
  }

  lemma DaysBeforeNextMonth(y: int, m: int)
    requires 1 <= m <= 12
    ensures DaysBeforeMonth(y, m) + DaysInMonth(y, m)
         == if m == 12 then DaysInYear(y) else DaysBeforeMonth(y, m + 1)
  {
  }

  lemma {:induction false} DaysBeforeYearMonotone(a: int, b: int)
    requires 1 <= a <= b
    ensures DaysBeforeYear(a) <= DaysBeforeYear(b)
    decreases b - a
  {
    if a < b {
      DaysBeforeNextYear(a);
      DaysBeforeYearMonotone(a + 1, b);
    }
  }

  /** Where ordinal `n` falls within the year: the first and last ordinals of year `y`. */
  lemma OrdinalWithinYear(t: Ymd)
    requires ValidYmd(t)
    ensures DaysBeforeYear(t.year) < ToOrdinal(t) <= DaysBeforeYear(t.year + 1)
  {
    DaysBeforeNextYear(t.year);
    DaysBeforeNextMonth(t.year, t.month);
    if t.month < 12 {
      DaysBeforeMonthMonotone(t.year, t.month + 1, 12);
      DaysBeforeNextMonth(t.year, 12);
    }
  }

  lemma DaysBeforeMonthMonotone(y: int, a: int, b: int)
    requires 1 <= a <= b <= 12
    ensures DaysBeforeMonth(y, a) <= DaysBeforeMonth(y, b)
  {
  }

  /** Two valid dates with the same ordinal are the same date. */
  lemma ToOrdinalInjective(s: Ymd, t: Ymd)
    requires ValidYmd(s) && ValidYmd(t) && ToOrdinal(s) == ToOrdinal(t)
    ensures s == t
  {
    OrdinalWithinYear(s);
    OrdinalWithinYear(t);
    if s.year < t.year {
      DaysBeforeYearMonotone(s.year + 1, t.year);
      assert false;
    } else if t.year < s.year {
      DaysBeforeYearMonotone(t.year + 1, s.year);
      assert false;
    }
    if s.month < t.month {
      DaysBeforeNextMonth(s.year, s.month);
      DaysBeforeMonthMonotone(s.year, s.month + 1, t.month);
      assert false;
    } else if t.month < s.month {
      DaysBeforeNextMonth(t.year, t.month);
      DaysBeforeMonthMonotone(t.year, t.month + 1, s.month);
      assert false;
    }
  }

  /** The year holding day `rem` counted from the start of year `y`, and the
      day's position within it. */
  function FindYear(y: int, rem: int): (r: (int, int))
    requires y >= 1 && rem >= 1
    ensures r.0 >= y && 1 <= r.1 <= DaysInYear(r.0)
    ensures DaysBeforeYear(r.0) + r.1 == DaysBeforeYear(y) + rem
    decreases rem
  {
    if rem <= DaysInYear(y) then (y, rem)
    else
      DaysBeforeNextYear(y);
      FindYear(y + 1, rem - DaysInYear(y))
  }

  /** The last month `m' <= m` of year `y` that starts before day-of-year `rem`. */
  function FindMonth(y: int, m: int, rem: int): (r: int)
    requires 1 <= m <= 12 && 1 <= rem <= DaysInYear(y)
    requires m == 12 || rem <= DaysBeforeMonth(y, m + 1)
    ensures 1 <= r <= m
    ensures DaysBeforeMonth(y, r) < rem <= DaysBeforeMonth(y, r) + DaysInMonth(y, r)
    decreases m
  {
    DaysBeforeNextMonth(y, m);
    if m == 1 || DaysBeforeMonth(y, m) < rem then m
    else FindMonth(y, m - 1, rem)
  }

  /** Python's `date.fromordinal(n)`. */
  function FromOrdinal(n: Day): (t: Ymd)
    requires n >= 1
    ensures ValidYmd(t) && ToOrdinal(t) == n
  {
    var (y, rem) := FindYear(1, n);
    var m := FindMonth(y, 12, rem);
    Ymd(y, m, rem - DaysBeforeMonth(y, m))
  }

  lemma FromToOrdinal(t: Ymd)
    requires ValidYmd(t)
    ensures ToOrdinal(t) >= 1 && FromOrdinal(ToOrdinal(t)) == t
  {
    OrdinalWithinYear(t);
    ToOrdinalInjective(FromOrdinal(ToOrdinal(t)), t);
  }

  lemma YearOfInRange(n: Day)
    requires InRange(n)
    ensures FromOrdinal(n).year <= 9999
  {
    var t := FromOrdinal(n);
    OrdinalWithinYear(t);
    if t.year > 9999 {
      DaysBeforeYearMonotone(10000, t.year);
      assert false;
    }
  }

  lemma OrdinalInRange(t: Ymd)
    requires ValidYmd(t) && t.year <= 9999
    ensures InRange(ToOrdinal(t))
  {
    OrdinalWithinYear(t);
    DaysBeforeYearMonotone(t.year + 1, 10000);
  }

  /** The `YYYY-MM-DD` shape: 4-digit year, 2-digit month and day, two hyphens. */
  predicate DateShaped(s: string)
  {
    |s| == 10 && s[4] == '-' && s[7] == '-'
    && AllDigits(s[..4]) && AllDigits(s[5..7]) && AllDigits(s[8..])
  }

  /** `Helper.to_date`: `datetime.strptime(s, '%Y-%m-%d').date()`; `None` where
      Python raises ValueError. */
  function ToDate(s: string): (r: Option<Day>)
    ensures r.Some? ==> InRange(r.value)
  {
    if !DateShaped(s) then None
    else
      var t := Ymd(DigitsValue(s[..4]), DigitsValue(s[5..7]), DigitsValue(s[8..]));
      if ValidYmd(t) then
        DigitsValuePad(s[..4]);
        OrdinalInRange(t);
        Some(ToOrdinal(t))
      else None
  }

  /** `Helper.from_date`: `d.strftime('%Y-%m-%d')`. */
  function FromDate(d: Day): (s: string)
    requires InRange(d)
    ensures DateShaped(s)
  {
    var t := FromOrdinal(d);
    PadDigits(t.year, 4) + "-" + PadDigits(t.month, 2) + "-" + PadDigits(t.day, 2)
  }

  /** Printing a date and reading it back gives the same date. */
  lemma ParsePrint(d: Day)
    requires InRange(d)
    ensures ToDate(FromDate(d)) == Some(d)
  {
    var t := FromOrdinal(d);
    YearOfInRange(d);
    var s := FromDate(d);
    assert s[..4] == PadDigits(t.year, 4);
    assert s[5..7] == PadDigits(t.month, 2);
    assert s[8..] == PadDigits(t.day, 2);
    PadDigitsValue(t.year, 4);
    PadDigitsValue(t.month, 2);
    PadDigitsValue(t.day, 2);
  }

  /** A string that reads as a date is exactly the text that date prints as. */
  lemma PrintParse(s: string)
    requires ToDate(s).Some?
    ensures FromDate(ToDate(s).value) == s
  {
    var t := Ymd(DigitsValue(s[..4]), DigitsValue(s[5..7]), DigitsValue(s[8..]));
    FromToOrdinal(t);
    DigitsValuePad(s[..4]);
    DigitsValuePad(s[5..7]);
    DigitsValuePad(s[8..]);
    assert s == s[..4] + "-" + s[5..7] + "-" + s[8..];
  }

  /** A time of day as seconds after midnight. */
  type Time = int

  predicate ValidTime(t: Time) { 0 <= t < 86400 }

  function Hms(h: int, m: int, s: int): Time { 3600 * h + 60 * m + s }

  /** `Helper.to_time`: `datetime.strptime(s, '%H:%M:%S').time()` on the fixed
      `HH:MM:SS` shape; `None` where Python raises ValueError. */
  function ToTime(s: string): (r: Option<Time>)
    ensures r.Some? ==> ValidTime(r.value)
  {
    if |s| == 8 && s[2] == ':' && s[5] == ':'
       && AllDigits(s[..2]) && AllDigits(s[3..5]) && AllDigits(s[6..])
    then
      var h, m, sec := DigitsValue(s[..2]), DigitsValue(s[3..5]), DigitsValue(s[6..]);
      if h < 24 && m < 60 && sec < 60 then Some(Hms(h, m, sec)) else None
    else None
  }

  /** `Helper.from_time`: `t.strftime('%H:%M:%S')`. */
  function FromTime(t: Time): (s: string)
    requires ValidTime(t)
    ensures |s| == 8 && s[2] == ':' && s[5] == ':'
  {
    PadDigits(t / 3600, 2) + ":" + PadDigits(t / 60 % 60, 2) + ":" + PadDigits(t % 60, 2)
  }

  /** Splitting a time of day into hours, minutes and seconds and joining them
      again gives it back. */
  lemma HmsParts(t: Time)
    requires ValidTime(t)
    ensures t / 3600 < 24 && t / 60 % 60 < 60 && t % 60 < 60
    ensures Hms(t / 3600, t / 60 % 60, t % 60) == t
  {
    var h, r := t / 3600, t % 3600;
    assert t == 3600 * h + r;
    assert t / 60 == 60 * h + r / 60;
    assert t / 60 % 60 == r / 60;
    assert t % 60 == r % 60;
  }

  /** The parts of a time of day written as hours, minutes and seconds. */
  lemma PartsOfHms(h: nat, m: nat, sec: nat)
    requires h < 24 && m < 60 && sec < 60
    ensures var t := Hms(h, m, sec); t / 3600 == h && t / 60 % 60 == m && t % 60 == sec
  {
    var t := Hms(h, m, sec);
    assert t / 60 == 60 * h + m;
  }

  /** Printing a time of day and reading it back gives the same time. */
  lemma TimeParsePrint(t: Time)
    requires ValidTime(t)
    ensures ToTime(FromTime(t)) == Some(t)
  {
    HmsParts(t);
    var s := FromTime(t);
    assert s[..2] == PadDigits(t / 3600, 2);
    assert s[3..5] == PadDigits(t / 60 % 60, 2);
    assert s[6..] == PadDigits(t % 60, 2);
    PadDigitsValue(t / 3600, 2);
    PadDigitsValue(t / 60 % 60, 2);
    PadDigitsValue(t % 60, 2);
  }

  /** A text that reads as a time of day is exactly the text that time prints as. */
  lemma TimePrintParse(s: string)
    requires ToTime(s).Some?
    ensures FromTime(ToTime(s).value) == s
  {
    var h, m, sec := DigitsValue(s[..2]), DigitsValue(s[3..5]), DigitsValue(s[6..]);
    PartsOfHms(h, m, sec);
    DigitsValuePad(s[..2]);
    DigitsValuePad(s[3..5]);
    DigitsValuePad(s[6..]);
    assert s == s[..2] + ":" + s[3..5] + ":" + s[6..];
  }

  /** A `datetime` with whole seconds: what `Helper.datetime_format` returns. */
  datatype DateTime = DateTime(day: Day, secs: Time)

  /** Python's `<=` on datetimes: by date, then by time of day. */
  predicate NotAfter(a: DateTime, b: DateTime)
  {
    a.day < b.day || (a.day == b.day && a.secs <= b.secs)
  }

  /** `strftime('%Y-%m-%d %H:%M:%S')` of a datetime with whole seconds. */
  function FromDateTime(t: DateTime): (s: string)
    requires InRange(t.day) && ValidTime(t.secs)
    ensures |s| == 19 && s[10] == ' ' && Prefix(s, 10) == FromDate(t.day)
  {
    FromDate(t.day) + " " + FromTime(t.secs)
  }

  /** `Helper.datetime_format` on a string: `strptime(s, '%Y-%m-%d %H:%M:%S')`. */
  function ParseDateTime(s: string): (r: Option<DateTime>)
    ensures r.Some? ==> InRange(r.value.day) && ValidTime(r.value.secs)
    ensures r.Some? ==> ToDate(Prefix(s, 10)) == Some(r.value.day)
  {
    if |s| == 19 && s[10] == ' ' then
      match (ToDate(s[..10]), ToTime(s[11..]))
      case (Some(d), Some(t)) => Some(DateTime(d, t))
      case _ => None
    else None
  }

  /** A datetime text is read as its date part and its time part. */
  lemma ParseDateTimeParts(d: string, t: string)
    requires |d| == 10 && |t| == 8
    ensures ParseDateTime(d + " " + t)
         == if ToDate(d).Some? && ToTime(t).Some? then Some(DateTime(ToDate(d).value, ToTime(t).value)) else None
  {
    var s := d + " " + t;
    assert s[..10] == d && s[11..] == t;
  }

  /** Printing a datetime and reading it back gives the same datetime. */
  lemma DateTimeParsePrint(t: DateTime)
    requires InRange(t.day) && ValidTime(t.secs)
    ensures ParseDateTime(FromDateTime(t)) == Some(t)
  {
    var s := FromDateTime(t);
    assert s[..10] == FromDate(t.day);
    assert s[11..] == FromTime(t.secs);
    ParsePrint(t.day);
    TimeParsePrint(t.secs);
  }

  /** A text that reads as a datetime is exactly the text that datetime prints
      as: its date and its time of day are those the text spells. */
  lemma DateTimePrintParse(s: string)
    requires ParseDateTime(s).Some?
    ensures FromDateTime(ParseDateTime(s).value) == s
  {
    PrintParse(s[..10]);
    TimePrintParse(s[11..]);
    assert s == s[..10] + " " + s[11..];
  }

  /** A Python `datetime` as the caller holds it, with microseconds. */
  datatype Instant = Instant(day: Day, secs: Time, micros: int)

  predicate ValidInstant(i: Instant)
  {
    InRange(i.day) && ValidTime(i.secs) && 0 <= i.micros < 1000000
  }

  /** `Helper.datetime_format` on a datetime: printing with `%Y-%m-%d %H:%M:%S`
      and parsing the text back. The round trip keeps the day and the second of
      the day and drops the microseconds. */
  function Normalize(i: Instant): (t: DateTime)
    requires ValidInstant(i)
    ensures t.day == i.day && t.secs == i.secs
  {
    var whole := DateTime(i.day, i.secs);
    DateTimeParsePrint(whole);
    ParseDateTime(FromDateTime(whole)).value
  }
}

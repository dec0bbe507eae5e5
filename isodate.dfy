/** UTC calendar arithmetic and `Date.prototype.toISOString` on a time value in
    milliseconds since 1970-01-01T00:00:00Z, in the proleptic Gregorian
    calendar that JavaScript dates use. */
module IsoDate {

  import opened Text

  const MsPerDay: int := 86400000

  /** The UTC day a time value falls on, counted from 1970-01-01. Dafny's `/` by a
      positive divisor rounds down, as the Date algorithms of ECMAScript do. */
  function DayNumber(ms: int): int {
    ms / MsPerDay
  }

  predicate IsLeapYear(y: int) {
    (y % 4 == 0 && y % 100 != 0) || y % 400 == 0
  }

  function DaysInYear(y: int): int {
    if IsLeapYear(y) then 366 else 365
  }

  /** The day number of January 1st of year `y`. */
  function YearStart(y: int): int
    decreases if y >= 1970 then y - 1970 else 1970 - y
  {
    if y == 1970 then 0
    else if y > 1970 then YearStart(y - 1) + DaysInYear(y - 1)
    else YearStart(y + 1) - DaysInYear(y)
  }

  lemma YearStartStep(y: int)
    ensures YearStart(y + 1) == YearStart(y) + DaysInYear(y)
  {
  }

  /** The year holding the day `d` days after January 1st of year `y` (`d` may be
      negative), with that day's offset inside its year. */
  function FindYear(y: int, d: int): (r: (int, int))
    ensures YearStart(r.0) + r.1 == YearStart(y) + d
    ensures 0 <= r.1 < DaysInYear(r.0)
    decreases if d < 0 then 1 else 0, if d < 0 then -d else d
  {
    if d < 0 then
      YearStartStep(y - 1);
      FindYear(y - 1, d + DaysInYear(y - 1))
    else if d < DaysInYear(y) then (y, d)
    else
      YearStartStep(y);
      FindYear(y + 1, d - DaysInYear(y))
  }

  /** Days of year `y` before the first of month `m`; month 13 stands for the
      end of the year. */
  function DaysBeforeMonth(y: int, m: int): (n: int)
    requires 1 <= m <= 13
    ensures m == 13 ==> n == DaysInYear(y)
  {
    [0, 31, 59, 90, 120, 151, 181, 212, 243, 273, 304, 334, 365][m - 1]
      + (if m > 2 && IsLeapYear(y) then 1 else 0)
  }

  function DaysInMonth(y: int, m: int): (n: int)
    requires 1 <= m <= 12
    ensures 28 <= n <= 31
  {
    if m == 2 then (if IsLeapYear(y) then 29 else 28)
    else if m == 4 || m == 6 || m == 9 || m == 11 then 30
    else 31
  }

  /** The month, searched downwards from `m`, whose days hold day-of-year `doy`. */
  function FindMonth(y: int, doy: int, m: int): (r: int)
    requires 1 <= m <= 12 && 0 <= doy < DaysBeforeMonth(y, m + 1)
    ensures 1 <= r <= m
    ensures DaysBeforeMonth(y, r) <= doy < DaysBeforeMonth(y, r + 1)
    decreases m
  {
    if DaysBeforeMonth(y, m) <= doy then m else FindMonth(y, doy, m - 1)
  }

  /** Consecutive month starts are a month apart. */
  lemma MonthLength(y: int, m: int)
    requires 1 <= m <= 12
    ensures DaysBeforeMonth(y, m + 1) == DaysBeforeMonth(y, m) + DaysInMonth(y, m)
  {
  }

  datatype Civil = Civil(year: int, month: int, day: int)

  predicate ValidCivil(c: Civil) {
    1 <= c.month <= 12 && 1 <= c.day <= DaysInMonth(c.year, c.month)
  }

  /** The day number of a calendar date. */
  function DayOfCivil(c: Civil): int
    requires 1 <= c.month <= 12
  {
    YearStart(c.year) + DaysBeforeMonth(c.year, c.month) + c.day - 1
  }

  /** The calendar date of a day number: a valid date that maps back to the day. */
  function CivilOfDay(d: int): (c: Civil)
    ensures ValidCivil(c)
    ensures DayOfCivil(c) == d
  {
    var yd := FindYear(1970, d);
    var m := FindMonth(yd.0, yd.1, 12);
    MonthLength(yd.0, m);
    Civil(yd.0, m, yd.1 - DaysBeforeMonth(yd.0, m) + 1)
  }

  /** Distinct days have distinct calendar dates. */
  lemma CivilOfDayInjective(d1: int, d2: int)
    requires CivilOfDay(d1) == CivilOfDay(d2)
    ensures d1 == d2
  {
  }

  datatype DateTime = DateTime(date: Civil, hour: int, minute: int, second: int, millisecond: int)

  /** The UTC fields of a time value. */
  function DateTimeOf(ms: int): (t: DateTime)
    ensures ValidCivil(t.date) && t.date == CivilOfDay(DayNumber(ms))
    ensures 0 <= t.hour < 24 && 0 <= t.minute < 60 && 0 <= t.second < 60
    ensures 0 <= t.millisecond < 1000
    ensures DayOfCivil(t.date) * MsPerDay
            + ((t.hour * 60 + t.minute) * 60 + t.second) * 1000 + t.millisecond == ms
  {
    var inDay := ms % MsPerDay;
    var seconds := inDay / 1000;
    var minutes := seconds / 60;
    assert ms == DayNumber(ms) * MsPerDay + inDay;
    assert inDay == seconds * 1000 + inDay % 1000;
    assert seconds == minutes * 60 + seconds % 60;
    assert minutes == minutes / 60 * 60 + minutes % 60;
    DateTime(CivilOfDay(DayNumber(ms)), minutes / 60, minutes % 60, seconds % 60, inDay % 1000)
  }

  /** The year as `toISOString` writes it: four digits for years 0 to 9999, a sign
      and six digits otherwise. */
  function YearString(y: int): (s: string)
    ensures 0 <= y <= 9999 ==> |s| == 4
    ensures !(0 <= y <= 9999) ==> |s| >= 7
  {
    if 0 <= y <= 9999 then DigitsLength(y, 4); Digits(y, 4)
    else (if y < 0 then "-" else "+") + Digits(if y < 0 then -y else y, 6)
  }

  /** `YYYY-MM-DD` (or `+YYYYYY-MM-DD`) of a calendar date. */
  function DateString(c: Civil): (s: string)
    requires ValidCivil(c)
    ensures 0 <= c.year <= 9999 ==> |s| == 10
    ensures |s| >= 10
  {
    DigitsLength(c.month, 2);
    DigitsLength(c.day, 2);
    YearString(c.year) + "-" + Digits(c.month, 2) + "-" + Digits(c.day, 2)
  }

  /** `new Date(ms).toISOString()`: `YYYY-MM-DDTHH:mm:ss.sssZ`. */
  function IsoString(ms: int): (s: string)
    ensures |s| >= 10 && s[..10] == DateString(DateTimeOf(ms).date)[..10]
  {
    var t := DateTimeOf(ms);
    var date := DateString(t.date);
    var time := "T" + TimeString(t.hour, t.minute, t.second, t.millisecond) + "Z";
    assert (date + time)[..10] == date[..10];
    date + time
  }

  /** `HH:mm:ss.sss`. */
  function TimeString(hour: nat, minute: nat, second: nat, millisecond: nat): string {
    Digits(hour, 2) + ":" + Digits(minute, 2) + ":" + Digits(second, 2) + "." + Digits(millisecond, 3)
  }

  /** The first ten characters of the ISO string depend only on the UTC day. */
  lemma SameDaySameIsoDate(ms1: int, ms2: int)
    requires DayNumber(ms1) == DayNumber(ms2)
    ensures IsoString(ms1)[..10] == IsoString(ms2)[..10]
  {
  }

  /** For years 0 to 9999 the first ten characters of the ISO string are the
      date, and two time values share them exactly when they fall on the same
      UTC day. */
  lemma IsoDatePrefixIff(ms1: int, ms2: int)
    requires 0 <= DateTimeOf(ms1).date.year <= 9999
    requires 0 <= DateTimeOf(ms2).date.year <= 9999
    ensures IsoString(ms1)[..10] == IsoString(ms2)[..10] <==> DayNumber(ms1) == DayNumber(ms2)
  {
    if IsoString(ms1)[..10] == IsoString(ms2)[..10] {
      var c1, c2 := CivilOfDay(DayNumber(ms1)), CivilOfDay(DayNumber(ms2));
      DateStringInjective(c1, c2);
    }
  }

  lemma DateStringInjective(c1: Civil, c2: Civil)
    requires ValidCivil(c1) && ValidCivil(c2)
    requires 0 <= c1.year <= 9999 && 0 <= c2.year <= 9999
    requires DateString(c1) == DateString(c2)
    ensures c1 == c2
  {
    DateStringParts(c1);
    DateStringParts(c2);
    DigitsInjective(c1.year, c2.year, 4);
    DigitsInjective(c1.month, c2.month, 2);
    DigitsInjective(c1.day, c2.day, 2);
  }

  /** Where year, month and day sit in a four-digit-year date string. */
  lemma DateStringParts(c: Civil)
    requires ValidCivil(c) && 0 <= c.year <= 9999
    ensures DateString(c)[..4] == Digits(c.year, 4)
    ensures DateString(c)[5..7] == Digits(c.month, 2)
    ensures DateString(c)[8..10] == Digits(c.day, 2)
  {
    DigitsLength(c.year, 4);
    DigitsLength(c.month, 2);
    DigitsLength(c.day, 2);
    var s := DateString(c);
    assert s == Digits(c.year, 4) + "-" + Digits(c.month, 2) + "-" + Digits(c.day, 2);
  }

  /** Outside years 0 to 9999 the first ten characters are the sign, the year
      and the month only (`+010000-01`): every day of that month shares them. */
  lemma ExtendedYearIsoDateIsMonth(ms1: int, ms2: int)
    requires DateTimeOf(ms1).date.year == DateTimeOf(ms2).date.year
    requires DateTimeOf(ms1).date.month == DateTimeOf(ms2).date.month
    requires 9999 < DateTimeOf(ms1).date.year < 1000000
    ensures IsoString(ms1)[..10] == IsoString(ms2)[..10]
  {
    var c1, c2 := DateTimeOf(ms1).date, DateTimeOf(ms2).date;
    DigitsLength(c1.year, 6);
    DigitsLength(c1.month, 2);
    var d1, d2 := DateString(c1), DateString(c2);
    assert d1[..10] == YearString(c1.year) + "-" + Digits(c1.month, 2);
    assert d2[..10] == YearString(c2.year) + "-" + Digits(c2.month, 2);
  }
}

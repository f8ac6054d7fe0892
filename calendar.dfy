/**
 * Local calendar days as the ticket controller reads them: a "YYYY-MM-DD" string becomes the
 * local midnight that starts the day, and the day ends one wall-clock day later. Instants are
 * whole seconds of local wall-clock time counted from 0001-01-01 00:00, the origin .NET's
 * DateTime uses; daylight-saving shifts are not represented.
 */
module Calendar {
  import opened Wrappers
  import opened Text

  /** DateTime.AddDays(1) as a fixed wall-clock step. */
  const SecondsPerDay: int := 86400
  const SecondsPerHour: int := 3600
  const SecondsPerMinute: int := 60

  /** Int32.MaxValue: int.Parse throws OverflowException above it. */
  const MaxInt32: int := 0x7FFF_FFFF

  datatype Date = Date(year: int, month: int, day: int)

  /** Why DayStartLocal throws: IndexOutOfRangeException (fewer than three parts),
      FormatException (a part that is not a number), OverflowException (a number beyond
      Int32), ArgumentOutOfRangeException (no such calendar date, or AddDays past the last
      representable instant). */
  datatype DateError = MissingPart | NotANumber | Overflow | OutOfRange

  predicate IsLeapYear(y: int) {
    y % 4 == 0 && (y % 100 != 0 || y % 400 == 0)
  }

  function DaysInYear(y: int): int {
    if IsLeapYear(y) then 366 else 365
  }

  function DaysInMonth(y: int, m: int): int
    requires 1 <= m <= 12
  {
    if m == 2 then (if IsLeapYear(y) then 29 else 28)
    else if m == 4 || m == 6 || m == 9 || m == 11 then 30
    else 31
  }

  /** The dates new DateTime(year, month, day) accepts. */
  predicate IsValidDate(d: Date) {
    1 <= d.year <= 9999 && 1 <= d.month <= 12 && 1 <= d.day <= DaysInMonth(d.year, d.month)
  }

  /** Days from 0001-01-01 to January 1st of year y (the proleptic Gregorian count .NET uses). */
  function DaysBeforeYear(y: int): int
    requires y >= 1
  {
    var p := y - 1;
    p * 365 + p / 4 - p / 100 + p / 400
  }

  /** Days from January 1st to the first of month m. */
  function DaysBeforeMonth(y: int, m: int): int
    requires 1 <= m <= 12
  {
    var common := [0, 31, 59, 90, 120, 151, 181, 212, 243, 273, 304, 334];
    common[m - 1] + (if m > 2 && IsLeapYear(y) then 1 else 0)
  }

  /** Days from 0001-01-01 to d. */
  function DayNumber(d: Date): int
    requires IsValidDate(d)
  {
    DaysBeforeYear(d.year) + DaysBeforeMonth(d.year, d.month) + d.day - 1
  }

  /** The instant of local midnight at the start of d. */
  function Midnight(d: Date): (m: int)
    requires IsValidDate(d)
    ensures m % SecondsPerDay == 0
  {
    var n := DayNumber(d);
    WholeDays(n);
    n * SecondsPerDay
  }

  /** A whole number of days leaves no seconds over. */
  lemma WholeDays(n: int)
    ensures (n * SecondsPerDay) % SecondsPerDay == 0
  {
    var a := n * SecondsPerDay;
    var k := n - a / SecondsPerDay;
    assert a % SecondsPerDay == SecondsPerDay * k;
    assert k == 0;
  }

  /** The first instant after DateTime.MaxValue (the end of 9999-12-31). */
  const EndOfTime: int := DaysBeforeYear(10000) * SecondsPerDay

  // ---------------------------------------------------------------- the calendar's shape

  /** Consecutive years are DaysInYear apart. */
  lemma YearLength(y: int)
    requires y >= 1
    ensures DaysBeforeYear(y + 1) == DaysBeforeYear(y) + DaysInYear(y)
  {
    var p := y - 1;
    assert y / 4 == p / 4 + (if y % 4 == 0 then 1 else 0);
    assert y / 100 == p / 100 + (if y % 100 == 0 then 1 else 0);
    assert y / 400 == p / 400 + (if y % 400 == 0 then 1 else 0);
  }

  /** A month ends where the next one (or the next year) begins. */
  lemma MonthLength(y: int, m: int)
    requires 1 <= m <= 12
    ensures m < 12 ==> DaysBeforeMonth(y, m) + DaysInMonth(y, m) == DaysBeforeMonth(y, m + 1)
    ensures m == 12 ==> DaysBeforeMonth(y, m) + DaysInMonth(y, m) == DaysInYear(y)
  {
  }

  /** Later months start later. */
  lemma MonthsIncrease(y: int, m1: int, m2: int)
    requires 1 <= m1 <= m2 <= 12
    ensures DaysBeforeMonth(y, m1) <= DaysBeforeMonth(y, m2)
    ensures m1 < m2 ==> DaysBeforeMonth(y, m1) + DaysInMonth(y, m1) <= DaysBeforeMonth(y, m2)
  {
  }

  /** Later years start later, by at least a common year each. */
  lemma {:induction false} YearsIncrease(y1: int, y2: int)
    requires 1 <= y1 <= y2
    ensures DaysBeforeYear(y1) + 365 * (y2 - y1) <= DaysBeforeYear(y2)
    decreases y2 - y1
  {
    if y1 < y2 {
      YearLength(y1);
      YearsIncrease(y1 + 1, y2);
    }
  }

  /** Every day of year y lies before the start of any later year. */
  lemma {:induction false} DayWithinYear(d: Date, y2: int)
    requires IsValidDate(d) && d.year < y2
    ensures DayNumber(d) < DaysBeforeYear(y2)
  {
    MonthsIncrease(d.year, d.month, 12);
    MonthLength(d.year, 12);
    YearLength(d.year);
    YearsIncrease(d.year + 1, y2);
  }

  /** Day numbers follow calendar order, so distinct dates have distinct numbers. */
  lemma {:induction false} DayNumberIncreases(d1: Date, d2: Date)
    requires IsValidDate(d1) && IsValidDate(d2)
    requires d1.year < d2.year
          || (d1.year == d2.year && d1.month < d2.month)
          || (d1.year == d2.year && d1.month == d2.month && d1.day < d2.day)
    ensures DayNumber(d1) < DayNumber(d2)
  {
    if d1.year < d2.year {
      DayWithinYear(d1, d2.year);
    } else if d1.month < d2.month {
      MonthsIncrease(d1.year, d1.month, d2.month);
    }
  }

  /** The date after d; every date except the last one .NET represents has one, and its day
      number is one more. */
  function NextDate(d: Date): (n: Date)
    requires IsValidDate(d) && d != Date(9999, 12, 31)
    ensures IsValidDate(n) && DayNumber(n) == DayNumber(d) + 1
  {
    MonthLength(d.year, d.month);
    YearLength(d.year);
    if d.day < DaysInMonth(d.year, d.month) then Date(d.year, d.month, d.day + 1)
    else if d.month < 12 then Date(d.year, d.month + 1, 1)
    else Date(d.year + 1, 1, 1)
  }

  /** Every valid date's day lies inside the range DateTime represents; only 9999-12-31 ends
      exactly at its end. */
  lemma {:induction false} DayInRange(d: Date)
    requires IsValidDate(d)
    ensures 0 <= Midnight(d) && Midnight(d) + SecondsPerDay <= EndOfTime
    ensures Midnight(d) + SecondsPerDay == EndOfTime <==> d == Date(9999, 12, 31)
  {
    YearsIncrease(1, d.year);
    if d == Date(9999, 12, 31) {
      YearLength(9999);
    } else {
      var n := NextDate(d);
      DayWithinYear(n, 10000);
    }
  }

  /** Two different dates have disjoint day windows. */
  lemma {:induction false} DayWindowsDisjoint(d1: Date, d2: Date)
    requires IsValidDate(d1) && IsValidDate(d2) && d1 != d2
    ensures Midnight(d1) + SecondsPerDay <= Midnight(d2) || Midnight(d2) + SecondsPerDay <= Midnight(d1)
  {
    if d1.year < d2.year
      || (d1.year == d2.year && d1.month < d2.month)
      || (d1.year == d2.year && d1.month == d2.month && d1.day < d2.day)
    {
      DayNumberIncreases(d1, d2);
    } else {
      DayNumberIncreases(d2, d1);
    }
  }

  // ---------------------------------------------------------------- parsing "YYYY-MM-DD"

  /** part is a non-empty digit string whose value int.Parse accepts. */
  predicate IsReadable(part: string) {
    |part| > 0 && IsDigits(part) && DigitsValue(part) <= MaxInt32
  }

  /** int.Parse(parts[k]), with the index check done first. */
  function ParsePart(parts: seq<string>, k: nat): (r: Result<int, DateError>)
    ensures r.Success? <==> k < |parts| && IsReadable(parts[k])
    ensures r.Success? ==> r.value == DigitsValue(parts[k])
    ensures r == Failure(MissingPart) <==> k >= |parts|
    ensures r == Failure(NotANumber) <==> k < |parts| && (parts[k] == "" || !IsDigits(parts[k]))
  {
    if k >= |parts| then Failure(MissingPart)
    else if parts[k] == "" || !IsDigits(parts[k]) then Failure(NotANumber)
    else if DigitsValue(parts[k]) > MaxInt32 then Failure(Overflow)
    else Success(DigitsValue(parts[k]))
  }

  /** The date DayStartLocal builds: split on '-', parse parts 0, 1 and 2 in that order,
      then new DateTime(year, month, day). Parts beyond the third are never looked at. */
  function ParseYmd(ymd: string): (r: Result<Date, DateError>)
    ensures r.Success? ==> IsValidDate(r.value)
    ensures r.Success? <==>
      var parts := Split(ymd, '-');
      && |parts| >= 3
      && IsReadable(parts[0]) && IsReadable(parts[1]) && IsReadable(parts[2])
      && IsValidDate(Date(DigitsValue(parts[0]), DigitsValue(parts[1]), DigitsValue(parts[2])))
    ensures r.Success? ==>
      var parts := Split(ymd, '-');
      r.value == Date(DigitsValue(parts[0]), DigitsValue(parts[1]), DigitsValue(parts[2]))
    ensures r == Failure(MissingPart) <==>
      var parts := Split(ymd, '-');
      |parts| < 3 && forall k :: 0 <= k < |parts| ==> IsReadable(parts[k])
  {
    var parts := Split(ymd, '-');
    match ParsePart(parts, 0)
    case Failure(e) => Failure(e)
    case Success(y) =>
      match ParsePart(parts, 1)
      case Failure(e) => Failure(e)
      case Success(m) =>
        match ParsePart(parts, 2)
        case Failure(e) => Failure(e)
        case Success(d) =>
          if IsValidDate(Date(y, m, d)) then Success(Date(y, m, d)) else Failure(OutOfRange)
  }

  /** DayStartLocal: the local midnight that starts the named day. It is a day boundary inside
      the range DateTime represents. */
  function DayStartLocal(ymd: string): (r: Result<int, DateError>)
    ensures r.Success? <==> ParseYmd(ymd).Success?
    ensures r.Success? ==> r.value == Midnight(ParseYmd(ymd).value)
    ensures r.Success? ==> r.value % SecondsPerDay == 0 && 0 <= r.value < EndOfTime
  {
    match ParseYmd(ymd)
    case Failure(e) => Failure(e)
    case Success(d) => DayInRange(d); Success(Midnight(d))
  }

  /** DayEndLocal: DayStartLocal plus one day, which throws when that would pass the last
      instant DateTime represents (the day 9999-12-31). */
  function DayEndLocal(ymd: string): (r: Result<int, DateError>)
    ensures r.Success? ==> DayStartLocal(ymd).Success? && r.value == DayStartLocal(ymd).value + SecondsPerDay
    ensures r.Failure? <==> ParseYmd(ymd).Failure? || ParseYmd(ymd).value == Date(9999, 12, 31)
  {
    match DayStartLocal(ymd)
    case Failure(e) => Failure(e)
    case Success(start) =>
      DayInRange(ParseYmd(ymd).value);
      if start + SecondsPerDay < EndOfTime then Success(start + SecondsPerDay) else Failure(OutOfRange)
  }

  /** The window DayEndLocal closes is exactly where the next date's DayStartLocal opens. */
  lemma DayEndIsNextDayStart(d: Date)
    requires IsValidDate(d) && d != Date(9999, 12, 31)
    ensures Midnight(d) + SecondsPerDay == Midnight(NextDate(d))
  {
  }

  // ---------------------------------------------------------------- wall-clock fields

  /** Date.getHours() of a local instant. */
  function HourOf(t: int): (h: int)
    ensures 0 <= h < 24
    ensures h * SecondsPerHour <= t % SecondsPerDay < (h + 1) * SecondsPerHour
  {
    (t % SecondsPerDay) / SecondsPerHour
  }

  /** Date.getMinutes() of a local instant. */
  function MinuteOf(t: int): (m: int)
    ensures 0 <= m < 60
    ensures m * SecondsPerMinute <= t % SecondsPerHour < (m + 1) * SecondsPerMinute
  {
    (t % SecondsPerHour) / SecondsPerMinute
  }
}

/**
  Civil dates as JavaScript's `Date` computes them (the proleptic Gregorian
  calendar, days counted from 1970-01-01), the India Standard Time "today" of
  the absentee job, and the `YYYY-MM-DD` date keys that the job, the admin
  calendar and the records store compare as strings.
 */
module CivilTime {
  import opened Wrappers

  datatype Date = Date(year: int, month: int, day: int)

  const MsPerDay: int := 86400000
  /** 5.5 * 60 * 60 * 1000: India Standard Time is UTC+5:30. */
  const IstOffsetMs: int := 19800000

  predicate IsLeapYear(y: int) {
    y % 4 == 0 && (y % 100 != 0 || y % 400 == 0)
  }

  function YearLength(y: int): int {
    if IsLeapYear(y) then 366 else 365
  }

  function MonthLength(y: int, m: int): int
    requires 1 <= m <= 12
  {
    if m == 2 then (if IsLeapYear(y) then 29 else 28)
    else if m == 4 || m == 6 || m == 9 || m == 11 then 30
    else 31
  }

  predicate ValidDate(d: Date) {
    1 <= d.month <= 12 && 1 <= d.day <= MonthLength(d.year, d.month)
  }

  /** Days from 1970-01-01 to January 1st of year y (negative before 1970). */
  function DaysBeforeYear(y: int): int
    decreases if y >= 1970 then y - 1970 else 1970 - y
  {
    if y == 1970 then 0
    else if y > 1970 then DaysBeforeYear(y - 1) + YearLength(y - 1)
    else DaysBeforeYear(y + 1) - YearLength(y)
  }

  lemma DaysBeforeNextYear(y: int)
    ensures DaysBeforeYear(y + 1) == DaysBeforeYear(y) + YearLength(y)
  {
    if y + 1 > 1970 {
      assert DaysBeforeYear(y + 1) == DaysBeforeYear(y) + YearLength(y);
    } else {
      assert DaysBeforeYear(y) == DaysBeforeYear(y + 1) - YearLength(y);
    }
  }

  lemma {:induction false} DaysBeforeYearMonotone(a: int, b: int)
    requires a <= b
    ensures DaysBeforeYear(a) <= DaysBeforeYear(b)
    decreases b - a
  {
    if a < b {
      DaysBeforeNextYear(a);
      DaysBeforeYearMonotone(a + 1, b);
    }
  }

  /** Days from January 1st to the first of month m (m == 13: the whole year). */
  function DaysBeforeMonth(y: int, m: int): int
    requires 1 <= m <= 13
  {
    [0, 31, 59, 90, 120, 151, 181, 212, 243, 273, 304, 334, 365][m - 1]
      + (if m > 2 && IsLeapYear(y) then 1 else 0)
  }

  lemma DaysBeforeNextMonth(y: int, m: int)
    requires 1 <= m <= 12
    ensures DaysBeforeMonth(y, m + 1) == DaysBeforeMonth(y, m) + MonthLength(y, m)
    ensures DaysBeforeMonth(y, 13) == YearLength(y)
  { }

  lemma {:induction false} DaysBeforeMonthMonotone(y: int, a: int, b: int)
    requires 1 <= a <= b <= 13
    ensures DaysBeforeMonth(y, a) <= DaysBeforeMonth(y, b)
    decreases b - a
  {
    if a < b {
      DaysBeforeNextMonth(y, a);
      DaysBeforeMonthMonotone(y, a + 1, b);
    }
  }

  /** Days since 1970-01-01 of a valid date: JavaScript's Day(t) of its midnight. */
  function DayNumber(d: Date): int
    requires ValidDate(d)
  {
    DaysBeforeYear(d.year) + DaysBeforeMonth(d.year, d.month) + d.day - 1
  }

  /** The day number of a date lies inside its own year. */
  lemma DayNumberInYear(d: Date)
    requires ValidDate(d)
    ensures DaysBeforeYear(d.year) <= DayNumber(d) < DaysBeforeYear(d.year + 1)
    ensures DaysBeforeMonth(d.year, d.month) <= DayNumber(d) - DaysBeforeYear(d.year)
                                              < DaysBeforeMonth(d.year, d.month + 1)
  {
    DaysBeforeNextYear(d.year);
    DaysBeforeNextMonth(d.year, d.month);
    DaysBeforeMonthMonotone(d.year, d.month + 1, 13);
  }

  function YearFrom(n: int, y: int): (r: int)
    requires DaysBeforeYear(y) <= n
    ensures DaysBeforeYear(r) <= n < DaysBeforeYear(r + 1)
    decreases n - DaysBeforeYear(y)
  {
    DaysBeforeNextYear(y);
    if n < DaysBeforeYear(y + 1) then y else YearFrom(n, y + 1)
  }

  function YearBefore(n: int, y: int): (r: int)
    requires n < DaysBeforeYear(y)
    ensures DaysBeforeYear(r) <= n < DaysBeforeYear(r + 1)
    decreases DaysBeforeYear(y) - n
  {
    DaysBeforeNextYear(y - 1);
    if DaysBeforeYear(y - 1) <= n then y - 1 else YearBefore(n, y - 1)
  }

  function MonthFrom(y: int, dayOfYear: int, m: int): (r: int)
    requires 1 <= m <= 12 && DaysBeforeMonth(y, m) <= dayOfYear < YearLength(y)
    ensures 1 <= r <= 12
    ensures DaysBeforeMonth(y, r) <= dayOfYear < DaysBeforeMonth(y, r + 1)
    decreases 12 - m
  {
    if dayOfYear < DaysBeforeMonth(y, m + 1) then m else MonthFrom(y, dayOfYear, m + 1)
  }

  /** The civil date of day number n, as JavaScript's YearFromTime,
      MonthFromTime and DateFromTime give it. */
  function DateOfDay(n: int): (d: Date)
    ensures ValidDate(d) && DayNumber(d) == n
  {
    var y := if n >= 0 then YearFrom(n, 1970) else YearBefore(n, 1970);
    DaysBeforeNextYear(y);
    var m := MonthFrom(y, n - DaysBeforeYear(y), 1);
    DaysBeforeNextMonth(y, m);
    Date(y, m, n - DaysBeforeYear(y) - DaysBeforeMonth(y, m) + 1)
  }

  /** Distinct valid dates have distinct day numbers, so DateOfDay is the
      only date of a day number. */
  lemma DayNumberInjective(a: Date, b: Date)
    requires ValidDate(a) && ValidDate(b) && DayNumber(a) == DayNumber(b)
    ensures a == b
  {
    DayNumberInYear(a);
    DayNumberInYear(b);
    if a.year < b.year {
      DaysBeforeYearMonotone(a.year + 1, b.year);
    } else if b.year < a.year {
      DaysBeforeYearMonotone(b.year + 1, a.year);
    }
    assert a.year == b.year;
    if a.month < b.month {
      DaysBeforeMonthMonotone(a.year, a.month + 1, b.month);
    } else if b.month < a.month {
      DaysBeforeMonthMonotone(a.year, b.month + 1, a.month);
    }
  }

  lemma DateOfDayNumber(d: Date)
    requires ValidDate(d)
    ensures DateOfDay(DayNumber(d)) == d
  {
    DayNumberInjective(DateOfDay(DayNumber(d)), d);
  }

  /** JavaScript's WeekDay: 0 is Sunday, 6 is Saturday; 1970-01-01 was a Thursday. */
  function WeekdayOfDay(n: int): int {
    (n + 4) % 7
  }

  function Weekday(d: Date): (w: int)
    requires ValidDate(d)
    ensures 0 <= w < 7
  {
    WeekdayOfDay(DayNumber(d))
  }

  /** Consecutive days of a month fall on consecutive weekdays. */
  lemma WeekdayInMonth(y: int, m: int, d: int)
    requires ValidDate(Date(y, m, d))
    ensures Weekday(Date(y, m, d)) == (Weekday(Date(y, m, 1)) + d - 1) % 7
  {
    var first := DayNumber(Date(y, m, 1)) + 4;
    assert DayNumber(Date(y, m, d)) + 4 == first + (d - 1);
    ModShift(first, d - 1);
  }

  lemma ModShift(a: int, k: int)
    ensures (a % 7 + k) % 7 == (a + k) % 7
  {
    var q := a / 7;
    assert a == 7 * q + a % 7;
    assert a + k == (a % 7 + k) + 7 * q;
  }

  /** The civil date, read in UTC fields, of the instant t milliseconds after
      the epoch: the day that contains t. */
  function UtcDate(t: int): (d: Date)
    ensures ValidDate(d)
    ensures DayNumber(d) * MsPerDay <= t < (DayNumber(d) + 1) * MsPerDay
  {
    DateOfDay(t / MsPerDay)
  }

  /** getUTCDay of the instant t. */
  function UtcWeekday(t: int): (w: int)
    ensures 0 <= w < 7
    ensures w == Weekday(UtcDate(t))
  {
    WeekdayOfDay(t / MsPerDay)
  }

  /** The IST civil date at the instant nowMs. */
  function IstDate(nowMs: int): (d: Date)
    ensures ValidDate(d)
    ensures DayNumber(d) * MsPerDay <= nowMs + IstOffsetMs < (DayNumber(d) + 1) * MsPerDay
  {
    UtcDate(nowMs + IstOffsetMs)
  }

  /** The pair the job computes for "today": the IST date key and its weekday. */
  datatype Today = Today(dateStr: string, dayOfWeek: int)

  function TodayInIst(nowMs: int): (t: Today)
    ensures 0 <= t.dayOfWeek < 7
    ensures t.dateStr == DateKey(IstDate(nowMs))
    ensures ParseDateKey(t.dateStr) == Some(IstDate(nowMs))
    ensures t.dayOfWeek == Weekday(IstDate(nowMs))
  {
    var ist := nowMs + IstOffsetMs;
    DateKeyRoundTrip(UtcDate(ist));
    Today(DateKey(UtcDate(ist)), UtcWeekday(ist))
  }

  // Decimal text

  predicate IsDigit(c: char) {
    '0' <= c <= '9'
  }

  predicate AllDigits(s: string) {
    forall i :: 0 <= i < |s| ==> IsDigit(s[i])
  }

  function DigitChar(k: int): (c: char)
    requires 0 <= k < 10
    ensures IsDigit(c) && DigitValue(c) == k
  {
    ('0' as int + k) as char
  }

  function DigitValue(c: char): int
    requires IsDigit(c)
  {
    c as int - '0' as int
  }

  /** String(n) for a natural number: decimal digits, no leading zero. */
  function NatToDecimal(n: nat): (s: string)
    ensures 1 <= |s| && AllDigits(s)
    ensures |s| == 1 <==> n < 10
  {
    if n < 10 then [DigitChar(n)] else NatToDecimal(n / 10) + [DigitChar(n % 10)]
  }

  function DecimalValue(s: string): nat
    requires AllDigits(s)
  {
    if s == [] then 0 else DecimalValue(s[..|s| - 1]) * 10 + DigitValue(s[|s| - 1])
  }

  lemma {:induction false} DecimalRoundTrip(n: nat)
    ensures DecimalValue(NatToDecimal(n)) == n
  {
    if n >= 10 {
      var s := NatToDecimal(n);
      assert s[..|s| - 1] == NatToDecimal(n / 10);
      DecimalRoundTrip(n / 10);
    }
  }

  /** String(i) for an integer: a minus sign before negative numbers. */
  function IntToDecimal(i: int): string {
    if i < 0 then "-" + NatToDecimal(-i) else NatToDecimal(i)
  }

  function ParseInt(s: string): Option<int> {
    if 1 < |s| && s[0] == '-' && AllDigits(s[1..]) then Some(-(DecimalValue(s[1..]) as int))
    else if 0 < |s| && AllDigits(s) then Some(DecimalValue(s))
    else None
  }

  lemma IntRoundTrip(i: int)
    ensures ParseInt(IntToDecimal(i)) == Some(i)
  {
    if i < 0 {
      var s := IntToDecimal(i);
      assert s[1..] == NatToDecimal(-i);
      DecimalRoundTrip(-i);
    } else {
      DecimalRoundTrip(i);
    }
  }

  /** String(n).padStart(2, '0'). */
  function Pad2(n: int): (s: string)
    requires 0 <= n < 100
    ensures |s| == 2 && AllDigits(s) && DecimalValue(s) == n
  {
    DecimalRoundTrip(n);
    if n < 10 then
      var s := "0" + NatToDecimal(n);
      assert s[..1] == "0";
      s
    else
      var s := NatToDecimal(n);
      assert s[..1] == NatToDecimal(n / 10);
      DecimalRoundTrip(n / 10);
      s
  }

  /** `${year}-${pad2(month)}-${pad2(day)}`. */
  function DateKey(d: Date): string
    requires 1 <= d.month <= 12 && 1 <= d.day <= 31
  {
    IntToDecimal(d.year) + "-" + Pad2(d.month) + "-" + Pad2(d.day)
  }

  /** Reads a key of the form DateKey produces back as a valid date. */
  function ParseDateKey(s: string): (r: Option<Date>)
    ensures r.Some? ==> ValidDate(r.value)
  {
    if |s| < 7 || s[|s| - 6] != '-' || s[|s| - 3] != '-' then None
    else
      var ms, ds := s[|s| - 5..|s| - 3], s[|s| - 2..];
      match ParseInt(s[..|s| - 6])
      case None => None
      case Some(y) =>
        if AllDigits(ms) && AllDigits(ds) && ValidDate(Date(y, DecimalValue(ms), DecimalValue(ds)))
        then Some(Date(y, DecimalValue(ms), DecimalValue(ds)))
        else None
  }

  lemma DateKeyRoundTrip(d: Date)
    requires ValidDate(d)
    ensures ParseDateKey(DateKey(d)) == Some(d)
  {
    var ys, ms, ds := IntToDecimal(d.year), Pad2(d.month), Pad2(d.day);
    var s := DateKey(d);
    assert s == ys + "-" + ms + "-" + ds;
    assert s[..|s| - 6] == ys;
    assert s[|s| - 5..|s| - 3] == ms;
    assert s[|s| - 2..] == ds;
    IntRoundTrip(d.year);
  }

  /** Two valid dates with the same key are the same date: comparing keys
      as strings compares dates. */
  lemma DateKeyInjective(a: Date, b: Date)
    requires ValidDate(a) && ValidDate(b) && DateKey(a) == DateKey(b)
    ensures a == b
  {
    DateKeyRoundTrip(a);
    DateKeyRoundTrip(b);
  }
}

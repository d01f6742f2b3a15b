/**
 * Civil dates on the proleptic Gregorian calendar, as JavaScript's `Date`
 * sees them in local time once the time of day is dropped: a year, a month
 * 1..12 and a day of the month. Months are 1-based here; the 0-based month
 * index of the `Date` constructor appears only in `MakeDate`.
 */
module CivilDate {

  datatype Date = Date(year: int, month: int, day: int)

  /** A displayed month: the state behind `currentMonth`. */
  datatype YearMonth = YearMonth(year: int, month: int)

  predicate IsLeapYear(y: int) {
    y % 4 == 0 && (y % 100 != 0 || y % 400 == 0)
  }

  function DaysInMonth(y: int, m: int): (n: int)
    requires 1 <= m <= 12
    ensures 28 <= n <= 31
    ensures m == 2 ==> (n == 29 <==> IsLeapYear(y))
  {
    if m == 2 then (if IsLeapYear(y) then 29 else 28)
    else if m == 4 || m == 6 || m == 9 || m == 11 then 30
    else 31
  }

  predicate ValidMonth(ym: YearMonth) {
    1 <= ym.month <= 12
  }

  predicate Valid(d: Date) {
    1 <= d.month <= 12 && 1 <= d.day <= DaysInMonth(d.year, d.month)
  }

  function MonthOf(d: Date): YearMonth {
    YearMonth(d.year, d.month)
  }

  /** Months counted from January of year 0. */
  function MonthNumber(ym: YearMonth): int {
    12 * ym.year + ym.month - 1
  }

  /** The month after `ym`, December rolling over to January of the next year. */
  function NextMonth(ym: YearMonth): (r: YearMonth)
    requires ValidMonth(ym)
    ensures ValidMonth(r)
  {
    if ym.month == 12 then YearMonth(ym.year + 1, 1) else YearMonth(ym.year, ym.month + 1)
  }

  /** The month before `ym`, January rolling back to December of the previous year. */
  function PrevMonth(ym: YearMonth): (r: YearMonth)
    requires ValidMonth(ym)
    ensures ValidMonth(r)
  {
    if ym.month == 1 then YearMonth(ym.year - 1, 12) else YearMonth(ym.year, ym.month - 1)
  }

  function LastDayOf(ym: YearMonth): (d: Date)
    requires ValidMonth(ym)
    ensures Valid(d)
  {
    Date(ym.year, ym.month, DaysInMonth(ym.year, ym.month))
  }

  /** The calendar day after `d`. */
  function NextDay(d: Date): (r: Date)
    requires Valid(d)
    ensures Valid(r)
  {
    if d.day < DaysInMonth(d.year, d.month) then Date(d.year, d.month, d.day + 1)
    else
      var n := NextMonth(MonthOf(d));
      Date(n.year, n.month, 1)
  }

  /** Days before January 1 of year `y`, counted from January 1 of year 1 (negative before it). */
  function DaysBeforeYear(y: int): int {
    365 * (y - 1) + (y - 1) / 4 - (y - 1) / 100 + (y - 1) / 400
  }

  function DaysBeforeMonth(y: int, m: int): int
    requires 1 <= m <= 12
  {
    if m == 1 then 0 else DaysBeforeMonth(y, m - 1) + DaysInMonth(y, m - 1)
  }

  /** Position of a day on the continuous day line; January 1 of year 1 is 0. */
  function DayNumber(d: Date): int
    requires 1 <= d.month <= 12
  {
    DaysBeforeYear(d.year) + DaysBeforeMonth(d.year, d.month) + d.day - 1
  }

  /** `Date.prototype.getDay`: 0 is Sunday. January 1 of year 1 was a Monday. */
  function Weekday(d: Date): (w: int)
    requires 1 <= d.month <= 12
    ensures 0 <= w < 7
  {
    (DayNumber(d) + 1) % 7
  }

  /**
   * `new Date(year, monthIndex, day)` with a 0-based month index that may lie
   * outside 0..11 and carries into the year, and a day that may be 0, which
   * stands for the last day of the month before. Later days are never passed.
   */
  function MakeDate(year: int, monthIndex: int, day: int): (r: Date)
    requires 0 <= day <= DaysInMonth(year + monthIndex / 12, monthIndex % 12 + 1)
    ensures Valid(r)
  {
    var ym := YearMonth(year + monthIndex / 12, monthIndex % 12 + 1);
    if day == 0 then LastDayOf(PrevMonth(ym)) else Date(ym.year, ym.month, day)
  }

  // ---------------------------------------------------------------------------
  // Lemmas

  /** Navigation moves the month line by exactly one. */
  lemma NextMonthSteps(ym: YearMonth)
    requires ValidMonth(ym)
    ensures MonthNumber(NextMonth(ym)) == MonthNumber(ym) + 1
    ensures MonthNumber(PrevMonth(ym)) == MonthNumber(ym) - 1
  {
  }

  /** A month is determined by its place on the month line. */
  lemma MonthNumberInjective(a: YearMonth, b: YearMonth)
    requires ValidMonth(a) && ValidMonth(b)
    requires MonthNumber(a) == MonthNumber(b)
    ensures a == b
  {
  }

  /** Going forward one month and back one month are inverse. */
  lemma NextPrevInverse(ym: YearMonth)
    requires ValidMonth(ym)
    ensures PrevMonth(NextMonth(ym)) == ym
    ensures NextMonth(PrevMonth(ym)) == ym
  {
  }

  /** The `Date` constructor normalises a month index the way the month line counts. */
  lemma MakeDateMonth(year: int, monthIndex: int, day: int)
    requires 1 <= day <= DaysInMonth(year + monthIndex / 12, monthIndex % 12 + 1)
    ensures MonthNumber(MonthOf(MakeDate(year, monthIndex, day))) == 12 * year + monthIndex
    ensures MakeDate(year, monthIndex, day).day == day
  {
  }

  /** `new Date(y, m + 1, 0)` is the last day of month `m`: its day is the Gregorian month length. */
  lemma DayZeroIsMonthEnd(ym: YearMonth)
    requires ValidMonth(ym)
    ensures MakeDate(ym.year, ym.month, 0) == LastDayOf(ym)
    ensures MakeDate(ym.year, ym.month, 0).day == DaysInMonth(ym.year, ym.month)
  {
    var n := YearMonth(ym.year + ym.month / 12, ym.month % 12 + 1);
    assert n == NextMonth(ym);
    NextPrevInverse(ym);
  }

  lemma DaysBeforeYearStep(y: int)
    ensures DaysBeforeYear(y + 1) == DaysBeforeYear(y) + (if IsLeapYear(y) then 366 else 365)
  {
    MultiplesStep4(y);
    MultiplesStep100(y);
    MultiplesStep400(y);
    LeapCount(y);
    var a, b, c := y / 4 - (y - 1) / 4, y / 100 - (y - 1) / 100, y / 400 - (y - 1) / 400;
    assert DaysBeforeYear(y + 1) - DaysBeforeYear(y) == 365 + a - b + c;
  }

  /** The leap-year rule as a count of the multiples of 4, 100 and 400 that `y` is. */
  lemma LeapCount(y: int)
    ensures (if y % 4 == 0 then 1 else 0) - (if y % 100 == 0 then 1 else 0) + (if y % 400 == 0 then 1 else 0)
      == (if IsLeapYear(y) then 1 else 0)
  {
    if y % 400 == 0 {
      assert y == 400 * (y / 400);
      assert y == 100 * (4 * (y / 400)) && y == 4 * (100 * (y / 400));
    } else if y % 100 == 0 {
      assert y == 100 * (y / 100);
      assert y == 4 * (25 * (y / 100));
    }
  }

  /** Among the years up to `y`, one more is a multiple of 4 than up to `y - 1` exactly when `y` is. */
  lemma MultiplesStep4(y: int)
    ensures y / 4 - (y - 1) / 4 == (if y % 4 == 0 then 1 else 0)
  {
  }

  lemma MultiplesStep100(y: int)
    ensures y / 100 - (y - 1) / 100 == (if y % 100 == 0 then 1 else 0)
  {
  }

  lemma MultiplesStep400(y: int)
    ensures y / 400 - (y - 1) / 400 == (if y % 400 == 0 then 1 else 0)
  {
  }

  lemma {:induction false} DaysBeforeDecember(y: int)
    ensures DaysBeforeMonth(y, 12) + 31 == (if IsLeapYear(y) then 366 else 365)
  {
    assert DaysBeforeMonth(y, 1) == 0;
    assert DaysBeforeMonth(y, 2) == 31;
    assert DaysBeforeMonth(y, 3) == 31 + DaysInMonth(y, 2);
    assert DaysBeforeMonth(y, 4) == 62 + DaysInMonth(y, 2);
    assert DaysBeforeMonth(y, 5) == 92 + DaysInMonth(y, 2);
    assert DaysBeforeMonth(y, 6) == 123 + DaysInMonth(y, 2);
    assert DaysBeforeMonth(y, 7) == 153 + DaysInMonth(y, 2);
    assert DaysBeforeMonth(y, 8) == 184 + DaysInMonth(y, 2);
    assert DaysBeforeMonth(y, 9) == 215 + DaysInMonth(y, 2);
    assert DaysBeforeMonth(y, 10) == 245 + DaysInMonth(y, 2);
    assert DaysBeforeMonth(y, 11) == 276 + DaysInMonth(y, 2);
    assert DaysBeforeMonth(y, 12) == 306 + DaysInMonth(y, 2);
  }

  /** The day after `d` is the next point on the day line: the calendar has no gaps. */
  lemma NextDayNumber(d: Date)
    requires Valid(d)
    ensures DayNumber(NextDay(d)) == DayNumber(d) + 1
  {
    if d.day == DaysInMonth(d.year, d.month) && d.month == 12 {
      DaysBeforeYearStep(d.year);
      DaysBeforeDecember(d.year);
    }
  }

  /** One day later is one weekday later. */
  lemma NextDayWeekday(d: Date)
    requires Valid(d)
    ensures Weekday(NextDay(d)) == (Weekday(d) + 1) % 7
  {
    NextDayNumber(d);
    var k := DayNumber(d) + 1;
    assert Weekday(d) == k % 7;
    assert Weekday(NextDay(d)) == (k + 1) % 7;
    ModSevenStep(k);
  }

  lemma ModSevenStep(k: int)
    ensures (k + 1) % 7 == (k % 7 + 1) % 7
  {
  }

  /**
   * The weekday count is anchored to the real calendar: January 1, 1970 was a
   * Thursday, March 1, 2025 a Saturday and December 25, 2024 a Wednesday.
   */
  lemma WeekdayAnchors()
    ensures Weekday(Date(1970, 1, 1)) == 4
    ensures Weekday(Date(2025, 3, 1)) == 6
    ensures Weekday(Date(2024, 12, 25)) == 3
  {
  }
}

/**
 * The availability calendar of the booking form: a Sunday-first, 42-cell
 * month grid, month navigation, a status for every cell and the click rule
 * that reports a chosen date as `YYYY-MM-DD` and asks the host to close.
 *
 * The clock is injected: `today` and the first displayed month come from the
 * `Date` passed to the constructor. The two date lists are the component's
 * props and are passed to the members that read them. The callbacks
 * `onDateSelect` and `onClose` are modelled as the events a click emits.
 */
module Calendar {
  import opened CivilDate
  import opened DateFormat

  datatype Status = Today | Available | Booked | Disabled

  /** The callback invocations of one click, in order. */
  datatype Event = DateSelected(date: string) | CloseRequested

  const GridSize: nat := 42

  /**
   * `getDateStatus`: today wins whatever month the cell belongs to; then a
   * cell whose month number differs from the displayed one (the year is not
   * compared) is disabled; then booked beats available; the rest is disabled.
   */
  function GetDateStatus(d: Date, today: Date, shown: YearMonth,
                         available: seq<string>, booked: seq<string>): (r: Status)
    requires CivilDate.Valid(d)
    ensures r == Booked ==> FormatDate(d) in booked
    ensures r == Available ==> FormatDate(d) in available && FormatDate(d) !in booked
    ensures r != Today && r != Disabled ==> d.month == shown.month
  {
    var s := FormatDate(d);
    if d == today then Today
    else if d.month != shown.month then Disabled
    else if s in booked then Booked
    else if s in available then Available
    else Disabled
  }

  /**
   * When a click on `d` selects it, stated without the status ladder: the date
   * is listed as available and it is either today, or a day of the displayed
   * month that is not listed as booked.
   */
  predicate Selectable(d: Date, today: Date, shown: YearMonth,
                       available: seq<string>, booked: seq<string>)
    requires CivilDate.Valid(d)
  {
    FormatDate(d) in available
    && (d == today || (d.month == shown.month && FormatDate(d) !in booked))
  }

  /** The `disabled` attribute of a grid button. */
  predicate RenderedDisabled(d: Date, today: Date, shown: YearMonth,
                             available: seq<string>, booked: seq<string>)
    requires CivilDate.Valid(d)
  {
    var status := GetDateStatus(d, today, shown, available, booked);
    var isOtherMonth := d.month != shown.month;
    var isToday := status == Today;
    var isAvailable := status == Available || (isToday && FormatDate(d) in available);
    isOtherMonth || status == Booked || (!isAvailable && !isToday)
  }

  function FirstWeekday(ym: YearMonth): int
    requires ValidMonth(ym)
  {
    Weekday(Date(ym.year, ym.month, 1))
  }

  /** The last `FirstWeekday(ym)` days of the previous month. */
  function LeadingDays(ym: YearMonth): seq<Date>
    requires ValidMonth(ym)
  {
    var p := PrevMonth(ym);
    var last := DaysInMonth(p.year, p.month);
    var f := FirstWeekday(ym);
    seq(f, i requires 0 <= i < f => Date(p.year, p.month, last - f + 1 + i))
  }

  /** Days `1..DaysInMonth` of the month itself. */
  function MonthDays(ym: YearMonth): seq<Date>
    requires ValidMonth(ym)
  {
    seq(DaysInMonth(ym.year, ym.month), i => Date(ym.year, ym.month, i + 1))
  }

  /** Days `1..k` of the next month. */
  function TrailingDays(ym: YearMonth, k: nat): seq<Date>
    requires ValidMonth(ym)
  {
    var n := NextMonth(ym);
    seq(k, i => Date(n.year, n.month, i + 1))
  }

  /** The month view: leading days, the month, then next-month days up to 42 cells. */
  function MonthGrid(ym: YearMonth): (g: seq<Date>)
    requires ValidMonth(ym)
    ensures |g| == GridSize
  {
    var head := LeadingDays(ym) + MonthDays(ym);
    head + TrailingDays(ym, GridSize - |head|)
  }

  /** The first loop of `calendarDays`: the previous month's last days, counting down to its end. */
  method AddLeadingDays(cm: YearMonth) returns (days: seq<Date>)
    requires ValidMonth(cm)
    ensures days == LeadingDays(cm)
  {
    var year, monthIndex := cm.year, cm.month - 1;
    MonthEnds(cm);
    var firstDayOfWeek := Weekday(MakeDate(year, monthIndex, 1));
    var daysInPrevMonth := MakeDate(year, monthIndex, 0).day;
    ghost var leading := LeadingDays(cm);
    days := [];
    var i := firstDayOfWeek - 1;
    while i >= 0
      invariant -1 <= i < firstDayOfWeek
      invariant days == leading[..firstDayOfWeek - 1 - i]
    {
      LeadingCell(cm, firstDayOfWeek - 1 - i);
      assert leading[..firstDayOfWeek - i] == leading[..firstDayOfWeek - 1 - i] + [leading[firstDayOfWeek - 1 - i]];
      days := days + [MakeDate(year, monthIndex - 1, daysInPrevMonth - i)];
      i := i - 1;
    }
    assert leading[..firstDayOfWeek] == leading;
  }

  /** The second loop of `calendarDays`: every day of the displayed month. */
  method AddMonthDays(cm: YearMonth, prefix: seq<Date>) returns (days: seq<Date>)
    requires ValidMonth(cm)
    ensures days == prefix + MonthDays(cm)
  {
    var year, monthIndex := cm.year, cm.month - 1;
    MonthEnds(cm);
    var daysInMonth := MakeDate(year, monthIndex + 1, 0).day;
    ghost var month := MonthDays(cm);
    days := prefix;
    var day := 1;
    while day <= daysInMonth
      invariant 1 <= day <= daysInMonth + 1
      invariant days == prefix + month[..day - 1]
    {
      MonthCell(cm, day);
      assert month[..day] == month[..day - 1] + [month[day - 1]];
      days := days + [MakeDate(year, monthIndex, day)];
      day := day + 1;
    }
    assert month[..day - 1] == month;
  }

  /** The third loop of `calendarDays`: the next month's first days, up to 42 cells. */
  method AddTrailingDays(cm: YearMonth, prefix: seq<Date>) returns (days: seq<Date>)
    requires ValidMonth(cm) && GridSize - 28 <= |prefix| <= GridSize
    ensures days == prefix + TrailingDays(cm, GridSize - |prefix|)
  {
    var year, monthIndex := cm.year, cm.month - 1;
    var remainingCells := GridSize - |prefix|;
    ghost var trailing := TrailingDays(cm, remainingCells);
    days := prefix;
    var day := 1;
    while day <= remainingCells
      invariant 1 <= day <= remainingCells + 1
      invariant days == prefix + trailing[..day - 1]
    {
      TrailingCell(cm, remainingCells, day);
      assert trailing[..day] == trailing[..day - 1] + [trailing[day - 1]];
      days := days + [MakeDate(year, monthIndex + 1, day)];
      day := day + 1;
    }
    assert trailing[..day - 1] == trailing;
  }

  class AvailabilityCalendar {
    /** Fixed once at mount. */
    const today: Date
    /** The displayed month; only its year and month are ever read. */
    var currentMonth: YearMonth
    /** The host's `isOpen` prop; closing does not unmount the widget. */
    var isOpen: bool

    ghost predicate Valid()
      reads this
    {
      CivilDate.Valid(today) && ValidMonth(currentMonth)
    }

    constructor (now: Date, open: bool)
      requires CivilDate.Valid(now)
      ensures Valid()
      ensures today == now && currentMonth == MonthOf(now) && isOpen == open
    {
      today := now;
      currentMonth := MonthOf(now);
      isOpen := open;
    }

    /** The host toggles `isOpen`; the displayed month survives closing and reopening. */
    method SetOpen(open: bool)
      modifies this`isOpen
      ensures isOpen == open
      ensures currentMonth == old(currentMonth)
    {
      isOpen := open;
    }

    /** `goToPreviousMonth`: `new Date(year, month - 1, 1)`. */
    method GoToPreviousMonth()
      requires Valid()
      modifies this`currentMonth
      ensures Valid()
      ensures currentMonth == PrevMonth(old(currentMonth))
    {
      var d := MakeDate(currentMonth.year, currentMonth.month - 1 - 1, 1);
      currentMonth := MonthOf(d);
    }

    /** `goToNextMonth`: `new Date(year, month + 1, 1)`. */
    method GoToNextMonth()
      requires Valid()
      modifies this`currentMonth
      ensures Valid()
      ensures currentMonth == NextMonth(old(currentMonth))
    {
      var d := MakeDate(currentMonth.year, currentMonth.month - 1 + 1, 1);
      currentMonth := MonthOf(d);
    }

    /** `calendarDays`: three loops pushing `Date`s, built as the component builds them. */
    method CalendarDays() returns (days: seq<Date>)
      requires Valid()
      ensures days == MonthGrid(currentMonth)
    {
      days := AddLeadingDays(currentMonth);
      days := AddMonthDays(currentMonth, days);
      days := AddTrailingDays(currentMonth, days);
    }

    /**
     * `handleDateClick`: a click selects exactly when the status is available,
     * or today and listed as available; it then reports the date and asks to close.
     */
    method HandleDateClick(d: Date, available: seq<string>, booked: seq<string>)
      returns (events: seq<Event>)
      requires Valid() && CivilDate.Valid(d)
      ensures events == if Selectable(d, today, currentMonth, available, booked)
                        then [DateSelected(FormatDate(d)), CloseRequested]
                        else []
    {
      var status := GetDateStatus(d, today, currentMonth, available, booked);
      var dateStr := FormatDate(d);
      if status == Available || (status == Today && dateStr in available) {
        events := [DateSelected(dateStr), CloseRequested];
      } else {
        events := [];
      }
    }
  }

  /**
   * How the `Date` constructor resolves the month indices `calendarDays` passes:
   * one below, equal to and one above the displayed month's 0-based index.
   */
  lemma MonthIndexCarry(cm: YearMonth)
    requires ValidMonth(cm)
    ensures var y, m := cm.year, cm.month - 1;
      var p := PrevMonth(cm);
      var x := NextMonth(cm);
      && y + (m - 1) / 12 == p.year && (m - 1) % 12 + 1 == p.month
      && y + m / 12 == cm.year && m % 12 + 1 == cm.month
      && y + (m + 1) / 12 == x.year && (m + 1) % 12 + 1 == x.month
  {
  }

  /** The two `new Date(year, index, 0)` calls give the last days of the previous and the displayed month, and day 1 is the month's first day. */
  lemma MonthEnds(cm: YearMonth)
    requires ValidMonth(cm)
    ensures var p := PrevMonth(cm);
      && MakeDate(cm.year, cm.month - 1, 0).day == DaysInMonth(p.year, p.month)
      && MakeDate(cm.year, cm.month, 0).day == DaysInMonth(cm.year, cm.month)
      && MakeDate(cm.year, cm.month - 1, 1) == Date(cm.year, cm.month, 1)
      && FirstWeekday(cm) == Weekday(MakeDate(cm.year, cm.month - 1, 1))
  {
    MonthIndexCarry(cm);
    DayZeroIsMonthEnd(cm);
  }

  /** The first loop's `k`-th date is the `k`-th leading day. */
  lemma LeadingCell(cm: YearMonth, k: int)
    requires ValidMonth(cm) && 0 <= k < FirstWeekday(cm)
    ensures var p := PrevMonth(cm);
      var d := DaysInMonth(p.year, p.month) - (FirstWeekday(cm) - 1 - k);
      0 <= d <= DaysInMonth(cm.year + (cm.month - 2) / 12, (cm.month - 2) % 12 + 1)
      && MakeDate(cm.year, cm.month - 2, d) == LeadingDays(cm)[k]
  {
    MonthIndexCarry(cm);
  }

  /** The second loop's date for `day` is day `day` of the month. */
  lemma MonthCell(cm: YearMonth, day: int)
    requires ValidMonth(cm) && 1 <= day <= DaysInMonth(cm.year, cm.month)
    ensures 0 <= day <= DaysInMonth(cm.year + (cm.month - 1) / 12, (cm.month - 1) % 12 + 1)
    ensures MakeDate(cm.year, cm.month - 1, day) == MonthDays(cm)[day - 1]
  {
    MonthIndexCarry(cm);
  }

  /** The third loop's date for `day` is day `day` of the next month. */
  lemma TrailingCell(cm: YearMonth, k: nat, day: int)
    requires ValidMonth(cm) && k <= 28 && 1 <= day <= k
    ensures 0 <= day <= DaysInMonth(cm.year + cm.month / 12, cm.month % 12 + 1)
    ensures MakeDate(cm.year, cm.month, day) == TrailingDays(cm, k)[day - 1]
  {
    MonthIndexCarry(cm);
  }

  // ---------------------------------------------------------------------------
  // Lemmas: status and selection

  /** The click rule of the component agrees with `Selectable`. */
  lemma ClickRuleIsSelectable(d: Date, today: Date, shown: YearMonth,
                              available: seq<string>, booked: seq<string>)
    requires CivilDate.Valid(d)
    ensures var status := GetDateStatus(d, today, shown, available, booked);
      (status == Available || (status == Today && FormatDate(d) in available))
      <==> Selectable(d, today, shown, available, booked)
  {
  }

  /**
   * Each status, characterised without the ladder: today is today even when
   * booked and only today is; a day of the displayed month is booked when
   * listed booked, else available when listed available; every other day is
   * disabled. Booked and disabled cells never select.
   */
  lemma StatusPrecedence(d: Date, today: Date, shown: YearMonth,
                         available: seq<string>, booked: seq<string>)
    requires CivilDate.Valid(d)
    ensures var status := GetDateStatus(d, today, shown, available, booked);
      var s := FormatDate(d);
      && (status == Today <==> d == today)
      && (status == Booked <==> d != today && d.month == shown.month && s in booked)
      && (status == Available <==> d != today && d.month == shown.month && s !in booked && s in available)
      && (status == Disabled <==> d != today && (d.month != shown.month || (s !in booked && s !in available)))
      && (status == Booked || status == Disabled ==> !Selectable(d, today, shown, available, booked))
  {
  }

  /**
   * Which grid buttons are enabled: those of the displayed month that are today
   * or selectable. So today's cell in the displayed month stays enabled when it
   * is not listed (and then a click does nothing), while today's cell in an
   * adjacent month is disabled even when it is listed as available.
   */
  lemma EnabledCells(d: Date, today: Date, shown: YearMonth,
                     available: seq<string>, booked: seq<string>)
    requires CivilDate.Valid(d)
    ensures !RenderedDisabled(d, today, shown, available, booked)
            <==> d.month == shown.month && (d == today || Selectable(d, today, shown, available, booked))
    ensures (!RenderedDisabled(d, today, shown, available, booked) && !Selectable(d, today, shown, available, booked))
            <==> (d == today && d.month == shown.month && FormatDate(d) !in available)
    ensures (RenderedDisabled(d, today, shown, available, booked) && Selectable(d, today, shown, available, booked))
            <==> (d == today && d.month != shown.month && FormatDate(d) in available)
  {
  }

  /** Membership by string is membership by date: the lists are read as sets of dates. */
  lemma StatusDependsOnDatesOnly(d: Date, e: Date, today: Date, shown: YearMonth,
                                 available: seq<string>, booked: seq<string>)
    requires CivilDate.Valid(d) && CivilDate.Valid(e)
    ensures FormatDate(d) == FormatDate(e) ==>
      GetDateStatus(d, today, shown, available, booked) == GetDateStatus(e, today, shown, available, booked)
  {
    FormatDateInjective(d, e);
  }

  // ---------------------------------------------------------------------------
  // Lemmas: the month grid

  lemma GridParts(ym: YearMonth)
    requires ValidMonth(ym)
    ensures var f := FirstWeekday(ym);
      var n := DaysInMonth(ym.year, ym.month);
      var p := PrevMonth(ym);
      var x := NextMonth(ym);
      var g := MonthGrid(ym);
      && 0 <= f < 7 && f + n <= GridSize
      && (forall i :: 0 <= i < f ==> g[i] == Date(p.year, p.month, DaysInMonth(p.year, p.month) - f + 1 + i))
      && (forall i :: f <= i < f + n ==> g[i] == Date(ym.year, ym.month, i - f + 1))
      && (forall i :: f + n <= i < GridSize ==> g[i] == Date(x.year, x.month, i - f - n + 1))
  {
  }

  /** Every cell is a real calendar day, and day 1 of the month sits at index `FirstWeekday`. */
  lemma GridCellsValid(ym: YearMonth)
    requires ValidMonth(ym)
    ensures forall i :: 0 <= i < GridSize ==> CivilDate.Valid(MonthGrid(ym)[i])
    ensures MonthGrid(ym)[FirstWeekday(ym)] == Date(ym.year, ym.month, 1)
  {
    GridParts(ym);
  }

  /** The 42 cells are consecutive calendar days: no gaps, no repeats. */
  lemma GridConsecutive(ym: YearMonth)
    requires ValidMonth(ym)
    ensures forall i :: 0 <= i < GridSize - 1 ==>
      CivilDate.Valid(MonthGrid(ym)[i]) && MonthGrid(ym)[i + 1] == NextDay(MonthGrid(ym)[i])
  {
    GridParts(ym);
    GridCellsValid(ym);
    var g := MonthGrid(ym);
    var f := FirstWeekday(ym);
    var n := DaysInMonth(ym.year, ym.month);
    NextPrevInverse(ym);
    forall i | 0 <= i < GridSize - 1
      ensures g[i + 1] == NextDay(g[i])
    {
      if i == f - 1 {
        assert g[i] == LastDayOf(PrevMonth(ym));
      }
    }
  }

  /** Cell `i` lies on the day line `i` days after cell 0. */
  lemma {:induction false} GridDayNumbers(ym: YearMonth, i: nat)
    requires ValidMonth(ym) && i < GridSize
    ensures CivilDate.Valid(MonthGrid(ym)[i])
    ensures DayNumber(MonthGrid(ym)[i]) == DayNumber(MonthGrid(ym)[0]) + i
  {
    GridCellsValid(ym);
    if i > 0 {
      GridDayNumbers(ym, i - 1);
      GridConsecutive(ym);
      NextDayNumber(MonthGrid(ym)[i - 1]);
    }
  }

  lemma ModSevenShift(a: int, i: int)
    requires a % 7 == 0
    ensures (a + i) % 7 == i % 7
  {
  }

  /** A number whose remainder by 7 is `f` is `f` more than a multiple of 7. */
  lemma ModSevenCancel(b: int, f: int)
    requires 0 <= f < 7 && b % 7 == f
    ensures (b - f) % 7 == 0
  {
  }

  /** The grid is Sunday-first: the cell in column `i % 7` falls on weekday `i % 7`. */
  lemma GridWeekdays(ym: YearMonth)
    requires ValidMonth(ym)
    ensures forall i :: 0 <= i < GridSize ==>
      CivilDate.Valid(MonthGrid(ym)[i]) && Weekday(MonthGrid(ym)[i]) == i % 7
  {
    var g := MonthGrid(ym);
    var f := FirstWeekday(ym);
    GridCellsValid(ym);
    GridDayNumbers(ym, f);
    var a := DayNumber(g[0]) + 1;
    assert (a + f) % 7 == f;
    ModSevenCancel(a + f, f);
    forall i | 0 <= i < GridSize
      ensures Weekday(g[i]) == i % 7
    {
      GridDayNumbers(ym, i);
      ModSevenShift(a, i);
    }
  }

  /**
   * Comparing month numbers only, as the component does, is enough inside the
   * grid: a cell has the displayed month number exactly when it is a day of
   * the displayed month and year.
   */
  lemma GridMonthTest(ym: YearMonth)
    requires ValidMonth(ym)
    ensures forall i :: 0 <= i < GridSize ==>
      (MonthGrid(ym)[i].month == ym.month <==> MonthOf(MonthGrid(ym)[i]) == ym)
    ensures forall i :: 0 <= i < GridSize ==>
      (MonthOf(MonthGrid(ym)[i]) == ym <==>
        FirstWeekday(ym) <= i < FirstWeekday(ym) + DaysInMonth(ym.year, ym.month))
  {
    GridParts(ym);
  }

  /** The grid shows every day of the displayed month, and only real days. */
  lemma GridHasMonth(ym: YearMonth, d: Date)
    requires ValidMonth(ym) && MonthOf(d) == ym
    ensures d in MonthGrid(ym) <==> CivilDate.Valid(d)
  {
    GridParts(ym);
    GridCellsValid(ym);
    if CivilDate.Valid(d) {
      assert MonthGrid(ym)[FirstWeekday(ym) + d.day - 1] == d;
    }
  }

  /** February 2024 shows the 29th; February 2023 has no 29th to show. */
  lemma LeapFebruary()
    ensures Date(2024, 2, 29) in MonthGrid(YearMonth(2024, 2))
    ensures Date(2023, 2, 29) !in MonthGrid(YearMonth(2023, 2))
  {
    GridHasMonth(YearMonth(2024, 2), Date(2024, 2, 29));
    GridHasMonth(YearMonth(2023, 2), Date(2023, 2, 29));
  }

  /** Adjacent-month cells are disabled unless they are today, even when listed as available. */
  lemma AdjacentCellsDisabled(ym: YearMonth, today: Date, available: seq<string>, booked: seq<string>)
    requires ValidMonth(ym)
    ensures forall i :: 0 <= i < GridSize && MonthOf(MonthGrid(ym)[i]) != ym ==>
      CivilDate.Valid(MonthGrid(ym)[i])
      && RenderedDisabled(MonthGrid(ym)[i], today, ym, available, booked)
      && (MonthGrid(ym)[i] != today ==> GetDateStatus(MonthGrid(ym)[i], today, ym, available, booked) == Disabled)
  {
    GridCellsValid(ym);
    GridMonthTest(ym);
  }

  /** `2025-03-12` as the component formats it. */
  lemma FormatMarch12()
    ensures FormatDate(Date(2025, 3, 12)) == "2025-03-12"
  {
    assert Decimal(2) == "2";
    assert Decimal(20) == "20";
    assert Decimal(202) == "202";
    assert Decimal(2025) == "2025";
    assert Decimal(3) == "3";
    assert Decimal(12) == "12";
  }

  lemma FormatMarch15()
    ensures FormatDate(Date(2025, 3, 15)) == "2025-03-15"
  {
    assert Decimal(2) == "2";
    assert Decimal(20) == "20";
    assert Decimal(202) == "202";
    assert Decimal(2025) == "2025";
    assert Decimal(3) == "3";
    assert Decimal(15) == "15";
  }

  lemma FormatMarch20()
    ensures FormatDate(Date(2025, 3, 20)) == "2025-03-20"
  {
    assert Decimal(2) == "2";
    assert Decimal(20) == "20";
    assert Decimal(202) == "202";
    assert Decimal(2025) == "2025";
    assert Decimal(3) == "3";
  }

  /**
   * A week in March 2025 with today the 10th, the 12th and 20th available and
   * the 15th booked: the 12th is selected and reported as "2025-03-12"; the
   * booked 15th, today (not listed) and April 5 (in neither list) do nothing.
   */
  lemma MarchScenario()
    ensures var today, shown := Date(2025, 3, 10), YearMonth(2025, 3);
      var available, booked := ["2025-03-12", "2025-03-20"], ["2025-03-15"];
      && MonthOf(today) == shown
      && Selectable(Date(2025, 3, 12), today, shown, available, booked)
      && FormatDate(Date(2025, 3, 12)) == "2025-03-12"
      && !Selectable(Date(2025, 3, 15), today, shown, available, booked)
      && GetDateStatus(Date(2025, 3, 15), today, shown, available, booked) == Booked
      && GetDateStatus(Date(2025, 3, 10), today, shown, available, booked) == Today
      && !Selectable(Date(2025, 3, 10), today, shown, available, booked)
      && NextMonth(shown) == YearMonth(2025, 4)
      && !Selectable(Date(2025, 4, 5), today, NextMonth(shown), available, booked)
  {
    var d10, d12, d15, d20, a5 := Date(2025, 3, 10), Date(2025, 3, 12), Date(2025, 3, 15), Date(2025, 3, 20), Date(2025, 4, 5);
    FormatMarch12();
    FormatMarch15();
    FormatMarch20();
    FormatDateInjective(d12, d15);
    FormatDateInjective(d10, d12);
    FormatDateInjective(d10, d20);
    FormatDateInjective(a5, d12);
    FormatDateInjective(a5, d20);
  }

  /** Year rollover both ways: December 2025 is followed by January 2026, January 2025 preceded by December 2024. */
  lemma MonthRollover()
    ensures NextMonth(YearMonth(2025, 12)) == YearMonth(2026, 1)
    ensures PrevMonth(YearMonth(2025, 1)) == YearMonth(2024, 12)
  {
  }
}

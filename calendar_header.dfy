/**
 * The calendar header: the two navigation buttons (which swap their
 * directions in a right-to-left locale) and when they are disabled, and the
 * month and year quick-jump menus.
 */
module CalendarHeader {
  import opened Wrappers
  import opened DateFns
  import opened DateUtils
  import opened Calendar

  // ---------------------------------------------------------------------
  // Year menu

  /** The year menu lists the 21 years from ten before the shown year to ten after it, in order. */
  function YearOptions(current: Date): (r: seq<int>)
    ensures |r| == 21 && r[0] == Year(current) - 10 && r[20] == Year(current) + 10
    ensures forall i :: 0 <= i < 20 ==> r[i + 1] == r[i] + 1
  {
    seq(21, i => Year(current) - 10 + i)
  }

  /** Exactly one year option is marked selected: the middle one, the shown year. */
  lemma OneYearSelected(current: Date)
    ensures forall i :: 0 <= i < 21 ==> (YearOptions(current)[i] == Year(current) <==> i == 10)
  {
  }

  /** The month option at `index` (0 is January) is marked selected when it is the shown month. */
  predicate MonthOptionSelected(current: Date, index: int)
  {
    index == Month(current) - 1
  }

  // ---------------------------------------------------------------------
  // Navigation buttons

  /** The first (leading) and second (trailing) navigation buttons. */
  datatype Button = PrevButton | NextButton

  /** The direction a button navigates: the leading button goes back, except in a right-to-left locale, where the two swap. */
  function ButtonDirection(button: Button, rtl: bool): (r: NavigationDirection)
    ensures !rtl ==> (r == Prev <==> button == PrevButton)
    ensures rtl ==> (r == Prev <==> button == NextButton)
  {
    match button
    case PrevButton => if rtl then Next else Prev
    case NextButton => if rtl then Prev else Next
  }

  /** In either direction the two buttons navigate opposite ways. */
  lemma ButtonsNavigateOppositeWays(rtl: bool)
    ensures ButtonDirection(PrevButton, rtl) != ButtonDirection(NextButton, rtl)
  {
  }

  /** The back button is disabled when the shown month is no later than the month of `minDate`, comparing year and month separately. */
  predicate IsPrevDisabledAsWritten(current: Date, minDate: Option<Date>)
  {
    minDate.Some? && Year(current) <= Year(minDate.value) && Month(current) - 1 <= Month(minDate.value) - 1
  }

  /** The forward button is disabled when the shown month is no earlier than the month of `maxDate`, comparing year and month separately. */
  predicate IsNextDisabledAsWritten(current: Date, maxDate: Option<Date>)
  {
    maxDate.Some? && Year(current) >= Year(maxDate.value) && Month(current) - 1 >= Month(maxDate.value) - 1
  }

  /** Each button is disabled by the flag for the direction it is drawn for, whatever way it navigates. */
  predicate ButtonDisabledAsWritten(button: Button, current: Date, minDate: Option<Date>, maxDate: Option<Date>)
  {
    match button
    case PrevButton => IsPrevDisabledAsWritten(current, minDate)
    case NextButton => IsNextDisabledAsWritten(current, maxDate)
  }

  /** Going back is disabled when the shown month is no later than the month of `minDate`. */
  predicate IsPrevDisabled(current: Date, minDate: Option<Date>)
  {
    minDate.Some? && MonthIndex(current) <= MonthIndex(minDate.value)
  }

  /** Going forward is disabled when the shown month is no earlier than the month of `maxDate`. */
  predicate IsNextDisabled(current: Date, maxDate: Option<Date>)
  {
    maxDate.Some? && MonthIndex(current) >= MonthIndex(maxDate.value)
  }

  /** A button is disabled by the flag for the direction it actually navigates. */
  predicate ButtonDisabled(button: Button, rtl: bool, current: Date, minDate: Option<Date>, maxDate: Option<Date>)
  {
    match ButtonDirection(button, rtl)
    case Prev => IsPrevDisabled(current, minDate)
    case Next => IsNextDisabled(current, maxDate)
  }

  /** The shown month lies within the months of `minDate` and `maxDate`, where given. */
  predicate InBounds(month: Date, minDate: Option<Date>, maxDate: Option<Date>)
  {
    (minDate.None? || MonthIndex(minDate.value) <= MonthIndex(month)) &&
    (maxDate.None? || MonthIndex(month) <= MonthIndex(maxDate.value))
  }

  /** The year-and-month comparison only disables a button the month comparison disables too. */
  lemma AsWrittenDisablesLess(current: Date, minDate: Option<Date>, maxDate: Option<Date>)
    ensures IsPrevDisabledAsWritten(current, minDate) ==> IsPrevDisabled(current, minDate)
    ensures IsNextDisabledAsWritten(current, maxDate) ==> IsNextDisabled(current, maxDate)
    ensures minDate.Some? && Year(current) == Year(minDate.value) ==>
              (IsPrevDisabledAsWritten(current, minDate) <==> IsPrevDisabled(current, minDate))
    ensures maxDate.Some? && Year(current) == Year(maxDate.value) ==>
              (IsNextDisabledAsWritten(current, maxDate) <==> IsNextDisabled(current, maxDate))
  {
  }

  /**
   * Shown a month of an earlier year than `minDate` but of a later month of
   * the year (August 2023 against June 2024, say), the back button is enabled
   * although the shown month is already before the minimum, and its step goes
   * further back.
   */
  lemma PrevEnabledBeforeMinimum(current: Date, minDate: Date)
    requires Year(current) < Year(minDate) && Month(current) > Month(minDate)
    ensures !IsPrevDisabledAsWritten(current, Some(minDate)) && IsPrevDisabled(current, Some(minDate))
    ensures MonthIndex(StepMonth(current, Prev)) < MonthIndex(minDate)
  {
  }

  /**
   * Shown a month of a later year than `maxDate` but of an earlier month of
   * the year (March 2025 against June 2024, say), the forward button is
   * enabled although the shown month is already after the maximum.
   */
  lemma NextEnabledAfterMaximum(current: Date, maxDate: Date)
    requires Year(current) > Year(maxDate) && Month(current) < Month(maxDate)
    ensures !IsNextDisabledAsWritten(current, Some(maxDate)) && IsNextDisabled(current, Some(maxDate))
    ensures MonthIndex(StepMonth(current, Next)) > MonthIndex(maxDate)
  {
  }

  /**
   * Right to left, shown the month of `maxDate` with no minimum, the leading
   * button is enabled and steps past the maximum, while the trailing button,
   * whose step back stays within the bounds, is disabled.
   */
  lemma RightToLeftButtonsSwapLimits(current: Date)
    ensures !ButtonDisabledAsWritten(PrevButton, current, None, Some(current))
    ensures !InBounds(StepMonth(current, ButtonDirection(PrevButton, true)), None, Some(current))
    ensures ButtonDisabledAsWritten(NextButton, current, None, Some(current))
    ensures InBounds(StepMonth(current, ButtonDirection(NextButton, true)), None, Some(current))
  {
  }

  /**
   * From a month within the bounds, a button is disabled exactly when its
   * step would leave them, in either direction of writing.
   */
  lemma ButtonDisabledIffStepLeaves(button: Button, rtl: bool, current: Date, minDate: Option<Date>, maxDate: Option<Date>)
    requires InBounds(current, minDate, maxDate)
    ensures ButtonDisabled(button, rtl, current, minDate, maxDate) <==>
            !InBounds(StepMonth(current, ButtonDirection(button, rtl)), minDate, maxDate)
  {
  }

  /** Corrected, going back is disabled exactly when the month stepped to would be before the month of `minDate`. */
  lemma PrevDisabledIffStepBelowMinimum(current: Date, minDate: Date)
    ensures IsPrevDisabled(current, Some(minDate)) <==> MonthIndex(StepMonth(current, Prev)) < MonthIndex(minDate)
  {
  }

  /** Corrected, going forward is disabled exactly when the month stepped to would be after the month of `maxDate`. */
  lemma NextDisabledIffStepAboveMaximum(current: Date, maxDate: Date)
    ensures IsNextDisabled(current, Some(maxDate)) <==> MonthIndex(StepMonth(current, Next)) > MonthIndex(maxDate)
  {
  }

  /** Left to right, and when year and month compare the same way as the month does, the corrected flags are the written ones. */
  lemma LeftToRightAgrees(button: Button, current: Date, minDate: Option<Date>, maxDate: Option<Date>)
    requires minDate.Some? ==> Year(current) == Year(minDate.value)
    requires maxDate.Some? ==> Year(current) == Year(maxDate.value)
    ensures ButtonDisabled(button, false, current, minDate, maxDate) == ButtonDisabledAsWritten(button, current, minDate, maxDate)
  {
  }

  // ---------------------------------------------------------------------
  // Quick-jump menus

  class HeaderMenus {
    /** Whether the month and year labels open their menus. */
    const showQuickJumper: bool
    var monthMenuOpen: bool
    var yearMenuOpen: bool

    /** A menu is only ever open when quick jumping is on. */
    predicate Valid()
      reads this
    {
      (monthMenuOpen || yearMenuOpen) ==> showQuickJumper
    }

    constructor(showQuickJumper: bool)
      ensures Valid()
      ensures this.showQuickJumper == showQuickJumper && !monthMenuOpen && !yearMenuOpen
    {
      this.showQuickJumper := showQuickJumper;
      monthMenuOpen := false;
      yearMenuOpen := false;
    }

    /** A click on the month label opens the month menu when quick jumping is on. */
    method MonthClick()
      requires Valid()
      modifies this
      ensures Valid()
      ensures monthMenuOpen == (old(monthMenuOpen) || showQuickJumper) && yearMenuOpen == old(yearMenuOpen)
    {
      if showQuickJumper {
        monthMenuOpen := true;
      }
    }

    /** A click on the year label opens the year menu when quick jumping is on. */
    method YearClick()
      requires Valid()
      modifies this
      ensures Valid()
      ensures yearMenuOpen == (old(yearMenuOpen) || showQuickJumper) && monthMenuOpen == old(monthMenuOpen)
    {
      if showQuickJumper {
        yearMenuOpen := true;
      }
    }

    /**
     * Choosing month `index` (0 is January) reports the shown date moved to
     * that month of the same year, the day clamped to the month's length, and
     * closes the month menu.
     */
    method MonthSelect(current: Date, index: int) returns (reported: Date)
      requires Valid()
      modifies this
      ensures Valid()
      ensures 0 <= index < 12 ==> Year(reported) == Year(current) && MonthOptionSelected(reported, index)
      ensures DayOfMonth(reported) == Min(DayOfMonth(current), DaysInMonth(Year(reported), Month(reported)))
      ensures reported.ms == current.ms
      ensures !monthMenuOpen && yearMenuOpen == old(yearMenuOpen)
    {
      reported := SetMonth(current, index);
      monthMenuOpen := false;
    }

    /**
     * Choosing `year` reports the shown date moved to that year, month and
     * day kept (February 29 runs into March 1 in a common year), and closes
     * the year menu.
     */
    method YearSelect(current: Date, year: int) returns (reported: Date)
      requires Valid()
      modifies this
      ensures Valid()
      ensures Year(reported) == year && reported.ms == current.ms
      ensures ValidCivil(Civil(year, Month(current), DayOfMonth(current))) ==>
                Month(reported) == Month(current) && DayOfMonth(reported) == DayOfMonth(current)
      ensures !ValidCivil(Civil(year, Month(current), DayOfMonth(current))) ==>
                Month(current) == 2 && DayOfMonth(current) == 29 && Month(reported) == 3 && DayOfMonth(reported) == 1
      ensures !yearMenuOpen && monthMenuOpen == old(monthMenuOpen)
    {
      reported := SetYear(current, year);
      yearMenuOpen := false;
    }

    method CloseMonthMenu()
      requires Valid()
      modifies this
      ensures Valid()
      ensures !monthMenuOpen && yearMenuOpen == old(yearMenuOpen)
    {
      monthMenuOpen := false;
    }

    method CloseYearMenu()
      requires Valid()
      modifies this
      ensures Valid()
      ensures !yearMenuOpen && monthMenuOpen == old(monthMenuOpen)
    {
      yearMenuOpen := false;
    }
  }
}

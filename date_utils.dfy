/**
 * The range and day algebra of the picker: the month grid, the range
 * predicates, the disabled-date policy, the state of one calendar cell,
 * range equality, normalisation and formatting.
 */
module DateUtils {
  import opened Wrappers
  import opened DateFns
  import opened Types

  // ---------------------------------------------------------------------
  // The month grid

  /** The first day the grid for `month` shows. */
  function GridStart(month: Date, weekStartsOn: Weekday): Date
  {
    StartOfWeek(StartOfMonth(month), weekStartsOn)
  }

  /** The last moment the grid for `month` shows. */
  function GridEnd(month: Date, weekStartsOn: Weekday): Date
  {
    EndOfWeek(EndOfMonth(month), weekStartsOn)
  }

  /** Every day from the start of the week holding the month's first day to the end of the week holding its last. */
  function GetCalendarDays(month: Date, weekStartsOn: Weekday): (days: seq<Date>)
    ensures |days| % 7 == 0 && |days| > 0
    ensures GetDay(days[0]) == weekStartsOn
    ensures forall i :: 0 <= i < |days| ==> days[i].day == days[0].day + i
  {
    GridIsConsecutive(month, weekStartsOn);
    EachDayOfInterval(GridStart(month, weekStartsOn), GridEnd(month, weekStartsOn))
  }

  /** The grid lists consecutive days, each at its first moment, from the grid's first to its last day. */
  lemma GridIsConsecutive(month: Date, weekStartsOn: Weekday)
    ensures var days := EachDayOfInterval(GridStart(month, weekStartsOn), GridEnd(month, weekStartsOn));
            && |days| == GridEnd(month, weekStartsOn).day - GridStart(month, weekStartsOn).day + 1
            && |days| % 7 == 0
            && (forall i :: 0 <= i < |days| ==> days[i] == Date(GridStart(month, weekStartsOn).day + i, 0))
  {
    var s, e := GridStart(month, weekStartsOn), GridEnd(month, weekStartsOn);
    assert !IsAfter(s, e) by {
      var first, last := StartOfMonth(month), EndOfMonth(month);
      assert s.day <= first.day <= last.day <= e.day;
    }
    assert (e.day - s.day + 1) % 7 == 0 by {
      WholeWeeksBetween(StartOfWeek(EndOfMonth(month), weekStartsOn), s, e);
    }
  }

  /** From a week's first day to the last moment of a week that starts a whole number of weeks later lie whole weeks. */
  lemma WholeWeeksBetween(w: Date, s: Date, e: Date)
    requires GetDay(w) == GetDay(s) && e.day == w.day + 6
    ensures (e.day - s.day + 1) % 7 == 0
  {
    SameWeekdayWholeWeeks(w, s);
  }

  /** The grid shows every day of its month, each exactly once and at its first moment. */
  lemma GridCoversMonth(month: Date, weekStartsOn: Weekday, d: Date)
    requires IsSameMonth(d, month)
    ensures var days := GetCalendarDays(month, weekStartsOn);
            exists i :: 0 <= i < |days| && days[i] == StartOfDay(d)
  {
    var days := GetCalendarDays(month, weekStartsOn);
    GridIsConsecutive(month, weekStartsOn);
    SameMonthIffWithinMonth(d, month);
    var i := d.day - GridStart(month, weekStartsOn).day;
    assert days[i] == StartOfDay(d);
  }

  /** A grid cell lies outside the month exactly when it comes before the month's first day or after its last. */
  lemma GridSpillover(month: Date, weekStartsOn: Weekday, i: int)
    requires 0 <= i < |GetCalendarDays(month, weekStartsOn)|
    ensures var days := GetCalendarDays(month, weekStartsOn);
            var lead := StartOfMonth(month).day - GridStart(month, weekStartsOn).day;
            && 0 <= lead < 7
            && (!IsSameMonth(days[i], month) <==> i < lead || i >= lead + DaysInMonth(Year(month), Month(month)))
  {
    GridIsConsecutive(month, weekStartsOn);
    SameMonthIffWithinMonth(GetCalendarDays(month, weekStartsOn)[i], month);
  }

  /** A month view never needs more than six rows of seven days, nor fewer than four. */
  lemma GridAtMostSixWeeks(month: Date, weekStartsOn: Weekday)
    ensures 28 <= |GetCalendarDays(month, weekStartsOn)| <= 42
  {
    var first, last := StartOfMonth(month), EndOfMonth(month);
    var s, e := GridStart(month, weekStartsOn), GridEnd(month, weekStartsOn);
    var n := |GetCalendarDays(month, weekStartsOn)|;
    assert n == e.day - s.day + 1 && n % 7 == 0 by {
      GridIsConsecutive(month, weekStartsOn);
    }
    assert 28 <= last.day - first.day + 1 <= 31;
    assert first.day - 6 <= s.day <= first.day && last.day <= e.day <= last.day + 6;
    WholeWeeksBound(n, last.day - first.day + 1);
  }

  /** A whole number of weeks that spans a month and less than a week on either side is four to six weeks. */
  lemma WholeWeeksBound(n: int, len: int)
    requires n % 7 == 0 && len <= n <= len + 12 && 28 <= len <= 31
    ensures 28 <= n <= 42
  {
  }

  // ---------------------------------------------------------------------
  // Range predicates

  /** Whether `date` falls from the first moment of the start day to the last moment of the end day. */
  function IsDateInRange(date: Date, range: DateRange): (r: bool)
    ensures range.startDate.None? || range.endDate.None? ==> !r
    ensures range.startDate.Some? && range.endDate.Some? && range.startDate.value.day <= range.endDate.value.day ==>
              (r <==> range.startDate.value.day <= date.day <= range.endDate.value.day)
    ensures range.startDate.Some? && range.endDate.Some? && range.startDate.value.day > range.endDate.value.day ==>
              (r <==> || (date.day == range.endDate.value.day && date.ms == LastMs)
                      || range.endDate.value.day < date.day < range.startDate.value.day
                      || (date.day == range.startDate.value.day && date.ms == 0))
  {
    if range.startDate.None? || range.endDate.None? then false
    else IsWithinInterval(date, StartOfDay(range.startDate.value), EndOfDay(range.endDate.value))
  }

  /** Membership in a range depends on the days of its bounds only, never on their time of day. */
  lemma InRangeIgnoresTimeOfDay(date: Date, a: DateRange, b: DateRange)
    requires DayBounds(a) == DayBounds(b)
    ensures IsDateInRange(date, a) == IsDateInRange(date, b)
  {
    if a.startDate.Some? && a.endDate.Some? {
      assert a.startDate.value.day == b.startDate.value.day;
      assert a.endDate.value.day == b.endDate.value.day;
    }
  }

  /** Whether `date` falls on the day of the range's start. */
  function IsRangeStart(date: Date, range: DateRange): bool
  {
    if range.startDate.None? then false else IsSameDay(date, range.startDate.value)
  }

  /** Whether `date` falls on the day of the range's end. */
  function IsRangeEnd(date: Date, range: DateRange): bool
  {
    if range.endDate.None? then false else IsSameDay(date, range.endDate.value)
  }

  /** Whether `date` falls on the day of either bound. */
  function IsDateSelected(date: Date, range: DateRange): bool
  {
    IsRangeStart(date, range) || IsRangeEnd(date, range)
  }

  /** The endpoints of an ordered range lie in the range, and on a single-day range one day is both endpoints. */
  lemma EndpointsInRange(date: Date, range: DateRange)
    requires range.startDate.Some? && range.endDate.Some?
    requires range.startDate.value.day <= range.endDate.value.day
    ensures IsDateSelected(date, range) ==> IsDateInRange(date, range)
    ensures IsSameDay(range.startDate.value, range.endDate.value) ==>
              (IsRangeStart(date, range) <==> IsRangeEnd(date, range))
  {
  }

  // ---------------------------------------------------------------------
  // The disabled-date policy

  /** Whether some entry of `dates` falls on the day of `date`. */
  function SomeSameDay(dates: seq<Date>, date: Date): (r: bool)
    ensures r <==> exists i :: 0 <= i < |dates| && dates[i].day == date.day
  {
    exists i | 0 <= i < |dates| :: IsSameDay(date, dates[i])
  }

  /** Whether a calendar refuses `date`: before the minimum's day, after the maximum's, a listed day, or a listed weekday. */
  function IsDateDisabled(date: Date, policy: DisablePolicy): (r: bool)
    ensures r <==> || (policy.minDate.Some? && date.day < policy.minDate.value.day)
                   || (policy.maxDate.Some? && date.day > policy.maxDate.value.day)
                   || (exists i :: 0 <= i < |policy.disabledDates| && policy.disabledDates[i].day == date.day)
                   || GetDay(date) in policy.disabledDaysOfWeek
  {
    if policy.minDate.Some? && IsBefore(date, StartOfDay(policy.minDate.value)) then true
    else if policy.maxDate.Some? && IsAfter(date, EndOfDay(policy.maxDate.value)) then true
    else if SomeSameDay(policy.disabledDates, date) then true
    else if GetDay(date) in policy.disabledDaysOfWeek then true
    else false
  }

  /** Whether a date is refused depends on its day only, and with no options set nothing is refused. */
  lemma DisabledIsPerDay(a: Date, b: Date, policy: DisablePolicy)
    requires IsSameDay(a, b)
    ensures IsDateDisabled(a, policy) == IsDateDisabled(b, policy)
    ensures !IsDateDisabled(a, NoRestrictions)
  {
  }

  // ---------------------------------------------------------------------
  // The state of one calendar cell

  /** Whether a start has been chosen, no end yet, and the pointer rests on a day. */
  predicate IsPreviewing(value: DateRange, hoveredDate: Option<Date>)
  {
    value.startDate.Some? && value.endDate.None? && hoveredDate.Some?
  }

  /** The range a cell is drawn against: the preview from the chosen start to the hovered day, or the value. */
  function EffectiveRange(value: DateRange, hoveredDate: Option<Date>): (r: DateRange)
    ensures !IsPreviewing(value, hoveredDate) ==> r == value
    ensures IsPreviewing(value, hoveredDate) ==>
              && r.startDate.Some? && r.endDate.Some? && !IsAfter(r.startDate.value, r.endDate.value)
              && multiset{r.startDate.value, r.endDate.value} == multiset{value.startDate.value, hoveredDate.value}
  {
    if IsPreviewing(value, hoveredDate) then
      var isHoveredAfterStart := IsAfter(hoveredDate.value, value.startDate.value);
      DateRange(
        if isHoveredAfterStart then value.startDate else hoveredDate,
        if isHoveredAfterStart then hoveredDate else value.startDate)
    else
      value
  }

  /** The preview range is the normalised range from the chosen start to the hovered day. */
  lemma PreviewIsNormalized(value: DateRange, hoveredDate: Option<Date>)
    requires IsPreviewing(value, hoveredDate)
    ensures EffectiveRange(value, hoveredDate) == NormalizeRange(DateRange(value.startDate, hoveredDate))
  {
    var s, h := value.startDate.value, hoveredDate.value;
    if !IsAfter(h, s) && !IsAfter(s, h) {
      assert s == h;
    }
  }

  /**
   * The state of the cell for `date` in the view of `currentMonth`.  `now` is
   * the current moment, which the library reads from the clock.
   */
  function GetDayState(date: Date, currentMonth: Date, value: DateRange, hoveredDate: Option<Date>,
                       policy: DisablePolicy, now: Date): (r: DayState)
    ensures r.date == date
    ensures r.isToday <==> date.day == now.day
    ensures r.isWeekend <==> GetDay(date) == 0 || GetDay(date) == 6
    ensures r.isOutsideMonth <==> MonthIndex(date) != MonthIndex(currentMonth)
    ensures r.isDisabled == IsDateDisabled(date, policy)
    ensures r.isSelected <==> || (value.startDate.Some? && value.startDate.value.day == date.day)
                              || (value.endDate.Some? && value.endDate.value.day == date.day)
    ensures !IsPreviewing(value, hoveredDate) ==>
              && r.isInRange == IsDateInRange(date, value)
              && r.isRangeStart == IsRangeStart(date, value)
              && r.isRangeEnd == IsRangeEnd(date, value)
    ensures IsPreviewing(value, hoveredDate) ==>
              var s, h := value.startDate.value, hoveredDate.value;
              var lo, hi := if IsAfter(h, s) then s else h, if IsAfter(h, s) then h else s;
              && (r.isInRange <==> lo.day <= date.day <= hi.day)
              && (r.isRangeStart <==> date.day == lo.day)
              && (r.isRangeEnd <==> date.day == hi.day)
  {
    var effectiveRange := EffectiveRange(value, hoveredDate);
    SameMonthIsSameIndex(date, currentMonth);
    DayState(
      date := date,
      isToday := IsSameDay(date, now),
      isSelected := IsDateSelected(date, value),
      isRangeStart := IsRangeStart(date, effectiveRange),
      isRangeEnd := IsRangeEnd(date, effectiveRange),
      isInRange := IsDateInRange(date, effectiveRange),
      isDisabled := IsDateDisabled(date, policy),
      isOutsideMonth := !IsSameMonth(date, currentMonth),
      isWeekend := IsWeekend(date))
  }

  /** Whether a cell is today, a weekend, disabled or outside the month does not depend on the range or the pointer. */
  lemma DayStateFlagsIgnoreRange(date: Date, month: Date, v1: DateRange, h1: Option<Date>,
                                 v2: DateRange, h2: Option<Date>, policy: DisablePolicy, now: Date)
    ensures var a, b := GetDayState(date, month, v1, h1, policy, now), GetDayState(date, month, v2, h2, policy, now);
            a.isToday == b.isToday && a.isWeekend == b.isWeekend
            && a.isDisabled == b.isDisabled && a.isOutsideMonth == b.isOutsideMonth
  {
  }

  // ---------------------------------------------------------------------
  // Formatting

  /** The display text of a range, `format` standing for the library's formatting with the pattern and locale. */
  function FormatDateRange(range: DateRange, format: Date -> string): (r: string)
    ensures range.startDate.None? ==> r == ""
    ensures range.startDate.Some? && range.endDate.None? ==> r == format(range.startDate.value)
    ensures range.startDate.Some? && range.endDate.Some? ==>
              r == format(range.startDate.value) + " - " + format(range.endDate.value)
  {
    if range.startDate.None? && range.endDate.None? then ""
    else if range.startDate.Some? && range.endDate.Some? then
      format(range.startDate.value) + " - " + format(range.endDate.value)
    else if range.startDate.Some? then format(range.startDate.value)
    else ""
  }

  // ---------------------------------------------------------------------
  // Navigation

  function GetPrevMonth(date: Date): (r: Date)
    ensures MonthIndex(r) == MonthIndex(date) - 1 && r.ms == date.ms
    ensures DayOfMonth(r) == Min(DayOfMonth(date), DaysInMonth(Year(r), Month(r)))
  {
    SubMonths(date, 1)
  }

  function GetNextMonth(date: Date): (r: Date)
    ensures MonthIndex(r) == MonthIndex(date) + 1 && r.ms == date.ms
    ensures DayOfMonth(r) == Min(DayOfMonth(date), DaysInMonth(Year(r), Month(r)))
  {
    AddMonths(date, 1)
  }

  function GetPrevDay(date: Date): (r: Date)
    ensures r.day == date.day - 1 && r.ms == date.ms
  {
    SubDays(date, 1)
  }

  function GetNextDay(date: Date): (r: Date)
    ensures r.day == date.day + 1 && r.ms == date.ms
  {
    AddDays(date, 1)
  }

  function GetPrevWeek(date: Date): (r: Date)
    ensures r.day == date.day - 7 && r.ms == date.ms && GetDay(r) == GetDay(date)
  {
    SubDays(date, 7)
  }

  function GetNextWeek(date: Date): (r: Date)
    ensures r.day == date.day + 7 && r.ms == date.ms && GetDay(r) == GetDay(date)
  {
    AddDays(date, 7)
  }

  /** The first moment of the current day, `now` being the moment the clock reads. */
  function GetToday(now: Date): (r: Date)
    ensures IsSameDay(r, now) && r.ms == 0
  {
    StartOfDay(now)
  }

  /** Stepping a day or a week back and forth again returns the same moment. */
  lemma DayAndWeekStepsInvert(date: Date)
    ensures GetNextDay(GetPrevDay(date)) == date && GetPrevDay(GetNextDay(date)) == date
    ensures GetNextWeek(GetPrevWeek(date)) == date && GetPrevWeek(GetNextWeek(date)) == date
  {
  }

  /**
   * Stepping a month back and forth again returns to the same month, and to the
   * same moment when the day of month exists in the month stepped to.
   */
  lemma MonthStepsInvert(date: Date)
    ensures IsSameMonth(GetNextMonth(GetPrevMonth(date)), date)
    ensures DayOfMonth(date) <= DaysInMonth(Year(GetPrevMonth(date)), Month(GetPrevMonth(date))) ==>
              GetNextMonth(GetPrevMonth(date)) == date
  {
    var p := GetPrevMonth(date);
    var q := GetNextMonth(p);
    SameMonthIsSameIndex(q, date);
    if DayOfMonth(date) <= DaysInMonth(Year(p), Month(p)) {
      assert DayOfMonth(q) == DayOfMonth(date);
      DateFromFields(q, date);
    }
  }

  // ---------------------------------------------------------------------
  // Comparing and normalising ranges

  /** The days of a range's bounds, the time of day dropped. */
  function DayBounds(range: DateRange): (Option<int>, Option<int>)
  {
    (if range.startDate.Some? then Some(range.startDate.value.day) else None,
     if range.endDate.Some? then Some(range.endDate.value.day) else None)
  }

  /** Two ranges are equal when each bound is missing in both or falls on the same day in both. */
  function AreRangesEqual(a: DateRange, b: DateRange): (r: bool)
    ensures r <==> DayBounds(a) == DayBounds(b)
  {
    var startEqual :=
      (a.startDate.None? && b.startDate.None?) ||
      (a.startDate.Some? && b.startDate.Some? && IsSameDay(a.startDate.value, b.startDate.value));
    var endEqual :=
      (a.endDate.None? && b.endDate.None?) ||
      (a.endDate.Some? && b.endDate.Some? && IsSameDay(a.endDate.value, b.endDate.value));
    startEqual && endEqual
  }

  /** Range equality is an equivalence that ignores the time of day and never matches a missing bound with a present one. */
  lemma RangeEqualityIsEquivalence(a: DateRange, b: DateRange, c: DateRange)
    ensures AreRangesEqual(a, a)
    ensures AreRangesEqual(a, b) == AreRangesEqual(b, a)
    ensures AreRangesEqual(a, b) && AreRangesEqual(b, c) ==> AreRangesEqual(a, c)
    ensures AreRangesEqual(a, b) ==> a.startDate.Some? == b.startDate.Some? && a.endDate.Some? == b.endDate.Some?
  {
  }

  /** Moving either bound within its day leaves a range equal to what it was. */
  lemma RangeEqualityIgnoresTimeOfDay(s: Date, e: Date, s': Date, e': Date)
    requires IsSameDay(s, s') && IsSameDay(e, e')
    ensures AreRangesEqual(DateRange(Some(s), Some(e)), DateRange(Some(s'), Some(e')))
    ensures AreRangesEqual(DateRange(Some(s), None), DateRange(Some(s'), None))
    ensures !AreRangesEqual(DateRange(Some(s), None), DateRange(Some(s'), Some(e')))
  {
  }

  /** Whether a range with both bounds has its start no later than its end. */
  predicate IsOrdered(range: DateRange)
  {
    range.startDate.Some? && range.endDate.Some? ==> !IsAfter(range.startDate.value, range.endDate.value)
  }

  /** The range with its bounds swapped when the start is later than the end; a partial range is kept. */
  function NormalizeRange(range: DateRange): (r: DateRange)
    ensures IsOrdered(r)
    ensures range.startDate.None? || range.endDate.None? ==> r == range
    ensures range.startDate.Some? && range.endDate.Some? ==>
              (if IsAfter(range.startDate.value, range.endDate.value)
               then r == DateRange(range.endDate, range.startDate)
               else r == range)
  {
    if range.startDate.None? || range.endDate.None? then range
    else if IsAfter(range.startDate.value, range.endDate.value) then
      DateRange(range.endDate, range.startDate)
    else range
  }

  /** Normalising twice is normalising once, and an ordered range is left as it is. */
  lemma NormalizeIdempotent(range: DateRange)
    ensures NormalizeRange(NormalizeRange(range)) == NormalizeRange(range)
    ensures IsOrdered(range) ==> NormalizeRange(range) == range
  {
  }

  // ---------------------------------------------------------------------
  // Worked examples

  /** Monday 2024-01-15 is enabled when weekends are off, and disabled when the minimum is the 16th. */
  lemma DisabledExample()
    ensures var jan15 := Date(DayNumber(2024, 1, 15), 0);
            GetDay(jan15) == 1 &&
            !IsDateDisabled(jan15, DisablePolicy(None, None, [], [0, 6])) &&
            IsDateDisabled(jan15, DisablePolicy(Some(Date(DayNumber(2024, 1, 16), 0)), None, [], [0, 6]))
  {
    assert JanFirst(2024) == 19723;
  }
}

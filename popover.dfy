/**
 * The popover's pending selection: the range being picked (`tempValue`), the
 * hovered day, and the first month shown (`baseMonth`), together with the rules
 * that decide when a selection is reported to the picker and when the popover
 * closes.  Each handler returns what it reports and whether it asks to close,
 * in place of calling `onChange` and `onClose`.
 */
module Popover {
  import opened Wrappers
  import opened DateFns
  import opened Types
  import opened DateUtils
  import opened Seqs
  import opened PresetList

  /** The number of calendars shown side by side: one, two or three. */
  type CalendarCount = n: int | 1 <= n <= 3 witness 1

  /** The popover's options; the defaults are two calendars, action buttons, no auto-apply, no close-on-select. */
  datatype Config = Config(
    autoApply: bool,
    closeOnSelect: bool,
    showActionButtons: bool,
    calendars: CalendarCount,
    direction: Direction,
    policy: DisablePolicy)

  const DefaultConfig: Config := Config(false, false, true, 2, Ltr, NoRestrictions)

  // ---------------------------------------------------------------------
  // The selection rules

  /** A click starts a new selection when nothing is started yet or the last one is complete. */
  predicate StartsNewSelection(temp: DateRange)
  {
    temp.startDate.None? || temp.endDate.Some?
  }

  /** The pending range after a click on `date`. */
  function NextSelection(temp: DateRange, date: Date): DateRange
  {
    if StartsNewSelection(temp) then DateRange(Some(date), None)
    else NormalizeRange(DateRange(temp.startDate, Some(date)))
  }

  /** Whether a click reports the new pending range: a first click only with auto-apply. */
  predicate ClickReports(c: Config, temp: DateRange)
  {
    if StartsNewSelection(temp) then c.autoApply
    else c.autoApply || (c.closeOnSelect && !c.showActionButtons)
  }

  /** Whether a click closes the popover: only a completing click, and only under close-on-select. */
  predicate ClickCloses(c: Config, temp: DateRange)
  {
    !StartsNewSelection(temp) &&
    ((c.autoApply && c.closeOnSelect) || (!c.autoApply && c.closeOnSelect && !c.showActionButtons))
  }

  /** Whether choosing a preset reports its range at once. */
  predicate PresetReports(c: Config)
  {
    c.autoApply || !c.showActionButtons
  }

  predicate PresetCloses(c: Config)
  {
    PresetReports(c) && c.closeOnSelect
  }

  /** What the auto-apply effect reports when the pending range changes: a complete range, under auto-apply. */
  function AutoApplyReport(c: Config, temp: DateRange): (r: Option<DateRange>)
    ensures r.Some? <==> c.autoApply && temp.startDate.Some? && temp.endDate.Some?
    ensures r.Some? ==> r.value == temp
  {
    if c.autoApply && temp.startDate.Some? && temp.endDate.Some? then Some(temp) else None
  }

  /** Two days bound a range in either order when each is its start or its end. */
  predicate BoundedBy(r: DateRange, a: Date, b: Date)
  {
    r.startDate.Some? && r.endDate.Some? &&
    multiset{r.startDate.value, r.endDate.value} == multiset{a, b}
  }

  /**
   * A click either starts a new selection at the clicked day, or completes the
   * started one: the result then has both bounds, in order, the started day and
   * the clicked day being its two bounds, and holds both days.  Either way a
   * start is picked afterwards.
   */
  lemma ClickStartsOrCompletes(temp: DateRange, date: Date)
    ensures NextSelection(temp, date).startDate.Some?
    ensures StartsNewSelection(temp) ==> NextSelection(temp, date) == DateRange(Some(date), None)
    ensures !StartsNewSelection(temp) ==>
              var r := NextSelection(temp, date);
              BoundedBy(r, temp.startDate.value, date) && IsOrdered(r) &&
              IsDateInRange(temp.startDate.value, r) && IsDateInRange(date, r)
  {
    if !StartsNewSelection(temp) {
      var r := NextSelection(temp, date);
      var s := temp.startDate.value;
      IsAfterIsTimeOrder(s, date);
      assert r.startDate.value.day <= r.endDate.value.day;
    }
  }

  /**
   * From an empty or complete selection, two clicks select the range between the
   * two days, whichever was clicked first, and a third click starts over.
   */
  lemma TwoClicksSelectRange(temp: DateRange, a: Date, b: Date, c: Date)
    requires StartsNewSelection(temp)
    ensures NextSelection(NextSelection(temp, a), b) == NormalizeRange(DateRange(Some(a), Some(b)))
    ensures BoundedBy(NextSelection(NextSelection(temp, a), b), a, b)
    ensures NextSelection(NextSelection(NextSelection(temp, a), b), c) == DateRange(Some(c), None)
  {
    ClickStartsOrCompletes(NextSelection(temp, a), b);
  }

  /**
   * Closing never drops a selection: a click or a preset that closes the popover
   * also reports.  Without auto-apply and with action buttons, neither clicks nor
   * presets report; only Apply does.  A first click never closes.
   */
  lemma ReportRules(c: Config, temp: DateRange)
    ensures ClickCloses(c, temp) ==> ClickReports(c, temp)
    ensures PresetCloses(c) ==> PresetReports(c)
    ensures !c.autoApply && c.showActionButtons ==> !ClickReports(c, temp) && !PresetReports(c)
    ensures StartsNewSelection(temp) ==> !ClickCloses(c, temp)
    ensures !c.closeOnSelect ==> !ClickCloses(c, temp) && !PresetCloses(c)
  {
  }

  // ---------------------------------------------------------------------
  // The months shown

  /** How many calendars are shown: one on a small screen. */
  function EffectiveCalendars(c: Config, isMobile: bool): (n: nat)
    ensures 1 <= n <= 3
    ensures isMobile ==> n == 1
  {
    if isMobile then 1 else c.calendars
  }

  /** `n` consecutive months from `base`, right to left in a right-to-left locale. */
  function CalendarMonthsOf(base: Date, n: nat, rtl: bool): seq<Date>
  {
    if rtl then Reverse(MonthsFrom(base, n)) else MonthsFrom(base, n)
  }

  /** The `n` months from `base` on, in order. */
  function MonthsFrom(base: Date, n: nat): (r: seq<Date>)
    ensures |r| == n && forall i :: 0 <= i < n ==> r[i] == AddMonths(base, i)
  {
    seq(n, i requires 0 <= i < n => AddMonths(base, i))
  }

  /** The offset from the base month of the calendar at display position `pos`. */
  function CalendarOffset(pos: int, n: int, rtl: bool): int
  {
    if rtl then n - 1 - pos else pos
  }

  /** The calendar at display position `pos` shows the month `CalendarOffset(pos)` months after the base. */
  lemma CalendarMonthsAreConsecutive(base: Date, n: nat, rtl: bool)
    ensures |CalendarMonthsOf(base, n, rtl)| == n
    ensures forall pos :: 0 <= pos < n ==>
              MonthIndex(CalendarMonthsOf(base, n, rtl)[pos]) == MonthIndex(base) + CalendarOffset(pos, n, rtl)
    ensures n > 0 ==> IsSameMonth(CalendarMonthsOf(base, n, rtl)[CalendarOffset(0, n, rtl)], base)
  {
    if n > 0 {
      var k := CalendarOffset(0, n, rtl);
      SameMonthIsSameIndex(CalendarMonthsOf(base, n, rtl)[k], base);
    }
  }

  /**
   * Moving the calendar at display position `pos` to the month of `date` moves
   * the base so that this calendar shows that month and the others stay
   * consecutive around it.
   */
  lemma MonthChangeShowsDate(date: Date, pos: int, n: nat, rtl: bool)
    requires 0 <= pos < n
    ensures var months := CalendarMonthsOf(AddMonths(date, -CalendarOffset(pos, n, rtl)), n, rtl);
            IsSameMonth(months[pos], date) &&
            forall q :: 0 <= q < n ==>
              MonthIndex(months[q]) == MonthIndex(date) + CalendarOffset(q, n, rtl) - CalendarOffset(pos, n, rtl)
  {
    var base := AddMonths(date, -CalendarOffset(pos, n, rtl));
    CalendarMonthsAreConsecutive(base, n, rtl);
    SameMonthIsSameIndex(CalendarMonthsOf(base, n, rtl)[pos], date);
  }

  // ---------------------------------------------------------------------
  // Presets on a small screen

  /**
   * The quick presets row shown on a small screen, as written: the first six
   * presets, those of all groups when the list is grouped.  The test for a flat
   * list reads the first element, so an empty list fails (`None`).
   */
  function MobilePresetsAsWritten(items: seq<PresetItem>): (r: Option<seq<PresetRange>>)
    requires IsUniform(items)
    ensures r.None? <==> |items| == 0
    ensures r.Some? ==> |r.value| <= 6
  {
    if |items| == 0 then None
    else Some(TakeSix(ListedPresets(items)))
  }

  /** The quick presets row with the empty list allowed: no presets show no buttons. */
  function MobilePresets(items: seq<PresetItem>): (r: seq<PresetRange>)
    requires IsUniform(items)
    ensures |r| <= 6
    ensures |items| == 0 ==> r == []
    ensures |items| > 0 ==> Some(r) == MobilePresetsAsWritten(items)
  {
    if |items| == 0 then [] else TakeSix(ListedPresets(items))
  }

  function TakeSix(ps: seq<PresetRange>): (r: seq<PresetRange>)
    ensures |r| == Min(|ps|, 6) && r == ps[..|r|]
  {
    if |ps| <= 6 then ps else ps[..6]
  }

  /** The presets of a uniform list: the presets themselves, or those of all groups in order. */
  function ListedPresets(items: seq<PresetItem>): seq<PresetRange>
    requires IsUniform(items)
  {
    if |items| > 0 && items[0].Group? then
      AllPresets(seq(|items|, i requires 0 <= i < |items| => items[i].group))
    else seq(|items|, i requires 0 <= i < |items| => items[i].preset)
  }

  /** On a small screen an empty preset list breaks the row as written, and yields no buttons once corrected. */
  lemma EmptyMobilePresets()
    ensures MobilePresetsAsWritten([]) == None
    ensures MobilePresets([]) == []
  {
  }

  /** Fills `a` with the months from `base` on, one per element. */
  method FillMonths(a: array<Date>, base: Date)
    modifies a
    ensures a[..] == MonthsFrom(base, a.Length)
  {
    ghost var forward := MonthsFrom(base, a.Length);
    for i := 0 to a.Length
      invariant a[..i] == forward[..i]
    {
      a[i] := AddMonths(base, i);
      assert a[..i + 1] == a[..i] + [a[i]];
    }
    assert a[..] == a[..a.Length];
  }

  // ---------------------------------------------------------------------
  // The state

  class PickerPopover {
    const config: Config
    /** The range being picked, not yet reported unless a rule says so. */
    var tempValue: DateRange
    var hoveredDate: Option<Date>
    /** The month of the first calendar (the leftmost in a left-to-right locale). */
    var baseMonth: Date

    /** The popover as first mounted with the picker's `value`. */
    constructor(config: Config, value: DateRange, now: Date)
      ensures this.config == config
      ensures tempValue == value && hoveredDate == None && baseMonth == value.startDate.GetOr(now)
    {
      this.config := config;
      tempValue := value;
      hoveredDate := None;
      baseMonth := value.startDate.GetOr(now);
    }

    /**
     * Opening copies the picker's value into the pending range and shows its
     * start month (or the current month); under auto-apply a complete value is
     * reported back at once.
     */
    method SyncOnOpen(open: bool, value: DateRange, now: Date) returns (reported: Option<DateRange>)
      modifies this
      ensures open ==> tempValue == value && baseMonth == value.startDate.GetOr(now)
      ensures open ==> reported == AutoApplyReport(config, value)
      ensures !open ==> tempValue == old(tempValue) && baseMonth == old(baseMonth) && reported == None
      ensures hoveredDate == old(hoveredDate)
    {
      reported := None;
      if open {
        tempValue := value;
        baseMonth := value.startDate.GetOr(now);
        reported := AutoApplyReport(config, tempValue);
      }
    }

    /** A click on an enabled day of a calendar. */
    method SelectDate(date: Date) returns (reported: Option<DateRange>, close: bool)
      requires !IsDateDisabled(date, config.policy)
      modifies this
      ensures tempValue == NextSelection(old(tempValue), date)
      ensures reported == (if ClickReports(config, old(tempValue)) then Some(tempValue) else None)
      ensures close == ClickCloses(config, old(tempValue))
      ensures ApplyEnabled()
      ensures !config.autoApply ==> forall v :: DisplayedValue(v) == tempValue
      ensures config.autoApply ==> reported.Some? && DisplayedValue(reported.value) == tempValue
      ensures hoveredDate == old(hoveredDate) && baseMonth == old(baseMonth)
    {
      reported, close := None, false;
      if tempValue.startDate.None? || tempValue.endDate.Some? {
        var newRange := DateRange(Some(date), None);
        tempValue := newRange;
        if config.autoApply {
          reported := Some(newRange);
        }
      } else {
        var newRange := NormalizeRange(DateRange(tempValue.startDate, Some(date)));
        tempValue := newRange;
        if config.autoApply {
          reported := Some(newRange);
          if config.closeOnSelect {
            close := true;
          }
        } else if config.closeOnSelect && !config.showActionButtons {
          reported := Some(newRange);
          close := true;
        }
      }
    }

    /** Choosing a preset: its range becomes the pending range and its start month is shown. */
    method SelectPreset(range: DateRange, now: Date) returns (reported: Option<DateRange>, close: bool)
      modifies this
      ensures tempValue == range && baseMonth == range.startDate.GetOr(now)
      ensures reported == (if PresetReports(config) then Some(range) else None)
      ensures close == PresetCloses(config)
      ensures ApplyEnabled() <==> range.startDate.Some?
      ensures !config.autoApply ==> forall v :: DisplayedValue(v) == tempValue
      ensures config.autoApply ==> reported.Some? && DisplayedValue(reported.value) == tempValue
      ensures hoveredDate == old(hoveredDate)
    {
      tempValue := range;
      baseMonth := range.startDate.GetOr(now);
      reported, close := None, false;
      if config.autoApply || !config.showActionButtons {
        reported := Some(range);
        if config.closeOnSelect {
          close := true;
        }
      }
    }

    /**
     * Whether the Apply button of the action bar is enabled: a start is picked.
     * The dialog's own Apply button has no such guard, so `Apply` has no
     * precondition.
     */
    predicate ApplyEnabled()
      reads this
    {
      tempValue.startDate.Some?
    }

    /** Apply reports the pending range and closes. */
    method Apply() returns (reported: DateRange, close: bool)
      ensures reported == tempValue && close
    {
      reported, close := tempValue, true;
    }

    /** Cancel drops the pending range for the picker's value and closes without reporting. */
    method Cancel(value: DateRange) returns (close: bool)
      modifies this
      ensures tempValue == value && close
      ensures ApplyEnabled() <==> value.startDate.Some?
      ensures hoveredDate == old(hoveredDate) && baseMonth == old(baseMonth)
    {
      tempValue := value;
      close := true;
    }

    /** The Today button shows the current month. */
    method Today(now: Date)
      modifies this
      ensures baseMonth == now
      ensures tempValue == old(tempValue) && hoveredDate == old(hoveredDate)
    {
      baseMonth := now;
    }

    /** The calendar `calendarIndex` months after the first moved to the month of `date`. */
    method MonthChange(date: Date, calendarIndex: int)
      modifies this
      ensures MonthIndex(baseMonth) == MonthIndex(date) - calendarIndex
      ensures baseMonth == AddMonths(date, -calendarIndex)
      ensures tempValue == old(tempValue) && hoveredDate == old(hoveredDate)
    {
      baseMonth := AddMonths(date, -calendarIndex);
    }

    /** The pointer entered an enabled day (`Some`) or left the grid (`None`). */
    method SetHovered(date: Option<Date>)
      modifies this
      ensures hoveredDate == date
      ensures tempValue == old(tempValue) && baseMonth == old(baseMonth)
    {
      hoveredDate := date;
    }

    /**
     * The range the calendars and the preset list show: the picker's value
     * under auto-apply, else the pending one.  A click or a preset is shown at
     * once without auto-apply, and under auto-apply once the range it reports
     * comes back as the value (see `SelectDate` and `SelectPreset`).
     */
    function DisplayedValue(value: DateRange): (r: DateRange)
      reads this
      ensures config.autoApply ==> r == value
      ensures !config.autoApply ==> r == tempValue
    {
      if config.autoApply then value else tempValue
    }

    /** The months of the calendars, in display order. */
    method CalendarMonths(isMobile: bool) returns (months: seq<Date>)
      ensures months == CalendarMonthsOf(baseMonth, EffectiveCalendars(config, isMobile), config.direction == Rtl)
    {
      var n := EffectiveCalendars(config, isMobile);
      var base := baseMonth;
      var a := new Date[n](_ => base);
      FillMonths(a, base);
      if config.direction == Rtl {
        ReverseInPlace(a);
      }
      months := a[..];
    }
  }
}

/** The value types the picker passes between its parts. */
module Types {
  import opened Wrappers
  import opened DateFns

  /** A selection: either bound may be missing (nothing chosen yet, or only the start). */
  datatype DateRange = DateRange(startDate: Option<Date>, endDate: Option<Date>)

  const EmptyRange: DateRange := DateRange(None, None)

  /** What a calendar cell shows about its date. */
  datatype DayState = DayState(
    date: Date,
    isToday: bool,
    isSelected: bool,
    isRangeStart: bool,
    isRangeEnd: bool,
    isInRange: bool,
    isDisabled: bool,
    isOutsideMonth: bool,
    isWeekend: bool)

  /**
   * The rule a preset evaluates when it is asked for its range.  The built-in
   * presets are named; `Custom` stands for a preset supplied by the user, a
   * function of the current moment.
   */
  datatype PresetValue =
    | Today
    | Yesterday
    | LastDays(n: int)
    | ThisWeek
    | LastWeek
    | ThisMonth
    | LastMonth
    | ThisQuarter
    | LastQuarter
    | ThisYear
    | LastYear
    | Custom(compute: Date -> DateRange)

  /** A named preset; `name` is the `label` shown in the list (`label` is a reserved word in Dafny). */
  datatype PresetRange = PresetRange(name: string, getValue: PresetValue, shortcut: Option<string>)

  /** A titled group of presets; `name` is the group's `label`. */
  datatype PresetGroup = PresetGroup(name: string, presets: seq<PresetRange>)

  /** Which dates a calendar refuses; an absent list is the empty list. */
  datatype DisablePolicy = DisablePolicy(
    minDate: Option<Date>,
    maxDate: Option<Date>,
    disabledDates: seq<Date>,
    disabledDaysOfWeek: seq<int>)

  const NoRestrictions: DisablePolicy := DisablePolicy(None, None, [], [])

  /** The text direction of the locale. */
  datatype Direction = Ltr | Rtl
}

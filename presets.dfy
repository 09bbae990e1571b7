/**
 * The built-in preset ranges, their grouping, and their Arabic labels.
 * The current moment `now` is a parameter: each preset is a function of it.
 */
module Presets {
  import opened Wrappers
  import opened DateFns
  import opened Types
  import opened DateUtils

  /** The range from the first moment of day `lo` to the last moment of day `hi`. */
  function Span(lo: int, hi: int): DateRange
  {
    DateRange(Some(Date(lo, 0)), Some(Date(hi, LastMs)))
  }

  /** The last `n` days, today included. */
  function LastNDays(n: int, now: Date): DateRange
  {
    DateRange(Some(StartOfDay(SubDays(now, n - 1))), Some(EndOfDay(now)))
  }

  /** The whole day holding `d`. */
  function DayRange(d: Date): DateRange
  {
    DateRange(Some(StartOfDay(d)), Some(EndOfDay(d)))
  }

  /** The whole Sunday-to-Saturday week holding `d`. */
  function WeekRange(d: Date): DateRange
  {
    DateRange(Some(StartOfWeek(d, 0)), Some(EndOfWeek(d, 0)))
  }

  /** The whole month holding `d`. */
  function MonthRange(d: Date): DateRange
  {
    DateRange(Some(StartOfMonth(d)), Some(EndOfMonth(d)))
  }

  /** The whole quarter holding `d`. */
  function QuarterRange(d: Date): DateRange
  {
    DateRange(Some(StartOfQuarter(d)), Some(EndOfQuarter(d)))
  }

  /** The whole year holding `d`. */
  function YearRange(d: Date): DateRange
  {
    DateRange(Some(StartOfYear(d)), Some(EndOfYear(d)))
  }

  /** The range a preset rule yields at moment `now`; weeks begin on Sunday. */
  function GetValue(p: PresetValue, now: Date): DateRange
  {
    match p
    case Today => DayRange(now)
    case Yesterday => DayRange(SubDays(now, 1))
    case LastDays(n) => LastNDays(n, now)
    case ThisWeek => WeekRange(now)
    case LastWeek => WeekRange(SubDays(now, 7))
    case ThisMonth => MonthRange(now)
    case LastMonth => MonthRange(SubMonths(now, 1))
    case ThisQuarter => QuarterRange(now)
    case LastQuarter => QuarterRange(SubQuarters(now, 1))
    case ThisYear => YearRange(now)
    case LastYear => YearRange(SubYears(now, 1))
    case Custom(compute) => compute(now)
  }

  /** The fourteen built-in presets, in display order. */
  const DefaultPresets: seq<PresetRange> := [
    PresetRange("Today", Today, Some("T")),
    PresetRange("Yesterday", Yesterday, Some("Y")),
    PresetRange("Last 7 days", LastDays(7), Some("7")),
    PresetRange("Last 14 days", LastDays(14), None),
    PresetRange("Last 30 days", LastDays(30), Some("3")),
    PresetRange("Last 90 days", LastDays(90), Some("9")),
    PresetRange("This week", ThisWeek, Some("W")),
    PresetRange("Last week", LastWeek, None),
    PresetRange("This month", ThisMonth, Some("M")),
    PresetRange("Last month", LastMonth, None),
    PresetRange("This quarter", ThisQuarter, Some("Q")),
    PresetRange("Last quarter", LastQuarter, None),
    PresetRange("This year", ThisYear, None),
    PresetRange("Last year", LastYear, None)
  ]

  /** The built-in presets under four headings. */
  const GroupedPresets: seq<PresetGroup> := [
    PresetGroup("Days", DefaultPresets[0..6]),
    PresetGroup("Weeks", DefaultPresets[6..8]),
    PresetGroup("Months", DefaultPresets[8..10]),
    PresetGroup("Quarters & Years", DefaultPresets[10..])
  ]

  /** The Arabic label of each built-in preset, keyed by its English label. */
  const ArabicPresetLabels: map<string, string> := map[
    "Today" := "اليوم",
    "Yesterday" := "أمس",
    "Last 7 days" := "آخر 7 أيام",
    "Last 14 days" := "آخر 14 يوم",
    "Last 30 days" := "آخر 30 يوم",
    "Last 90 days" := "آخر 90 يوم",
    "This week" := "هذا الأسبوع",
    "Last week" := "الأسبوع الماضي",
    "This month" := "هذا الشهر",
    "Last month" := "الشهر الماضي",
    "This quarter" := "هذا الربع",
    "Last quarter" := "الربع الماضي",
    "This year" := "هذه السنة",
    "Last year" := "السنة الماضية"
  ]

  /** The Arabic label for `name`, or `name` itself when there is none (or it is empty). */
  function ArabicLabel(name: string): string
  {
    if name in ArabicPresetLabels && ArabicPresetLabels[name] != "" then ArabicPresetLabels[name] else name
  }

  /**
   * For a locale code beginning with "ar", every preset relabelled in Arabic and
   * otherwise unchanged; for any other code the list as given.
   */
  function GetLocalizedPresets(presets: seq<PresetRange>, localeCode: string): (r: seq<PresetRange>)
    ensures |r| == |presets|
    ensures forall i :: 0 <= i < |r| ==>
              r[i].getValue == presets[i].getValue && r[i].shortcut == presets[i].shortcut
    ensures "ar" <= localeCode ==> forall i :: 0 <= i < |r| ==> r[i].name == ArabicLabel(presets[i].name)
    ensures !("ar" <= localeCode) ==> r == presets
  {
    if "ar" <= localeCode then
      seq(|presets|, i requires 0 <= i < |presets| => presets[i].(name := ArabicLabel(presets[i].name)))
    else presets
  }

  // ---------------------------------------------------------------------
  // What each built-in preset covers

  /** "Today" and "Yesterday" are one whole day each; "Last n days" is n whole days ending today. */
  lemma DayPresets(now: Date, n: int)
    requires n >= 1
    ensures GetValue(Today, now) == Span(now.day, now.day)
    ensures GetValue(Yesterday, now) == Span(now.day - 1, now.day - 1)
    ensures GetValue(LastDays(n), now) == Span(now.day - n + 1, now.day)
    ensures |EachDayOfInterval(GetValue(LastDays(n), now).startDate.value, GetValue(LastDays(n), now).endDate.value)| == n
  {
    var r := GetValue(LastDays(n), now);
    assert !IsAfter(r.startDate.value, r.endDate.value);
  }

  /**
   * "This week" is the Sunday-to-Saturday week holding `now`; "Last week" is the
   * week before it, seven days earlier.
   */
  lemma WeekPresets(now: Date)
    ensures var r := GetValue(ThisWeek, now);
            r == Span(r.startDate.value.day, r.startDate.value.day + 6) &&
            GetDay(r.startDate.value) == 0 &&
            r.startDate.value.day <= now.day <= r.endDate.value.day
    ensures var r := GetValue(LastWeek, now);
            r == Span(r.startDate.value.day, r.startDate.value.day + 6) &&
            GetDay(r.startDate.value) == 0 &&
            r.startDate.value.day == GetValue(ThisWeek, now).startDate.value.day - 7
  {
    StartOfWeekShift(now, 0, -1);
    assert SubDays(now, 7) == AddDays(now, 7 * -1);
  }

  /** "This month" runs from the 1st to the last day of the current month and holds exactly its moments. */
  lemma ThisMonthPreset(now: Date)
    ensures var r := GetValue(ThisMonth, now);
            r.startDate.value.ms == 0 && r.endDate.value.ms == LastMs &&
            DayOfMonth(r.startDate.value) == 1 && IsSameMonth(r.startDate.value, now) &&
            DayOfMonth(r.endDate.value) == DaysInMonth(Year(now), Month(now)) && IsSameMonth(r.endDate.value, now)
    ensures forall x :: IsDateInRange(x, GetValue(ThisMonth, now)) <==> IsSameMonth(x, now)
  {
    var s, e := StartOfMonth(now), EndOfMonth(now);
    forall x
      ensures IsDateInRange(x, DateRange(Some(s), Some(e))) <==> IsSameMonth(x, now)
    {
      SameMonthIffWithinMonth(x, now);
    }
  }

  lemma LastMonthValue(now: Date)
    ensures GetValue(LastMonth, now) == MonthRange(SubMonths(now, 1))
  {
  }

  lemma ThisMonthValue(now: Date)
    ensures GetValue(ThisMonth, now) == MonthRange(now)
  {
  }

  /** "Last month" is the whole month before the current one. */
  lemma LastMonthPreset(now: Date)
    ensures var r := GetValue(LastMonth, now);
            r.startDate.Some? && r.endDate.Some? &&
            r.startDate.value.ms == 0 && r.endDate.value.ms == LastMs &&
            DayOfMonth(r.startDate.value) == 1 && MonthIndex(r.startDate.value) == MonthIndex(now) - 1 &&
            IsSameMonth(r.endDate.value, r.startDate.value) &&
            DayOfMonth(r.endDate.value) == DaysInMonth(Year(r.endDate.value), Month(r.endDate.value))
  {
    LastMonthValue(now);
  }

  /** In January "last month" is December of the previous year; otherwise it is the previous month of the same year. */
  lemma LastMonthWrapsInJanuary(now: Date)
    ensures var r := GetValue(LastMonth, now);
            r.startDate.Some? &&
            if Month(now) == 1 then Year(r.startDate.value) == Year(now) - 1 && Month(r.startDate.value) == 12
            else Year(r.startDate.value) == Year(now) && Month(r.startDate.value) == Month(now) - 1
  {
    LastMonthValue(now);
    PreviousMonthFields(StartOfMonth(SubMonths(now, 1)), now);
  }

  /** "Last month" ends the day before "this month" begins. */
  lemma LastMonthAdjoinsThisMonth(now: Date)
    ensures var r, t := GetValue(LastMonth, now), GetValue(ThisMonth, now);
            r.endDate.Some? && t.startDate.Some? && r.endDate.value.day + 1 == t.startDate.value.day
  {
    LastMonthValue(now);
    ThisMonthValue(now);
    MonthBoundary(EndOfMonth(SubMonths(now, 1)), StartOfMonth(now));
  }

  /** The quarter of a moment: its first month and the two after it, in the same year. */
  predicate InQuarterOf(r: DateRange, d: Date)
    requires r.startDate.Some? && r.endDate.Some?
  {
    var s, e := r.startDate.value, r.endDate.value;
    s.ms == 0 && e.ms == LastMs && Year(s) == Year(d) && Year(e) == Year(d) &&
    Month(s) == QuarterStartMonth(Month(d)) && DayOfMonth(s) == 1 &&
    Month(e) == Month(s) + 2 && DayOfMonth(e) == DaysInMonth(Year(e), Month(e))
  }

  /** "This quarter" is the three months of the quarter holding `now`. */
  lemma ThisQuarterPreset(now: Date)
    ensures var r := GetValue(ThisQuarter, now);
            r.startDate.Some? && r.endDate.Some? && InQuarterOf(r, now) && r.startDate.value.day <= now.day <= r.endDate.value.day
  {
    ThisQuarterValue(now);
    MonthSpan(StartOfQuarter(now), now, EndOfQuarter(now));
  }

  lemma ThisQuarterValue(now: Date)
    ensures GetValue(ThisQuarter, now) == QuarterRange(now)
  {
  }

  lemma LastQuarterValue(now: Date)
    ensures GetValue(LastQuarter, now) == QuarterRange(SubQuarters(now, 1))
  {
  }

  /** "Last quarter" is the quarter three months earlier; it ends the day before this quarter begins. */
  lemma LastQuarterPreset(now: Date)
    ensures var r, t := GetValue(LastQuarter, now), GetValue(ThisQuarter, now);
            r.startDate.Some? && r.endDate.Some? && t.startDate.Some? &&
            InQuarterOf(r, SubQuarters(now, 1)) &&
            MonthIndex(r.startDate.value) == MonthIndex(t.startDate.value) - 3
  {
    var lq := SubQuarters(now, 1);
    var s, e := StartOfQuarter(lq), EndOfQuarter(lq);
    LastQuarterValue(now);
    ThisQuarterValue(now);
    assert MonthIndex(s) == MonthIndex(StartOfQuarter(now)) - 3 by {
      QuarterBefore(now, lq);
    }
  }

  /** "Last quarter" ends the day before "this quarter" begins. */
  lemma LastQuarterAdjoinsThisQuarter(now: Date)
    ensures GetValue(LastQuarter, now).endDate.value.day + 1 == GetValue(ThisQuarter, now).startDate.value.day
  {
    var lq := SubQuarters(now, 1);
    LastQuarterValue(now);
    ThisQuarterValue(now);
    assert EndOfQuarter(lq).day + 1 == StartOfQuarter(now).day by {
      QuarterBefore(now, lq);
    }
  }

  /** "This year" runs from January 1 to December 31 of the current year. */
  lemma ThisYearPreset(now: Date)
    ensures var r := GetValue(ThisYear, now);
            r.startDate.Some? && r.endDate.Some? && r.startDate.value.ms == 0 && r.endDate.value.ms == LastMs &&
            Year(r.startDate.value) == Year(now) && Month(r.startDate.value) == 1 && DayOfMonth(r.startDate.value) == 1 &&
            Year(r.endDate.value) == Year(now) && Month(r.endDate.value) == 12 && DayOfMonth(r.endDate.value) == 31 &&
            r.startDate.value.day <= now.day <= r.endDate.value.day
  {
    ThisYearValue(now);
    MonthSpan(StartOfYear(now), now, EndOfYear(now));
  }

  lemma ThisYearValue(now: Date)
    ensures GetValue(ThisYear, now) == YearRange(now)
  {
  }

  lemma LastYearValue(now: Date)
    ensures GetValue(LastYear, now) == YearRange(SubYears(now, 1))
  {
  }

  /** "Last year" is January 1 to December 31 of the previous year. */
  lemma LastYearPreset(now: Date)
    ensures var r := GetValue(LastYear, now);
            r.startDate.Some? && r.endDate.Some? &&
            r.startDate.value.ms == 0 && r.endDate.value.ms == LastMs &&
            Year(r.startDate.value) == Year(now) - 1 && Month(r.startDate.value) == 1 && DayOfMonth(r.startDate.value) == 1 &&
            Year(r.endDate.value) == Year(now) - 1 && Month(r.endDate.value) == 12 && DayOfMonth(r.endDate.value) == 31
  {
    LastYearValue(now);
    PreviousYearFields(SubYears(now, 1), now);
  }

  /** "Last year" ends the day before "this year" begins. */
  lemma LastYearAdjoinsThisYear(now: Date)
    ensures var r, t := GetValue(LastYear, now), GetValue(ThisYear, now);
            r.endDate.Some? && t.startDate.Some? && r.endDate.value.day + 1 == t.startDate.value.day
  {
    var ly := SubYears(now, 1);
    LastYearValue(now);
    ThisYearValue(now);
    PreviousYearFields(ly, now);
    MonthBoundary(EndOfYear(ly), StartOfYear(now));
  }

  /** A range from the first moment of one day to the last moment of the same day or a later one. */
  predicate IsWholeDayRange(r: DateRange)
  {
    r.startDate.Some? && r.endDate.Some? &&
    r.startDate.value.ms == 0 && r.endDate.value.ms == LastMs &&
    r.startDate.value.day <= r.endDate.value.day
  }

  /** Every named rule yields a whole-day range; only a user's own rule may yield anything else. */
  lemma BuiltInRuleIsWholeDayRange(p: PresetValue, now: Date)
    requires !p.Custom?
    requires p.LastDays? ==> p.n >= 1
    ensures IsWholeDayRange(GetValue(p, now))
  {
    match p
    case Today => DayPresets(now, 1);
    case Yesterday => DayPresets(now, 1);
    case LastDays(n) => DayPresets(now, n);
    case ThisWeek => WeekPresets(now);
    case LastWeek => WeekPresets(now);
    case ThisMonth => ThisMonthPreset(now);
    case LastMonth =>
      LastMonthPreset(now);
      var lm := GetValue(LastMonth, now);
      SameMonthOrder(lm.startDate.value, lm.endDate.value);
    case ThisQuarter => ThisQuarterPreset(now);
    case LastQuarter =>
      LastQuarterPreset(now);
      var lq := GetValue(LastQuarter, now);
      MonthOrder(lq.startDate.value, lq.endDate.value);
    case ThisYear => ThisYearPreset(now);
    case LastYear =>
      LastYearPreset(now);
      var ly := GetValue(LastYear, now);
      MonthOrder(ly.startDate.value, ly.endDate.value);
  }

  /** Every built-in preset yields a whole-day range with its start no later than its end. */
  lemma DefaultPresetsAreWholeDayRanges(now: Date)
    ensures forall i :: 0 <= i < |DefaultPresets| ==> IsWholeDayRange(GetValue(DefaultPresets[i].getValue, now))
  {
    forall i | 0 <= i < |DefaultPresets|
      ensures IsWholeDayRange(GetValue(DefaultPresets[i].getValue, now))
    {
      BuiltInRuleIsWholeDayRange(DefaultPresets[i].getValue, now);
    }
  }

  // ---------------------------------------------------------------------
  // Grouping and labels

  /** The four groups hold the built-in presets in order, six, two, two and four of them. */
  lemma GroupsPartitionDefaults()
    ensures |GroupedPresets| == 4
    ensures GroupedPresets[0].presets + GroupedPresets[1].presets + GroupedPresets[2].presets + GroupedPresets[3].presets
            == DefaultPresets
    ensures |GroupedPresets[0].presets| == 6 && |GroupedPresets[1].presets| == 2
    ensures |GroupedPresets[2].presets| == 2 && |GroupedPresets[3].presets| == 4
    ensures GroupedPresets[1].presets[0].getValue == ThisWeek && GroupedPresets[2].presets[0].getValue == ThisMonth
  {
    assert DefaultPresets == DefaultPresets[0..6] + DefaultPresets[6..8] + DefaultPresets[8..10] + DefaultPresets[10..];
  }

  /** Every built-in preset has an Arabic label of its own. */
  lemma ArabicLabelsCoverDefaults()
    ensures forall i :: 0 <= i < |DefaultPresets| ==> DefaultPresets[i].name in ArabicPresetLabels
  {
  }

  /** No Arabic label is itself an English key, so relabelling a label a second time leaves it alone. */
  lemma ArabicLabelIdempotent(name: string)
    ensures ArabicLabel(ArabicLabel(name)) == ArabicLabel(name)
  {
    if name in ArabicPresetLabels {
      var a := ArabicPresetLabels[name];
      assert a[0] != 'T' && a[0] != 'Y' && a[0] != 'L';
      assert a !in ArabicPresetLabels;
    }
  }

  /** Localising an already localised list changes nothing more, whatever the presets. */
  lemma LocalizeIdempotent(presets: seq<PresetRange>, localeCode: string)
    ensures GetLocalizedPresets(GetLocalizedPresets(presets, localeCode), localeCode) == GetLocalizedPresets(presets, localeCode)
  {
    var r := GetLocalizedPresets(presets, localeCode);
    var r2 := GetLocalizedPresets(r, localeCode);
    if "ar" <= localeCode {
      forall i | 0 <= i < |r|
        ensures r2[i] == r[i]
      {
        ArabicLabelIdempotent(presets[i].name);
      }
    }
  }
}

# A verified model of the MUI date-range picker

This project models the logic of a React date-range picker built on Material UI
and date-fns: the range and day algebra, the built-in preset ranges, the preset
list, and the state machines of the popover, the picker root, the calendar and
its header. Markup, styling and React's scheduling are not modelled.

A moment is a `Date(day, ms)`: a day number in the proleptic Gregorian calendar
(day 0 is Thursday 1970-01-01) and the milliseconds into that day. Year, month,
day of month and weekday are derived from the day number, and the date-fns
primitives the code calls become Dafny functions over it. The current moment,
which the source reads from the clock, is a parameter `now`. A date-fns
`format` call, with its pattern and locale, is a parameter `format`.

Modules and files:

- `wrappers.dfy`: `Option`.
- `types.dfy`: the shared value types, `DateRange`, `DayState`, presets and the
  disabled-date policy.
- `date_fns.dfy`: the date primitives.
- `seqs.dfy`: reversal, including in place, and flattening.
- `date_utils.dfy`: the range and day algebra.
- `presets.dfy`: the built-in presets, their groups and Arabic labels.
- `preset_list.dfy`: the preset list.
- `popover.dfy`: the popover's pending selection, as the class `PickerPopover`.
- `picker.dfy`: the picker root, as the class `DateRangePicker`.
- `calendar.dfy`: one calendar, as the class `MonthView`.
- `calendar_header.dfy`: the calendar header, as the class `HeaderMenus`.

A React handler becomes a method on the component's class. A callback it
invokes becomes a returned value: the range reported to `onChange` and whether
it asks to close, or a list of `Callback`s for the picker root.

The action bar's Apply button is enabled only once a start is picked
(`PickerPopover.ApplyEnabled`). The dialog's Apply button
(src/components/DateRangePicker/DateRangePickerPopover.tsx:331) has no such
guard, so `PickerPopover.Apply` has no precondition.

## Model

| member | source | states |
|---|---|---|
| `DateFns.IsAfter` | src/utils/dateUtils.ts:246 | definition; characterised by `DateFns.IsAfterIsTimeOrder` |
| `DateFns.IsBefore` | src/utils/dateUtils.ts:90 | definition; characterised by `DateFns.IsAfterIsTimeOrder` |
| `DateFns.IsAfterIsTimeOrder` | src/utils/dateUtils.ts:246 | `isAfter` and `isBefore` on moments are the orders of their timestamps |
| `DateFns.IsSameDay` | src/utils/dateUtils.ts:57 | definition; characterised by `DateFns.SameDayIffSameStart` |
| `DateFns.SameDayIffSameStart` | src/utils/dateUtils.ts:57 | two moments are on the same day iff their days start at the same moment |
| `DateFns.IsWeekend` | src/utils/dateUtils.ts:147 | definition; characterised by `DateFns.WeekendIsTwoDaysAWeek` |
| `DateFns.WeekendIsTwoDaysAWeek` | src/utils/dateUtils.ts:147 | the weekend is a Saturday and the Sunday after it, then a weekday follows; it recurs every seven days |
| `DateFns.StartOfDay` | src/utils/dateUtils.ts:47 | the result falls on the same day and is no later than any moment of that day |
| `DateFns.EndOfDay` | src/utils/dateUtils.ts:48 | the result falls on the same day and is no earlier than any moment of that day |
| `DateFns.AddDays` | src/utils/dateUtils.ts:200-202 | the day moves by exactly `n`; the time of day is kept |
| `DateFns.SubDays` | src/utils/dateUtils.ts:193-195 | the day moves back by exactly `n`; the time of day is kept |
| `DateFns.StartOfWeek` | src/utils/dateUtils.ts:34 | the result is at midnight, on weekday `weekStartsOn`, and at most six days before `d` |
| `DateFns.EndOfWeek` | src/utils/dateUtils.ts:35 | the result is the last moment of the sixth day after the week start, on the weekday before `weekStartsOn`, and at most six days after `d` |
| `DateFns.ToCivil` | src/components/Calendar/CalendarHeader.tsx:44-45 | every day number has a valid calendar date, and that date numbers back to the same day |
| `DateFns.ToCivilOfDayNumber` | src/components/Calendar/CalendarHeader.tsx:44-45 | a valid calendar date is the date its own day number converts back to |
| `DateFns.StartOfMonth` | src/utils/dateUtils.ts:34 | the result is midnight on the 1st of `d`'s month, and not after `d` |
| `DateFns.EndOfMonth` | src/utils/dateUtils.ts:35 | the result is the last moment of the last day of `d`'s month, and the month spans `DaysInMonth` days |
| `DateFns.SameMonthIffWithinMonth` | src/utils/dateUtils.ts:146 | a moment is in `m`'s month iff its day lies between that month's first and last day |
| `DateFns.AddMonths` | src/utils/dateUtils.ts:186-188 | the month count moves by exactly `n`, the day of month is clamped to the new month's length, and the time of day is kept |
| `DateFns.SubMonths` | src/utils/dateUtils.ts:179-181 | the month count moves back by exactly `n`; the time of day is kept |
| `DateFns.SetMonth` | src/components/Calendar/CalendarHeader.tsx:72 | for an index 0 to 11: same year and the chosen month; the day is clamped and the time kept |
| `DateFns.SetYear` | src/components/Calendar/CalendarHeader.tsx:81 | the chosen year with month, day and time kept; the one date that does not exist, February 29, becomes March 1 |
| `DateFns.StartOfQuarter` | src/components/Presets/presets.ts:111 | midnight on the 1st of the quarter's first month, in the same year |
| `DateFns.EndOfQuarter` | src/components/Presets/presets.ts:112 | the last moment of the last day of the quarter's third month, in the same year |
| `DateFns.SubQuarters` | src/components/Presets/presets.ts:119 | the month count moves back by `3n`; the time of day is kept |
| `DateFns.QuarterBefore` | src/components/Presets/presets.ts:117-124 | the quarter three months back starts three months earlier and ends the day before the current quarter begins |
| `DateFns.StartOfYear` | src/components/Presets/presets.ts:129 | midnight on January 1 of the same year |
| `DateFns.EndOfYear` | src/components/Presets/presets.ts:130 | the last moment of December 31 of the same year |
| `DateFns.SubYears` | src/components/Presets/presets.ts:136 | the month count moves back by `12n`; the time of day is kept |
| `DateFns.IsWithinInterval` | src/utils/dateUtils.ts:46-49 | definition; characterised by `DateFns.WithinIntervalIsBetween` |
| `DateFns.WithinIntervalIsBetween` | src/utils/dateUtils.ts:46-49 | a moment is in the interval iff its timestamp lies between the two bounds' timestamps, in either order |
| `DateFns.EachDayOfInterval` | src/utils/dateUtils.ts:37 | midnight of every day from the first bound's day to the second's, one per day, in the order the bounds are given |
| `DateUtils.GetCalendarDays` | src/utils/dateUtils.ts:30-38 | the grid is a whole, non-zero number of weeks of consecutive days, and starts on weekday `weekStartsOn` |
| `DateUtils.GridIsConsecutive` | src/utils/dateUtils.ts:34-37 | the grid runs from the week start before the 1st to the week end after the last day, one midnight per day, a multiple of seven long |
| `DateUtils.GridCoversMonth` | src/utils/dateUtils.ts:30-38 | every day of the month appears in the grid |
| `DateUtils.GridSpillover` | src/utils/dateUtils.ts:30-38 | fewer than seven lead days come before the 1st, and a cell is outside the month iff it is among them or after the month's last day |
| `DateUtils.GridAtMostSixWeeks` | src/utils/dateUtils.ts:30-38 | a month's grid has 28 to 42 cells, at most the six rows the layout allows |
| `DateUtils.IsDateInRange` | src/utils/dateUtils.ts:43-50 | false when a bound is missing; for an ordered range, true iff the day lies from the start day to the end day inclusive; for a reversed range, the interval the library then builds |
| `DateUtils.InRangeIgnoresTimeOfDay` | src/utils/dateUtils.ts:43-50 | membership depends only on the days of the bounds |
| `DateUtils.IsRangeStart` | src/utils/dateUtils.ts:55-58 | definition; characterised by `DateUtils.EndpointsInRange` and `DateUtils.GetDayState` |
| `DateUtils.IsRangeEnd` | src/utils/dateUtils.ts:63-66 | definition; characterised by `DateUtils.EndpointsInRange` and `DateUtils.GetDayState` |
| `DateUtils.IsDateSelected` | src/utils/dateUtils.ts:71-73 | definition; characterised by `DateUtils.EndpointsInRange` and `DateUtils.GetDayState` |
| `DateUtils.EndpointsInRange` | src/utils/dateUtils.ts:55-73 | in an ordered range a selected day (start or end) is in the range, and in a single-day range a day is the start iff it is the end |
| `DateUtils.IsDateDisabled` | src/utils/dateUtils.ts:78-110 | disabled iff before the minimum's day, after the maximum's day, on a listed day, or on a listed weekday |
| `DateUtils.DisabledIsPerDay` | src/utils/dateUtils.ts:78-110 | two moments of one day are disabled alike, and with no options nothing is disabled |
| `DateUtils.DisabledExample` | src/utils/dateUtils.ts:78-110 | Monday 2024-01-15, built from its calendar date, is enabled with weekends off, and disabled with minimum 2024-01-16 |
| `DateUtils.EffectiveRange` | src/utils/dateUtils.ts:127-136 | while previewing, the range holds both the start and the hovered day, ordered; otherwise it is the value |
| `DateUtils.PreviewIsNormalized` | src/utils/dateUtils.ts:127-136 | the preview range is the normalised range from the start to the hovered day |
| `DateUtils.GetDayState` | src/utils/dateUtils.ts:115-149 | each flag in day terms: today, weekend, outside the month, disabled; selected from the committed value; start, end and in-range from the preview range while previewing and from the value otherwise |
| `DateUtils.DayStateFlagsIgnoreRange` | src/utils/dateUtils.ts:138-148 | today, weekend, disabled and outside-month do not depend on the value or the hovered day |
| `DateUtils.FormatDateRange` | src/utils/dateUtils.ts:154-174 | empty without a start; only the start formatted without an end; `start - end` with both |
| `DateUtils.GetPrevMonth` | src/utils/dateUtils.ts:179-181 | one month back, day clamped, time kept |
| `DateUtils.GetNextMonth` | src/utils/dateUtils.ts:186-188 | one month on, day clamped, time kept |
| `DateUtils.GetPrevDay` | src/utils/dateUtils.ts:193-195 | one day back, time kept |
| `DateUtils.GetNextDay` | src/utils/dateUtils.ts:200-202 | one day on, time kept |
| `DateUtils.GetPrevWeek` | src/utils/dateUtils.ts:207-209 | seven days back, same weekday and time |
| `DateUtils.GetNextWeek` | src/utils/dateUtils.ts:214-216 | seven days on, same weekday and time |
| `DateUtils.GetToday` | src/utils/dateUtils.ts:221-223 | midnight of the current day |
| `DateUtils.DayAndWeekStepsInvert` | src/utils/dateUtils.ts:193-216 | a day or week step back and forth returns the same moment |
| `DateUtils.MonthStepsInvert` | src/utils/dateUtils.ts:179-188 | a month step back and forth returns to the same month, and to the same moment when the day exists in the month stepped to |
| `DateUtils.AreRangesEqual` | src/utils/dateUtils.ts:228-238 | equal iff the bounds' days (or their absence) coincide |
| `DateUtils.RangeEqualityIsEquivalence` | src/utils/dateUtils.ts:228-238 | reflexive, symmetric, transitive; a missing bound never equals a present one |
| `DateUtils.RangeEqualityIgnoresTimeOfDay` | src/utils/dateUtils.ts:228-238 | moving bounds within their days keeps ranges equal; a half-open range never equals a complete one |
| `DateUtils.NormalizeRange` | src/utils/dateUtils.ts:243-254 | the result is ordered; partial ranges are kept; both bounds present: swapped iff the start is after the end |
| `DateUtils.NormalizeIdempotent` | src/utils/dateUtils.ts:243-254 | normalising twice is normalising once; an ordered range is its own normalisation |
| `Presets.GetValue` | src/components/Presets/presets.ts:22-143 | definition; characterised by `Presets.BuiltInRuleIsWholeDayRange`, and per rule by `Presets.DayPresets` to `Presets.LastYearPreset` |
| `Presets.DayPresets` | src/components/Presets/presets.ts:22-71 | Today and Yesterday are one whole day each; last `n` days are `n` whole days ending today |
| `Presets.WeekPresets` | src/components/Presets/presets.ts:72-89 | This week is the whole Sunday-to-Saturday week holding now; Last week is the whole week seven days before |
| `Presets.ThisMonthPreset` | src/components/Presets/presets.ts:90-97 | from midnight on the 1st to the end of the month's last day; it holds exactly the moments of the current month |
| `Presets.LastMonthPreset` | src/components/Presets/presets.ts:98-107 | the whole month one before the current one |
| `Presets.LastMonthWrapsInJanuary` | src/components/Presets/presets.ts:98-107 | in January it is December of the previous year; otherwise the previous month of the year |
| `Presets.LastMonthAdjoinsThisMonth` | src/components/Presets/presets.ts:90-107 | last month ends the day before this month begins |
| `Presets.ThisQuarterPreset` | src/components/Presets/presets.ts:108-115 | the three whole months of the quarter holding now, now included |
| `Presets.LastQuarterPreset` | src/components/Presets/presets.ts:116-125 | the whole quarter three months before this quarter |
| `Presets.LastQuarterAdjoinsThisQuarter` | src/components/Presets/presets.ts:108-125 | last quarter ends the day before this quarter begins |
| `Presets.ThisYearPreset` | src/components/Presets/presets.ts:126-132 | January 1 to December 31 of the current year, now included |
| `Presets.LastYearPreset` | src/components/Presets/presets.ts:133-142 | January 1 to December 31 of the previous year |
| `Presets.LastYearAdjoinsThisYear` | src/components/Presets/presets.ts:126-142 | last year ends the day before this year begins |
| `Presets.BuiltInRuleIsWholeDayRange` | src/components/Presets/presets.ts:33-143 | every built-in rule gives both bounds, from midnight of one day to the last moment of the same or a later day |
| `Presets.DefaultPresetsAreWholeDayRanges` | src/components/Presets/presets.ts:33-143 | all fourteen built-in presets give such ranges |
| `Presets.GroupsPartitionDefaults` | src/components/Presets/presets.ts:148-165 | the four groups concatenated are the built-in list, with sizes 6, 2, 2 and 4 |
| `Presets.ArabicLabel` | src/components/Presets/presets.ts:197 | definition; characterised by `Presets.ArabicLabelsCoverDefaults` and `Presets.ArabicLabelIdempotent` |
| `Presets.GetLocalizedPresets` | src/components/Presets/presets.ts:190-201 | length, order, rule and shortcut kept; for a code starting `ar` each label is its Arabic label, or itself when there is none; any other code gives the list unchanged |
| `Presets.ArabicLabelsCoverDefaults` | src/components/Presets/presets.ts:170-185 | every built-in label has an Arabic entry |
| `Presets.ArabicLabelIdempotent` | src/components/Presets/presets.ts:170-197 | relabelling an Arabic label again leaves it alone |
| `Presets.LocalizeIdempotent` | src/components/Presets/presets.ts:190-201 | localising twice is localising once |
| `PresetList.IsGroupedPresets` | src/components/Presets/PresetList.tsx:29-31 | an empty list is flat; otherwise grouped iff the first element is a group |
| `PresetList.GroupedLooksAtFirstOnly` | src/components/Presets/PresetList.tsx:29-31 | elements after the first never change the verdict; for a uniform list, grouped iff every element is a group |
| `PresetList.HandlePresetClick` | src/components/Presets/PresetList.tsx:44-50 | a click reports the preset's range unchanged, which the list then highlights |
| `PresetList.IsPresetSelected` | src/components/Presets/PresetList.tsx:52-54 | definition; characterised by `PresetList.HandlePresetClick`, `PresetList.HighlightIgnoresTimeOfDay` and `PresetList.TodayHighlightedIff` |
| `PresetList.HighlightIgnoresTimeOfDay` | src/components/Presets/PresetList.tsx:52-54 | the highlight depends on the value's bound days only |
| `PresetList.TodayHighlightedIff` | src/components/Presets/PresetList.tsx:52-54 | Today is highlighted iff the value starts and ends on the current day |
| `PresetList.SaturdayHighlightsTwoPresets` | src/components/Presets/PresetList.tsx:52-54 | on a Saturday, This week and Last 7 days are the same range, so choosing either highlights both |
| `PresetList.PresetRow` | src/components/Presets/PresetList.tsx:52-106 | definition; characterised by `PresetList.FlatListRendersEveryPreset` |
| `PresetList.PresetRows` | src/components/Presets/PresetList.tsx:147 | definition; characterised by `PresetList.GroupedChoicesAreFlatRows` |
| `PresetList.FlatRows` | src/components/Presets/PresetList.tsx:155-161 | definition; characterised by `PresetList.FlatListRendersEveryPreset` |
| `PresetList.GroupRows` | src/components/Presets/PresetList.tsx:119-153 | definition; characterised by `PresetList.GroupedChoicesAreFlatRows` |
| `PresetList.RenderRows` | src/components/Presets/PresetList.tsx:119-161 | definition; characterised by `PresetList.FlatListRendersEveryPreset` and `PresetList.GroupedChoicesAreFlatRows` |
| `PresetList.FlatListRendersEveryPreset` | src/components/Presets/PresetList.tsx:155-161 | a flat list renders one row per preset, in order |
| `PresetList.GroupedChoicesAreFlatRows` | src/components/Presets/PresetList.tsx:119-153 | a grouped list renders, between its headings, the rows of all groups' presets in order |
| `PresetList.GroupedPresetsCoverDefaults` | src/components/Presets/presets.ts:148-165 | the built-in groups hold exactly the built-in presets, in order |
| `PresetList.GroupedDefaultsMatchFlatDefaults` | src/components/Presets/PresetList.tsx:119-161 | the grouped built-in list shows the same preset rows and highlights as the flat built-in list |
| `Popover.StartsNewSelection` | src/components/DateRangePicker/DateRangePickerPopover.tsx:102 | definition; characterised by `Popover.ClickStartsOrCompletes` |
| `Popover.NextSelection` | src/components/DateRangePicker/DateRangePickerPopover.tsx:102-117 | definition; characterised by `Popover.ClickStartsOrCompletes` and `Popover.TwoClicksSelectRange` |
| `Popover.ClickReports` | src/components/DateRangePicker/DateRangePickerPopover.tsx:107-128 | definition; characterised by `Popover.ReportRules` |
| `Popover.ClickCloses` | src/components/DateRangePicker/DateRangePickerPopover.tsx:119-128 | definition; characterised by `Popover.ReportRules` |
| `Popover.PresetReports` | src/components/DateRangePicker/DateRangePickerPopover.tsx:141-142 | definition; characterised by `Popover.ReportRules` |
| `Popover.PresetCloses` | src/components/DateRangePicker/DateRangePickerPopover.tsx:141-145 | definition; characterised by `Popover.ReportRules` |
| `Popover.ClickStartsOrCompletes` | src/components/DateRangePicker/DateRangePickerPopover.tsx:102-117 | a click leaves a start picked: it starts anew at the clicked day, or completes the started range ordered, with the start and clicked days as bounds and both in the range |
| `Popover.TwoClicksSelectRange` | src/components/DateRangePicker/DateRangePickerPopover.tsx:102-117 | two clicks from an empty or complete range select the two days in order, whichever came first; a third click starts over |
| `Popover.ReportRules` | src/components/DateRangePicker/DateRangePickerPopover.tsx:107-149 | closing implies reporting; without auto-apply and with action buttons nothing but Apply reports; a first click never closes; without close-on-select nothing closes |
| `Popover.AutoApplyReport` | src/components/DateRangePicker/DateRangePickerPopover.tsx:93-97 | under auto-apply a complete pending range is reported as is, and nothing else is |
| `Popover.EffectiveCalendars` | src/components/DateRangePicker/DateRangePickerPopover.tsx:178 | one to three calendars, one on a small screen |
| `Popover.MonthsFrom` | src/components/DateRangePicker/DateRangePickerPopover.tsx:179-181 | element `i` is `i` months after the base |
| `Popover.CalendarMonthsAreConsecutive` | src/components/DateRangePicker/DateRangePickerPopover.tsx:176-183 | the calendar at each display position shows consecutive months, reversed right to left, one of them the base month |
| `Popover.MonthChangeShowsDate` | src/components/DateRangePicker/DateRangePickerPopover.tsx:170-173 | after a month change on the calendar at a position, that calendar shows the chosen month and the others stay consecutive around it |
| `Popover.MobilePresetsAsWritten` | src/components/DateRangePicker/DateRangePickerPopover.tsx:253-257 | the small-screen preset row as written: the first six presets, or no result at all for an empty list |
| `Popover.MobilePresets` | src/components/DateRangePicker/DateRangePickerPopover.tsx:253-257 | at most six presets, none for an empty list, otherwise the as-written row |
| `Popover.EmptyMobilePresets` | src/components/DateRangePicker/DateRangePickerPopover.tsx:253 | an empty list breaks the as-written row and gives no buttons once corrected |
| `Popover.FillMonths` | src/components/DateRangePicker/DateRangePickerPopover.tsx:177-181 | the array is filled with the consecutive months from the base |
| `Popover.PickerPopover.constructor` | src/components/DateRangePicker/DateRangePickerPopover.tsx:78-82 | the pending range is the value; nothing is hovered; the base month is the value's start, or now |
| `Popover.PickerPopover.SyncOnOpen` | src/components/DateRangePicker/DateRangePickerPopover.tsx:84-97 | when open, the pending range and base month reset from the value and a complete value is reported under auto-apply; when closed, nothing changes |
| `Popover.PickerPopover.SelectDate` | src/components/DateRangePicker/DateRangePickerPopover.tsx:100-132 | the pending range after the click, what it reports and whether it closes, by the click rules; afterwards Apply is enabled, and the click is displayed at once without auto-apply or, under auto-apply, once its report is the value |
| `Popover.PickerPopover.SelectPreset` | src/components/DateRangePicker/DateRangePickerPopover.tsx:135-149 | the preset's range becomes pending and its start month (or now) the base; reported iff auto-apply or no action buttons; closes iff, in addition, close-on-select; Apply is enabled iff the range has a start; displayed as for a click |
| `Popover.PickerPopover.ApplyEnabled` | src/components/DateRangePicker/DateRangePickerPopover.tsx:304 | definition; characterised by `Popover.PickerPopover.SelectDate`, `Popover.PickerPopover.SelectPreset` and `Popover.PickerPopover.Cancel` |
| `Popover.PickerPopover.Apply` | src/components/DateRangePicker/DateRangePickerPopover.tsx:152-155 | reports the pending range and closes |
| `Popover.PickerPopover.Cancel` | src/components/DateRangePicker/DateRangePickerPopover.tsx:158-161 | the pending range returns to the value; it closes without reporting; Apply is enabled iff the value has a start |
| `Popover.PickerPopover.Today` | src/components/DateRangePicker/DateRangePickerPopover.tsx:164-167 | the base month becomes now; nothing else changes |
| `Popover.PickerPopover.MonthChange` | src/components/DateRangePicker/DateRangePickerPopover.tsx:170-173 | the base moves to `calendarIndex` months before the chosen date |
| `Popover.PickerPopover.SetHovered` | src/components/DateRangePicker/DateRangePickerPopover.tsx:232 | the hovered day is set or cleared; nothing else changes |
| `Popover.PickerPopover.DisplayedValue` | src/components/DateRangePicker/DateRangePickerPopover.tsx:203-229 | the range the calendars and presets show; characterised by `Popover.PickerPopover.SelectDate` and `Popover.PickerPopover.SelectPreset`: without auto-apply a selection shows at once, and under auto-apply it shows once its report comes back as the value |
| `Popover.PickerPopover.CalendarMonths` | src/components/DateRangePicker/DateRangePickerPopover.tsx:176-183 | the calendars' months in display order, built in an array and reversed in place right to left |
| `Picker.InlineNextValue` | src/components/DateRangePicker/DateRangePicker.tsx:112-121 | definition; characterised by `Picker.InlineIsUnnormalizedSelection` and `Picker.InlineCanInvert` |
| `Picker.InlineIsUnnormalizedSelection` | src/components/DateRangePicker/DateRangePicker.tsx:112-121 | the inline rule ordered is the popover's rule; the two agree iff the clicked day is not before the start |
| `Picker.InlineCanInvert` | src/components/DateRangePicker/DateRangePicker.tsx:112-121 | a click before the started day leaves the inline value with its end before its start |
| `Picker.RenderInputValue` | src/components/DateRangePicker/DateRangePicker.tsx:140-142 | empty unless both bounds are set; then both formatted around ` - ` |
| `Picker.DateRangePicker.constructor` | src/components/DateRangePicker/DateRangePicker.tsx:56-65 | closed, unanchored, internal value the default |
| `Picker.DateRangePicker.SetControlledValue` | src/components/DateRangePicker/DateRangePicker.tsx:63-65 | the caller's value is replaced; nothing else changes |
| `Picker.DateRangePicker.HandleChange` | src/components/DateRangePicker/DateRangePicker.tsx:67-76 | always reports the value; keeps it only when uncontrolled |
| `Picker.DateRangePicker.HandleOpen` | src/components/DateRangePicker/DateRangePicker.tsx:79-85 | nothing when disabled or read-only; otherwise open, anchored unless the input is custom, and `onOpen` reported |
| `Picker.DateRangePicker.HandleClose` | src/components/DateRangePicker/DateRangePicker.tsx:88-92 | closed, unanchored, `onClose` reported |
| `Picker.DateRangePicker.HandleClear` | src/components/DateRangePicker/DateRangePicker.tsx:95-97 | the empty range is reported, and kept when uncontrolled |
| `Picker.DateRangePicker.HandleClickAway` | src/components/DateRangePicker/DateRangePicker.tsx:100-104 | closes and reports `onClose` iff click-outside closing is on and it is open; otherwise nothing |
| `Picker.DateRangePicker.InlineSelect` | src/components/DateRangePicker/DateRangePicker.tsx:112-121 | reports the inline rule's range, kept when uncontrolled |
| `Seqs.Reverse` | src/components/Calendar/Calendar.tsx:83 | same length; element `i` is element `n-1-i` |
| `Seqs.ReverseReverse` | src/components/Calendar/Calendar.tsx:83 | reversal is its own inverse and keeps the elements |
| `Seqs.ReverseInPlace` | src/components/DateRangePicker/DateRangePickerPopover.tsx:182 | the array afterwards is its old contents reversed |
| `Calendar.StepMonth` | src/components/Calendar/Calendar.tsx:89-90 | definition; characterised by `Calendar.MonthStartStepsInvert` and `Calendar.MonthView.Navigate` |
| `Calendar.MonthStartStepsInvert` | src/components/Calendar/Calendar.tsx:87-98 | from the first moment of a month, a step either way lands on a first moment, and the opposite step comes back |
| `Calendar.Rotated` | src/components/Calendar/Calendar.tsx:78-82 | position `i` of the rotated names holds name `(i + k) mod 7`; the loop `Calendar.WeekdayHeaders` is proved to compute it |
| `Calendar.WeekdayHeaders` | src/components/Calendar/Calendar.tsx:77-84 | seven names, position `i` holding `(i + weekStartsOn) mod 7`, reversed right to left |
| `Calendar.WeeksOf` | src/components/Calendar/Calendar.tsx:132-139 | definition; characterised by `Calendar.Weeks`, `Calendar.FlattenWeeks` and `Calendar.HeadersMatchRows` |
| `Calendar.Weeks` | src/components/Calendar/Calendar.tsx:132-139 | consecutive chunks of seven, each reversed right to left |
| `Calendar.FlattenWeeks` | src/components/Calendar/Calendar.tsx:132-139 | left to right, the rows read in turn give the days back |
| `Calendar.HeadersMatchRows` | src/components/Calendar/Calendar.tsx:77-139 | over whole weeks of consecutive days starting on `weekStartsOn`, every row is full and each header names its column's weekday, in either direction |
| `Calendar.HeadersMatchColumns` | src/components/Calendar/Calendar.tsx:71-84 | over a month's grid the headers name the weekday of every cell beneath them |
| `Calendar.MonthView.constructor` | src/components/Calendar/Calendar.tsx:66-68 | the internal month is the start of the default month |
| `Calendar.MonthView.SetControlledMonth` | src/components/Calendar/Calendar.tsx:67-68 | the caller's month is replaced; the internal one is kept |
| `Calendar.MonthView.Navigate` | src/components/Calendar/Calendar.tsx:87-98 | reports the month one step back or on; kept only when uncontrolled, and still a month start |
| `Calendar.MonthView.MonthChange` | src/components/Calendar/Calendar.tsx:100-108 | reports the chosen date unchanged; keeps the start of its month only when uncontrolled |
| `CalendarHeader.YearOptions` | src/components/Calendar/CalendarHeader.tsx:47-48 | 21 consecutive years from ten before to ten after the shown year |
| `CalendarHeader.OneYearSelected` | src/components/Calendar/CalendarHeader.tsx:265-271 | exactly one year option, the middle one, is selected |
| `CalendarHeader.MonthOptionSelected` | src/components/Calendar/CalendarHeader.tsx:241 | definition; characterised by `CalendarHeader.HeaderMenus.MonthSelect` |
| `CalendarHeader.ButtonDirection` | src/components/Calendar/CalendarHeader.tsx:50-56 | the leading button goes back and the trailing one forward, swapped right to left |
| `CalendarHeader.ButtonsNavigateOppositeWays` | src/components/Calendar/CalendarHeader.tsx:50-56 | the two buttons always navigate opposite ways |
| `CalendarHeader.IsPrevDisabledAsWritten` | src/components/Calendar/CalendarHeader.tsx:97-99 | definition; characterised by `CalendarHeader.AsWrittenDisablesLess` and `CalendarHeader.PrevEnabledBeforeMinimum` |
| `CalendarHeader.IsNextDisabledAsWritten` | src/components/Calendar/CalendarHeader.tsx:100-102 | definition; characterised by `CalendarHeader.AsWrittenDisablesLess` and `CalendarHeader.NextEnabledAfterMaximum` |
| `CalendarHeader.ButtonDisabledAsWritten` | src/components/Calendar/CalendarHeader.tsx:120-124 | definition; characterised by `CalendarHeader.RightToLeftButtonsSwapLimits` and `CalendarHeader.LeftToRightAgrees` |
| `CalendarHeader.IsPrevDisabled` | src/components/Calendar/CalendarHeader.tsx:97-99 | definition of the corrected flag; characterised by `CalendarHeader.PrevDisabledIffStepBelowMinimum` |
| `CalendarHeader.IsNextDisabled` | src/components/Calendar/CalendarHeader.tsx:100-102 | definition of the corrected flag; characterised by `CalendarHeader.NextDisabledIffStepAboveMaximum` |
| `CalendarHeader.ButtonDisabled` | src/components/Calendar/CalendarHeader.tsx:120-124 | definition of the corrected flag; characterised by `CalendarHeader.ButtonDisabledIffStepLeaves` and `CalendarHeader.LeftToRightAgrees` |
| `CalendarHeader.AsWrittenDisablesLess` | src/components/Calendar/CalendarHeader.tsx:97-102 | the year-and-month flags only disable what the month comparison disables, and agree with it within the limit's year |
| `CalendarHeader.PrevEnabledBeforeMinimum` | src/components/Calendar/CalendarHeader.tsx:97-99 | a month of an earlier year but a later month of the year than the minimum leaves back enabled, and its step goes below the minimum |
| `CalendarHeader.NextEnabledAfterMaximum` | src/components/Calendar/CalendarHeader.tsx:100-102 | a month of a later year but an earlier month of the year than the maximum leaves forward enabled, and its step goes above the maximum |
| `CalendarHeader.RightToLeftButtonsSwapLimits` | src/components/Calendar/CalendarHeader.tsx:120-124 | right to left at the maximum's month, the leading button is enabled and steps past the maximum while the trailing one, whose step stays inside, is disabled |
| `CalendarHeader.PrevDisabledIffStepBelowMinimum` | src/components/Calendar/CalendarHeader.tsx:97-99 | corrected: back is disabled iff the month stepped to is before the minimum's month |
| `CalendarHeader.NextDisabledIffStepAboveMaximum` | src/components/Calendar/CalendarHeader.tsx:100-102 | corrected: forward is disabled iff the month stepped to is after the maximum's month |
| `CalendarHeader.ButtonDisabledIffStepLeaves` | src/components/Calendar/CalendarHeader.tsx:96-102 | corrected: from within the limits a button is disabled iff its step leaves them, in either direction of writing |
| `CalendarHeader.LeftToRightAgrees` | src/components/Calendar/CalendarHeader.tsx:97-102 | left to right within the limits' years, the corrected flags are the written ones |
| `CalendarHeader.HeaderMenus.constructor` | src/components/Calendar/CalendarHeader.tsx:41-42 | both menus start closed |
| `CalendarHeader.HeaderMenus.MonthClick` | src/components/Calendar/CalendarHeader.tsx:58-62 | opens the month menu iff quick jumping is on |
| `CalendarHeader.HeaderMenus.YearClick` | src/components/Calendar/CalendarHeader.tsx:64-68 | opens the year menu iff quick jumping is on |
| `CalendarHeader.HeaderMenus.MonthSelect` | src/components/Calendar/CalendarHeader.tsx:70-77 | reports the shown date in the chosen month of the same year, day clamped, time kept; closes the month menu |
| `CalendarHeader.HeaderMenus.YearSelect` | src/components/Calendar/CalendarHeader.tsx:79-86 | reports the shown date in the chosen year, month and day kept (February 29 becomes March 1); closes the year menu |
| `CalendarHeader.HeaderMenus.CloseMonthMenu` | src/components/Calendar/CalendarHeader.tsx:88-90 | the month menu closes; the year menu is untouched |
| `CalendarHeader.HeaderMenus.CloseYearMenu` | src/components/Calendar/CalendarHeader.tsx:92-94 | the year menu closes; the month menu is untouched |

## Left out

- Markup and styling: the MUI layout, theming, aria attributes, and where the
  popover, dialog and drawer are placed. They only differ in presentation.
- `src/components/Calendar/CalendarDay.tsx`: colours and borders. Its one rule,
  that a disabled day ignores clicks, is the `!IsDateDisabled` precondition of
  `PickerPopover.SelectDate` and `DateRangePicker.InlineSelect`.
- `renderDay`: a custom day renderer gets a click handler without that guard.
  The model assumes clicks come only from enabled days.
- `src/components/DateRangePicker/DateRangePickerInput.tsx` and
  `DateRangePickerContext.tsx` are not part of this model. The input's text is
  `FormatDateRange`, and the context repeats the root's controlled and
  uncontrolled value.
- Clock: `new Date()` and `isToday` read the clock, so the model takes the
  moment as `now`. Each preset reads the clock once. The source reads it twice
  for Today, This week, This month, This quarter and This year, which can
  differ across midnight.
- Time zones and daylight saving: a day is always 86 400 000 ms. The week and
  month functions work on day numbers.
- Formatting: date-fns `format`, with its pattern and locale, and the
  `toLocaleDateString` of a custom input are the parameter `format`. The locale
  string tables are not modelled.
- React scheduling: effect order and memoisation are not modelled. When
  auto-apply is on, the handler and the auto-apply effect can both report the
  same range. The model reports the handler's call from `SelectDate`, and the
  effect separately through `AutoApplyReport` and `SyncOnOpen`. It does not
  count duplicate calls.
- `isMobile` comes from a media query and is a parameter.
- Props the picker discards: `selectionMode`, `minRangeDays`, `maxRangeDays`,
  the validators and the time picker. The code binds them and never uses them,
  so they have no behaviour.
- Hover and click forwarding through the calendar (`handleDateClick`,
  `handleDateHover`, `handleMouseLeave`): these only pass their argument on.
  They appear as `PickerPopover.SetHovered` and the select methods.
- `WeekdayHeaders`, `Rotated`, `HeadersNameColumns`: these require exactly
  seven weekday names, which every locale supplies. With another count the
  source rotates a list of that length.
- `isWithinInterval` follows date-fns version 3 and later: bounds given in
  reverse order are taken as the interval between them, with no error. Older
  versions throw, so `IsDateInRange` of a reversed range describes version 3
  behaviour.
- `GetLocalizedPresets`: the source looks Arabic labels up in a plain object,
  so a custom label naming an `Object.prototype` member (`constructor`,
  `toString`, `__proto__`) would get the inherited value instead of itself.
  The model assumes no label is such a name, and keeps any label without an
  Arabic entry.
- `SetYear` follows `setYear` of date-fns: it keeps the day of month, so
  February 29 runs into March 1, with no clamping to February 28.
- The calendar arithmetic reduces a date by the 400-year Gregorian cycle. This
  is an implementation device of the model; the library uses the host's `Date`.

## Findings

| source | as written | input that shows it | evidently intended | confidence | as-written member | corrected member |
|---|---|---|---|---|---|---|
| src/components/Calendar/CalendarHeader.tsx:97-99 | back is disabled when the shown year ≤ the minimum's year and the shown month of year ≤ the minimum's, each compared separately | shown August 2023 with minDate June 2024: back stays enabled and goes further below the minimum | disabled when the shown month, counted in years and months, is not after the minimum's | not executed | `CalendarHeader.PrevEnabledBeforeMinimum` | `CalendarHeader.PrevDisabledIffStepBelowMinimum` |
| src/components/Calendar/CalendarHeader.tsx:100-102 | forward is disabled when the shown year ≥ the maximum's year and the shown month of year ≥ the maximum's, each compared separately | shown March 2025 with maxDate June 2024: forward stays enabled and goes further past the maximum | disabled when the shown month is not before the maximum's | not executed | `CalendarHeader.NextEnabledAfterMaximum` | `CalendarHeader.NextDisabledIffStepAboveMaximum` |
| src/components/Calendar/CalendarHeader.tsx:120-124 | right to left, the leading button navigates forward but is disabled by the back flag, and the trailing one the other way round | right to left, shown the month of maxDate with no minDate: the leading button (forward) is enabled, the trailing one (back) is disabled | each button disabled by the flag of the direction it navigates | not executed | `CalendarHeader.RightToLeftButtonsSwapLimits` | `CalendarHeader.ButtonDisabledIffStepLeaves` |
| src/components/DateRangePicker/DateRangePickerPopover.tsx:253 | the small-screen preset row reads `presets[0]` to tell a flat list from a grouped one | `presets = []` with presets shown on a small screen: reading a field of `undefined` fails | an empty list gives no buttons | not executed | `Popover.MobilePresetsAsWritten` | `Popover.MobilePresets` |

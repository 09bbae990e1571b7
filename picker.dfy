/**
 * The picker's root state: the value (held by the caller when controlled, by
 * the picker otherwise), whether the popover is open and anchored to the input,
 * and the inline variant's own selection rule.  Callbacks the source invokes
 * are returned as a list of `Callback`s, in the order they are made.
 */
module Picker {
  import opened Wrappers
  import opened DateFns
  import opened Types
  import opened DateUtils
  import opened Popover

  datatype Callback = OnChange(range: DateRange) | OnOpen | OnClose

  /** The inline calendar's rule: start anew, or set the end to the clicked day without ordering the bounds. */
  function InlineNextValue(current: DateRange, date: Date): DateRange
  {
    if current.startDate.None? || current.endDate.Some? then DateRange(Some(date), None)
    else DateRange(current.startDate, Some(date))
  }

  /**
   * The inline rule is the popover's rule without normalisation: ordering its
   * result gives the popover's, and the two agree exactly when the clicked day
   * is not before the start.
   */
  lemma InlineIsUnnormalizedSelection(current: DateRange, date: Date)
    ensures NormalizeRange(InlineNextValue(current, date)) == NextSelection(current, date)
    ensures !StartsNewSelection(current) ==>
              (InlineNextValue(current, date) == NextSelection(current, date) <==>
               !IsAfter(current.startDate.value, date))
  {
  }

  /** A click before the started day leaves the inline value with its end before its start. */
  lemma InlineCanInvert(s: Date, date: Date)
    requires date.day < s.day
    ensures var r := InlineNextValue(DateRange(Some(s), None), date);
            r.startDate == Some(s) && r.endDate == Some(date) && !IsOrdered(r)
  {
  }

  /** The text a custom input shows: both bounds formatted, or nothing until both are picked. */
  function RenderInputValue(value: DateRange, format: Date -> string): (r: string)
    ensures value.startDate.None? || value.endDate.None? ==> r == ""
    ensures value.startDate.Some? && value.endDate.Some? ==> r == FormatDateRange(value, format)
  {
    if value.startDate.Some? && value.endDate.Some? then
      format(value.startDate.value) + " - " + format(value.endDate.value)
    else ""
  }

  class DateRangePicker {
    /** The caller's value when the picker is controlled; it changes only when the caller says so. */
    var controlledValue: Option<DateRange>
    const disabled: bool
    const readOnly: bool
    const closeOnClickOutside: bool
    /** Whether the caller renders its own input, which the picker cannot anchor to. */
    const customInput: bool
    /** The dates the inline calendar refuses. */
    const policy: DisablePolicy
    var internalValue: DateRange
    var isOpen: bool
    /** Whether the popover has an anchor element. */
    var anchored: bool

    /**
     * An anchor is only ever held while the popover is open.  It is a kept
     * invariant only: every handler preserves it, and no contract relies on it.
     */
    predicate Valid()
      reads this
    {
      anchored ==> isOpen
    }

    constructor(controlledValue: Option<DateRange>, defaultValue: DateRange,
                disabled: bool, readOnly: bool, closeOnClickOutside: bool, customInput: bool,
                policy: DisablePolicy)
      ensures Valid()
      ensures this.controlledValue == controlledValue && internalValue == defaultValue
      ensures this.disabled == disabled && this.readOnly == readOnly
      ensures this.closeOnClickOutside == closeOnClickOutside && this.customInput == customInput
      ensures this.policy == policy && !isOpen && !anchored
    {
      this.policy := policy;
      this.controlledValue := controlledValue;
      this.disabled := disabled;
      this.readOnly := readOnly;
      this.closeOnClickOutside := closeOnClickOutside;
      this.customInput := customInput;
      internalValue := defaultValue;
      isOpen := false;
      anchored := false;
    }

    /** The value shown: the caller's when controlled, the picker's own otherwise. */
    function CurrentValue(): DateRange
      reads this
    {
      controlledValue.GetOr(internalValue)
    }

    /** The caller passes a new `value` (or none). */
    method SetControlledValue(value: Option<DateRange>)
      requires Valid()
      modifies this
      ensures Valid()
      ensures controlledValue == value
      ensures internalValue == old(internalValue) && isOpen == old(isOpen) && anchored == old(anchored)
    {
      controlledValue := value;
    }

    /** A new value: kept by the picker only when uncontrolled, and always passed to `onChange`. */
    method HandleChange(newValue: DateRange) returns (calls: seq<Callback>)
      requires Valid()
      modifies this
      ensures Valid()
      ensures calls == [OnChange(newValue)]
      ensures controlledValue.None? ==> internalValue == newValue && CurrentValue() == newValue
      ensures controlledValue.Some? ==> internalValue == old(internalValue) && CurrentValue() == old(CurrentValue())
      ensures controlledValue == old(controlledValue) && isOpen == old(isOpen) && anchored == old(anchored)
    {
      if controlledValue.None? {
        internalValue := newValue;
      }
      calls := [OnChange(newValue)];
    }

    /** Opening, refused when disabled or read-only; the anchor is the picker's own input, absent for a custom one. */
    method HandleOpen() returns (calls: seq<Callback>)
      requires Valid()
      modifies this
      ensures Valid()
      ensures disabled || readOnly ==> calls == [] && isOpen == old(isOpen) && anchored == old(anchored)
      ensures !(disabled || readOnly) ==> calls == [OnOpen] && isOpen && anchored == !customInput
      ensures controlledValue == old(controlledValue) && internalValue == old(internalValue)
    {
      if disabled || readOnly {
        return [];
      }
      anchored := !customInput;
      isOpen := true;
      calls := [OnOpen];
    }

    method HandleClose() returns (calls: seq<Callback>)
      requires Valid()
      modifies this
      ensures Valid()
      ensures !isOpen && !anchored && calls == [OnClose]
      ensures controlledValue == old(controlledValue) && internalValue == old(internalValue)
    {
      isOpen := false;
      anchored := false;
      calls := [OnClose];
    }

    /** Clearing passes the empty range on as a change. */
    method HandleClear() returns (calls: seq<Callback>)
      requires Valid()
      modifies this
      ensures Valid()
      ensures calls == [OnChange(EmptyRange)]
      ensures controlledValue.None? ==> CurrentValue() == EmptyRange
      ensures controlledValue.Some? ==> internalValue == old(internalValue)
      ensures controlledValue == old(controlledValue) && isOpen == old(isOpen) && anchored == old(anchored)
    {
      calls := HandleChange(EmptyRange);
    }

    /** A click outside closes the open popover when the picker is configured to; otherwise nothing happens. */
    method HandleClickAway() returns (calls: seq<Callback>)
      requires Valid()
      modifies this
      ensures Valid()
      ensures closeOnClickOutside && old(isOpen) ==> !isOpen && !anchored && calls == [OnClose]
      ensures !(closeOnClickOutside && old(isOpen)) ==> isOpen == old(isOpen) && anchored == old(anchored) && calls == []
      ensures controlledValue == old(controlledValue) && internalValue == old(internalValue)
    {
      calls := [];
      if closeOnClickOutside && isOpen {
        calls := HandleClose();
      }
    }

    /** A click on a day of the inline calendar. */
    method InlineSelect(date: Date) returns (calls: seq<Callback>)
      requires Valid() && !IsDateDisabled(date, policy)
      modifies this
      ensures Valid()
      ensures calls == [OnChange(InlineNextValue(old(CurrentValue()), date))]
      ensures controlledValue.None? ==> CurrentValue() == InlineNextValue(old(CurrentValue()), date)
      ensures controlledValue.Some? ==> internalValue == old(internalValue)
      ensures controlledValue == old(controlledValue) && isOpen == old(isOpen) && anchored == old(anchored)
    {
      var current := CurrentValue();
      var next: DateRange;
      if current.startDate.None? || current.endDate.Some? {
        next := DateRange(Some(date), None);
      } else {
        next := DateRange(current.startDate, Some(date));
      }
      calls := HandleChange(next);
    }
  }
}

/**
 * One month calendar: the month it shows (the caller's when controlled, its own
 * otherwise), the weekday header row and the grid cut into weeks.
 */
module Calendar {
  import opened Wrappers
  import opened DateFns
  import opened DateUtils
  import opened Seqs

  datatype NavigationDirection = Prev | Next

  /** The month one step back or forward. */
  function StepMonth(m: Date, direction: NavigationDirection): Date
  {
    if direction == Prev then GetPrevMonth(m) else GetNextMonth(m)
  }

  /** The first moment of a month. */
  predicate IsMonthStart(m: Date)
  {
    DayOfMonth(m) == 1 && m.ms == 0
  }

  /** From the first moment of a month, a step either way lands on a first moment, and the opposite step comes back. */
  lemma MonthStartStepsInvert(m: Date)
    requires IsMonthStart(m)
    ensures IsMonthStart(StepMonth(m, Prev)) && IsMonthStart(StepMonth(m, Next))
    ensures StepMonth(StepMonth(m, Prev), Next) == m
    ensures StepMonth(StepMonth(m, Next), Prev) == m
  {
    BackFromMonthStart(m);
    ForwardFromMonthStart(m);
  }

  lemma BackFromMonthStart(m: Date)
    requires IsMonthStart(m)
    ensures IsMonthStart(GetPrevMonth(m)) && GetNextMonth(GetPrevMonth(m)) == m
  {
    DateFromFields(GetNextMonth(GetPrevMonth(m)), m);
  }

  lemma ForwardFromMonthStart(m: Date)
    requires IsMonthStart(m)
    ensures IsMonthStart(GetNextMonth(m)) && GetPrevMonth(GetNextMonth(m)) == m
  {
    DateFromFields(GetPrevMonth(GetNextMonth(m)), m);
  }

  // ---------------------------------------------------------------------
  // Weekday headers

  /** The seven names rotated left by `k`: position `i` holds name `(i + k) mod 7`. */
  function Rotated<T>(names: seq<T>, k: nat): (r: seq<T>)
    requires |names| == 7
    ensures |r| == 7
    ensures forall i :: 0 <= i < 7 ==> r[i] == names[(i + k) % 7]
  {
    seq(7, i requires 0 <= i < 7 => names[(i + k) % 7])
  }

  /** Moving the first name to the back rotates by one more. */
  lemma RotateStep<T>(names: seq<T>, k: nat)
    requires |names| == 7
    ensures Rotated(names, k)[1..] + [Rotated(names, k)[0]] == Rotated(names, k + 1)
  {
    var r, r' := Rotated(names, k), Rotated(names, k + 1);
    var s := r[1..] + [r[0]];
    forall i | 0 <= i < 7
      ensures s[i] == r'[i]
    {
    }
  }

  /** The weekday headers: the short names starting from `weekStartsOn`, reversed in a right-to-left locale. */
  method WeekdayHeaders<T>(short: seq<T>, weekStartsOn: Weekday, rtl: bool) returns (headers: seq<T>)
    requires |short| == 7
    ensures headers == (if rtl then Reverse(Rotated(short, weekStartsOn)) else Rotated(short, weekStartsOn))
  {
    headers := short;
    assert headers == Rotated(short, 0);
    for i := 0 to weekStartsOn
      invariant headers == Rotated(short, i)
    {
      RotateStep(short, i);
      headers := headers[1..] + [headers[0]];
    }
    if rtl {
      headers := Reverse(headers);
    }
  }

  // ---------------------------------------------------------------------
  // Weeks

  /** The number of rows: one per seven days, the last possibly short. */
  function NumWeeks(n: nat): nat
  {
    (n + 6) / 7
  }

  /** Days `7w` to `7w + 6` (fewer in a short last row). */
  function Chunk<T>(days: seq<T>, w: nat): seq<T>
    requires 7 * w <= |days|
  {
    days[7 * w .. Min(7 * w + 7, |days|)]
  }

  function Orient<T>(week: seq<T>, rtl: bool): seq<T>
  {
    if rtl then Reverse(week) else week
  }

  /** The grid cut into rows of seven, each row reversed in a right-to-left locale. */
  function WeeksOf<T>(days: seq<T>, rtl: bool): (r: seq<seq<T>>)
    ensures |r| == NumWeeks(|days|)
  {
    seq(NumWeeks(|days|), w requires 0 <= w < NumWeeks(|days|) => Orient(Chunk(days, w), rtl))
  }

  /** The rows of the grid, built by cutting seven days at a time. */
  method Weeks<T>(days: seq<T>, rtl: bool) returns (weeks: seq<seq<T>>)
    ensures weeks == WeeksOf(days, rtl)
  {
    weeks := [];
    var i := 0;
    while i < |days|
      invariant i == 7 * |weeks|
      invariant |weeks| == 0 || 7 * (|weeks| - 1) < |days|
      invariant |weeks| <= NumWeeks(|days|)
      invariant forall w :: 0 <= w < |weeks| ==> weeks[w] == Orient(Chunk(days, w), rtl)
    {
      var week := days[i .. Min(i + 7, |days|)];
      weeks := weeks + [if rtl then Reverse(week) else week];
      i := i + 7;
    }
  }

  /** Flattening the first `k` rows of a left-to-right grid gives its first days back. */
  lemma {:induction false} FlattenWeeksPrefix<T>(days: seq<T>, k: nat)
    requires k <= NumWeeks(|days|)
    ensures Flatten(WeeksOf(days, false)[..k]) == days[..Min(7 * k, |days|)]
  {
    if k == 0 {
      assert WeeksOf(days, false)[..0] == [];
    } else {
      var weeks := WeeksOf(days, false);
      FlattenWeeksPrefix(days, k - 1);
      assert weeks[..k] == weeks[..k - 1] + [weeks[k - 1]];
      FlattenAppend(weeks[..k - 1], weeks[k - 1]);
      assert days[..Min(7 * k, |days|)] == days[..7 * (k - 1)] + Chunk(days, k - 1);
    }
  }

  /** In a left-to-right locale the rows, read one after another, are the grid. */
  lemma FlattenWeeks<T>(days: seq<T>)
    ensures Flatten(WeeksOf(days, false)) == days
  {
    var weeks := WeeksOf(days, false);
    FlattenWeeksPrefix(days, |weeks|);
    assert weeks[..|weeks|] == weeks;
    assert days[..Min(7 * |weeks|, |days|)] == days;
  }

  /** Every row is full, and the header above each column names the weekday of every cell in that column. */
  ghost predicate HeadersNameColumns<T>(short: seq<T>, days: seq<Date>, weekStartsOn: Weekday, rtl: bool)
    requires |short| == 7
  {
    var headers := Orient(Rotated(short, weekStartsOn), rtl);
    var weeks := WeeksOf(days, rtl);
    forall w, j :: 0 <= w < |weeks| && 0 <= j < 7 ==>
      |weeks[w]| == 7 && headers[j] == short[GetDay(weeks[w][j])]
  }

  /** Over whole weeks of consecutive days starting on `weekStartsOn`, the headers name the columns, in either direction. */
  lemma HeadersMatchRows<T>(short: seq<T>, days: seq<Date>, weekStartsOn: Weekday, rtl: bool)
    requires |short| == 7 && |days| % 7 == 0 && |days| > 0 && GetDay(days[0]) == weekStartsOn
    requires forall k :: 0 <= k < |days| ==> days[k].day == days[0].day + k
    ensures HeadersNameColumns(short, days, weekStartsOn, rtl)
  {
    var headers := Orient(Rotated(short, weekStartsOn), rtl);
    var weeks := WeeksOf(days, rtl);
    forall w, j | 0 <= w < |weeks| && 0 <= j < 7
      ensures |weeks[w]| == 7 && headers[j] == short[GetDay(weeks[w][j])]
    {
      HeaderNamesCell(short, days, weekStartsOn, rtl, w, j);
    }
  }

  /** The header above column `j` names the weekday of the cell in column `j` of row `w`. */
  lemma HeaderNamesCell<T>(short: seq<T>, days: seq<Date>, weekStartsOn: Weekday, rtl: bool, w: nat, j: nat)
    requires |short| == 7 && |days| % 7 == 0 && w < |days| / 7 && j < 7
    requires GetDay(days[0]) == weekStartsOn
    requires forall k :: 0 <= k < |days| ==> days[k].day == days[0].day + k
    ensures |WeeksOf(days, rtl)[w]| == 7 &&
            Orient(Rotated(short, weekStartsOn), rtl)[j] == short[GetDay(WeeksOf(days, rtl)[w][j])]
  {
    var c := if rtl then 6 - j else j;
    assert 7 * w + 7 <= |days|;
    WeekCell(days, rtl, w, j);
    HeaderAt(short, weekStartsOn, rtl, j);
    ColumnWeekday(days, w, c, weekStartsOn);
  }

  /** Over a month's grid, the weekday headers name the weekdays of the columns under them. */
  lemma HeadersMatchColumns<T>(short: seq<T>, month: Date, weekStartsOn: Weekday, rtl: bool)
    requires |short| == 7
    ensures HeadersNameColumns(short, GetCalendarDays(month, weekStartsOn), weekStartsOn, rtl)
  {
    var days := GetCalendarDays(month, weekStartsOn);
    HeadersMatchRows(short, days, weekStartsOn, rtl);
  }

  /** Cell `j` of full row `w` is day `7w + j`, or `7w + 6 - j` right to left. */
  lemma WeekCell<T>(days: seq<T>, rtl: bool, w: nat, j: nat)
    requires |days| % 7 == 0 && w < |days| / 7 && j < 7
    ensures |WeeksOf(days, rtl)[w]| == 7
    ensures rtl ==> WeeksOf(days, rtl)[w][j] == days[7 * w + 6 - j]
    ensures !rtl ==> WeeksOf(days, rtl)[w][j] == days[7 * w + j]
  {
  }

  /** Header `j` names weekday `j + weekStartsOn` mod 7, counted from the other end right to left. */
  lemma HeaderAt<T>(short: seq<T>, weekStartsOn: Weekday, rtl: bool, j: nat)
    requires |short| == 7 && j < 7
    ensures rtl ==> Orient(Rotated(short, weekStartsOn), rtl)[j] == short[(6 - j + weekStartsOn) % 7]
    ensures !rtl ==> Orient(Rotated(short, weekStartsOn), rtl)[j] == short[(j + weekStartsOn) % 7]
  {
  }

  /** In a run of consecutive days starting on `weekStartsOn`, column `c` of row `w` falls on weekday `c + weekStartsOn` mod 7. */
  lemma ColumnWeekday(days: seq<Date>, w: nat, c: nat, weekStartsOn: Weekday)
    requires c < 7 && 7 * w + c < |days| && GetDay(days[0]) == weekStartsOn
    requires forall k :: 0 <= k < |days| ==> days[k].day == days[0].day + k
    ensures GetDay(days[7 * w + c]) == (c + weekStartsOn) % 7
  {
    var d0 := days[0].day;
    assert days[7 * w + c].day == d0 + 7 * w + c;
    assert (d0 + 4) % 7 == weekStartsOn;
    assert (d0 + 7 * w + c + 4) % 7 == (d0 + c + 4) % 7;
  }

  // ---------------------------------------------------------------------
  // The month state

  class MonthView {
    /** The caller's month when the calendar is controlled. */
    var controlledMonth: Option<Date>
    var internalMonth: Date

    /** The calendar's own month is always the first moment of a month. */
    predicate Valid()
      reads this
    {
      IsMonthStart(internalMonth)
    }

    constructor(controlledMonth: Option<Date>, defaultMonth: Date)
      ensures Valid()
      ensures this.controlledMonth == controlledMonth && internalMonth == StartOfMonth(defaultMonth)
    {
      this.controlledMonth := controlledMonth;
      internalMonth := StartOfMonth(defaultMonth);
    }

    /** The month shown: the caller's when controlled, the calendar's own otherwise. */
    function CurrentMonth(): Date
      reads this
    {
      controlledMonth.GetOr(internalMonth)
    }

    method SetControlledMonth(month: Option<Date>)
      requires Valid()
      modifies this
      ensures Valid()
      ensures controlledMonth == month && internalMonth == old(internalMonth)
    {
      controlledMonth := month;
    }

    /** A step back or forward: kept when uncontrolled, reported either way. */
    method Navigate(direction: NavigationDirection) returns (reported: Date)
      requires Valid()
      modifies this
      ensures Valid()
      ensures reported == StepMonth(old(CurrentMonth()), direction)
      ensures MonthIndex(reported) == MonthIndex(old(CurrentMonth())) + (if direction == Prev then -1 else 1)
      ensures controlledMonth.None? ==> internalMonth == reported
      ensures controlledMonth.Some? ==> internalMonth == old(internalMonth)
      ensures controlledMonth == old(controlledMonth)
    {
      var newMonth := if direction == Prev then GetPrevMonth(CurrentMonth()) else GetNextMonth(CurrentMonth());
      if controlledMonth.None? {
        assert IsMonthStart(newMonth) by {
          if direction == Prev {
            BackFromMonthStart(internalMonth);
          } else {
            ForwardFromMonthStart(internalMonth);
          }
        }
        internalMonth := newMonth;
      }
      reported := newMonth;
    }

    /** A month chosen from the header: its first moment is kept when uncontrolled; the chosen date itself is reported. */
    method MonthChange(newMonth: Date) returns (reported: Date)
      requires Valid()
      modifies this
      ensures Valid()
      ensures reported == newMonth
      ensures controlledMonth.None? ==> internalMonth == StartOfMonth(newMonth) && IsSameMonth(CurrentMonth(), newMonth)
      ensures controlledMonth.Some? ==> internalMonth == old(internalMonth)
      ensures controlledMonth == old(controlledMonth)
    {
      if controlledMonth.None? {
        internalMonth := StartOfMonth(newMonth);
      }
      reported := newMonth;
    }
  }
}

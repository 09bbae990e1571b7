/**
 * The date primitives the picker takes from its date library, over a
 * proleptic Gregorian calendar without time zones.
 *
 * A moment is a day number (day 0 is Thursday 1970-01-01, negative numbers
 * are earlier days) and the milliseconds elapsed within that day.  Year,
 * month, day of month and weekday are derived from the day number.
 */
module DateFns {

  /** Milliseconds in one day. */
  const MsPerDay: int := 86_400_000
  /** The last millisecond of a day, 23:59:59.999. */
  const LastMs: int := 86_399_999

  type Millis = m: int | 0 <= m < 86_400_000
  /** A weekday as the library numbers it: 0 is Sunday, 6 is Saturday. */
  type Weekday = w: int | 0 <= w < 7
  /** A month of the year, 1 for January to 12 for December. */
  type MonthNumber = m: int | 1 <= m <= 12 witness 1

  datatype Date = Date(day: int, ms: Millis)

  /** Milliseconds since 1970-01-01 00:00:00.000, the value a timestamp compares by. */
  function Time(d: Date): int
  {
    d.day * MsPerDay + d.ms
  }

  predicate IsAfter(a: Date, b: Date)
  {
    a.day > b.day || (a.day == b.day && a.ms > b.ms)
  }

  predicate IsBefore(a: Date, b: Date)
  {
    IsAfter(b, a)
  }

  /** The strict orders on moments are the orders of their timestamps. */
  lemma IsAfterIsTimeOrder(a: Date, b: Date)
    ensures IsAfter(a, b) <==> Time(a) > Time(b)
    ensures IsBefore(a, b) <==> Time(a) < Time(b)
  {
    if a.day > b.day {
      assert Time(a) - Time(b) == (a.day - b.day) * MsPerDay + a.ms - b.ms;
      assert (a.day - b.day) * MsPerDay >= MsPerDay;
    } else if a.day < b.day {
      assert Time(b) - Time(a) == (b.day - a.day) * MsPerDay + b.ms - a.ms;
      assert (b.day - a.day) * MsPerDay >= MsPerDay;
    }
  }

  predicate IsSameDay(a: Date, b: Date)
  {
    a.day == b.day
  }

  /** The first moment of the day of `d`. */
  function StartOfDay(d: Date): (r: Date)
    ensures IsSameDay(r, d) && !IsAfter(r, d)
    ensures forall x: Date :: IsSameDay(x, d) ==> !IsAfter(r, x)
  {
    Date(d.day, 0)
  }

  /** The last moment of the day of `d`. */
  function EndOfDay(d: Date): (r: Date)
    ensures IsSameDay(r, d) && !IsAfter(d, r)
    ensures forall x: Date :: IsSameDay(x, d) ==> !IsAfter(x, r)
  {
    Date(d.day, LastMs)
  }

  /** Two moments fall on the same day exactly when their days start at the same moment. */
  lemma SameDayIffSameStart(a: Date, b: Date)
    ensures IsSameDay(a, b) <==> StartOfDay(a) == StartOfDay(b)
  {
  }

  function AddDays(d: Date, n: int): (r: Date)
    ensures r.day - d.day == n && r.ms == d.ms
  {
    Date(d.day + n, d.ms)
  }

  function SubDays(d: Date, n: int): (r: Date)
    ensures d.day - r.day == n && r.ms == d.ms
  {
    AddDays(d, -n)
  }

  // ---------------------------------------------------------------------
  // Weekdays

  /** The weekday of `d`; day 0 (1970-01-01) is a Thursday. */
  function GetDay(d: Date): Weekday
  {
    (d.day + 4) % 7
  }

  lemma GetDayShift(d: Date, n: int)
    ensures GetDay(AddDays(d, n)) == (GetDay(d) + n) % 7
  {
  }

  /** Two days with the same weekday lie a whole number of weeks apart. */
  lemma SameWeekdayWholeWeeks(a: Date, b: Date)
    requires GetDay(a) == GetDay(b)
    ensures (a.day - b.day) % 7 == 0
  {
  }

  predicate IsWeekend(d: Date)
  {
    GetDay(d) == 0 || GetDay(d) == 6
  }

  /**
   * The weekend is two days a week, Saturday and the Sunday after it: a Saturday
   * is followed by a weekend day and then by a weekday, and a day is a weekend
   * day iff the same day a week on is.
   */
  lemma WeekendIsTwoDaysAWeek(d: Date)
    ensures GetDay(d) == 6 ==> IsWeekend(d) && IsWeekend(AddDays(d, 1)) && !IsWeekend(AddDays(d, 2))
    ensures IsWeekend(d) <==> IsWeekend(AddDays(d, 7))
    ensures IsWeekend(d) <==> GetDay(d) == 6 || GetDay(AddDays(d, -1)) == 6
  {
  }

  /** How many days `d` lies after the most recent day whose weekday is `weekStartsOn`. */
  function DaysIntoWeek(d: Date, weekStartsOn: Weekday): (k: int)
    ensures 0 <= k < 7 && GetDay(AddDays(d, -k)) == weekStartsOn
  {
    WeekdayBack(d.day + 4, weekStartsOn);
    (GetDay(d) - weekStartsOn + 7) % 7
  }

  /** Stepping back from `x` by its distance to weekday `w` lands on weekday `w`. */
  lemma WeekdayBack(x: int, w: Weekday)
    ensures (x - (x % 7 - w + 7) % 7) % 7 == w
  {
    var r := x % 7;
    var q := x / 7;
    assert x == 7 * q + r;
    if r >= w {
      assert (r - w + 7) % 7 == r - w;
      assert x - (r - w) == 7 * q + w;
    } else {
      assert (r - w + 7) % 7 == r - w + 7;
      assert x - (r - w + 7) == 7 * (q - 1) + w;
    }
  }

  /** The first moment of the week holding `d`, weeks beginning on `weekStartsOn`. */
  function StartOfWeek(d: Date, weekStartsOn: Weekday): (r: Date)
    ensures GetDay(r) == weekStartsOn && r.ms == 0
    ensures r.day <= d.day < r.day + 7
  {
    Date(d.day - DaysIntoWeek(d, weekStartsOn), 0)
  }

  /** The last moment of the week holding `d`, weeks beginning on `weekStartsOn`. */
  function EndOfWeek(d: Date, weekStartsOn: Weekday): (r: Date)
    ensures r.day == StartOfWeek(d, weekStartsOn).day + 6 && r.ms == LastMs
    ensures GetDay(r) == (weekStartsOn + 6) % 7
    ensures r.day - 7 < d.day <= r.day
  {
    var day := GetDay(d);
    var diff := (if day < weekStartsOn then -7 else 0) + 6 - (day - weekStartsOn);
    WeekEndsSixDaysOn(d, weekStartsOn);
    Date(d.day + diff, LastMs)
  }

  /** The week's last day lies six days after its first, on the weekday before the one weeks begin on. */
  lemma WeekEndsSixDaysOn(d: Date, weekStartsOn: Weekday)
    ensures var day := GetDay(d);
            (if day < weekStartsOn then -7 else 0) + 6 - (day - weekStartsOn) == 6 - DaysIntoWeek(d, weekStartsOn)
    ensures GetDay(Date(StartOfWeek(d, weekStartsOn).day + 6, LastMs)) == (weekStartsOn + 6) % 7
  {
    var s := StartOfWeek(d, weekStartsOn).day;
    assert (s + 4) % 7 == weekStartsOn;
    assert s + 6 + 4 == (s + 4) + 6;
  }

  // ---------------------------------------------------------------------
  // The civil calendar

  predicate IsLeapYear(y: int)
  {
    y % 4 == 0 && (y % 100 != 0 || y % 400 == 0)
  }

  function DaysInYear(y: int): int
  {
    if IsLeapYear(y) then 366 else 365
  }

  function DaysInMonth(y: int, m: MonthNumber): (n: int)
    ensures 28 <= n <= 31
  {
    if m == 2 then (if IsLeapYear(y) then 29 else 28)
    else if m == 4 || m == 6 || m == 9 || m == 11 then 30
    else 31
  }

  /** Days of a common year that come before the first of month `m`. */
  function CommonDaysBeforeMonth(m: MonthNumber): int
  {
    if m == 1 then 0 else if m == 2 then 31 else if m == 3 then 59
    else if m == 4 then 90 else if m == 5 then 120 else if m == 6 then 151
    else if m == 7 then 181 else if m == 8 then 212 else if m == 9 then 243
    else if m == 10 then 273 else if m == 11 then 304 else 334
  }

  /** Days of year `y` that come before the first of month `m`. */
  function DaysBeforeMonth(y: int, m: MonthNumber): int
  {
    CommonDaysBeforeMonth(m) + (if m > 2 && IsLeapYear(y) then 1 else 0)
  }

  /** Months tile the year: each begins where the previous one ends. */
  lemma MonthsTileYear(y: int, m: MonthNumber)
    ensures m < 12 ==> DaysBeforeMonth(y, m + 1) == DaysBeforeMonth(y, m) + DaysInMonth(y, m)
    ensures m == 12 ==> DaysBeforeMonth(y, m) + DaysInMonth(y, m) == DaysInYear(y)
  {
  }

  lemma DaysBeforeMonthMonotone(y: int, a: MonthNumber, b: MonthNumber)
    requires a < b
    ensures DaysBeforeMonth(y, a) + DaysInMonth(y, a) <= DaysBeforeMonth(y, b)
  {
  }

  /** Days in the years 1 to `k` of the calendar (a negative `k` counts backwards). */
  function YearsToDays(k: int): int
  {
    365 * k + k / 4 - k / 100 + k / 400
  }

  /** Days from 0001-01-01 to 1970-01-01. */
  const EpochDays: int := 719_162

  /** The day number of January 1 of year `y`. */
  function JanFirst(y: int): int
  {
    YearsToDays(y - 1) - EpochDays
  }

  /** On average a year has 365.2425 days; `YearsToDays` stays within two days of that. */
  lemma YearsToDaysBounds(k: int)
    ensures 146097 * k - 699 <= 400 * YearsToDays(k) <= 146097 * k + 396
  {
    var a, b, c := k / 4, k / 100, k / 400;
    assert 4 * a <= k < 4 * a + 4;
    assert 100 * b <= k < 100 * b + 100;
    assert 400 * c <= k < 400 * c + 400;
  }

  lemma YearLength(y: int)
    ensures JanFirst(y + 1) - JanFirst(y) == DaysInYear(y)
  {
    var k := y - 1;
    DivStep4(k);
    DivStep100(k);
    DivStep400(k);
    if y % 400 == 0 {
      assert y % 100 == 0 && y % 4 == 0 by {
        assert y == 400 * (y / 400);
      }
    } else if y % 100 == 0 {
      assert y % 4 == 0 by {
        assert y == 100 * (y / 100);
      }
    }
  }

  lemma DivStep4(k: int)
    ensures (k + 1) / 4 == k / 4 + (if (k + 1) % 4 == 0 then 1 else 0)
  {
    assert k == 4 * (k / 4) + k % 4;
  }

  lemma DivStep100(k: int)
    ensures (k + 1) / 100 == k / 100 + (if (k + 1) % 100 == 0 then 1 else 0)
  {
    assert k == 100 * (k / 100) + k % 100;
  }

  lemma DivStep400(k: int)
    ensures (k + 1) / 400 == k / 400 + (if (k + 1) % 400 == 0 then 1 else 0)
  {
    assert k == 400 * (k / 400) + k % 400;
  }

  lemma JanFirstMonotone(a: int, b: int)
    requires a < b
    ensures JanFirst(a + 1) <= JanFirst(b)
  {
    if a + 1 < b {
      YearsToDaysBounds(a);
      YearsToDaysBounds(b - 1);
    }
  }

  /** The year whose days hold day number `n`. */
  function YearOfDay(n: int): (y: int)
    ensures JanFirst(y) <= n < JanFirst(y + 1)
  {
    var total := n + EpochDays;
    var k := 400 * total / 146097;
    YearsToDaysBounds(k);
    YearsToDaysBounds(k + 2);
    YearsToDaysBounds(k + 1);
    if YearsToDays(k + 1) <= total then k + 2 else k + 1
  }

  /** No day lies in two years. */
  lemma YearUnique(n: int, y: int)
    requires JanFirst(y) <= n < JanFirst(y + 1)
    ensures YearOfDay(n) == y
  {
    var z := YearOfDay(n);
    if z < y {
      JanFirstMonotone(z, y);
    } else if y < z {
      JanFirstMonotone(y, z);
    }
  }

  /** The month of year `y` that holds day `doy` of the year (0 is January 1), searched from `m`. */
  function MonthSearch(y: int, doy: int, m: MonthNumber): (r: MonthNumber)
    requires DaysBeforeMonth(y, m) <= doy < DaysInYear(y)
    ensures m <= r
    ensures DaysBeforeMonth(y, r) <= doy < DaysBeforeMonth(y, r) + DaysInMonth(y, r)
    decreases 12 - m
  {
    MonthsTileYear(y, m);
    if m == 12 || doy < DaysBeforeMonth(y, m + 1) then m else MonthSearch(y, doy, m + 1)
  }

  /** No day of the year lies in two months. */
  lemma MonthUnique(y: int, doy: int, m: MonthNumber, m': MonthNumber)
    requires DaysBeforeMonth(y, m) <= doy < DaysBeforeMonth(y, m) + DaysInMonth(y, m)
    requires DaysBeforeMonth(y, m') <= doy < DaysBeforeMonth(y, m') + DaysInMonth(y, m')
    ensures m == m'
  {
    if m < m' {
      DaysBeforeMonthMonotone(y, m, m');
    } else if m' < m {
      DaysBeforeMonthMonotone(y, m', m);
    }
  }

  /** A calendar date: year, month 1 to 12 and day of month. */
  datatype Civil = Civil(year: int, month: MonthNumber, dom: int)

  predicate ValidCivil(c: Civil)
  {
    1 <= c.dom <= DaysInMonth(c.year, c.month)
  }

  /** The day number of a calendar date; a day of month past the month's end runs into the next month. */
  function DayNumber(y: int, m: MonthNumber, dom: int): int
  {
    JanFirst(y) + DaysBeforeMonth(y, m) + dom - 1
  }

  /** The calendar date of day number `n`, computed from its year and its day of the year. */
  function CivilDirect(n: int): (c: Civil)
    ensures ValidCivil(c) && DayNumber(c.year, c.month, c.dom) == n
  {
    var y := YearOfDay(n);
    YearLength(y);
    var doy := n - JanFirst(y);
    var m := MonthSearch(y, doy, 1);
    Civil(y, m, doy - DaysBeforeMonth(y, m) + 1)
  }

  /** Days in 400 years, after which the Gregorian calendar repeats. */
  const CycleDays: int := 146097

  /** How many 400-year cycles day `n` lies from the one that begins on 1970-01-01. */
  function CyclesAway(n: int): nat
  {
    if n >= 0 then n / CycleDays else (CycleDays - 1 - n) / CycleDays
  }

  /** One cycle toward 1970 is one cycle nearer. */
  lemma CyclesAwayStep(n: int)
    requires !(0 <= n < CycleDays)
    ensures CyclesAway(n + (if n < 0 then 1 else -1) * CycleDays) < CyclesAway(n)
  {
    if n < 0 {
      assert CycleDays - 1 - (n + CycleDays) == (CycleDays - 1 - n) - CycleDays;
    }
  }

  /** Leap years repeat every 400 years. */
  lemma LeapCycle(y: int)
    ensures IsLeapYear(y + 400) == IsLeapYear(y)
  {
    Shift400Over4(y);
    Shift400Over100(y);
    Shift400Over400(y);
  }

  /** Adding 400 to `y` keeps its remainder by 4, 100 and 400 and moves each quotient by a whole number. */
  lemma Shift400Over4(y: int)
    ensures (y + 400) % 4 == y % 4 && (y + 400) / 4 == y / 4 + 100
  {
    assert y + 400 == 4 * (y / 4 + 100) + y % 4;
  }

  lemma Shift400Over100(y: int)
    ensures (y + 400) % 100 == y % 100 && (y + 400) / 100 == y / 100 + 4
  {
    assert y + 400 == 100 * (y / 100 + 4) + y % 100;
  }

  lemma Shift400Over400(y: int)
    ensures (y + 400) % 400 == y % 400 && (y + 400) / 400 == y / 400 + 1
  {
    assert y + 400 == 400 * (y / 400 + 1) + y % 400;
  }

  /** Four hundred years hold exactly one cycle of days. */
  lemma JanFirstCycle(y: int)
    ensures JanFirst(y + 400) == JanFirst(y) + CycleDays
  {
    Shift400Over4(y - 1);
    Shift400Over100(y - 1);
    Shift400Over400(y - 1);
  }

  /** Four hundred years on (or back), a valid date is still valid and lies one cycle of days later (or earlier). */
  lemma CycleShift(c: Civil, k: int)
    requires ValidCivil(c) && (k == 1 || k == -1)
    ensures ValidCivil(Civil(c.year + 400 * k, c.month, c.dom))
    ensures DayNumber(c.year + 400 * k, c.month, c.dom) == DayNumber(c.year, c.month, c.dom) + k * CycleDays
  {
    var y := if k == 1 then c.year else c.year - 400;
    LeapCycle(y);
    JanFirstCycle(y);
  }

  /**
   * The calendar date of day number `n`: the one valid date whose day number
   * is `n`.  Days of the 400 years from 1970 are computed directly; any other
   * day has the date of the day one cycle nearer, 400 years on or back.
   */
  function ToCivil(n: int): (c: Civil)
    ensures ValidCivil(c) && DayNumber(c.year, c.month, c.dom) == n
    decreases CyclesAway(n), 0
  {
    if 0 <= n < CycleDays then CivilDirect(n)
    else
      var shift := if n < 0 then 1 else -1;
      var d := Date(n + shift * CycleDays, 0);
      CyclesAwayStep(n);
      CycleShift(Civil(Year(d), Month(d), DayOfMonth(d)), -shift);
      Civil(Year(d) - 400 * shift, Month(d), DayOfMonth(d))
  }

  /** The year and month of a valid date are those whose days hold its day number. */
  lemma CivilInYear(c: Civil)
    requires ValidCivil(c)
    ensures JanFirst(c.year) <= DayNumber(c.year, c.month, c.dom) < JanFirst(c.year + 1)
  {
    YearLength(c.year);
    if c.month < 12 {
      DaysBeforeMonthMonotone(c.year, c.month, 12);
    }
    MonthsTileYear(c.year, 12);
  }

  /** No two valid dates share a day number. */
  lemma CivilUnique(c: Civil, c': Civil)
    requires ValidCivil(c) && ValidCivil(c')
    requires DayNumber(c.year, c.month, c.dom) == DayNumber(c'.year, c'.month, c'.dom)
    ensures c == c'
  {
    var n := DayNumber(c.year, c.month, c.dom);
    CivilInYear(c);
    CivilInYear(c');
    YearUnique(n, c.year);
    YearUnique(n, c'.year);
    MonthUnique(c.year, n - JanFirst(c.year), c.month, c'.month);
  }

  /** Every valid calendar date is the date of its own day number. */
  lemma ToCivilOfDayNumber(c: Civil)
    requires ValidCivil(c)
    ensures ToCivil(DayNumber(c.year, c.month, c.dom)) == c
  {
    CivilUnique(ToCivil(DayNumber(c.year, c.month, c.dom)), c);
  }

  function Year(d: Date): int
    decreases CyclesAway(d.day), 1
  {
    ToCivil(d.day).year
  }

  /** The month of `d`, 1 to 12; the library's zero-based month is one less. */
  function Month(d: Date): MonthNumber
    decreases CyclesAway(d.day), 1
  {
    ToCivil(d.day).month
  }

  function DayOfMonth(d: Date): int
    decreases CyclesAway(d.day), 1
  {
    ToCivil(d.day).dom
  }

  /** Months counted from January of year 0, so that consecutive months differ by one. */
  function MonthIndex(d: Date): int
  {
    Year(d) * 12 + Month(d) - 1
  }
  /** A month count splits into one year and one month of year. */
  lemma MonthCountFields(y: int, m: MonthNumber, y': int, m': MonthNumber)
    ensures y * 12 + m == y' * 12 + m' <==> y == y' && m == m'
  {
    if y < y' {
      assert y * 12 + m < y' * 12 + m';
    } else if y' < y {
      assert y' * 12 + m' < y * 12 + m;
    }
  }


  /** A moment is determined by its month, its day of month and its time of day. */
  lemma DateFromFields(a: Date, b: Date)
    requires MonthIndex(a) == MonthIndex(b) && DayOfMonth(a) == DayOfMonth(b) && a.ms == b.ms
    ensures a == b
  {
    var ca, cb := ToCivil(a.day), ToCivil(b.day);
    MonthCountFields(ca.year, ca.month, cb.year, cb.month);
  }

  /** A valid date in an earlier month has the smaller day number. */
  lemma DayNumberOrder(c: Civil, c': Civil)
    requires ValidCivil(c) && ValidCivil(c')
    requires c.year < c'.year || (c.year == c'.year && c.month < c'.month)
    ensures DayNumber(c.year, c.month, c.dom) < DayNumber(c'.year, c'.month, c'.dom)
  {
    YearLength(c.year);
    if c.month < 12 {
      DaysBeforeMonthMonotone(c.year, c.month, 12);
    }
    MonthsTileYear(c.year, 12);
    if c.year < c'.year {
      JanFirstMonotone(c.year, c'.year);
    } else {
      DaysBeforeMonthMonotone(c.year, c.month, c'.month);
    }
  }

  /** Later months hold later days. */
  lemma MonthOrder(a: Date, b: Date)
    requires MonthIndex(a) < MonthIndex(b)
    ensures a.day < b.day
  {
    var ca, cb := ToCivil(a.day), ToCivil(b.day);
    assert ca.year * 12 + ca.month < cb.year * 12 + cb.month;
    DayNumberOrder(ca, cb);
  }

  /** Within one month, a smaller day of month is an earlier day. */
  lemma SameMonthOrder(a: Date, b: Date)
    requires MonthIndex(a) == MonthIndex(b) && DayOfMonth(a) <= DayOfMonth(b)
    ensures a.day <= b.day
  {
    var ca, cb := ToCivil(a.day), ToCivil(b.day);
    MonthCountFields(ca.year, ca.month, cb.year, cb.month);
  }

  /** A moment of a month from the first day of one month to the last day of another lies between them. */
  lemma MonthSpan(a: Date, d: Date, b: Date)
    requires MonthIndex(a) <= MonthIndex(d) <= MonthIndex(b)
    requires DayOfMonth(a) == 1 && DayOfMonth(b) == DaysInMonth(Year(b), Month(b))
    ensures a.day <= d.day <= b.day
  {
    if MonthIndex(a) < MonthIndex(d) {
      MonthOrder(a, d);
    } else {
      SameMonthOrder(a, d);
    }
    if MonthIndex(d) < MonthIndex(b) {
      MonthOrder(d, b);
    } else {
      MonthCountFields(Year(d), Month(d), Year(b), Month(b));
      SameMonthOrder(d, b);
    }
  }

  /** The last day of a month is immediately followed by the first day of the next month. */
  lemma MonthBoundary(a: Date, b: Date)
    requires MonthIndex(b) == MonthIndex(a) + 1
    requires DayOfMonth(a) == DaysInMonth(Year(a), Month(a)) && DayOfMonth(b) == 1
    ensures a.day + 1 == b.day
  {
    CivilMonthBoundary(ToCivil(a.day), ToCivil(b.day));
  }

  /** The day number after the last day of a month is that of the first day of the next month. */
  lemma CivilMonthBoundary(ca: Civil, cb: Civil)
    requires cb.year * 12 + cb.month == ca.year * 12 + ca.month + 1
    requires ca.dom == DaysInMonth(ca.year, ca.month) && cb.dom == 1
    ensures DayNumber(ca.year, ca.month, ca.dom) + 1 == DayNumber(cb.year, cb.month, cb.dom)
  {
    if ca.month < 12 {
      assert cb.year == ca.year && cb.month == ca.month + 1;
      MonthsTileYear(ca.year, ca.month);
    } else {
      assert cb.year == ca.year + 1 && cb.month == 1;
      MonthsTileYear(ca.year, 12);
      YearLength(ca.year);
    }
  }

  /** The month before a month: one less in the same year, or December of the previous year after January. */
  lemma PreviousMonthFields(a: Date, b: Date)
    requires MonthIndex(a) == MonthIndex(b) - 1
    ensures Month(b) == 1 ==> Year(a) == Year(b) - 1 && Month(a) == 12
    ensures Month(b) > 1 ==> Year(a) == Year(b) && Month(a) == Month(b) - 1
  {
    var ca, cb := ToCivil(a.day), ToCivil(b.day);
    assert ca.year * 12 + ca.month + 1 == cb.year * 12 + cb.month;
  }

  /** Twelve months back is the same month of the previous year. */
  lemma PreviousYearFields(a: Date, b: Date)
    requires MonthIndex(a) == MonthIndex(b) - 12
    ensures Year(a) == Year(b) - 1 && Month(a) == Month(b)
  {
    var ca, cb := ToCivil(a.day), ToCivil(b.day);
    assert ca.year * 12 + ca.month + 12 == cb.year * 12 + cb.month;
  }

  /** A week step moves the start of the week by exactly seven days. */
  lemma StartOfWeekShift(d: Date, weekStartsOn: Weekday, k: int)
    ensures StartOfWeek(AddDays(d, 7 * k), weekStartsOn).day == StartOfWeek(d, weekStartsOn).day + 7 * k
  {
    assert GetDay(AddDays(d, 7 * k)) == GetDay(d) by {
      GetDayShift(d, 7 * k);
    }
  }

  predicate IsSameMonth(a: Date, b: Date)
  {
    Year(a) == Year(b) && Month(a) == Month(b)
  }

  lemma SameMonthIsSameIndex(a: Date, b: Date)
    ensures IsSameMonth(a, b) <==> MonthIndex(a) == MonthIndex(b)
  {
    MonthCountFields(Year(a), Month(a), Year(b), Month(b));
  }

  /** The first moment of the first day of the month of `d`. */
  function StartOfMonth(d: Date): (r: Date)
    ensures r.ms == 0 && r.day <= d.day
    ensures IsSameMonth(r, d) && DayOfMonth(r) == 1
  {
    ToCivilOfDayNumber(Civil(Year(d), Month(d), 1));
    Date(DayNumber(Year(d), Month(d), 1), 0)
  }

  /** The last moment of the last day of the month of `d`. */
  function EndOfMonth(d: Date): (r: Date)
    ensures r.ms == LastMs && d.day <= r.day
    ensures IsSameMonth(r, d) && DayOfMonth(r) == DaysInMonth(Year(d), Month(d))
    ensures r.day - StartOfMonth(d).day + 1 == DaysInMonth(Year(d), Month(d))
  {
    var y, m := Year(d), Month(d);
    ToCivilOfDayNumber(Civil(y, m, DaysInMonth(y, m)));
    Date(DayNumber(y, m, DaysInMonth(y, m)), LastMs)
  }

  /** A moment lies in the month of `m` exactly when its day lies between that month's first and last day. */
  lemma SameMonthIffWithinMonth(x: Date, m: Date)
    ensures IsSameMonth(x, m) <==> StartOfMonth(m).day <= x.day <= EndOfMonth(m).day
  {
    var y, mo := Year(m), Month(m);
    var first, last := StartOfMonth(m).day, EndOfMonth(m).day;
    if first <= x.day <= last {
      var c := Civil(y, mo, x.day - first + 1);
      assert DayNumber(y, mo, c.dom) == x.day;
      ToCivilOfDayNumber(c);
    }
  }

  /** The moment `n` months after `d` at the same time of day, the day of month clamped to the new month's length. */
  function AddMonths(d: Date, n: int): (r: Date)
    ensures MonthIndex(r) == MonthIndex(d) + n && r.ms == d.ms
    ensures DayOfMonth(r) == Min(DayOfMonth(d), DaysInMonth(Year(r), Month(r)))
  {
    var t := MonthIndex(d) + n;
    var y := t / 12;
    var m := t % 12 + 1;
    var dom := Min(DayOfMonth(d), DaysInMonth(y, m));
    ToCivilOfDayNumber(Civil(y, m, dom));
    Date(DayNumber(y, m, dom), d.ms)
  }

  function SubMonths(d: Date, n: int): (r: Date)
    ensures MonthIndex(r) == MonthIndex(d) - n && r.ms == d.ms
  {
    AddMonths(d, -n)
  }

  function Min(a: int, b: int): int
  {
    if a <= b then a else b
  }

  /**
   * The moment with the month of year set to `monthIndex` (0 is January; values
   * outside 0 to 11 run into neighbouring years), the day clamped as in AddMonths.
   */
  function SetMonth(d: Date, monthIndex: int): (r: Date)
    ensures 0 <= monthIndex < 12 ==> Year(r) == Year(d) && Month(r) == monthIndex + 1
    ensures DayOfMonth(r) == Min(DayOfMonth(d), DaysInMonth(Year(r), Month(r))) && r.ms == d.ms
  {
    var r := AddMonths(d, monthIndex - (Month(d) - 1));
    if 0 <= monthIndex < 12 then
      MonthCountFields(Year(r), Month(r), Year(d), monthIndex + 1);
      r
    else r
  }

  /**
   * The moment with the year set to `y`, month, day of month and time kept; the
   * one date that does not exist in `y`, February 29, runs over into March 1.
   */
  function SetYear(d: Date, y: int): (r: Date)
    ensures r.ms == d.ms
    ensures ValidCivil(Civil(y, Month(d), DayOfMonth(d))) ==>
              Year(r) == y && Month(r) == Month(d) && DayOfMonth(r) == DayOfMonth(d)
    ensures !ValidCivil(Civil(y, Month(d), DayOfMonth(d))) ==>
              Month(d) == 2 && DayOfMonth(d) == 29 && Year(r) == y && Month(r) == 3 && DayOfMonth(r) == 1
  {
    SetYearCivil(Civil(y, Month(d), DayOfMonth(d)));
    Date(DayNumber(y, Month(d), DayOfMonth(d)), d.ms)
  }

  lemma SetYearCivil(c: Civil)
    requires ValidCivil(c) || (c.month == 2 && c.dom == 29)
    ensures ValidCivil(c) ==> ToCivil(DayNumber(c.year, c.month, c.dom)) == c
    ensures !ValidCivil(c) ==> ToCivil(DayNumber(c.year, c.month, c.dom)) == Civil(c.year, 3, 1)
  {
    if ValidCivil(c) {
      ToCivilOfDayNumber(c);
    } else {
      assert DayNumber(c.year, 2, 29) == DayNumber(c.year, 3, 1);
      ToCivilOfDayNumber(Civil(c.year, 3, 1));
    }
  }

  /** The first month of the quarter of the year that holds month `m`. */
  function QuarterStartMonth(m: MonthNumber): (r: MonthNumber)
    ensures r <= m < r + 3 && r % 3 == 1
  {
    if m <= 3 then 1 else if m <= 6 then 4 else if m <= 9 then 7 else 10
  }

  /** Three months back, the quarter's first month moves back by three months too. */
  lemma QuarterStartStep(y: int, m: MonthNumber, y': int, m': MonthNumber)
    requires y' * 12 + m' + 3 == y * 12 + m
    ensures y' * 12 + QuarterStartMonth(m') + 3 == y * 12 + QuarterStartMonth(m)
  {
    if m > 3 {
      assert y' == y && m' == m - 3;
    } else {
      assert y' == y - 1 && m' == m + 9;
    }
  }

  /** The first moment of the quarter of the year that holds `d`. */
  function StartOfQuarter(d: Date): (r: Date)
    ensures r.ms == 0 && DayOfMonth(r) == 1 && Year(r) == Year(d)
    ensures Month(r) == QuarterStartMonth(Month(d))
  {
    var m := QuarterStartMonth(Month(d));
    ToCivilOfDayNumber(Civil(Year(d), m, 1));
    Date(DayNumber(Year(d), m, 1), 0)
  }

  /** The last moment of the quarter of the year that holds `d`. */
  function EndOfQuarter(d: Date): (r: Date)
    ensures r.ms == LastMs && Year(r) == Year(d)
    ensures Month(r) == QuarterStartMonth(Month(d)) + 2
    ensures DayOfMonth(r) == DaysInMonth(Year(r), Month(r))
  {
    var m := QuarterStartMonth(Month(d)) + 2;
    ToCivilOfDayNumber(Civil(Year(d), m, DaysInMonth(Year(d), m)));
    Date(DayNumber(Year(d), m, DaysInMonth(Year(d), m)), LastMs)
  }

  function SubQuarters(d: Date, n: int): (r: Date)
    ensures MonthIndex(r) == MonthIndex(d) - 3 * n && r.ms == d.ms
  {
    AddMonths(d, -3 * n)
  }

  /** The quarter three months before `d` is the quarter before `d`'s: it ends the day before `d`'s begins. */
  lemma QuarterBefore(d: Date, d': Date)
    requires MonthIndex(d') == MonthIndex(d) - 3
    ensures MonthIndex(StartOfQuarter(d')) == MonthIndex(StartOfQuarter(d)) - 3
    ensures EndOfQuarter(d').day + 1 == StartOfQuarter(d).day
  {
    QuarterStartStep(Year(d), Month(d), Year(d'), Month(d'));
    MonthBoundary(EndOfQuarter(d'), StartOfQuarter(d));
  }

  /** The first moment of January 1 of the year of `d`. */
  function StartOfYear(d: Date): (r: Date)
    ensures r.ms == 0 && Year(r) == Year(d) && Month(r) == 1 && DayOfMonth(r) == 1
  {
    ToCivilOfDayNumber(Civil(Year(d), 1, 1));
    Date(DayNumber(Year(d), 1, 1), 0)
  }

  /** The last moment of December 31 of the year of `d`. */
  function EndOfYear(d: Date): (r: Date)
    ensures r.ms == LastMs && Year(r) == Year(d) && Month(r) == 12 && DayOfMonth(r) == 31
  {
    ToCivilOfDayNumber(Civil(Year(d), 12, 31));
    Date(DayNumber(Year(d), 12, 31), LastMs)
  }

  function SubYears(d: Date, n: int): (r: Date)
    ensures MonthIndex(r) == MonthIndex(d) - 12 * n && r.ms == d.ms
  {
    AddMonths(d, -12 * n)
  }

  /** Whether `d` lies in the interval between `a` and `b`, either of which may be the earlier. */
  predicate IsWithinInterval(d: Date, a: Date, b: Date)
  {
    if IsAfter(a, b) then !IsBefore(d, b) && !IsAfter(d, a)
    else !IsBefore(d, a) && !IsAfter(d, b)
  }

  /** A moment lies in the interval iff its timestamp lies between those of the two bounds, in either order. */
  lemma WithinIntervalIsBetween(d: Date, a: Date, b: Date)
    ensures IsWithinInterval(d, a, b) <==>
              (Time(a) <= Time(d) <= Time(b) || Time(b) <= Time(d) <= Time(a))
  {
    IsAfterIsTimeOrder(a, b);
    IsAfterIsTimeOrder(d, a);
    IsAfterIsTimeOrder(d, b);
  }

  /** The start of every day from the day of `a` to the day of `b`, in the order the interval is given. */
  function EachDayOfInterval(a: Date, b: Date): (r: seq<Date>)
    ensures !IsAfter(a, b) ==> |r| == b.day - a.day + 1
    ensures !IsAfter(a, b) ==> forall i :: 0 <= i < |r| ==> r[i] == Date(a.day + i, 0)
    ensures IsAfter(a, b) ==> |r| == a.day - b.day + 1
    ensures IsAfter(a, b) ==> forall i :: 0 <= i < |r| ==> r[i] == Date(a.day - i, 0)
  {
    if IsAfter(a, b) then seq(a.day - b.day + 1, i => Date(a.day - i, 0))
    else seq(b.day - a.day + 1, i => Date(a.day + i, 0))
  }
}

/** A proleptic Gregorian calendar with the range, day numbering and weekday
    convention of Python's `datetime.date`: years 1 to 9999, day 1 is
    0001-01-01, and weekday 0 is Monday through 6 for Sunday.
    `date + timedelta(days = n)` is `AddDays`, which moves the day number by n. */
module Dates {

  const MinYear: int := 1
  const MaxYear: int := 9999
  /** The day number of 9999-12-31, the last date the calendar holds. */
  const MaxOrdinal: int := 3652059

  datatype Date = Date(year: int, month: int, day: int)

  predicate IsLeapYear(y: int) {
    y % 4 == 0 && (y % 100 != 0 || y % 400 == 0)
  }

  function DaysInMonth(y: int, m: int): (n: int)
    requires 1 <= m <= 12
    ensures 28 <= n <= 31
    ensures n == 29 <==> m == 2 && IsLeapYear(y)
  {
    if m == 2 then (if IsLeapYear(y) then 29 else 28)
    else if m == 4 || m == 6 || m == 9 || m == 11 then 30
    else 31
  }

  predicate ValidYear(y: int) {
    MinYear <= y <= MaxYear
  }

  /** The dates `date(year, month, day)` accepts without raising. */
  predicate Valid(d: Date) {
    ValidYear(d.year) && 1 <= d.month <= 12 && 1 <= d.day <= DaysInMonth(d.year, d.month)
  }

  /** Days in the years before `y` (Python's `_days_before_year`). */
  function DaysBeforeYear(y: int): (n: int)
    ensures y >= 1 ==> 365 * (y - 1) <= n
  {
    var p := y - 1;
    p * 365 + p / 4 - p / 100 + p / 400
  }

  /** Days in the months of year `y` before month `m` (Python's `_days_before_month`). */
  function DaysBeforeMonth(y: int, m: int): int
    requires 1 <= m <= 12
  {
    var common :=
      match m
      case 1 => 0
      case 2 => 31
      case 3 => 59
      case 4 => 90
      case 5 => 120
      case 6 => 151
      case 7 => 181
      case 8 => 212
      case 9 => 243
      case 10 => 273
      case 11 => 304
      case _ => 334;
    common + (if m > 2 && IsLeapYear(y) then 1 else 0)
  }

  /** `date.toordinal()`: 0001-01-01 is day 1. */
  function ToOrdinal(d: Date): int
    requires Valid(d)
  {
    DaysBeforeYear(d.year) + DaysBeforeMonth(d.year, d.month) + d.day
  }

  /** `date.weekday()`: 0 is Monday, 6 is Sunday. */
  function Weekday(d: Date): (w: int)
    requires Valid(d)
    ensures 0 <= w < 7
  {
    (ToOrdinal(d) + 6) % 7
  }

  /** The order in which Python compares dates: by year, then month, then day. */
  predicate DateLess(a: Date, b: Date) {
    a.year < b.year || (a.year == b.year && (a.month < b.month || (a.month == b.month && a.day < b.day)))
  }

  lemma DaysBeforeNextYear(y: int)
    ensures DaysBeforeYear(y + 1) == DaysBeforeYear(y) + (if IsLeapYear(y) then 366 else 365)
  {
    QuotientStep4(y);
    QuotientStep100(y);
    QuotientStep400(y);
  }

  lemma QuotientStep4(y: int)
    ensures y / 4 - (y - 1) / 4 == if y % 4 == 0 then 1 else 0
  {
  }

  lemma QuotientStep100(y: int)
    ensures y / 100 - (y - 1) / 100 == if y % 100 == 0 then 1 else 0
    ensures y % 100 == 0 ==> y % 4 == 0
  {
    if y % 100 == 0 {
      var q := y / 100;
      assert y == 4 * (25 * q);
    }
  }

  lemma QuotientStep400(y: int)
    ensures y / 400 - (y - 1) / 400 == if y % 400 == 0 then 1 else 0
    ensures y % 400 == 0 ==> y % 100 == 0
  {
    if y % 400 == 0 {
      var q := y / 400;
      assert y == 100 * (4 * q);
    }
  }

  lemma DaysBeforeNextMonth(y: int, m: int)
    requires 1 <= m < 12
    ensures DaysBeforeMonth(y, m + 1) == DaysBeforeMonth(y, m) + DaysInMonth(y, m)
  {
  }

  /** A whole year lies before every later year. */
  lemma {:induction false} DaysBeforeYearGrows(a: int, b: int)
    requires a < b
    ensures DaysBeforeYear(a) + DaysBeforeMonth(a, 12) + 31 <= DaysBeforeYear(b)
    decreases b - a
  {
    DaysBeforeNextYear(a);
    if a + 1 < b {
      DaysBeforeYearGrows(a + 1, b);
      DaysBeforeNextYear(a + 1);
    }
  }

  /** A whole month lies before every later month of the same year. */
  lemma DaysBeforeMonthGrows(y: int, a: int, b: int)
    requires 1 <= a < b <= 12
    ensures DaysBeforeMonth(y, a) + DaysInMonth(y, a) <= DaysBeforeMonth(y, b)
  {
  }

  /** Every valid date has a day number between that of 0001-01-01 and that of 9999-12-31. */
  lemma OrdinalBounds(d: Date)
    requires Valid(d)
    ensures 1 <= ToOrdinal(d) <= MaxOrdinal
  {
    if d.year < MaxYear {
      DaysBeforeYearGrows(d.year, MaxYear);
    }
    if d.month < 12 {
      DaysBeforeMonthGrows(d.year, d.month, 12);
    }
  }

  /** Python's date comparison and the day numbering agree. */
  lemma OrdinalOrder(a: Date, b: Date)
    requires Valid(a) && Valid(b)
    ensures DateLess(a, b) <==> ToOrdinal(a) < ToOrdinal(b)
  {
    if DateLess(a, b) {
      LessOrdinal(a, b);
    } else if DateLess(b, a) {
      LessOrdinal(b, a);
    } else {
      assert a == b;
    }
  }

  lemma LessOrdinal(a: Date, b: Date)
    requires Valid(a) && Valid(b) && DateLess(a, b)
    ensures ToOrdinal(a) < ToOrdinal(b)
  {
    if a.year < b.year {
      DaysBeforeYearGrows(a.year, b.year);
      if a.month < 12 {
        DaysBeforeMonthGrows(a.year, a.month, 12);
      }
    } else if a.month < b.month {
      DaysBeforeMonthGrows(a.year, a.month, b.month);
    }
  }

  /** Distinct dates have distinct day numbers. */
  lemma OrdinalInjective(a: Date, b: Date)
    requires Valid(a) && Valid(b) && ToOrdinal(a) == ToOrdinal(b)
    ensures a == b
  {
    OrdinalOrder(a, b);
    OrdinalOrder(b, a);
  }

  /** The day after `d`; 9999-12-31 has none. */
  function NextDay(d: Date): (r: Date)
    requires Valid(d) && d != Date(MaxYear, 12, 31)
    ensures Valid(r) && ToOrdinal(r) == ToOrdinal(d) + 1
  {
    if d.day < DaysInMonth(d.year, d.month) then
      Date(d.year, d.month, d.day + 1)
    else if d.month < 12 then
      DaysBeforeNextMonth(d.year, d.month);
      Date(d.year, d.month + 1, 1)
    else
      DaysBeforeNextYear(d.year);
      Date(d.year + 1, 1, 1)
  }

  /** The day before `d`; 0001-01-01 has none. */
  function PrevDay(d: Date): (r: Date)
    requires Valid(d) && d != Date(MinYear, 1, 1)
    ensures Valid(r) && ToOrdinal(r) == ToOrdinal(d) - 1
  {
    if d.day > 1 then
      Date(d.year, d.month, d.day - 1)
    else if d.month > 1 then
      DaysBeforeNextMonth(d.year, d.month - 1);
      Date(d.year, d.month - 1, DaysInMonth(d.year, d.month - 1))
    else
      DaysBeforeNextYear(d.year - 1);
      Date(d.year - 1, 12, 31)
  }

  /** `d + timedelta(days = n)`, defined when the result is inside the calendar
      (Python raises OverflowError otherwise). */
  function AddDays(d: Date, n: int): (r: Date)
    requires Valid(d) && 1 <= ToOrdinal(d) + n <= MaxOrdinal
    ensures Valid(r) && ToOrdinal(r) == ToOrdinal(d) + n
    decreases if n < 0 then -n else n
  {
    if n == 0 then d
    else if n > 0 then
      assert d != Date(MaxYear, 12, 31) by { LastDay(); }
      var s := NextDay(d);
      AddDays(s, n - 1)
    else
      assert d != Date(MinYear, 1, 1) by { FirstDay(); }
      var p := PrevDay(d);
      AddDays(p, n + 1)
  }

  /** The first and last days of the calendar. */
  lemma FirstDay()
    ensures ToOrdinal(Date(MinYear, 1, 1)) == 1 && Weekday(Date(MinYear, 1, 1)) == 0
  {
    var d := Date(MinYear, 1, 1);
    assert DaysBeforeYear(1) == 0;
    assert DaysBeforeMonth(1, 1) == 0;
    var x := ToOrdinal(d) + 6;
    EndRemainders(x);
    assert Weekday(d) == x % 7;
  }

  lemma LastDay()
    ensures ToOrdinal(Date(MaxYear, 12, 31)) == MaxOrdinal && Weekday(Date(MaxYear, 12, 31)) == 4
  {
    var d := Date(MaxYear, 12, 31);
    assert !IsLeapYear(MaxYear);
    assert DaysBeforeYear(MaxYear) == 3651694;
    assert DaysBeforeMonth(MaxYear, 12) == 334;
    var x := ToOrdinal(d) + 6;
    EndRemainders(x);
    assert Weekday(d) == x % 7;
  }

  /** The remainder steps of `FirstDay` and `LastDay`, kept apart so that they are
      checked on plain numbers rather than next to the calendar definitions. */
  lemma EndRemainders(x: int)
    ensures x == 7 ==> x % 7 == 0
    ensures x == MaxOrdinal + 6 ==> x % 7 == 4
  {
  }

  lemma ModShift(x: int, n: int)
    ensures (x + n) % 7 == (x % 7 + n) % 7
  {
    var q := x / 7;
    assert x == 7 * q + x % 7;
    assert x + n == 7 * q + (x % 7 + n);
  }

  /** Dates n days apart have weekdays n apart, modulo 7. */
  lemma WeekdayDistance(a: Date, b: Date, n: int)
    requires Valid(a) && Valid(b) && ToOrdinal(b) == ToOrdinal(a) + n
    ensures Weekday(b) == (Weekday(a) + n) % 7
  {
    var x, y := ToOrdinal(a) + 6, ToOrdinal(b) + 6;
    assert y % 7 == (x % 7 + n) % 7 by { ModShift(x, n); }
  }

  /** Moving by n days moves the weekday by n, modulo 7. */
  lemma WeekdayAfter(d: Date, n: int)
    requires Valid(d) && 1 <= ToOrdinal(d) + n <= MaxOrdinal
    ensures Weekday(AddDays(d, n)) == (Weekday(d) + n) % 7
  {
    WeekdayDistance(d, AddDays(d, n), n);
  }

  /** A shift that stays inside the month only changes the day of the month. */
  lemma AddDaysInMonth(d: Date, n: int)
    requires Valid(d) && 1 <= d.day + n <= DaysInMonth(d.year, d.month)
    ensures 1 <= ToOrdinal(d) + n <= MaxOrdinal
    ensures AddDays(d, n) == Date(d.year, d.month, d.day + n)
  {
    var t := Date(d.year, d.month, d.day + n);
    OrdinalBounds(t);
    OrdinalInjective(AddDays(d, n), t);
  }
}

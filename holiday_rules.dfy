/** The date rules `scripts/gen_holidays.py` builds the NYSE holidays from:
    Easter by the Anonymous Gregorian computus, the weekend shift of a fixed
    holiday, and the n-th and the last given weekday of a month. */
module HolidayRules {
  import opened Dates

  const Monday: int := 0
  const Thursday: int := 3
  const Friday: int := 4
  const Saturday: int := 5
  const Sunday: int := 6

  /** Stepping forward from weekday w to the next x, then whole weeks, lands on x. */
  lemma ForwardToWeekday(w: int, x: int, j: int)
    ensures (w + (x - w) % 7 + 7 * j) % 7 == x % 7
  {
    var q := (x - w) / 7;
    assert x - w == 7 * q + (x - w) % 7;
    assert w + (x - w) % 7 + 7 * j == x + 7 * (j - q);
  }

  /** Stepping back from weekday w to the previous x lands on x. */
  lemma BackToWeekday(w: int, x: int)
    ensures (w - (w - x) % 7) % 7 == x % 7
  {
    var p := (w - x) / 7;
    assert w - x == 7 * p + (w - x) % 7;
    assert w - (w - x) % 7 == x + 7 * p;
  }

  /** Only 0001-01-01 has day number 1, and it is a Monday; 9999-12-31 is a Friday. */
  lemma EndWeekdays(d: Date)
    requires Valid(d)
    ensures ToOrdinal(d) == 1 ==> Weekday(d) == Monday
    ensures ToOrdinal(d) == MaxOrdinal ==> Weekday(d) == Friday
  {
    var x := ToOrdinal(d) + 6;
    EndRemainders(x);
    assert Weekday(d) == x % 7;
  }

  /** Easter Sunday of `year`, by the Anonymous Gregorian (Meeus/Jones/Butcher) algorithm.
      The result always falls between March 22 and April 25. */
  function Easter(year: int): (e: Date)
    requires ValidYear(year)
    ensures Valid(e) && e.year == year
    ensures (e.month == 3 && 22 <= e.day) || (e.month == 4 && e.day <= 25)
  {
    var q := EasterCode(year);
    Date(year, q / 31, q % 31 + 1)
  }

  /** The value `divmod(h + l - 7 * m + 114, 31)` splits into Easter's month and day - 1:
      from 114 (March 22) to 148 (April 25). */
  function EasterCode(year: int): (q: int)
    ensures 114 <= q <= 148
  {
    var a := year % 19;
    var b, c := year / 100, year % 100;
    var d, e := b / 4, b % 4;
    var f := (b + 8) / 25;
    var g := (b - f + 1) / 3;
    var h := (19 * a + b - d - g + 15) % 30;
    var i, k := c / 4, c % 4;
    var l := (32 + 2 * e + 2 * i - h - k) % 7;
    var m := (a + 11 * h + 22 * l) / 451;
    var q := h + l - 7 * m + 114;
    q
  }

  /** `DaysBeforeYear` plus this year's leap day, in closed form. */
  lemma DaysThroughFebruary(y: int)
    ensures DaysBeforeYear(y) + (if IsLeapYear(y) then 1 else 0) == 365 * (y - 1) + y / 4 - y / 100 + y / 400
  {
    DaysBeforeNextYear(y);
  }

  /** The remainder step of `EasterIsSunday`, kept apart so that it is checked on a
      plain number rather than next to the computus. */
  lemma SundayRemainder(s: int, weeks: int)
    requires s == 7 * weeks + 6
    ensures s % 7 == Sunday
  {
  }

  /** The computus always lands on a Sunday, for every year of the calendar. */
  lemma EasterIsSunday(year: int)
    requires ValidYear(year)
    ensures Weekday(Easter(year)) == Sunday
  {
    var weeks := EasterWeeks(year);
    var s := ToOrdinal(Easter(year)) + 6;
    SundayRemainder(s, weeks);
    assert Weekday(Easter(year)) == s % 7;
  }

  /** The day number of Easter is a whole number of weeks. */
  lemma EasterWeeks(year: int) returns (weeks: int)
    requires ValidYear(year)
    ensures ToOrdinal(Easter(year)) == 7 * weeks
  {
    var a := year % 19;
    var b, c := year / 100, year % 100;
    var d, e := b / 4, b % 4;
    var f := (b + 8) / 25;
    var g := (b - f + 1) / 3;
    var h := (19 * a + b - d - g + 15) % 30;
    var i, k := c / 4, c % 4;
    var l := (32 + 2 * e + 2 * i - h - k) % 7;
    var m := (a + 11 * h + 22 * l) / 451;
    var q := h + l - 7 * m + 114;
    assert EasterCode(year) == q;
    EasterOrdinal(year);
    var t := (32 + 2 * e + 2 * i - h - k) / 7;
    DaysThroughFebruary(year);
    weeks := 20871 * d + 5218 * e + 209 * i + 52 * k - 36 - t - m;
    EasterArithmetic(year, b, c, d, e, i, k, h, l, m, t, q);
  }

  /** The arithmetic behind `EasterWeeks`: with year = 100 b + c, b = 4 d + e and
      c = 4 i + k, the day number of Easter is 7 times a whole number. */
  lemma EasterArithmetic(year: int, b: int, c: int, d: int, e: int, i: int, k: int,
                         h: int, l: int, m: int, t: int, q: int)
    requires b == year / 100 && c == year % 100 && d == b / 4 && e == b % 4
    requires i == c / 4 && k == c % 4
    requires l == (32 + 2 * e + 2 * i - h - k) % 7 && t == (32 + 2 * e + 2 * i - h - k) / 7
    requires q == h + l - 7 * m + 114
    ensures 365 * (year - 1) + year / 4 - year / 100 + year / 400 + q - 33
         == 7 * (20871 * d + 5218 * e + 209 * i + 52 * k - 36 - t - m)
  {
    assert l == 32 + 2 * e + 2 * i - h - k - 7 * t;
    // year = 100 b + c, b = 4 d + e and c = 4 i + k.
    assert year == 100 * b + c && b == 4 * d + e && c == 4 * i + k;
    assert year / 4 == 25 * b + i;
    assert year / 100 == b;
    assert year / 400 == d;
  }

  /** The day number of `date(year, month, day + 1)` with `month, day = divmod(q, 31)`,
      for Easter's range of q. */
  lemma EasterOrdinal(year: int)
    requires ValidYear(year)
    ensures ToOrdinal(Easter(year)) == DaysBeforeYear(year) + (if IsLeapYear(year) then 1 else 0) + EasterCode(year) - 33
  {
    var east, q := Easter(year), EasterCode(year);
    var leap := if IsLeapYear(year) then 1 else 0;
    if east.month == 3 {
      assert east.day == q - 92 && DaysBeforeMonth(year, 3) == 59 + leap;
    } else {
      assert east.day == q - 123 && DaysBeforeMonth(year, 4) == 90 + leap;
    }
  }


  /** The day a fixed-date holiday is observed: Friday for a Saturday, Monday for a
      Sunday, the day itself otherwise. Neither shift leaves the calendar. */
  function Observed(d: Date): (r: Date)
    requires Valid(d)
    ensures Valid(r) && Weekday(r) < Saturday
    ensures Weekday(d) == Saturday ==> ToOrdinal(r) == ToOrdinal(d) - 1 && Weekday(r) == Friday
    ensures Weekday(d) == Sunday ==> ToOrdinal(r) == ToOrdinal(d) + 1 && Weekday(r) == Monday
    ensures Weekday(d) < Saturday ==> r == d
  {
    OrdinalBounds(d);
    EndWeekdays(d);
    if Weekday(d) == Saturday then
      WeekendShift(d, -1);
      AddDays(d, -1)
    else if Weekday(d) == Sunday then
      WeekendShift(d, 1);
      AddDays(d, 1)
    else
      d
  }

  /** A day off a Saturday is a Friday, a day on from a Sunday is a Monday. */
  lemma WeekendShift(d: Date, n: int)
    requires Valid(d) && 1 <= ToOrdinal(d) + n <= MaxOrdinal
    requires (Weekday(d) == Saturday && n == -1) || (Weekday(d) == Sunday && n == 1)
    ensures Weekday(AddDays(d, n)) == if n == 1 then Monday else Friday
  {
    WeekendNeighbour(d, AddDays(d, n), n);
  }

  lemma WeekendNeighbour(d: Date, r: Date, n: int)
    requires Valid(d) && Valid(r) && ToOrdinal(r) == ToOrdinal(d) + n
    requires (Weekday(d) == Saturday && n == -1) || (Weekday(d) == Sunday && n == 1)
    ensures Weekday(r) == if n == 1 then Monday else Friday
  {
    WeekdayDistance(d, r, n);
    WeekendRemainder(Weekday(d), n, Weekday(r));
  }

  lemma WeekendRemainder(w: int, n: int, x: int)
    requires (w == Saturday && n == -1) || (w == Sunday && n == 1)
    requires x == (w + n) % 7
    ensures x == if n == 1 then Monday else Friday
  {
  }



  /** Where Python can compute `nth_weekday` without an OverflowError. */
  predicate NthWeekdayDefined(year: int, month: int, weekday: int, n: int) {
    ValidYear(year) && 1 <= month <= 12 &&
    var first := Date(year, month, 1);
    1 <= ToOrdinal(first) + (weekday - Weekday(first)) % 7 + 7 * (n - 1) <= MaxOrdinal
  }

  /** The n-th `weekday` counting from the first of the month: a day with that weekday
      whose distance from the first lies in [7(n-1), 7n). */
  function NthWeekday(year: int, month: int, weekday: int, n: int): (r: Date)
    requires NthWeekdayDefined(year, month, weekday, n)
    ensures Valid(r) && Weekday(r) == weekday % 7
    ensures 7 * (n - 1) <= ToOrdinal(r) - ToOrdinal(Date(year, month, 1)) < 7 * n
  {
    var first := Date(year, month, 1);
    var shift := (weekday - Weekday(first)) % 7 + 7 * (n - 1);
    NthWeekdayStep(first, weekday, n, shift);
    AddDays(first, shift)
  }

  /** Moving on to the wanted weekday, then n - 1 whole weeks, from the first of the month. */
  lemma NthWeekdayStep(first: Date, weekday: int, n: int, shift: int)
    requires Valid(first) && 1 <= ToOrdinal(first) + shift <= MaxOrdinal
    requires shift == (weekday - Weekday(first)) % 7 + 7 * (n - 1)
    ensures Weekday(AddDays(first, shift)) == weekday % 7
    ensures 7 * (n - 1) <= shift < 7 * n
  {
    WeekdayAfter(first, shift);
    ForwardToWeekday(Weekday(first), weekday, n - 1);
  }

  /** The first four occurrences always lie inside the month: the n-th falls on a day
      between 7(n-1)+1 and 7n. */
  lemma NthWeekdayInMonth(year: int, month: int, weekday: int, n: int)
    requires ValidYear(year) && 1 <= month <= 12 && 1 <= n <= 4
    ensures NthWeekdayDefined(year, month, weekday, n)
    ensures var r := NthWeekday(year, month, weekday, n);
      r.year == year && r.month == month && 7 * (n - 1) < r.day <= 7 * n
  {
    var first := Date(year, month, 1);
    OrdinalBounds(first);
    assert NthWeekdayDefined(year, month, weekday, n);
    var r := NthWeekday(year, month, weekday, n);
    var t := Date(year, month, 1 + ToOrdinal(r) - ToOrdinal(first));
    OrdinalInjective(r, t);
  }

  /** Where Python can compute `last_weekday`: December of 9999 has no following January. */
  predicate LastWeekdayDefined(year: int, month: int) {
    ValidYear(year) && 1 <= month <= 12 && (month < 12 || year < MaxYear)
  }

  /** The last day of the month, reached as the day before the first of the next month. */
  lemma DayBeforeNextMonth(year: int, month: int)
    requires LastWeekdayDefined(year, month)
    ensures var next := if month == 12 then Date(year + 1, 1, 1) else Date(year, month + 1, 1);
      Valid(next) && 2 <= ToOrdinal(next) <= MaxOrdinal &&
      AddDays(next, -1) == Date(year, month, DaysInMonth(year, month))
  {
    var next := if month == 12 then Date(year + 1, 1, 1) else Date(year, month + 1, 1);
    var last := Date(year, month, DaysInMonth(year, month));
    if month == 12 {
      DaysBeforeNextYear(year);
    } else {
      DaysBeforeNextMonth(year, month);
    }
    OrdinalBounds(next);
    OrdinalBounds(last);
    OrdinalInjective(AddDays(next, -1), last);
  }

  /** `date(year, month + 1, 1) - timedelta(days = 1)`: the last day of the month. */
  function MonthEnd(year: int, month: int): (r: Date)
    requires LastWeekdayDefined(year, month)
    ensures r == Date(year, month, DaysInMonth(year, month))
  {
    var next := if month == 12 then Date(year + 1, 1, 1) else Date(year, month + 1, 1);
    DayBeforeNextMonth(year, month);
    AddDays(next, -1)
  }

  /** The last `weekday` of the month: a day with that weekday among the month's last seven. */
  function LastWeekday(year: int, month: int, weekday: int): (r: Date)
    requires LastWeekdayDefined(year, month)
    ensures Valid(r) && Weekday(r) == weekday % 7
    ensures r.year == year && r.month == month && DaysInMonth(year, month) - 7 < r.day
  {
    var lastDay := MonthEnd(year, month);
    var offset := (Weekday(lastDay) - weekday) % 7;
    LastWeekdayStep(lastDay, weekday, offset);
    AddDays(lastDay, -offset)
  }

  /** Stepping back from the month's last day to the wanted weekday stays in the month. */
  lemma LastWeekdayStep(lastDay: Date, weekday: int, offset: int)
    requires Valid(lastDay) && lastDay.day == DaysInMonth(lastDay.year, lastDay.month)
    requires offset == (Weekday(lastDay) - weekday) % 7
    ensures 1 <= ToOrdinal(lastDay) - offset <= MaxOrdinal
    ensures var r := AddDays(lastDay, -offset);
      r.year == lastDay.year && r.month == lastDay.month && lastDay.day - 7 < r.day &&
      Weekday(r) == weekday % 7
  {
    AddDaysInMonth(lastDay, -offset);
    WeekdayAfter(lastDay, -offset);
    BackToWeekday(Weekday(lastDay), weekday);
  }
}

/** `nyse_holidays` of `scripts/gen_holidays.py`: the ten NYSE holidays of a year
    as (date, name) pairs, sorted by date with Python's stable `list.sort`. */
module NyseCalendar {
  import opened Dates
  import opened HolidayRules

  datatype Holiday = Holiday(date: Date, name: string)

  /** The ValueError `date(year, 1, 1)` raises for a year outside the calendar. */
  datatype DateError = YearOutOfRange(year: int)

  datatype Result<T> = Success(value: T) | Failure(error: DateError)

  predicate IsWeekday(d: Date)
    requires Valid(d)
  {
    Weekday(d) < Saturday
  }

  /** `easter(year) - timedelta(days = 2)`: a Friday between March 20 and April 23. */
  function GoodFriday(year: int): (r: Date)
    requires ValidYear(year)
    ensures Valid(r) && r.year == year && Weekday(r) == Friday
    ensures (r.month == 3 && 20 <= r.day) || (r.month == 4 && r.day <= 23)
  {
    var e := Easter(year);
    OrdinalBounds(e);
    EasterIsSunday(year);
    WeekdayAfter(e, -2);
    GoodFridayDate(e);
    AddDays(e, -2)
  }

  /** Two days before a date between March 22 and April 25, counted across the month end. */
  lemma GoodFridayDate(e: Date)
    requires Valid(e) && ((e.month == 3 && 22 <= e.day) || (e.month == 4 && e.day <= 25))
    ensures 3 <= ToOrdinal(e)
    ensures var r := AddDays(e, -2);
      r.year == e.year && ((r.month == 3 && 20 <= r.day) || (r.month == 4 && r.day <= 23))
  {
    if e.month == 3 || e.day > 2 {
      AddDaysInMonth(e, -2);
    } else {
      var t := Date(e.year, 3, 29 + e.day);
      DaysBeforeNextMonth(e.year, 3);
      OrdinalBounds(t);
      OrdinalInjective(AddDays(e, -2), t);
    }
  }

  /** The holidays in the order `nyse_holidays` lists them, before sorting. */
  function HolidayList(year: int): seq<Holiday>
    requires ValidYear(year)
  {
    NthWeekdayInMonth(year, 1, Monday, 3);
    NthWeekdayInMonth(year, 2, Monday, 3);
    NthWeekdayInMonth(year, 9, Monday, 1);
    NthWeekdayInMonth(year, 11, Thursday, 4);
    [ Holiday(Observed(Date(year, 1, 1)), "New Year's Day"),
      Holiday(NthWeekday(year, 1, Monday, 3), "Martin Luther King Jr. Day"),
      Holiday(NthWeekday(year, 2, Monday, 3), "Presidents' Day"),
      Holiday(GoodFriday(year), "Good Friday"),
      Holiday(LastWeekday(year, 5, Monday), "Memorial Day"),
      Holiday(Observed(Date(year, 6, 19)), "Juneteenth"),
      Holiday(Observed(Date(year, 7, 4)), "Independence Day"),
      Holiday(NthWeekday(year, 9, Monday, 1), "Labor Day"),
      Holiday(NthWeekday(year, 11, Thursday, 4), "Thanksgiving Day"),
      Holiday(Observed(Date(year, 12, 25)), "Christmas Day") ]
  }

  /** `nyse_holidays(year)`: the ten holidays of the year, sorted by date. A year outside
      the calendar fails as `date(year, 1, 1)` does. */
  method NyseHolidays(year: int) returns (r: Result<seq<Holiday>>)
    ensures r.Failure? <==> !ValidYear(year)
    ensures r.Failure? ==> r.error == YearOutOfRange(year)
    ensures r.Success? ==> r.value == SortByDate(HolidayList(year))
    ensures r.Success? ==> r.value == HolidayList(year) && |r.value| == 10
    ensures r.Success? ==> SortedByDate(r.value) && AllOnWeekdays(r.value)
    ensures r.Success? ==> Chronological(r.value)
  {
    if !ValidYear(year) {
      return Failure(YearOutOfRange(year));
    }
    var list := HolidayList(year);
    var a := new Holiday[|list|](i requires 0 <= i < |list| => list[i]);
    assert a[..] == list;
    SortHolidays(a);
    HolidaysInOrder(year);
    ChronologicalSorted(list);
    SortKeepsSorted(list);
    HolidaysOnWeekdays(year);
    return Success(a[..]);
  }

  /** Every holiday is on a date of the calendar, Monday to Friday. */
  predicate AllOnWeekdays(s: seq<Holiday>) {
    forall i :: 0 <= i < |s| ==> Valid(s[i].date) && IsWeekday(s[i].date)
  }

  /** Each holiday strictly before the next. */
  predicate Chronological(s: seq<Holiday>) {
    forall i :: 0 < i < |s| ==> DateLess(s[i - 1].date, s[i].date)
  }

  /** A chain of strictly increasing dates is strictly increasing throughout. */
  lemma {:induction false} ChronologicalSorted(s: seq<Holiday>)
    requires Chronological(s)
    ensures forall i, j :: 0 <= i < j < |s| ==> DateLess(s[i].date, s[j].date)
    ensures SortedByDate(s)
  {
    if s != [] {
      var init := s[..|s| - 1];
      assert Chronological(init) by {
        forall i | 0 < i < |init|
          ensures DateLess(init[i - 1].date, init[i].date)
        {
          assert init[i - 1] == s[i - 1] && init[i] == s[i];
        }
      }
      ChronologicalSorted(init);
      forall i, j | 0 <= i < j < |s|
        ensures DateLess(s[i].date, s[j].date)
      {
        if j < |s| - 1 {
          assert init[i] == s[i] && init[j] == s[j];
        } else if i < j - 1 {
          assert init[i] == s[i] && init[j - 1] == s[j - 1];
          assert DateLess(s[i].date, s[j - 1].date);
        }
      }
    }
  }

  /** The observed New Year's Day: January 1 or 2 of the year, or December 31 of the
      year before when January 1 is a Saturday. */
  lemma ObservedNewYear(year: int)
    requires ValidYear(year)
    ensures var r := Observed(Date(year, 1, 1));
      if Weekday(Date(year, 1, 1)) == Saturday then r == Date(year - 1, 12, 31)
      else r.year == year && r.month == 1 && 1 <= r.day <= 2
  {
    var d := Date(year, 1, 1);
    var r := Observed(d);
    if Weekday(d) == Saturday {
      if year == MinYear {
        FirstDay();
        assert false;
      }
      var t := Date(year - 1, 12, 31);
      DaysBeforeNextYear(year - 1);
      OrdinalInjective(r, t);
    } else if Weekday(d) == Sunday {
      OrdinalInjective(r, Date(year, 1, 2));
    }
  }

  /** A fixed holiday away from the month's ends is observed in its own month,
      at most one day off. */
  lemma ObservedInMonth(d: Date)
    requires Valid(d) && 1 < d.day < DaysInMonth(d.year, d.month)
    ensures var r := Observed(d);
      r.year == d.year && r.month == d.month && d.day - 1 <= r.day <= d.day + 1
  {
    var r := Observed(d);
    if Weekday(d) == Saturday {
      OrdinalInjective(r, Date(d.year, d.month, d.day - 1));
    } else if Weekday(d) == Sunday {
      OrdinalInjective(r, Date(d.year, d.month, d.day + 1));
    }
  }

  /** The ten holidays come out of the rules already in date order. */
  lemma HolidaysInOrder(year: int)
    requires ValidYear(year)
    ensures Chronological(HolidayList(year))
  {
    var s := HolidayList(year);
    ObservedNewYear(year);
    NthWeekdayInMonth(year, 1, Monday, 3);
    NthWeekdayInMonth(year, 2, Monday, 3);
    NthWeekdayInMonth(year, 9, Monday, 1);
    NthWeekdayInMonth(year, 11, Thursday, 4);
    ObservedInMonth(Date(year, 6, 19));
    ObservedInMonth(Date(year, 7, 4));
    ObservedInMonth(Date(year, 12, 25));
    assert DateLess(s[0].date, s[1].date) && DateLess(s[1].date, s[2].date);
    assert DateLess(s[2].date, s[3].date) && DateLess(s[3].date, s[4].date);
    assert DateLess(s[4].date, s[5].date) && DateLess(s[5].date, s[6].date);
    assert DateLess(s[6].date, s[7].date) && DateLess(s[7].date, s[8].date);
    assert DateLess(s[8].date, s[9].date);
  }

  /** Every holiday falls on a weekday: the fixed ones are shifted off weekends, the
      others are Mondays, a Thursday and a Friday. */
  lemma HolidaysOnWeekdays(year: int)
    requires ValidYear(year)
    ensures AllOnWeekdays(HolidayList(year))
  {
    var s := HolidayList(year);
    assert Valid(s[0].date) && IsWeekday(s[0].date);
    assert Valid(s[1].date) && IsWeekday(s[1].date);
    assert Valid(s[2].date) && IsWeekday(s[2].date);
    assert Valid(s[3].date) && IsWeekday(s[3].date);
    assert Valid(s[4].date) && IsWeekday(s[4].date);
    assert Valid(s[5].date) && IsWeekday(s[5].date);
    assert Valid(s[6].date) && IsWeekday(s[6].date);
    assert Valid(s[7].date) && IsWeekday(s[7].date);
    assert Valid(s[8].date) && IsWeekday(s[8].date);
    assert Valid(s[9].date) && IsWeekday(s[9].date);
    TenOnWeekdays(s);
  }

  /** The ten per-holiday facts gathered into the quantified form, kept apart from
      `HolidayList` so that the verifier does not unfold the list while doing so. */
  lemma TenOnWeekdays(s: seq<Holiday>)
    requires |s| == 10
    requires Valid(s[0].date) && IsWeekday(s[0].date) && Valid(s[1].date) && IsWeekday(s[1].date)
    requires Valid(s[2].date) && IsWeekday(s[2].date) && Valid(s[3].date) && IsWeekday(s[3].date)
    requires Valid(s[4].date) && IsWeekday(s[4].date) && Valid(s[5].date) && IsWeekday(s[5].date)
    requires Valid(s[6].date) && IsWeekday(s[6].date) && Valid(s[7].date) && IsWeekday(s[7].date)
    requires Valid(s[8].date) && IsWeekday(s[8].date) && Valid(s[9].date) && IsWeekday(s[9].date)
    ensures AllOnWeekdays(s)
  {
  }

  /** January 1, 2022 was a Saturday, so the 2022 New Year's Day holiday is
      observed on December 31, 2021, outside the year asked for. */
  lemma NewYear2022()
    ensures Weekday(Date(2022, 1, 1)) == Saturday
    ensures Observed(Date(2022, 1, 1)) == Date(2021, 12, 31)
  {
    var d := Date(2022, 1, 1);
    assert DaysBeforeYear(2022) == 738155;
    var x := ToOrdinal(d) + 6;
    assert x == 738162;
    SaturdayRemainder(x);
    assert Weekday(d) == x % 7;
    ObservedNewYear(2022);
  }

  /** The remainder step of `NewYear2022`, kept apart so that it is checked on a
      plain number rather than next to the calendar definitions. */
  lemma SaturdayRemainder(x: int)
    requires x == 738162
    ensures x % 7 == Saturday
  {
  }

  // ---------------------------------------------------------------------------
  // Sorting by date

  /** No holiday is dated after a later one. */
  predicate SortedByDate(s: seq<Holiday>) {
    forall i, j :: 0 <= i < j < |s| ==> !DateLess(s[j].date, s[i].date)
  }

  /** `s` with `x` placed after every element dated no later than `x`, as a stable
      sort places each element. */
  function InsertByDate(s: seq<Holiday>, x: Holiday): (r: seq<Holiday>)
    ensures |r| == |s| + 1
  {
    if s == [] || !DateLess(x.date, s[|s| - 1].date) then s + [x]
    else InsertByDate(s[..|s| - 1], x) + [s[|s| - 1]]
  }

  /** `list.sort(key = date)`: a stable sort by date, as insertion sort. */
  function SortByDate(s: seq<Holiday>): (r: seq<Holiday>)
    ensures |r| == |s|
  {
    if s == [] then [] else InsertByDate(SortByDate(s[..|s| - 1]), s[|s| - 1])
  }

  lemma {:induction false} InsertPermutes(s: seq<Holiday>, x: Holiday)
    ensures multiset(InsertByDate(s, x)) == multiset(s) + multiset{x}
  {
    if s == [] || !DateLess(x.date, s[|s| - 1].date) {
    } else {
      InsertPermutes(s[..|s| - 1], x);
      LastSplit(s);
    }
  }

  lemma {:induction false} InsertKeepsSorted(s: seq<Holiday>, x: Holiday)
    requires SortedByDate(s)
    ensures SortedByDate(InsertByDate(s, x))
  {
    if s == [] || !DateLess(x.date, s[|s| - 1].date) {
    } else {
      var init, last := s[..|s| - 1], s[|s| - 1];
      InsertKeepsSorted(init, x);
      var r := InsertByDate(init, x);
      InsertPermutes(init, x);
      forall k | 0 <= k < |r|
        ensures !DateLess(last.date, r[k].date)
      {
        assert r[k] in multiset(r);
        assert r[k] in multiset(init) || r[k] == x;
      }
    }
  }

  /** The sort returns a rearrangement of its input. */
  lemma {:induction false} SortPermutes(s: seq<Holiday>)
    ensures multiset(SortByDate(s)) == multiset(s)
  {
    if s != [] {
      var init, last := s[..|s| - 1], s[|s| - 1];
      SortPermutes(init);
      InsertPermutes(SortByDate(init), last);
      LastSplit(s);
    }
  }

  lemma LastSplit(s: seq<Holiday>)
    requires s != []
    ensures multiset(s) == multiset(s[..|s| - 1]) + multiset{s[|s| - 1]}
  {
    assert s == s[..|s| - 1] + [s[|s| - 1]];
  }

  /** The sort returns its input in date order. */
  lemma {:induction false} SortSorts(s: seq<Holiday>)
    ensures SortedByDate(SortByDate(s))
  {
    if s != [] {
      SortSorts(s[..|s| - 1]);
      InsertKeepsSorted(SortByDate(s[..|s| - 1]), s[|s| - 1]);
    }
  }

  /** Sorting input that is already in date order changes nothing. */
  lemma {:induction false} SortKeepsSorted(s: seq<Holiday>)
    requires SortedByDate(s)
    ensures SortByDate(s) == s
  {
    if s != [] {
      var init, last := s[..|s| - 1], s[|s| - 1];
      assert SortedByDate(init) by {
        forall i, j | 0 <= i < j < |init|
          ensures !DateLess(init[j].date, init[i].date)
        {
          assert init[i] == s[i] && init[j] == s[j];
        }
      }
      SortKeepsSorted(init);
      if init != [] {
        assert init[|init| - 1] == s[|s| - 2];
      }
      assert InsertByDate(init, last) == init + [last];
      assert s == init + [last];
    }
  }

  /** The in-place insertion sort `holidays.sort(key=lambda x: x[0])` performs. */
  method SortHolidays(a: array<Holiday>)
    modifies a
    ensures a[..] == SortByDate(old(a[..]))
  {
    ghost var s := a[..];
    var i := 0;
    while i < a.Length
      invariant 0 <= i <= a.Length
      invariant a[..] == SortByDate(s[..i]) + s[i..]
    {
      SortPrefixStep(s, i, a[..]);
      InsertAt(a, i);
      i := i + 1;
    }
    assert s[..a.Length] == s;
  }

  /** Sorting one more element of `s` inserts it into the sorted shorter prefix; `t`
      is the array's contents between two steps of the sort. */
  lemma SortPrefixStep(s: seq<Holiday>, i: int, t: seq<Holiday>)
    requires 0 <= i < |s| && t == SortByDate(s[..i]) + s[i..]
    ensures |t| == |s|
    ensures t[..i] == SortByDate(s[..i]) && t[i] == s[i] && t[i + 1..] == s[i + 1..]
    ensures SortByDate(s[..i + 1]) == InsertByDate(t[..i], t[i])
  {
    var sorted := SortByDate(s[..i]);
    assert s[..i + 1][..i] == s[..i];
    assert s[i..] == [s[i]] + s[i + 1..];
    assert t == sorted + [s[i]] + s[i + 1..];
  }

  /** One step of the sort: moves `a[i]` left past every later-dated element of the
      prefix `a[..i]`, leaving the rest of the array alone. */
  method InsertAt(a: array<Holiday>, i: int)
    requires 0 <= i < a.Length
    modifies a
    ensures a[..] == InsertByDate(old(a[..i]), old(a[i])) + old(a[i + 1..])
  {
    ghost var done, rest := a[..i], a[i + 1..];
    var x := a[i];
    var j := i;
    assert done[..j] == done && done[j..] == [];
    assert a[..] == done + [x] + rest;
    while j > 0 && DateLess(x.date, a[j - 1].date)
      invariant 0 <= j <= i
      invariant a[..] == done[..j] + [x] + done[j..] + rest
      invariant forall k :: j <= k < i ==> DateLess(x.date, done[k].date)
    {
      SwapStep(done, x, rest, j);
      a[j - 1], a[j] := x, a[j - 1];
      j := j - 1;
    }
    InsertLands(done, j, x);
  }

  /** Swapping `x` with its left neighbour `done[j - 1]`. */
  lemma SwapStep(done: seq<Holiday>, x: Holiday, rest: seq<Holiday>, j: int)
    requires 0 < j <= |done|
    ensures (done[..j] + [x] + done[j..] + rest)[j - 1 := x][j := done[j - 1]]
         == done[..j - 1] + [x] + done[j - 1..] + rest
  {
    assert done[..j] == done[..j - 1] + [done[j - 1]];
    assert done[j - 1..] == [done[j - 1]] + done[j..];
  }

  /** Inserting `x` lands it right after the last element dated no later than it,
      when everything after that position is dated later. */
  lemma {:induction false} InsertLands(s: seq<Holiday>, j: int, x: Holiday)
    requires 0 <= j <= |s| && (j == 0 || !DateLess(x.date, s[j - 1].date))
    requires forall k :: j <= k < |s| ==> DateLess(x.date, s[k].date)
    ensures InsertByDate(s, x) == s[..j] + [x] + s[j..]
    decreases |s|
  {
    if j == |s| {
      assert s[..j] == s && s[j..] == [];
    } else {
      var init := s[..|s| - 1];
      assert init[..j] == s[..j];
      InsertLands(init, j, x);
      assert s[j..] == init[j..] + [s[|s| - 1]];
    }
  }
}

/** `generate_js` of `scripts/gen_holidays.py`: the JavaScript source that lists the
    NYSE holidays of the given years as a `Set` of ISO date strings. */
module JsOutput {
  import opened Dates
  import opened NyseCalendar
  import opened Text

  /** `date.isoformat()`: `YYYY-MM-DD`, each field zero-padded. */
  function IsoFormat(d: Date): (s: string)
    requires Valid(d)
    ensures |s| == 10 && s[4] == '-' && s[7] == '-'
  {
    PadDigits(d.year, 4) + "-" + PadDigits(d.month, 2) + "-" + PadDigits(d.day, 2)
  }

  /** Reads a `YYYY-MM-DD` string back into its year, month and day. */
  function ParseIso(s: string): Option<Date> {
    if |s| == 10 && s[4] == '-' && s[7] == '-' &&
       AllDigits(s[..4]) && AllDigits(s[5..7]) && AllDigits(s[8..])
    then Some(Date(DigitsValue(s[..4]), DigitsValue(s[5..7]), DigitsValue(s[8..])))
    else None
  }

  lemma IsoParts(d: Date)
    requires Valid(d)
    ensures var s := IsoFormat(d);
      s[..4] == PadDigits(d.year, 4) && s[5..7] == PadDigits(d.month, 2) && s[8..] == PadDigits(d.day, 2)
  {
  }

  /** Every date of the calendar is read back from its ISO form. */
  lemma IsoRoundTrip(d: Date)
    requires Valid(d)
    ensures ParseIso(IsoFormat(d)) == Some(d)
  {
    IsoParts(d);
    PadDigitsRoundTrip(d.year, 4);
    PadDigitsRoundTrip(d.month, 2);
    PadDigitsRoundTrip(d.day, 2);
  }

  /** A string that reads as a date is that date's ISO form. */
  lemma IsoUnique(s: string, d: Date)
    requires Valid(d) && ParseIso(s) == Some(d)
    ensures IsoFormat(d) == s
  {
    DigitsValueRoundTrip(s[..4]);
    DigitsValueRoundTrip(s[5..7]);
    DigitsValueRoundTrip(s[8..]);
    IsoParts(d);
    assert s == s[..4] + "-" + s[5..7] + "-" + s[8..];
  }

  /** `['Mon', 'Tue', 'Wed', 'Thu', 'Fri', 'Sat', 'Sun'][weekday]`. */
  function DayAbbr(weekday: int): (s: string)
    requires 0 <= weekday < 7
    ensures |s| == 3
  {
    ["Mon", "Tue", "Wed", "Thu", "Fri", "Sat", "Sun"][weekday]
  }

  /** The ten lines before the first year. */
  function Header(): (lines: seq<string>)
    ensures |lines| == 10 && lines[9] == "const MARKET_HOLIDAYS = new Set(["
  {
    [ "/**",
      " * NYSE Market Holidays",
      " * ",
      " * Regenerate annually:",
      // The two long lines are written in pieces only so that `HeaderSingle` can
      // check them for newlines; each is the single line of the original.
      " *   python scripts/" + "gen_holidays.py <year> " + "[year2 ...]",
      " * ",
      " * Sources:",
      " *   https://www.nyse.com" + "/markets/hours-calendars",
      " */",
      "const MARKET_HOLIDAYS = new Set([" ]
  }

  /** The two lines after the last year. */
  function Footer(): seq<string> {
    ["]);", ""]
  }

  /** `f'    // {year}'`. */
  function YearLine(year: int): string
    requires ValidYear(year)
  {
    "    // " + DecimalString(year)
  }

  /** `f"    '{d.isoformat()}'{comma} // {name} ({day_abbr})"` with `comma = ','`. */
  function HolidayLine(h: Holiday): string
    requires Valid(h.date)
  {
    "    '" + IsoFormat(h.date) + "'," + " // " + h.name + " (" + DayAbbr(Weekday(h.date)) + ")"
  }

  predicate AllValid(hs: seq<Holiday>) {
    forall i :: 0 <= i < |hs| ==> Valid(hs[i].date)
  }

  /** One `HolidayLine` per holiday, in order. */
  function HolidayLines(hs: seq<Holiday>): (lines: seq<string>)
    requires AllValid(hs)
    ensures |lines| == |hs|
    ensures forall i :: 0 <= i < |hs| ==> lines[i] == HolidayLine(hs[i])
  {
    if hs == [] then [] else HolidayLines(hs[..|hs| - 1]) + [HolidayLine(hs[|hs| - 1])]
  }

  /** The comment line of a year and its holidays, as `nyse_holidays` orders them. */
  function YearBlock(year: int): (lines: seq<string>)
    requires ValidYear(year)
    ensures |lines| == 11
  {
    HolidaysOnWeekdays(year);
    WeekdaysValid(HolidayList(year));
    [YearLine(year)] + HolidayLines(HolidayList(year))
  }

  predicate AllValidYears(years: seq<int>) {
    forall k :: 0 <= k < |years| ==> ValidYear(years[k])
  }

  /** The blocks of the given years, in input order. */
  function Blocks(years: seq<int>): (blocks: seq<seq<string>>)
    requires AllValidYears(years)
    ensures |blocks| == |years|
    ensures forall k :: 0 <= k < |years| ==> blocks[k] == YearBlock(years[k])
  {
    seq(|years|, k requires 0 <= k < |years| => YearBlock(years[k]))
  }

  /** The blocks one after the other. */
  function Concat(blocks: seq<seq<string>>): seq<string> {
    if blocks == [] then [] else Concat(blocks[..|blocks| - 1]) + blocks[|blocks| - 1]
  }

  predicate ElevenEach(blocks: seq<seq<string>>) {
    forall k :: 0 <= k < |blocks| ==> |blocks[k]| == 11
  }

  function YearBlocks(years: seq<int>): (lines: seq<string>)
    requires AllValidYears(years)
  {
    Concat(Blocks(years))
  }

  /** The lines `generate_js` joins: the header, one block per year in input order,
      and the closing lines. */
  function JsLines(years: seq<int>): seq<string>
    requires AllValidYears(years)
  {
    Header() + YearBlocks(years) + Footer()
  }

  /** `generate_js(years)`. A year outside the calendar makes `nyse_holidays` raise,
      and the first such year is the error. */
  method GenerateJs(years: seq<int>) returns (r: Result<string>)
    ensures r.Success? <==> AllValidYears(years)
    ensures r.Success? ==> r.value == JoinLines(JsLines(years))
    ensures r.Failure? ==> exists k :: (0 <= k < |years| && r.error == YearOutOfRange(years[k]) &&
      !ValidYear(years[k]) && AllValidYears(years[..k]))
  {
    var lines := Header();
    var yi := 0;
    assert years[..0] == [];
    while yi < |years|
      invariant 0 <= yi <= |years|
      invariant AllValidYears(years[..yi])
      invariant lines == Header() + YearBlocks(years[..yi])
    {
      var year := years[yi];
      var holidays := NyseHolidays(year);
      if holidays.Failure? {
        assert !ValidYear(years[yi]) && AllValidYears(years[..yi]);
        return Failure(holidays.error);
      }
      ghost var prev := lines;
      lines := lines + [YearLine(year)];
      lines := AppendHolidayLines(lines, holidays.value);
      YearBlocksStep(years, yi);
      YearBlockLines(year);
      AppendAssoc(Header(), YearBlocks(years[..yi]), YearBlock(year));
      yi := yi + 1;
    }
    assert years[..yi] == years;
    lines := lines + Footer();
    return Success(JoinLines(lines));
  }

  /** The inner loop of `generate_js`: one line per holiday, appended in order. */
  method AppendHolidayLines(lines: seq<string>, hs: seq<Holiday>) returns (out: seq<string>)
    requires AllValid(hs)
    ensures out == lines + HolidayLines(hs)
  {
    out := lines;
    var i := 0;
    assert hs[..0] == [];
    while i < |hs|
      invariant 0 <= i <= |hs|
      invariant out == lines + HolidayLines(hs[..i])
    {
      var h := hs[i];
      assert hs[..i + 1][..i] == hs[..i];
      out := out + [HolidayLine(h)];
      i := i + 1;
    }
    assert hs[..i] == hs;
  }

  /** The lines of one more year follow those of the years before it. */
  lemma YearBlocksStep(years: seq<int>, yi: int)
    requires 0 <= yi < |years| && AllValidYears(years[..yi]) && ValidYear(years[yi])
    ensures AllValidYears(years[..yi + 1])
    ensures YearBlocks(years[..yi + 1]) == YearBlocks(years[..yi]) + YearBlock(years[yi])
  {
    var blocks := Blocks(years[..yi + 1]);
    assert blocks[..yi] == Blocks(years[..yi]);
  }

  /** A year's block is its comment line and then its holiday lines. */
  lemma YearBlockLines(year: int)
    requires ValidYear(year)
    ensures AllValid(HolidayList(year))
    ensures YearBlock(year) == [YearLine(year)] + HolidayLines(HolidayList(year))
  {
    HolidaysOnWeekdays(year);
    WeekdaysValid(HolidayList(year));
  }

  lemma WeekdaysValid(hs: seq<Holiday>)
    requires AllOnWeekdays(hs)
    ensures AllValid(hs)
  {
  }

  lemma AppendAssoc(a: seq<string>, b: seq<string>, c: seq<string>)
    requires |c| >= 1
    ensures (a + b) + [c[0]] + c[1..] == a + (b + c)
  {
    assert [c[0]] + c[1..] == c;
  }

  // ---------------------------------------------------------------------------
  // The shape of the output

  /** The blocks of the years each have eleven lines, so there are 11 * |years|. */
  lemma YearBlocksLength(years: seq<int>)
    requires AllValidYears(years)
    ensures ElevenEach(Blocks(years))
    ensures |YearBlocks(years)| == 11 * |years|
  {
    if years != [] {
      ConcatSlice(Blocks(years), 0);
    }
  }

  /** `generate_js` emits 12 + 11 * |years| lines: the ten header lines ending in the
      `Set([` opener, then per year in input order its comment line and its ten
      holidays in date order, then `]);` and an empty line. */
  lemma JsLinesShape(years: seq<int>)
    requires AllValidYears(years)
    ensures var lines := JsLines(years);
      |lines| == 12 + 11 * |years| &&
      lines[..10] == Header() &&
      lines[10 + 11 * |years|] == "]);" && lines[11 + 11 * |years|] == ""
  {
    YearBlocksLength(years);
    FramedShape(YearBlocks(years));
  }

  lemma FramedShape(body: seq<string>)
    ensures var lines := Header() + body + Footer();
      |lines| == 12 + |body| && lines[..10] == Header() &&
      lines[10 + |body|] == "]);" && lines[11 + |body|] == ""
  {
    var lines := Header() + body + Footer();
    assert lines[..10] == Header();
    assert lines[10 + |body| ..] == Footer();
  }

  /** Lines 10 + 11k to 20 + 11k are the block of the k-th year. */
  lemma JsLinesYear(years: seq<int>, k: int)
    requires AllValidYears(years) && 0 <= k < |years|
    ensures |JsLines(years)| == 12 + 11 * |years|
    ensures JsLines(years)[10 + 11 * k .. 21 + 11 * k] == YearBlock(years[k])
  {
    var blocks := Blocks(years);
    YearBlocksLength(years);
    ConcatSlice(blocks, k);
    FramedSlice(YearBlocks(years), 11 * k, 11 * k + 11);
  }

  /** With eleven lines per block, lines 11k to 11k + 10 are block k. */
  lemma {:induction false} ConcatSlice(blocks: seq<seq<string>>, k: int)
    requires ElevenEach(blocks) && 0 <= k < |blocks|
    ensures |Concat(blocks)| == 11 * |blocks|
    ensures Concat(blocks)[11 * k .. 11 * k + 11] == blocks[k]
  {
    var init, last := blocks[..|blocks| - 1], blocks[|blocks| - 1];
    assert ElevenEach(init) by {
      forall i | 0 <= i < |init|
        ensures |init[i]| == 11
      {
        assert init[i] == blocks[i];
      }
    }
    if k < |init| {
      ConcatSlice(init, k);
      assert init[k] == blocks[k];
      assert (Concat(init) + last)[11 * k .. 11 * k + 11] == Concat(init)[11 * k .. 11 * k + 11];
    } else {
      if init != [] {
        ConcatSlice(init, 0);
      }
      assert (Concat(init) + last)[|Concat(init)|..] == last;
    }
  }

  /** Lines lo to hi of the year lines are lines 10 + lo to 10 + hi of the output. */
  lemma FramedSlice(body: seq<string>, lo: int, hi: int)
    requires 0 <= lo <= hi <= |body|
    ensures (Header() + body + Footer())[10 + lo .. 10 + hi] == body[lo..hi]
  {
  }

  /** A year's block opens with its comment line; line j + 1 is its j-th holiday. */
  lemma BlockLine(year: int, j: int)
    requires ValidYear(year) && 0 <= j < 10
    ensures |YearBlock(year)| == 11 && AllValid(HolidayList(year))
    ensures YearBlock(year)[0] == YearLine(year)
    ensures YearBlock(year)[j + 1] == HolidayLine(HolidayList(year)[j])
  {
    YearBlockLines(year);
  }

  /** The comment line of a year reads back as that year. */
  lemma YearLineRoundTrip(year: int)
    requires ValidYear(year)
    ensures var line := YearLine(year);
      line[..7] == "    // " && AllDigits(line[7..]) && DigitsValue(line[7..]) == year
  {
    DecimalStringRoundTrip(year);
    assert YearLine(year)[7..] == DecimalString(year);
  }

  /** A holiday line carries the holiday's date in ISO form between quotes, and its
      name. */
  lemma HolidayLineRoundTrip(h: Holiday)
    requires Valid(h.date)
    ensures var line := HolidayLine(h);
      line[..5] == "    '" && ParseIso(line[5..15]) == Some(h.date) &&
      line[15..21] == "', // " && line[21..21 + |h.name|] == h.name
    ensures HolidayLine(h)[21 + |h.name|..] == " (" + DayAbbr(Weekday(h.date)) + ")"
  {
    var line := HolidayLine(h);
    IsoRoundTrip(h.date);
    assert line[5..15] == IsoFormat(h.date);
    assert line[21..21 + |h.name|] == h.name;
  }

  /** Distinct weekdays get distinct abbreviations. */
  lemma DayAbbrInjective(a: int, b: int)
    requires 0 <= a < 7 && 0 <= b < 7 && DayAbbr(a) == DayAbbr(b)
    ensures a == b
  {
  }

  // ---------------------------------------------------------------------------
  // The joined output splits back into its lines

  lemma DigitsSingle(s: string)
    requires AllDigits(s)
    ensures SingleLine(s)
  {
  }

  lemma HolidayLineSingle(h: Holiday)
    requires Valid(h.date) && SingleLine(h.name)
    ensures SingleLine(HolidayLine(h))
  {
    var d := h.date;
    DigitsSingle(PadDigits(d.year, 4));
    DigitsSingle(PadDigits(d.month, 2));
    DigitsSingle(PadDigits(d.day, 2));
    assert SingleLine(IsoFormat(d));
    assert SingleLine(DayAbbr(Weekday(d)));
  }

  lemma YearLineSingle(year: int)
    requires ValidYear(year)
    ensures SingleLine(YearLine(year))
  {
    DigitsSingle(DecimalString(year));
  }

  /** No holiday name holds a newline. */
  lemma HolidayNamesSingle(year: int)
    requires ValidYear(year)
    ensures forall j :: 0 <= j < 10 ==> SingleLine(HolidayList(year)[j].name)
  {
    var s := HolidayList(year);
    assert s[0].name == "New Year's Day" && s[1].name == "Martin Luther King Jr. Day";
    assert s[2].name == "Presidents' Day" && s[3].name == "Good Friday";
    assert s[4].name == "Memorial Day" && s[5].name == "Juneteenth";
    assert s[6].name == "Independence Day" && s[7].name == "Labor Day";
    assert s[8].name == "Thanksgiving Day" && s[9].name == "Christmas Day";
    TenNamesSingle(s);
  }

  lemma TenNamesSingle(s: seq<Holiday>)
    requires |s| == 10
    requires s[0].name == "New Year's Day" && s[1].name == "Martin Luther King Jr. Day"
    requires s[2].name == "Presidents' Day" && s[3].name == "Good Friday"
    requires s[4].name == "Memorial Day" && s[5].name == "Juneteenth"
    requires s[6].name == "Independence Day" && s[7].name == "Labor Day"
    requires s[8].name == "Thanksgiving Day" && s[9].name == "Christmas Day"
    ensures forall j :: 0 <= j < 10 ==> SingleLine(s[j].name)
  {
    WinterSpringNamesSingle();
    SummerAutumnNamesSingle();
  }

  // The newline checks on string constants are split in two: all ten in one lemma
  // are too costly for the verifier.
  lemma WinterSpringNamesSingle()
    ensures SingleLine("New Year's Day") && SingleLine("Martin Luther King Jr. Day")
    ensures SingleLine("Presidents' Day") && SingleLine("Good Friday")
    ensures SingleLine("Memorial Day")
  {
  }

  lemma SummerAutumnNamesSingle()
    ensures SingleLine("Juneteenth") && SingleLine("Independence Day") && SingleLine("Labor Day")
    ensures SingleLine("Thanksgiving Day") && SingleLine("Christmas Day")
  {
  }

  lemma BlockSingle(year: int, m: int)
    requires ValidYear(year) && 0 <= m < 11
    ensures SingleLine(YearBlock(year)[m])
  {
    if m == 0 {
      BlockLine(year, 0);
      YearLineSingle(year);
    } else {
      BlockLine(year, m - 1);
      HolidayNamesSingle(year);
      HolidayLineSingle(HolidayList(year)[m - 1]);
    }
  }

  lemma HeaderSingle(i: int)
    requires 0 <= i < 10
    ensures SingleLine(Header()[i])
  {
    var h := Header();
    if i == 4 {
      ConcatSingle(" *   python scripts/", "gen_holidays.py <year> ");
      ConcatSingle(" *   python scripts/" + "gen_holidays.py <year> ", "[year2 ...]");
    } else if i == 7 {
      ConcatSingle(" *   https://www.nyse.com", "/markets/hours-calendars");
    } else {
      assert SingleLine(h[i]);
    }
  }

  /** Every emitted line is free of newlines. */
  lemma JsLinesSingle(years: seq<int>)
    requires AllValidYears(years)
    ensures forall i :: 0 <= i < |JsLines(years)| ==> SingleLine(JsLines(years)[i])
  {
    forall i | 0 <= i < |JsLines(years)|
      ensures SingleLine(JsLines(years)[i])
    {
      LineSingle(years, i);
    }
  }

  lemma LineSingle(years: seq<int>, i: int)
    requires AllValidYears(years) && 0 <= i < |JsLines(years)|
    ensures SingleLine(JsLines(years)[i])
  {
    YearBlocksLength(years);
    var mid := YearBlocks(years);
    if 10 <= i < 10 + |mid| {
      var k := (i - 10) / 11;
      YearLineSingleAt(years, k, i - 10 - 11 * k);
    } else {
      FramedLineSingle(mid, i);
    }
  }

  /** The lines `generate_js` writes around the years hold no newline. */
  lemma FramedLineSingle(mid: seq<string>, i: int)
    requires 0 <= i < 12 + |mid| && !(10 <= i < 10 + |mid|)
    ensures SingleLine((Header() + mid + Footer())[i])
  {
    if i < 10 {
      HeaderSingle(i);
      assert (Header() + mid + Footer())[i] == Header()[i];
    } else {
      assert (Header() + mid + Footer())[i] == Footer()[i - 10 - |mid|];
    }
  }

  lemma YearLineSingleAt(years: seq<int>, k: int, m: int)
    requires AllValidYears(years) && 0 <= k < |years| && 0 <= m < 11
    ensures 10 + 11 * k + m < |JsLines(years)|
    ensures SingleLine(JsLines(years)[10 + 11 * k + m])
  {
    JsLinesYear(years, k);
    BlockSingle(years[k], m);
    SingleInSlice(JsLines(years), 10 + 11 * k, 21 + 11 * k, YearBlock(years[k]), m);
  }

  lemma SingleInSlice(lines: seq<string>, lo: int, hi: int, block: seq<string>, m: int)
    requires 0 <= lo <= hi <= |lines| && lines[lo .. hi] == block
    requires 0 <= m < |block| && SingleLine(block[m])
    ensures lo + m < |lines| && SingleLine(lines[lo + m])
  {
    assert lines[lo .. hi][m] == lines[lo + m];
  }

  /** The string `generate_js` returns splits on newlines into exactly the lines it
      was built from: 12 + 11 * |years| of them. */
  lemma OutputLines(years: seq<int>)
    requires AllValidYears(years)
    ensures SplitLines(JoinLines(JsLines(years))) == JsLines(years)
    ensures |SplitLines(JoinLines(JsLines(years)))| == 12 + 11 * |years|
  {
    JsLinesSingle(years);
    YearBlocksLength(years);
    JoinThenSplit(JsLines(years));
  }
}

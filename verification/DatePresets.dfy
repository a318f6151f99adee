/**
 * Quick date ranges on India business days. Dates are YYYY-MM-DD strings and are compared as strings, as the source does;
 * an absent or empty date input is "".
 */
module DatePresets {
  import opened Text
  import opened Calendar

  const TZ_OFFSET_MS: nat := 19_800_000
  const DAY_MS: nat := 86_400_000

  // ---------- days and their texts ----------

  function Pad6(n: int): string
    requires 0 <= n <= 999_999
  {
    Pad2(n / 10_000) + Pad4(n % 10_000)
  }

  /** A Date reaches this many days to either side of 1970. */
  const MAX_DAYS: int := 100_000_000

  lemma YearsOfDate(n: int)
    requires -MAX_DAYS <= n <= MAX_DAYS
    ensures -999_999 <= CivilOf(n).year <= 999_999
  {
    hide DaysBeforeMonth;
    var y := CivilOf(n).year;
    DayWithinYear(CivilOf(n));
    RangeOfYears();
    if y < 0 { YearsAscend(y + 1, 0); } else { YearsAscend(0, y); }
  }

  /**
   * `toISOString().slice(0, 10)` of a day. Years outside 0 to 9999 are printed with a sign and six digits, of which the slice
   * cuts off the day; beyond the range of Date the source throws, which is the empty text here.
   */
  function IsoDate(n: int): string {
    var c := CivilOf(n);
    if Plain(c) then Format(c)
    else if -MAX_DAYS <= n <= MAX_DAYS then
      YearsOfDate(n);
      (if c.year < 0 then "-" + Pad6(-c.year) else "+" + Pad6(c.year)) + "-" + Pad2(c.month)
    else ""
  }

  /** The day number of a date text. */
  function Day(s: string): int
    requires IsDate(s)
  {
    DayOf(Parse(s).value)
  }

  /** The days of the years 0000 to 9999. */
  predicate InRange(n: int) { -719_528 <= n < 2_932_897 }

  lemma RangeOfYears()
    ensures DayFromYear(0) == -719_528 && DayFromYear(10_000) == 2_932_897
  {
  }

  lemma RangeIsPlain(n: int)
    ensures InRange(n) <==> Plain(CivilOf(n))
  {
    var y := CivilOf(n).year;
    DayWithinYear(CivilOf(n));
    YearInRange(n, y);
  }

  lemma YearInRange(n: int, y: int)
    requires DayFromYear(y) <= n < DayFromYear(y + 1)
    ensures InRange(n) <==> 0 <= y <= 9999
  {
    RangeOfYears();
    if y < 0 {
      YearsAscend(y + 1, 0);
    } else if y > 9999 {
      YearsAscend(10_000, y);
    } else {
      YearsAscend(0, y);
      YearsAscend(y + 1, 10_000);
    }
  }

  /** A day in range and its text determine each other. */
  lemma TextOfDay(n: int)
    requires InRange(n)
    ensures IsDate(IsoDate(n)) && Day(IsoDate(n)) == n
  {
    RangeIsPlain(n);
    ParseUndoesFormat(CivilOf(n));
  }

  lemma TextOfCivil(c: Civil)
    requires Plain(c)
    ensures Parse(IsoDate(DayOf(c))) == Some(c)
  {
    CivilUndoesDay(c);
    hide CivilOf;
    hide DayOf;
    hide Parse;
    hide Format;
    ParseUndoesFormat(c);
  }

  lemma DayOfText(s: string)
    requires IsDate(s)
    ensures InRange(Day(s)) && IsoDate(Day(s)) == s && |s| == 10
  {
    CivilUndoesDay(Parse(s).value);
    FormatUndoesParse(s);
    RangeIsPlain(Day(s));
  }

  lemma DatesCompare(s: string, t: string)
    requires IsDate(s) && IsDate(t)
    ensures Less(s, t) <==> Day(s) < Day(t)
    ensures AtMost(s, t) <==> Day(s) <= Day(t)
    ensures s == t <==> Day(s) == Day(t)
  {
    FormatUndoesParse(s);
    FormatUndoesParse(t);
    StringOrderIsDayOrder(Parse(s).value, Parse(t).value);
    DayOfText(s);
    DayOfText(t);
  }

  function IstToday(now: int): string { IsoDate((now + TZ_OFFSET_MS) / DAY_MS) }

  function ShiftDay(s: string, days: int): string
    requires IsDate(s)
  {
    IsoDate(Day(s) + days)
  }

  /** A sign, six digits of a year and a month: what `IsoDate` prints outside the four-digit years. */
  predicate IsYearMonth(s: string) {
    && |s| == 10 && (s[0] == '+' || s[0] == '-') && AllDigits(s[1..7]) && s[7] == '-' && AllDigits(s[8..10])
    && 1 <= Value2(s[8..10]) <= 12 && (s[0] == '-' ==> Value6(s[1..7]) != 0)
  }

  function Value6(s: string): int
    requires |s| == 6
  {
    Value2(s[0..2]) * 10_000 + Value2(s[2..4]) * 100 + Value2(s[4..6])
  }

  function YearMonth(s: string): Civil
    requires IsYearMonth(s)
  {
    Civil(if s[0] == '-' then -Value6(s[1..7]) else Value6(s[1..7]), Value2(s[8..10]), 1)
  }

  /** The day `Date.parse` finds in such a text at midnight; a year and a month alone stand for the first of that month. */
  function ParseDay(s: string): Option<int> {
    if IsDate(s) then Some(Day(s))
    else if IsYearMonth(s) && -MAX_DAYS <= DayOf(YearMonth(s)) <= MAX_DAYS then Some(DayOf(YearMonth(s)))
    else None
  }

  /** `shiftDay` of any text that `shiftDay` gives. */
  function ShiftText(s: string, days: int): string {
    match ParseDay(s) case Some(n) => IsoDate(n + days) case None => ""
  }

  /** A day outside the four-digit years does not print as a date. */
  lemma OutOfRangeIsNoDate(n: int)
    requires !InRange(n)
    ensures !IsDate(IsoDate(n))
  {
    RangeIsPlain(n);
    hide CivilOf;
    var s := IsoDate(n);
    if s != "" {
      assert s[0] == '-' || s[0] == '+';
      assert s[0..4][0] == s[0];
    }
  }

  const LAST_MONTH_BC := "-000001-12"
  const MONTH_10000 := "+010000-01"

  /** The month before year 0 and the month after 9999 print without their day, and are read as their first. */
  lemma PrintsBeforeYear0(n: int)
    requires -719_528 - 31 <= n < -719_528
    ensures IsoDate(n) == LAST_MONTH_BC
  {
    hide CivilOf;
    hide DayOf;
    var c := Civil(-1, 12, n + 719_528 + 32);
    FirstsOutside();
    assert DayOf(c) == n by { MonthFromFirst(c); }
    CivilUndoesDay(c);
    SignedTexts();
  }

  lemma PrintsPast9999(n: int)
    requires 2_932_897 <= n < 2_932_897 + 31
    ensures IsoDate(n) == MONTH_10000
  {
    hide CivilOf;
    hide DayOf;
    var c := Civil(10_000, 1, n - 2_932_897 + 1);
    FirstsOutside();
    assert DayOf(c) == n by { MonthFromFirst(c); }
    CivilUndoesDay(c);
    SignedTexts();
  }

  lemma ReadAsFirst()
    ensures ParseDay(LAST_MONTH_BC) == Some(-719_528 - 31) && ParseDay(MONTH_10000) == Some(2_932_897)
  {
    hide DayOf;
    hide IsYearMonth;
    hide YearMonth;
    FirstsOutside();
    SignedTexts();
    ReadsYearMonth('-', 1, 12);
    ReadsYearMonth('+', 10_000, 1);
    SignedIsNoDate(LAST_MONTH_BC);
    SignedIsNoDate(MONTH_10000);
  }

  lemma ReadsYearMonth(sign: char, year: int, month: int)
    requires 0 < year <= 999_999 && 1 <= month <= 12 && (sign == '+' || sign == '-')
    ensures var s := [sign] + Pad6(year) + "-" + Pad2(month);
            && IsYearMonth(s) && !IsDigit(s[0])
            && YearMonth(s) == Civil(if sign == '-' then -year else year, month, 1)
  {
    hide Pad2;
    var s := [sign] + Pad6(year) + "-" + Pad2(month);
    var rest := year % 10_000;
    assert s[1..7] == Pad6(year) && s[8..10] == Pad2(month);
    assert Pad6(year)[0..2] == Pad2(year / 10_000) && Pad6(year)[2..4] == Pad2(rest / 100) && Pad6(year)[4..6] == Pad2(rest % 100);
    Pad2Value(month);
    Pad2Value(year / 10_000);
    Pad2Value(rest / 100);
    Pad2Value(rest % 100);
  }

  lemma FirstsOutside()
    ensures DayOf(Civil(-1, 12, 1)) == -719_528 - 31 && DayOf(Civil(10_000, 1, 1)) == 2_932_897
  {
    RangeOfYears();
    YearLength(-1);
  }

  lemma MonthFromFirst(c: Civil)
    requires 1 <= c.month <= 12
    ensures DayOf(c) == DayOf(c.(day := 1)) + c.day - 1
  {
  }

  lemma SignedTexts()
    ensures "-" + Pad6(1) + "-" + Pad2(12) == LAST_MONTH_BC
    ensures "+" + Pad6(10_000) + "-" + Pad2(1) == MONTH_10000
  {
    assert Pad2(12) == "12" && Pad2(0) == "00" && Pad4(1) == "0001";
    assert Pad2(1) == "01" && Pad4(0) == "0000";
  }

  lemma SignedIsNoDate(s: string)
    requires s != "" && !IsDigit(s[0])
    ensures !IsDate(s)
  {
    if |s| == 10 { assert s[0..4][0] == s[0]; }
  }

  lemma Shifted(s: string, days: int)
    requires IsDate(s) && InRange(Day(s) + days)
    ensures IsDate(ShiftDay(s, days)) && Day(ShiftDay(s, days)) == Day(s) + days
  {
    TextOfDay(Day(s) + days);
  }

  lemma SameDay(s: string, t: string)
    requires IsDate(s) && IsDate(t) && Day(s) == Day(t)
    ensures s == t
  {
    DayOfText(s);
    DayOfText(t);
  }

  function DayCount(from: string, to: string): int
    requires IsDate(from) && IsDate(to)
  {
    Day(to) - Day(from) + 1
  }

  /** Inside the four-digit years, shifts add up, a shift is undone by its opposite, and `dayCount` measures it. */
  lemma ShiftIsAdditive(s: string, a: int, b: int)
    requires IsDate(s) && InRange(Day(s) + a) && InRange(Day(s) + a + b)
    ensures IsDate(ShiftDay(s, a)) && IsDate(ShiftDay(s, a + b))
    ensures ShiftDay(ShiftDay(s, a), b) == ShiftDay(s, a + b)
    ensures ShiftDay(ShiftDay(s, a), -a) == s
    ensures Day(ShiftDay(s, a)) == Day(s) + a && DayCount(s, ShiftDay(s, a)) == a + 1
  {
    hide IsDate;
    hide Day;
    hide IsoDate;
    Shifted(s, a);
    Shifted(s, a + b);
    Shifted(ShiftDay(s, a), b);
    DayOfText(s);
    Shifted(ShiftDay(s, a), -a);
    SameDay(ShiftDay(ShiftDay(s, a), -a), s);
    SameDay(ShiftDay(ShiftDay(s, a), b), ShiftDay(s, a + b));
  }

  // ---------- weeks and months ----------

  function WeekStart(s: string): string
    requires IsDate(s)
  {
    ShiftDay(s, -((WeekDay(Day(s)) + 6) % 7))
  }

  function MonthStart(s: string): string
    requires |s| >= 8
  {
    s[..8] + "01"
  }

  /** `Date.UTC(y, m, d)` in days, with month 0 for January: the years 0 to 99 mean 1900 to 1999. */
  function DateUtc(y: int, m: int, d: int): int {
    var year := (if 0 <= y <= 99 then 1900 + y else y) + m / 12;
    DayFromYear(year) + DaysBeforeMonth(year, m % 12 + 1) + d - 1
  }

  function MonthEnd(s: string): string
    requires IsDate(s)
  {
    var c := Parse(s).value;
    IsoDate(DateUtc(c.year, c.month, 0))
  }

  function LastDayOfMonth(c: Civil): Civil { c.(day := DaysInMonth(c.year, c.month)) }

  lemma MondayBefore(n: int)
    ensures 0 <= (WeekDay(n) + 6) % 7 <= 6 && WeekDay(n - (WeekDay(n) + 6) % 7) == 1
  {
  }

  lemma WeekStartIsMonday(s: string)
    requires IsDate(s) && InRange(Day(s) - 6)
    ensures IsDate(WeekStart(s)) && 0 <= Day(s) - Day(WeekStart(s)) <= 6
    ensures Day(WeekStart(s)) % 7 == DayOf(Civil(2024, 1, 1)) % 7 && DayOfWeek(Parse(WeekStart(s)).value) == 1
  {
    WeekStartDay(s);
    hide *;
    MondayDate(WeekStart(s));
  }

  lemma WeekStartDay(s: string)
    requires IsDate(s) && InRange(Day(s) - 6)
    ensures IsDate(WeekStart(s)) && 0 <= Day(s) - Day(WeekStart(s)) <= 6 && WeekDay(Day(WeekStart(s))) == 1
  {
    hide IsDate;
    hide Day;
    hide IsoDate;
    DayOfText(s);
    MondayBefore(Day(s));
    Shifted(s, -((WeekDay(Day(s)) + 6) % 7));
  }

  lemma MondayDate(s: string)
    requires IsDate(s) && WeekDay(Day(s)) == 1
    ensures DayOfWeek(Parse(s).value) == 1 && Day(s) % 7 == DayOf(Civil(2024, 1, 1)) % 7
  {
    hide DayOfWeek;
    WeekDayIsDayOfWeek(Parse(s).value);
    MondaysAre(Day(s));
  }

  lemma MonthStartIsFirst(s: string)
    requires IsDate(s)
    ensures var c := Parse(s).value; Parse(MonthStart(s)) == Some(c.(day := 1))
    ensures IsDate(MonthStart(s)) && Day(MonthStart(s)) == Day(s) - (Parse(s).value.day - 1)
    ensures 0 <= Day(s) - Day(MonthStart(s)) <= 30
  {
    var c := Parse(s).value;
    FormatUndoesParse(s);
    assert Pad2(1) == "01";
    assert MonthStart(s) == Format(c.(day := 1));
    ParseUndoesFormat(c.(day := 1));
  }

  /** `Date.UTC(y, m, 0)` is the last day of month `m`, for the year it takes `y` to mean. */
  lemma UtcDayZero(c: Civil)
    requires Valid(c)
    ensures var y := if 0 <= c.year <= 99 then 1900 + c.year else c.year;
            DateUtc(c.year, c.month, 0) == DayOf(LastDayOfMonth(c.(year := y)))
  {
    hide DayFromYear;
    var y := if 0 <= c.year <= 99 then 1900 + c.year else c.year;
    MonthLength(y, c.month);
    YearLength(y);
  }

  /** `monthEnd` is the last day of the date's month exactly from the year 100 on; before that it lands in the 1900s. */
  lemma MonthEndFromYear100(s: string)
    requires IsDate(s)
    ensures var c := Parse(s).value;
            && IsDate(MonthEnd(s))
            && (Parse(MonthEnd(s)) == Some(LastDayOfMonth(c)) <==> c.year >= 100)
            && (c.year < 100 ==> Parse(MonthEnd(s)).value.year == 1900 + c.year)
  {
    var c := Parse(s).value;
    var end := LastDayOfMonth(c.(year := if 0 <= c.year <= 99 then 1900 + c.year else c.year));
    UtcDayZero(c);
    CivilUndoesDay(end);
    ParseUndoesFormat(end);
  }

  // ---------- presets ----------

  datatype Preset = Today | Yesterday | DayBefore | Last5 | Last7 | Last30 | ThisWeek | LastWeek | ThisMonth | LastMonth | Single | Custom

  datatype Range = Range(from: string, to: string)

  function Resolve(p: Preset, single: string, from: string, to: string, today: string): Range
    requires IsDate(today)
  {
    match p
    case Today => Range(today, today)
    case Yesterday => Range(ShiftDay(today, -1), ShiftDay(today, -1))
    case DayBefore => Range(ShiftDay(today, -2), ShiftDay(today, -2))
    case Last5 => Range(ShiftDay(today, -4), today)
    case Last7 => Range(ShiftDay(today, -6), today)
    case Last30 => Range(ShiftDay(today, -29), today)
    case ThisWeek => Range(WeekStart(today), today)
    case LastWeek =>
      var start := ShiftText(WeekStart(today), -7);
      Range(start, ShiftText(start, 6))
    case ThisMonth => Range(MonthStart(today), today)
    case LastMonth =>
      MonthStartIsFirst(today);
      var end := ShiftDay(MonthStart(today), -1);
      Range(if |end| >= 8 then MonthStart(end) else "", end)
    case Single => var d := if single != "" then single else today; Range(d, d)
    case Custom =>
      var a := if from != "" then from else ShiftDay(today, -6);
      var b := if to != "" then to else today;
      if AtMost(a, b) then Range(a, b) else Range(b, a)
  }

  function PresetError(p: Preset, single: string, from: string, to: string, today: string): Option<string> {
    if p == Single && single == "" then Some("Pick a date.")
    else if p == Single && Less(today, single) then Some("The date cannot be in the future.")
    else if p == Custom && (from == "" || to == "") then Some("Pick both From and To dates.")
    else if p == Custom && Less(to, from) then Some("From date must not be after To date.")
    else if p == Custom && Less(today, to) then Some("To date cannot be in the future.")
    else None
  }

  /** How far back from today a rolling preset begins. */
  function DaysBack(p: Preset): int {
    match p
    case Yesterday => 1 case DayBefore => 2 case Last5 => 4 case Last7 => 6 case Last30 => 29
    case _ => 0
  }

  ghost predicate InOrder(r: Range, today: string) {
    IsDate(r.from) && IsDate(r.to) && IsDate(today) && AtMost(r.from, r.to) && AtMost(r.to, today)
  }

  lemma InOrderByDay(r: Range, today: string)
    requires IsDate(r.from) && IsDate(r.to) && IsDate(today) && Day(r.from) <= Day(r.to) <= Day(today)
    ensures InOrder(r, today)
  {
    DatesCompare(r.from, r.to);
    DatesCompare(r.to, today);
  }

  /** A range within one month back from today is in order exactly when it begins in year 0 or later. */
  lemma InOrderFrom(from: int, to: string, today: string)
    requires IsDate(today) && from <= Day(today)
    requires IsDate(to) ==> from <= Day(to) <= Day(today)
    requires InRange(from) ==> IsDate(to)
    ensures InOrder(Range(IsoDate(from), to), today) <==> InRange(from)
    ensures InRange(from) ==> IsDate(IsoDate(from)) && Day(IsoDate(from)) == from
  {
    hide IsDate;
    hide Day;
    hide IsoDate;
    if InRange(from) {
      TextOfDay(from);
      InOrderByDay(Range(IsoDate(from), to), today);
    } else {
      OutOfRangeIsNoDate(from);
    }
  }

  /**
   * The rolling presets end today (or one or two days before) and cover exactly the promised days. Only a range that would begin
   * before year 0 is no range of dates.
   */
  lemma RollingPresets(p: Preset, today: string, single: string, from: string, to: string)
    requires IsDate(today) && p in {Today, Yesterday, DayBefore, Last5, Last7, Last30}
    ensures var r := Resolve(p, single, from, to, today);
            && (InOrder(r, today) <==> InRange(Day(today) - DaysBack(p)))
            && (InOrder(r, today) ==>
                  && (p == Today ==> r.to == today && DayCount(r.from, r.to) == 1)
                  && (p == Yesterday ==> Day(r.to) == Day(today) - 1 && DayCount(r.from, r.to) == 1)
                  && (p == DayBefore ==> Day(r.to) == Day(today) - 2 && DayCount(r.from, r.to) == 1)
                  && (p == Last5 ==> r.to == today && DayCount(r.from, r.to) == 5)
                  && (p == Last7 ==> r.to == today && DayCount(r.from, r.to) == 7)
                  && (p == Last30 ==> r.to == today && DayCount(r.from, r.to) == 30))
  {
    hide IsDate;
    hide Day;
    hide IsoDate;
    DayOfText(today);
    var n := Day(today) - DaysBack(p);
    if InRange(n) { TextOfDay(n); } else { OutOfRangeIsNoDate(n); }
    InOrderFrom(n, Resolve(p, single, from, to, today).to, today);
  }

  /** The Monday on or before a date. */
  function Monday(today: string): int
    requires IsDate(today)
  {
    Day(today) - (WeekDay(Day(today)) + 6) % 7
  }

  /**
   * This week runs from its Monday to today; last week is the whole Monday-to-Sunday week just before it. Either is a range of
   * dates exactly when its Monday lies in year 0 or later.
   */
  lemma WeekPresets(today: string, single: string, from: string, to: string)
    requires IsDate(today)
    ensures var now, last := Resolve(ThisWeek, single, from, to, today), Resolve(LastWeek, single, from, to, today);
            && (InOrder(now, today) <==> InRange(Monday(today)))
            && (InOrder(now, today) ==>
                  Day(now.from) % 7 == DayOf(Civil(2024, 1, 1)) % 7 && now.to == today && DayCount(now.from, today) <= 7)
            && (InOrder(last, today) <==> InRange(Monday(today) - 7))
            && (InOrder(last, today) ==>
                  && DayCount(last.from, last.to) == 7
                  && Day(last.from) % 7 == DayOf(Civil(2024, 1, 1)) % 7 && ShiftDay(last.to, 1) == now.from)
  {
    WeekRanges(today, single, from, to);
    var now, last := Resolve(ThisWeek, single, from, to, today), Resolve(LastWeek, single, from, to, today);
    hide *;
    if InOrder(now, today) { FromMonday(now, today); }
    if InOrder(last, today) { FromMonday(last, today); }
  }

  lemma FromMonday(r: Range, today: string)
    requires InOrder(r, today) && WeekDay(Day(r.from)) == 1
    ensures Day(r.from) % 7 == DayOf(Civil(2024, 1, 1)) % 7
  {
    MondaysAre(Day(r.from));
  }

  lemma WeekRanges(today: string, single: string, from: string, to: string)
    requires IsDate(today)
    ensures var now, last := Resolve(ThisWeek, single, from, to, today), Resolve(LastWeek, single, from, to, today);
            && (InOrder(now, today) <==> InRange(Monday(today)))
            && (InOrder(now, today) ==> WeekDay(Day(now.from)) == 1 && now.to == today && DayCount(now.from, today) <= 7)
            && (InOrder(last, today) <==> InRange(Monday(today) - 7))
            && (InOrder(last, today) ==>
                  && DayCount(last.from, last.to) == 7
                  && WeekDay(Day(last.from)) == 1 && ShiftDay(last.to, 1) == now.from)
  {
    hide IsDate;
    hide Day;
    hide IsoDate;
    hide ShiftText;
    MondayBefore(Day(today));
    DayOfText(today);
    InOrderFrom(Monday(today), today, today);
    LastWeekTexts(today);
    LastWeekRange(today);
  }

  /** What the two shifts of last week give. */
  lemma LastWeekTexts(today: string)
    requires IsDate(today)
    ensures var start := ShiftText(WeekStart(today), -7);
            && (InRange(Monday(today) - 7) ==> start == IsoDate(Monday(today) - 7) && ShiftText(start, 6) == IsoDate(Monday(today) - 1))
            && (!InRange(Monday(today) - 7) ==> !IsDate(start))
  {
    hide IsDate;
    hide Day;
    hide IsoDate;
    var monday := Monday(today);
    MondayBefore(Day(today));
    DayOfText(today);
    assert WeekStart(today) == IsoDate(monday);
    if InRange(monday) {
      TextOfDay(monday);
      if InRange(monday - 7) { TextOfDay(monday - 7); } else { OutOfRangeIsNoDate(monday - 7); }
    } else {
      PrintsBeforeYear0(monday);
      ReadAsFirst();
      OutOfRangeIsNoDate(-719_528 - 31 - 7);
    }
  }

  lemma LastWeekRange(today: string)
    requires IsDate(today)
    ensures var monday := Monday(today);
            var r := Range(IsoDate(monday - 7), IsoDate(monday - 1));
            InRange(monday - 7) ==>
              && InOrder(r, today) && DayCount(r.from, r.to) == 7 && WeekDay(Day(r.from)) == 1
              && ShiftDay(r.to, 1) == IsoDate(monday)
  {
    hide IsDate;
    hide Day;
    hide IsoDate;
    var monday := Monday(today);
    MondayBefore(Day(today));
    DayOfText(today);
    if InRange(monday - 7) {
      TextOfDay(monday - 7);
      TextOfDay(monday - 1);
      InOrderFrom(monday - 7, IsoDate(monday - 1), today);
    }
  }

  /**
   * This month runs from its first to today. Last month is the whole previous calendar month: it starts on a first, the day
   * after it is this month's first, and `monthEnd` agrees with its end exactly from the year 100 on. Only the month before
   * January of year 0 is no range of dates.
   */
  lemma MonthPresets(today: string, single: string, from: string, to: string)
    requires IsDate(today)
    ensures var now, last := Resolve(ThisMonth, single, from, to, today), Resolve(LastMonth, single, from, to, today);
            && InOrder(now, today) && now.to == today && Parse(now.from) == Some(Parse(today).value.(day := 1))
            && (InOrder(last, today) <==> InRange(Day(now.from) - 1))
            && (InOrder(last, today) ==>
                  && last.from == MonthStart(last.to) && ShiftDay(last.to, 1) == now.from
                  && Parse(last.to) == Some(LastDayOfMonth(Parse(last.from).value)) && Parse(last.from).value.day == 1
                  && (MonthEnd(last.from) == last.to <==> Parse(last.from).value.year >= 100))
  {
    hide IsDate;
    hide Day;
    hide IsoDate;
    hide MonthStart;
    DayOfText(today);
    MonthStartIsFirst(today);
    InOrderByDay(Range(MonthStart(today), today), today);
    var first := MonthStart(today);
    if InRange(Day(first) - 1) {
      PreviousMonthRange(first, today);
    } else {
      OutOfRangeIsNoDate(Day(first) - 1);
    }
  }

  lemma PreviousMonthRange(first: string, today: string)
    requires IsDate(first) && IsDate(today) && Parse(first).value.day == 1 && Day(first) <= Day(today) && InRange(Day(first) - 1)
    ensures var end := ShiftDay(first, -1);
            && |end| >= 8 && InOrder(Range(MonthStart(end), end), today) && ShiftDay(end, 1) == first
            && Parse(end) == Some(LastDayOfMonth(Parse(MonthStart(end)).value)) && Parse(MonthStart(end)).value.day == 1
            && (MonthEnd(MonthStart(end)) == end <==> Parse(MonthStart(end)).value.year >= 100)
  {
    hide IsDate;
    hide Day;
    hide IsoDate;
    Shifted(first, -1);
    var end := ShiftDay(first, -1);
    DayOfText(end);
    PreviousMonth(first, end);
    var start := MonthStart(end);
    LastIsLast(start, end);
    DayOfText(first);
    Shifted(end, 1);
    SameDay(ShiftDay(end, 1), first);
    InOrderByDay(Range(start, end), today);
  }

  /** The day before a first, and the first of that day's month. */
  lemma PreviousMonth(first: string, end: string)
    requires IsDate(first) && IsDate(end) && Parse(first).value.day == 1 && Day(end) == Day(first) - 1
    ensures IsDate(MonthStart(end)) && Day(MonthStart(end)) <= Day(end)
    ensures Parse(end) == Some(LastDayOfMonth(Parse(MonthStart(end)).value)) && Parse(MonthStart(end)).value.day == 1
  {
    hide Parse;
    DayBeforeTheFirst(Parse(first).value);
    CivilUndoesDay(Parse(end).value);
    MonthStartIsFirst(end);
  }

  lemma LastIsLast(start: string, end: string)
    requires IsDate(start) && IsDate(end) && Parse(end) == Some(LastDayOfMonth(Parse(start).value))
    ensures MonthEnd(start) == end <==> Parse(start).value.year >= 100
  {
    MonthEndFromYear100(start);
    FormatUndoesParse(end);
    FormatUndoesParse(MonthEnd(start));
  }

  /** The day before the first of a month is the last of the month before. */
  lemma DayBeforeTheFirst(c: Civil)
    requires Valid(c) && c.day == 1
    ensures var before := if c.month == 1 then Civil(c.year - 1, 12, 31) else Civil(c.year, c.month - 1, DaysInMonth(c.year, c.month - 1));
            CivilOf(DayOf(c) - 1) == before && before == LastDayOfMonth(before)
  {
    hide CivilOf;
    hide DayFromYear;
    var before := if c.month == 1 then Civil(c.year - 1, 12, 31) else Civil(c.year, c.month - 1, DaysInMonth(c.year, c.month - 1));
    YearLength(c.year - 1);
    if c.month > 1 { MonthLength(c.year, c.month - 1); }
    assert DayOf(before) == DayOf(c) - 1;
    CivilUndoesDay(before);
  }

  /** Which message each error has. */
  lemma ErrorMessages(p: Preset, single: string, from: string, to: string, today: string)
    ensures var error := PresetError(p, single, from, to, today);
            && (p == Single && single == "" ==> error == Some("Pick a date."))
            && (p == Single && Less(today, single) && single != "" ==> error == Some("The date cannot be in the future."))
            && (p == Custom && (from == "" || to == "") ==> error == Some("Pick both From and To dates."))
            && (p == Custom && from != "" && to != "" && Less(to, from) ==> error == Some("From date must not be after To date."))
            && (p == Custom && from != "" && to != "" && !Less(to, from) && Less(today, to) ==>
                  error == Some("To date cannot be in the future."))
            && (p != Single && p != Custom ==> error == None)
  {
    hide Less;
  }

  /**
   * A chosen day or range, with what stands in for an input that is empty, is never back to front. There is no error exactly if
   * all that is needed is given, in order and not past today; then it is taken as it is.
   */
  lemma ChosenRanges(p: Preset, single: string, from: string, to: string, today: string)
    requires IsDate(today) && p in {Single, Custom}
    ensures var r := Resolve(p, single, from, to, today);
            && AtMost(r.from, r.to)
            && (p == Single ==> r.from == r.to == if single == "" then today else single)
            && (p == Custom ==>
                  var (a, b) := (if from == "" then ShiftDay(today, -6) else from, if to == "" then today else to);
                  r == if AtMost(a, b) then Range(a, b) else Range(b, a))
            && (PresetError(p, single, from, to, today) == None <==>
                  if p == Single then single != "" && AtMost(single, today)
                  else from != "" && to != "" && AtMost(from, to) && AtMost(to, today))
            && (PresetError(p, single, from, to, today) == None ==> r == if p == Single then Range(single, single) else Range(from, to))
  {
    hide IsDate;
    hide Less;
    hide ShiftDay;
    var r := Resolve(p, single, from, to, today);
    LessIrreflexive(r.from);
    var a := if from != "" then from else ShiftDay(today, -6);
    var b := if to != "" then to else today;
    if Less(b, a) && Less(a, b) {
      LessTransitive(a, b, a);
      LessIrreflexive(a);
    }
  }
}

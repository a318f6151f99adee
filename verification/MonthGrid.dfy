/** The month view of the attendance calendar: its rows of weeks, stepping between months, and records grouped by date. */
module MonthGrid {
  import opened Text
  import opened Calendar
  import opened DatePresets

  // ---------- the rows ----------

  /** The seven cells from a day on. */
  function Week(d: int): (r: seq<string>)
    ensures |r| == 7
  {
    seq(7, j => IsoDate(d + j))
  }

  lemma WeekCells(d: int)
    ensures forall j :: 0 <= j < 7 ==> Week(d)[j] == IsoDate(d + j)
  {
    hide IsoDate;
  }

  /** Weeks from `first` until one has started after `last`. */
  function Weeks(first: int, last: int): seq<seq<string>>
    decreases last - first
  {
    if first > last then [] else [Week(first)] + Weeks(first + 7, last)
  }

  lemma {:induction false} WeeksCount(first: int, last: int)
    ensures |Weeks(first, last)| == if first > last then 0 else (last - first) / 7 + 1
    decreases last - first
  {
    if first <= last { WeeksCount(first + 7, last); }
  }

  lemma {:induction false} WeekAt(first: int, last: int, i: nat)
    requires i < |Weeks(first, last)|
    ensures Weeks(first, last)[i] == Week(first + 7 * i)
    decreases last - first
  {
    hide Week;
    assert first <= last by { WeeksCount(first, last); }
    var rest := Weeks(first + 7, last);
    assert Weeks(first, last) == [Week(first)] + rest;
    if i > 0 {
      WeekAt(first + 7, last, i - 1);
      assert Weeks(first, last)[i] == rest[i - 1];
    }
  }

  /** The first of a month. */
  predicate IsFirst(month: string) { IsDate(month) && Parse(month).value.day == 1 }

  function YearOf(month: string): int
    requires IsFirst(month)
  {
    Parse(month).value.year
  }

  function LengthOf(month: string): int
    requires IsFirst(month)
  {
    DaysInMonth(Parse(month).value.year, Parse(month).value.month)
  }

  /** The month, its first week and the week after its last day lie in the four-digit years (see RoomIsAllButTwoMonths). */
  predicate HasRoom(month: string) {
    IsFirst(month) && InRange(Day(month) - 6) && InRange(Day(MonthEndDate(month)) + 7)
  }

  function MonthEndDate(month: string): (r: string)
    requires IsDate(month)
    ensures IsDate(r) && r == MonthEnd(month)
  {
    MonthEndFromYear100(month);
    MonthEnd(month)
  }

  /** The loop of the view; its guard compares dates as strings. */
  method BuildWeeks(month: string) returns (weeks: seq<seq<string>>)
    requires HasRoom(month)
    ensures weeks == Grid(month)
  {
    hide IsDate;
    hide Day;
    hide IsoDate;
    hide Week;
    WeekStartIsMonday(month);
    var first := WeekStart(month);
    var last := MonthEndDate(month);
    weeks := [];
    var d := first;
    DatesCompare(d, last);
    while AtMost(d, last)
      invariant IsDate(d) && (AtMost(d, last) <==> Day(d) <= Day(last))
      invariant weeks + Weeks(Day(d), Day(last)) == Weeks(Day(first), Day(last))
      decreases Day(last) - Day(d)
    {
      WeeksFront(weeks, Day(d), Day(last));
      CellsAreAWeek(d);
      weeks := weeks + [Cells(d)];
      DayOfText(d);
      Shifted(d, 7);
      d := ShiftDay(d, 7);
      DatesCompare(d, last);
    }
  }

  lemma WeeksFront(weeks: seq<seq<string>>, d: int, last: int)
    requires d <= last
    ensures weeks + [Week(d)] + Weeks(d + 7, last) == weeks + Weeks(d, last)
  {
    assert Weeks(d, last) == [Week(d)] + Weeks(d + 7, last);
  }

  function Cells(d: string): seq<string>
    requires IsDate(d)
  {
    seq(7, j => ShiftDay(d, j))
  }

  lemma CellsAreAWeek(d: string)
    requires IsDate(d)
    ensures Cells(d) == Week(Day(d))
  {
    hide IsDate;
    hide IsoDate;
    hide Day;
  }

  function GridStart(month: string): (r: int)
    requires HasRoom(month)
  {
    WeekStartIsMonday(month);
    Day(WeekStart(month))
  }

  /** The rows the view shows for a month. */
  function Grid(month: string): seq<seq<string>>
    requires HasRoom(month)
  {
    Weeks(GridStart(month), Day(MonthEndDate(month)))
  }

  /** A cell (row, column) of the grid shows a day. */
  predicate Shows(weeks: seq<seq<string>>, i: nat, j: nat, n: int) {
    i < |weeks| && j < |weeks[i]| && weeks[i][j] == IsoDate(n)
  }

  /** From the year 100 on the grid has 4 to 6 rows; before that `monthEnd` is 1900 years late and it has tens of thousands. */
  lemma GridRows(month: string)
    requires HasRoom(month)
    ensures 4 <= |Grid(month)| <= 6 <==> YearOf(month) >= 100
  {
    hide IsDate;
    hide Day;
    hide IsoDate;
    hide Parse;
    WeekStartIsMonday(month);
    MonthSpan(month);
    WeeksCount(GridStart(month), Day(MonthEndDate(month)));
  }

  /** The distance from a first to its `monthEnd`. */
  lemma MonthSpan(month: string)
    requires IsFirst(month)
    ensures YearOf(month) >= 100 ==> 27 <= Day(MonthEndDate(month)) - Day(month) <= 30
    ensures YearOf(month) < 100 ==> Day(MonthEndDate(month)) - Day(month) > 1800 * 365
  {
    hide Parse;
    hide DayFromYear;
    hide DaysBeforeMonth;
    MonthEndFromYear100(month);
    var c, e := Parse(month).value, Parse(MonthEnd(month)).value;
    if c.year < 100 {
      YearsApart(c, e);
    }
  }

  lemma YearsApart(c: Civil, e: Civil)
    requires Valid(c) && Valid(e) && c.year + 1 < e.year
    ensures DayOf(e) - DayOf(c) >= 365 * (e.year - c.year - 1)
  {
    DayWithinYear(c);
    DayWithinYear(e);
    YearsAscend(c.year + 1, e.year);
  }

  /**
   * Every row of the grid is a Monday and the six days after it, the rows follow one another, and every day of the month is
   * shown by exactly one cell.
   */
  lemma GridShowsEachDayOnce(month: string, n: int)
    requires HasRoom(month) && Day(month) <= n < Day(month) + LengthOf(month)
    ensures GridStart(month) % 7 == DayOf(Civil(2024, 1, 1)) % 7 && 0 <= Day(month) - GridStart(month) <= 6
    ensures ShowsInTurn(Grid(month), GridStart(month)) && ShowsOnce(Grid(month), n)
  {
    hide IsDate;
    hide Day;
    hide IsoDate;
    hide Parse;
    hide LengthOf;
    hide ShowsInTurn;
    hide ShowsOnce;
    WeekStartIsMonday(month);
    MonthSpan(month);
    LengthIsInMonth(month);
    if YearOf(month) >= 100 { LastDay(month); }
    DayOfText(month);
    DayOfText(WeekStart(month));
    CellsShowDays(GridStart(month), Day(MonthEndDate(month)), n);
  }

  /** The rows are weeks that follow one another from `first` on. */
  ghost predicate ShowsInTurn(weeks: seq<seq<string>>, first: int) {
    forall i :: 0 <= i < |weeks| ==> weeks[i] == Week(first + 7 * i)
  }

  /** Exactly one cell shows the day. */
  ghost predicate ShowsOnce(weeks: seq<seq<string>>, n: int) {
    && (exists i: nat, j: nat :: Shows(weeks, i, j, n))
    && (forall i: nat, j: nat, k: nat, l: nat :: Shows(weeks, i, j, n) && Shows(weeks, k, l, n) ==> i == k && j == l)
  }

  lemma CellsShowDays(first: int, last: int, n: int)
    requires InRange(first) && InRange(last + 7) && first <= n <= last
    ensures ShowsInTurn(Weeks(first, last), first) && ShowsOnce(Weeks(first, last), n)
  {
    hide IsoDate;
    hide Weeks;
    var weeks := Weeks(first, last);
    WeeksCount(first, last);
    forall i: nat | i < |weeks|
      ensures weeks[i] == Week(first + 7 * i)
    {
      WeekAt(first, last, i);
    }
    WeekCells(first + 7 * ((n - first) / 7));
    assert Shows(weeks, (n - first) / 7, (n - first) % 7, n);
    forall i: nat, j: nat | Shows(weeks, i, j, n)
      ensures i == (n - first) / 7 && j == (n - first) % 7
    {
      CellDay(first, last, i, j, n);
    }
  }

  lemma LengthIsInMonth(month: string)
    requires IsFirst(month)
    ensures LengthOf(month) <= 31
  {
  }

  lemma LastDay(month: string)
    requires IsFirst(month) && YearOf(month) >= 100
    ensures Day(MonthEndDate(month)) == Day(month) + LengthOf(month) - 1
  {
    hide Parse;
    MonthEndFromYear100(month);
  }

  lemma CellDay(first: int, last: int, i: nat, j: nat, n: int)
    requires Shows(Weeks(first, last), i, j, n)
    requires InRange(first) && InRange(last + 7) && first <= n <= last
    ensures first + 7 * i + j == n
  {
    hide IsoDate;
    hide IsDate;
    hide Day;
    WeeksCount(first, last);
    WeekAt(first, last, i);
    WeekCells(first + 7 * i);
    TextOfDay(first + 7 * i + j);
    TextOfDay(n);
  }

  // ---------- where the loop does not end ----------

  const JANUARY_0 := Civil(0, 1, 1)
  const DECEMBER_9999 := Civil(9999, 12, 1)

  /** Only the first and the last month of the four-digit years have no room. */
  lemma RoomIsAllButTwoMonths(month: string)
    requires IsFirst(month)
    ensures HasRoom(month) <==> Parse(month).value != JANUARY_0 && Parse(month).value != DECEMBER_9999
  {
    hide Parse;
    hide DayOf;
    hide MonthEnd;
    FirstWithinYears(Parse(month).value);
    EndHasRoom(month);
  }

  lemma EndHasRoom(month: string)
    requires IsFirst(month)
    ensures InRange(Day(MonthEndDate(month)) + 7) <==> Parse(month).value != DECEMBER_9999
  {
    hide Parse;
    hide DayOf;
    var c := Parse(month).value;
    var end := LastDayOfMonth(c.(year := if c.year <= 99 then 1900 + c.year else c.year));
    MonthEndDay(month);
    UtcDayZero(c);
    MonthEndWithinYears(end);
  }

  /** A first is less than a week after the beginning of year 0 only in January of year 0. */
  lemma FirstWithinYears(c: Civil)
    requires Plain(c) && c.day == 1
    ensures -719_528 <= DayOf(c) < 2_932_897
    ensures InRange(DayOf(c) - 6) <==> c != JANUARY_0
  {
    RangeOfYears();
    hide DayFromYear;
    DayWithinYear(c);
    YearsAscend(0, c.year);
    YearsAscend(c.year + 1, 10_000);
    MonthsAscend(c.year, 1, c.month);
  }

  /** The end of a month is less than a week before the end of the year 9999 only in its December. */
  lemma MonthEndWithinYears(c: Civil)
    requires Plain(c) && c == LastDayOfMonth(c)
    ensures InRange(DayOf(c) + 7) <==> !(c.year == 9999 && c.month == 12)
  {
    RangeOfYears();
    hide DayFromYear;
    DayWithinYear(c);
    YearsAscend(0, c.year);
    YearsAscend(c.year + 1, 10_000);
    YearLength(c.year);
    MonthLength(c.year, c.month);
    MonthsAscend(c.year, c.month + 1, 13);
    assert DayOf(c) == DayFromYear(c.year) + DaysBeforeMonth(c.year, c.month + 1) - 1;
  }

  /** The loop's variable `d` after `k` turns. */
  function LoopDay(month: string, k: nat): string
    requires IsFirst(month)
  {
    if k == 0 then WeekStart(month) else ShiftText(LoopDay(month, k - 1), 7)
  }

  /** The loop's guard before turn `k`. */
  predicate GoesOn(month: string, k: nat)
    requires IsFirst(month)
  {
    AtMost(LoopDay(month, k), MonthEndDate(month))
  }

  /**
   * The loop ends for every month but January of year 0 and December 9999. There its variable leaves the four-digit years for a
   * text that is its own next week and sorts below every date, so that the guard holds for ever.
   */
  lemma LoopEndsIffRoom(month: string)
    requires IsFirst(month)
    ensures (exists k: nat :: !GoesOn(month, k)) <==> HasRoom(month)
    ensures HasRoom(month) <==> Parse(month).value != JANUARY_0 && Parse(month).value != DECEMBER_9999
  {
    hide Parse;
    hide GoesOn;
    hide HasRoom;
    RoomIsAllButTwoMonths(month);
    if HasRoom(month) {
      LoopEnds(month);
    } else {
      forall k: nat
        ensures GoesOn(month, k)
      {
        if Parse(month).value == JANUARY_0 { NeverEndsInYear0(month, k); } else { NeverEndsPast9999(month, k); }
      }
    }
  }

  /** With room the variable goes on week by week until the guard fails. */
  lemma LoopEnds(month: string)
    requires HasRoom(month)
    ensures !GoesOn(month, |Grid(month)|)
  {
    hide IsDate;
    hide Day;
    hide IsoDate;
    hide LoopDay;
    WeekStartIsMonday(month);
    WeeksCount(GridStart(month), Day(MonthEndDate(month)));
    DayOfText(WeekStart(month));
    WeekByWeek(month, |Grid(month)|);
    DatesCompare(LoopDay(month, |Grid(month)|), MonthEndDate(month));
  }

  lemma {:induction false} WeekByWeek(month: string, k: nat)
    requires IsFirst(month) && IsDate(WeekStart(month)) && InRange(Day(WeekStart(month)) + 7 * k)
    ensures IsDate(LoopDay(month, k)) && Day(LoopDay(month, k)) == Day(WeekStart(month)) + 7 * k
  {
    hide IsDate;
    hide Day;
    hide IsoDate;
    if k > 0 {
      DayOfText(WeekStart(month));
      WeekByWeek(month, k - 1);
      Shifted(LoopDay(month, k - 1), 7);
    }
  }

  /** A text with a sign sorts below every date. */
  lemma SignsSortBelowDates(s: string, last: string)
    requires s == LAST_MONTH_BC || s == MONTH_10000
    requires IsDate(last)
    ensures AtMost(s, last)
  {
    assert last[0] == last[0..4][0];
  }

  /** Read as a first, each of the two texts is its own next week. */
  lemma NextWeekPrintsTheSame()
    ensures ShiftText(LAST_MONTH_BC, 7) == LAST_MONTH_BC && ShiftText(MONTH_10000, 7) == MONTH_10000
  {
    hide ParseDay;
    hide IsoDate;
    ReadAsFirst();
    PrintsBeforeYear0(-719_528 - 31 + 7);
    PrintsPast9999(2_932_897 + 7);
  }

  lemma {:induction false} NeverEndsInYear0(month: string, k: nat)
    requires IsFirst(month) && Parse(month).value == JANUARY_0
    ensures LoopDay(month, k) == LAST_MONTH_BC && GoesOn(month, k)
  {
    hide IsDate;
    hide Parse;
    hide IsoDate;
    hide ShiftText;
    if k == 0 {
      FirstWithinYears(JANUARY_0);
      assert DayOf(JANUARY_0) == -719_528 by { RangeOfYears(); }
      PrintsBeforeYear0(-719_528 - 5);
    } else {
      NeverEndsInYear0(month, k - 1);
      NextWeekPrintsTheSame();
    }
    SignsSortBelowDates(LAST_MONTH_BC, MonthEndDate(month));
  }

  lemma {:induction false} NeverEndsPast9999(month: string, k: nat)
    requires IsFirst(month) && Parse(month).value == DECEMBER_9999
    ensures LoopDay(month, k) == MONTH_10000 || (IsDate(LoopDay(month, k)) && Day(LoopDay(month, k)) <= Day(MonthEndDate(month)))
    ensures GoesOn(month, k)
  {
    hide IsDate;
    hide Day;
    hide IsoDate;
    hide ShiftText;
    var last := MonthEndDate(month);
    LastDayOf9999(month);
    if k == 0 {
      WeekStartIsMonday(month);
    } else {
      NeverEndsPast9999(month, k - 1);
      var d := LoopDay(month, k - 1);
      if d == MONTH_10000 {
        NextWeekPrintsTheSame();
      } else {
        NextWeekAtTheEnd(d);
      }
    }
    if LoopDay(month, k) == MONTH_10000 {
      SignsSortBelowDates(MONTH_10000, last);
    } else {
      DatesCompare(LoopDay(month, k), last);
    }
  }

  lemma LastDayOf9999(month: string)
    requires IsFirst(month) && Parse(month).value == DECEMBER_9999
    ensures Day(month) == 2_932_897 - 31 && Day(MonthEndDate(month)) == 2_932_897 - 1
  {
    hide Parse;
    MonthEndFromYear100(month);
    RangeOfYears();
    YearLength(9999);
  }

  lemma NextWeekAtTheEnd(d: string)
    requires IsDate(d)
    ensures var next := ShiftText(d, 7);
            if Day(d) + 7 < 2_932_897 then IsDate(next) && Day(next) == Day(d) + 7 else next == MONTH_10000
  {
    hide IsDate;
    hide Day;
    hide IsoDate;
    DayOfText(d);
    if Day(d) + 7 < 2_932_897 { Shifted(d, 7); } else { PrintsPast9999(Day(d) + 7); }
  }

  // ---------- stepping between months ----------

  function AddMonths(first: string, n: int): string
    requires IsDate(first)
  {
    var c := Parse(first).value;
    IsoDate(DateUtc(c.year, c.month - 1 + n, 1))
  }

  /** Months counted from year 0. */
  function MonthIndex(c: Civil): int { 12 * c.year + c.month - 1 }

  function MonthOf(first: string): int
    requires IsFirst(first)
  {
    MonthIndex(Parse(first).value)
  }

  /** The first of a month counted from year 0. */
  function FirstOf(k: int): Civil { Civil(k / 12, k % 12 + 1, 1) }

  /** The month `Date.UTC` takes a first for, 1900 years late before the year 100. */
  function MeantMonth(first: string): int
    requires IsFirst(first)
  {
    MonthOf(first) + if YearOf(first) < 100 then 22_800 else 0
  }

  /**
   * Adding months gives the first of the month that many months on from the month that is meant. So it gives the month one
   * expects exactly from the year 100 on, as long as that stays in the four-digit years.
   */
  lemma AddedMonths(first: string, n: int)
    requires IsFirst(first)
    ensures AddMonths(first, n) == IsoDate(DayOf(FirstOf(MeantMonth(first) + n)))
    ensures var k := MeantMonth(first) + n;
            Parse(AddMonths(first, n)) == if 0 <= k < 120_000 then Some(FirstOf(k)) else None
    ensures var k := MonthOf(first) + n;
            Parse(AddMonths(first, n)) == Some(FirstOf(k)) <==> YearOf(first) >= 100 && 0 <= k < 120_000
  {
    hide Parse;
    hide IsoDate;
    hide DateUtc;
    hide DayOf;
    var k := MeantMonth(first) + n;
    var c := Parse(first).value;
    UtcFirst(c, n);
    TextOfFirst(k);
  }

  lemma TextOfFirst(k: int)
    ensures Parse(IsoDate(DayOf(FirstOf(k)))) == if 0 <= k < 120_000 then Some(FirstOf(k)) else None
  {
    hide Parse;
    hide IsoDate;
    hide DayOf;
    var c := FirstOf(k);
    if 0 <= k < 120_000 {
      TextOfCivil(c);
    } else {
      CivilUndoesDay(c);
      RangeIsPlain(DayOf(c));
      OutOfRangeIsNoDate(DayOf(c));
    }
  }

  lemma WholeYears(y: int, x: int)
    ensures (12 * y + x) / 12 == y + x / 12 && (12 * y + x) % 12 == x % 12
  {
  }

  lemma UtcFirst(c: Civil, n: int)
    requires c.year >= 0
    ensures var k := MonthIndex(c) + n + if c.year < 100 then 22_800 else 0;
            DateUtc(c.year, c.month - 1 + n, 1) == DayOf(FirstOf(k))
  {
    hide DayFromYear;
    hide DaysBeforeMonth;
    WholeYears(if c.year < 100 then 1900 + c.year else c.year, c.month - 1 + n);
  }

  /** Going some months on and as many back returns to the same month exactly if both months lie in the year 100 or later. */
  lemma MonthStepsAreUndone(first: string, n: int)
    requires IsFirst(first) && IsFirst(AddMonths(first, n))
    ensures AddMonths(AddMonths(first, n), -n) == first <==> YearOf(first) >= 100 && YearOf(AddMonths(first, n)) >= 100
  {
    hide Parse;
    hide AddMonths;
    hide IsoDate;
    hide DayOf;
    hide YearOf;
    hide MonthOf;
    var there := AddMonths(first, n);
    AddedMonths(first, n);
    AddedMonths(there, -n);
    MonthIsItsFirst(first);
    MonthIsItsFirst(there);
    hide FirstOf;
    FirstsDiffer(MonthOf(there), MeantMonth(first) + n);
    if 0 <= MeantMonth(there) - n < 120_000 {
      SameDateText(AddMonths(there, -n), first);
      FirstsDiffer(MeantMonth(there) - n, MonthOf(first));
    }
  }

  lemma FirstsDiffer(k: int, l: int)
    ensures FirstOf(k) == FirstOf(l) <==> k == l
  {
  }

  lemma SameDateText(s: string, t: string)
    requires IsDate(s) && IsDate(t)
    ensures s == t <==> Parse(s) == Parse(t)
  {
    FormatUndoesParse(s);
    FormatUndoesParse(t);
  }

  lemma MonthIsItsFirst(first: string)
    requires IsFirst(first)
    ensures Parse(first) == Some(FirstOf(MonthOf(first))) && 0 <= MonthOf(first) < 120_000
    ensures YearOf(first) >= 100 <==> MonthOf(first) >= 1200
  {
  }

  /** The next month begins on the day after `monthEnd`, in whichever year both of them are meant. */
  lemma NextMonthAbuts(first: string)
    requires IsFirst(first)
    ensures AddMonths(first, 1) == ShiftDay(MonthEndDate(first), 1)
  {
    hide Parse;
    hide IsoDate;
    var c := Parse(first).value;
    MonthEndFromYear100(first);
    MonthEndDay(first);
    DayAfterDayZero(c.year, c.month);
  }

  lemma MonthEndDay(first: string)
    requires IsFirst(first)
    ensures var c := Parse(first).value; Day(MonthEndDate(first)) == DateUtc(c.year, c.month, 0)
  {
    hide Parse;
    hide IsoDate;
    hide DateUtc;
    var c := Parse(first).value;
    var end := LastDayOfMonth(c.(year := if c.year <= 99 then 1900 + c.year else c.year));
    UtcDayZero(c);
    TextOfCivil(end);
  }

  lemma DayAfterDayZero(y: int, m: int)
    ensures DateUtc(y, m, 1) == DateUtc(y, m, 0) + 1
  {
  }

  // ---------- records by date ----------

  datatype Record = Record(date: string, status: string)

  function OnDate(records: seq<Record>, date: string): seq<Record> {
    if records == [] then [] else
    OnDate(records[..|records| - 1], date) + if records[|records| - 1].date == date then [records[|records| - 1]] else []
  }

  /** The records of a date are all those with that date, as often as they come, in the order they come. */
  lemma {:induction false} OnDateSelects(records: seq<Record>, date: string, r: Record)
    ensures multiset(OnDate(records, date))[r] == if r.date == date then multiset(records)[r] else 0
    ensures forall more :: OnDate(records + more, date) == OnDate(records, date) + OnDate(more, date)
  {
    if records != [] {
      var n := |records| - 1;
      OnDateSelects(records[..n], date, r);
      assert records == records[..n] + [records[n]];
    }
    forall more
      ensures OnDate(records + more, date) == OnDate(records, date) + OnDate(more, date)
    {
      OnDateConcat(records, more, date);
    }
  }

  lemma {:induction false} OnDateConcat(records: seq<Record>, more: seq<Record>, date: string)
    ensures OnDate(records + more, date) == OnDate(records, date) + OnDate(more, date)
  {
    if more == [] {
      assert records + more == records;
    } else {
      var n := |more| - 1;
      assert (records + more)[..|records| + n] == records + more[..n];
      OnDateConcat(records, more[..n], date);
    }
  }

  /** `byDate` holds, for every date that occurs, its records in the order they came. */
  ghost predicate Grouped(byDate: map<string, seq<Record>>, records: seq<Record>) {
    && (forall d :: OnDate(records, d) == if d in byDate then byDate[d] else [])
    && (forall d :: d in byDate ==> byDate[d] != [])
  }

  lemma PutKeepsGroups(byDate: map<string, seq<Record>>, records: seq<Record>, r: Record)
    requires Grouped(byDate, records)
    ensures Grouped(byDate[r.date := (if r.date in byDate then byDate[r.date] else []) + [r]], records + [r])
  {
    assert (records + [r])[..|records + [r]| - 1] == records;
  }

  /** The nested loops that fill `byDate`: every record goes to its date, in the order of the employees and their days. */
  method GroupByDate(employees: seq<seq<Record>>) returns (byDate: map<string, seq<Record>>)
    ensures Grouped(byDate, Flatten(employees))
  {
    hide Grouped;
    byDate := map[];
    ghost var seen: seq<Record> := [];
    assert Grouped(byDate, seen) by { NothingGrouped(); }
    for e := 0 to |employees|
      invariant seen == Flatten(employees[..e])
      invariant Grouped(byDate, seen)
    {
      ghost var before := seen;
      for k := 0 to |employees[e]|
        invariant seen == before + employees[e][..k]
        invariant Grouped(byDate, seen)
      {
        var r := employees[e][k];
        PutKeepsGroups(byDate, seen, r);
        assert before + employees[e][..k + 1] == seen + [r];
        seen := seen + [r];
        byDate := byDate[r.date := (if r.date in byDate then byDate[r.date] else []) + [r]];
      }
      assert employees[e][..|employees[e]|] == employees[e];
      FlattenAppend(employees[..e], employees[e]);
      assert employees[..e + 1] == employees[..e] + [employees[e]];
    }
    assert employees[..|employees|] == employees;
  }

  lemma NothingGrouped()
    ensures Grouped(map[], [])
  {
  }
}

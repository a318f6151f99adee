/** The instants between which a chosen range of India days lies, as the API is told them (section 5.6 of RFC 3339). */
module DayBounds {
  import opened Text
  import opened Calendar
  import opened DatePresets

  // ---------- timestamps ----------

  predicate TwoDigitsAt(s: string, i: nat) { i + 2 <= |s| && IsDigit(s[i]) && IsDigit(s[i + 1]) }

  /** "Thh:mm:ss.fff" and an offset "+hh:mm" or "-hh:mm", as milliseconds after midnight UTC of the date before it. */
  function ParseClock(s: string): Option<int> {
    if |s| != 19 || s[0] != 'T' || s[3] != ':' || s[6] != ':' || s[9] != '.' || s[16] != ':' || (s[13] != '+' && s[13] != '-') then None
    else if !TwoDigitsAt(s, 1) || !TwoDigitsAt(s, 4) || !TwoDigitsAt(s, 7) || !TwoDigitsAt(s, 10) || !IsDigit(s[12]) then None
    else if !TwoDigitsAt(s, 14) || !TwoDigitsAt(s, 17) then None
    else
      var (h, m, sec) := (Value2(s[1..3]), Value2(s[4..6]), Value2(s[7..9]));
      var ms := Value2(s[10..12]) * 10 + (s[12] as int - '0' as int);
      var (oh, om) := (Value2(s[14..16]), Value2(s[17..19]));
      if h > 23 || m > 59 || sec > 59 || oh > 23 || om > 59 then None
      else
        var offset := (oh * 60 + om) * 60_000;
        Some(((h * 60 + m) * 60 + sec) * 1000 + ms - (if s[13] == '+' then offset else -offset))
  }

  /** The instant a timestamp names, in milliseconds since 1970. */
  function ParseInstant(s: string): Option<int> {
    if |s| < 10 || !IsDate(s[..10]) then None
    else match ParseClock(s[10..]) case Some(t) => Some(Day(s[..10]) * 86_400_000 + t) case None => None
  }

  // ---------- the filter ----------

  datatype Filter = Filter(dateRange: string, dateFrom: Option<string>, dateTo: Option<string>)

  const DAY_BEGINS := "T00:00:00.000+05:30"
  const DAY_ENDS := "T23:59:59.999+05:30"

  /** The date part of `toApiFilters`; an unset date is "". */
  function ToApiFilters(detectedFrom: string, detectedTo: string, range: string): Filter {
    Filter(
      if detectedFrom != "" || detectedTo != "" then "all" else range,
      if detectedFrom != "" then Some(detectedFrom + DAY_BEGINS) else None,
      if detectedTo != "" then Some(detectedTo + DAY_ENDS) else None)
  }

  /** Whether an instant lies inside the bounds of a filter, both inclusive. */
  predicate Admits(f: Filter, t: int) {
    && (f.dateFrom.Some? ==> ParseInstant(f.dateFrom.value).Some? && ParseInstant(f.dateFrom.value).value <= t)
    && (f.dateTo.Some? ==> ParseInstant(f.dateTo.value).Some? && t <= ParseInstant(f.dateTo.value).value)
  }

  lemma DayBeginsAt()
    ensures ParseClock(DAY_BEGINS) == Some(-19_800_000)
  {
  }

  lemma DayEndsAt()
    ensures ParseClock(DAY_ENDS) == Some(86_399_999 - 19_800_000)
  {
  }

  lemma BoundText(date: string, clock: string)
    requires IsDate(date) && ParseClock(clock).Some?
    ensures ParseInstant(date + clock) == Some(Day(date) * 86_400_000 + ParseClock(clock).value)
  {
    hide ParseClock;
    hide IsDate;
    hide Day;
    DayOfText(date);
    var s := date + clock;
    assert s[..10] == date;
    assert s[10..] == clock;
  }

  /** The India day of an instant, compared with a chosen day. */
  lemma TodayOfInstant(t: int)
    requires InRange((t + 19_800_000) / 86_400_000)
    ensures IsDate(IstToday(t)) && Day(IstToday(t)) == (t + 19_800_000) / 86_400_000
  {
    hide IsDate;
    hide Day;
    hide IsoDate;
    TextOfDay((t + 19_800_000) / 86_400_000);
  }

  lemma DayDivision(t: int, d: int)
    ensures d * 86_400_000 - 19_800_000 <= t <==> d <= (t + 19_800_000) / 86_400_000
    ensures t <= d * 86_400_000 + 86_399_999 - 19_800_000 <==> (t + 19_800_000) / 86_400_000 <= d
  {
  }

  /**
   * An instant lies inside the bounds that are sent exactly when its India date, as text, lies in the chosen range of dates;
   * a side left open admits everything.
   */
  lemma BoundsAreIndiaDays(from: string, to: string, range: string, t: int)
    requires (from == "" || IsDate(from)) && (to == "" || IsDate(to))
    requires InRange((t + 19_800_000) / 86_400_000)
    ensures Admits(ToApiFilters(from, to, range), t) <==>
            (from == "" || AtMost(from, IstToday(t))) && (to == "" || AtMost(IstToday(t), to))
  {
    hide ParseInstant;
    hide IsDate;
    hide Day;
    hide IstToday;
    TodayOfInstant(t);
    if from != "" {
      LowerBound(from, t);
    }
    if to != "" {
      UpperBound(to, t);
    }
  }

  /** The bounds as instants: India's midnight is 19,800 s before that of UTC, and the last day is included to its last millisecond. */
  lemma BoundsAreInstants(from: string, to: string, range: string, t: int)
    requires (from == "" || IsDate(from)) && (to == "" || IsDate(to))
    ensures Admits(ToApiFilters(from, to, range), t) <==>
            && (from != "" ==> Day(from) * 86_400_000 - 19_800_000 <= t)
            && (to != "" ==> t < (Day(to) + 1) * 86_400_000 - 19_800_000)
  {
    hide ParseInstant;
    hide IsDate;
    hide Day;
    DayBeginsAt();
    DayEndsAt();
    hide ParseClock;
    if from != "" { BoundText(from, DAY_BEGINS); }
    if to != "" { BoundText(to, DAY_ENDS); }
  }

  lemma LowerBound(from: string, t: int)
    requires IsDate(from) && InRange((t + 19_800_000) / 86_400_000)
    ensures var r := ParseInstant(from + DAY_BEGINS); r.Some? && (r.value <= t <==> AtMost(from, IstToday(t)))
  {
    hide ParseInstant;
    hide ParseClock;
    hide IsDate;
    hide Day;
    hide IstToday;
    TodayOfInstant(t);
    DayBeginsAt();
    BoundText(from, DAY_BEGINS);
    DayDivision(t, Day(from));
    DatesCompare(from, IstToday(t));
  }

  lemma UpperBound(to: string, t: int)
    requires IsDate(to) && InRange((t + 19_800_000) / 86_400_000)
    ensures var r := ParseInstant(to + DAY_ENDS); r.Some? && (t <= r.value <==> AtMost(IstToday(t), to))
  {
    hide ParseInstant;
    hide ParseClock;
    hide IsDate;
    hide Day;
    hide IstToday;
    TodayOfInstant(t);
    DayEndsAt();
    BoundText(to, DAY_ENDS);
    DayDivision(t, Day(to));
    DatesCompare(IstToday(t), to);
  }

  /** Whether an instant is listed: it passes the day tab and the bounds. */
  predicate Listed(tab: (string, int) -> bool, f: Filter, t: int) { tab(f.dateRange, t) && Admits(f, t) }

  /** A chosen range replaces the day tab, whichever it is; without one the tab alone decides. */
  lemma RangeReplacesTheTab(tab: (string, int) -> bool, from: string, to: string, range: string, t: int)
    requires (from == "" || IsDate(from)) && (to == "" || IsDate(to))
    requires InRange((t + 19_800_000) / 86_400_000) && tab("all", t)
    ensures Listed(tab, ToApiFilters(from, to, range), t) <==>
            if from == "" && to == "" then tab(range, t)
            else (from == "" || AtMost(from, IstToday(t))) && (to == "" || AtMost(IstToday(t), to))
  {
    hide IsDate;
    hide AtMost;
    hide Admits;
    hide IstToday;
    BoundsAreIndiaDays(from, to, range, t);
  }
}

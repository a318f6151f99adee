/**
 * The proleptic Gregorian calendar of JavaScript's Date: days are counted from 1970-01-01, and a date is written YYYY-MM-DD
 * (section 5.6 of RFC 3339). Year and day formulas are those of the ECMA-262 time values.
 */
module Calendar {
  import opened Text

  datatype Civil = Civil(year: int, month: int, day: int)

  // ---------- years ----------

  predicate IsLeap(y: int) { y % 4 == 0 && (y % 100 != 0 || y % 400 == 0) }

  function DaysInYear(y: int): int { if IsLeap(y) then 366 else 365 }

  /** The day number of January 1st. (`/` rounds down, as ECMA-262's floor does.) */
  function DayFromYear(y: int): int {
    365 * (y - 1970) + (y - 1969) / 4 - (y - 1901) / 100 + (y - 1601) / 400
  }

  lemma FloorStep4(x: int)
    ensures (x + 1) / 4 == x / 4 + if (x + 1) % 4 == 0 then 1 else 0
  {
  }

  lemma FloorStep100(x: int)
    ensures (x + 1) / 100 == x / 100 + if (x + 1) % 100 == 0 then 1 else 0
  {
  }

  lemma FloorStep400(x: int)
    ensures (x + 1) / 400 == x / 400 + if (x + 1) % 400 == 0 then 1 else 0
  {
  }

  lemma Residue4(y: int)
    ensures (y - 1968) % 4 == 0 <==> y % 4 == 0
  {
  }

  lemma Residue100(y: int)
    ensures (y - 1900) % 100 == 0 <==> y % 100 == 0
    ensures y % 100 == 0 ==> y % 4 == 0
  {
    assert y == 4 * (25 * (y / 100)) + y % 100;
  }

  lemma Residue400(y: int)
    ensures (y - 1600) % 400 == 0 <==> y % 400 == 0
    ensures y % 400 == 0 ==> y % 100 == 0
  {
    assert y == 100 * (4 * (y / 400)) + y % 400;
  }

  lemma YearLength(y: int)
    ensures DayFromYear(y + 1) == DayFromYear(y) + DaysInYear(y)
  {
    FloorStep4(y - 1969);
    FloorStep100(y - 1901);
    FloorStep400(y - 1601);
    Residue4(y);
    Residue100(y);
    Residue400(y);
  }

  lemma {:induction false} YearsAscend(y: int, z: int)
    requires y <= z
    ensures DayFromYear(z) >= DayFromYear(y) + 365 * (z - y)
    decreases z - y
  {
    if y < z {
      YearsAscend(y, z - 1);
      YearLength(z - 1);
    }
  }

  /** The year a day lies in, searched for from `y` upwards or downwards. */
  function YearUp(n: int, y: int): (r: int)
    requires DayFromYear(y) <= n
    ensures DayFromYear(r) <= n < DayFromYear(r + 1)
    decreases n - DayFromYear(y)
  {
    YearLength(y);
    if n < DayFromYear(y + 1) then y else YearUp(n, y + 1)
  }

  function YearDown(n: int, y: int): (r: int)
    requires n < DayFromYear(y + 1)
    ensures DayFromYear(r) <= n < DayFromYear(r + 1)
    decreases DayFromYear(y + 1) - n
  {
    YearLength(y);
    if DayFromYear(y) <= n then y else YearDown(n, y - 1)
  }

  function YearOfDay(n: int): (r: int)
    ensures DayFromYear(r) <= n < DayFromYear(r + 1)
  {
    if DayFromYear(1970) <= n then YearUp(n, 1970) else YearDown(n, 1969)
  }

  lemma YearIsUnique(n: int, y: int)
    requires DayFromYear(y) <= n < DayFromYear(y + 1)
    ensures YearOfDay(n) == y
  {
    hide DayFromYear;
    hide YearOfDay;
    var r := YearOfDay(n);
    if r < y { YearsAscend(r + 1, y); }
    if y < r { YearsAscend(y + 1, r); }
  }

  // ---------- months ----------

  function DaysInMonth(y: int, m: int): int {
    if m == 2 then (if IsLeap(y) then 29 else 28)
    else if m == 4 || m == 6 || m == 9 || m == 11 then 30
    else 31
  }

  /** Days of the year before a month; the thirteenth month begins the next year. */
  function DaysBeforeMonth(y: int, m: int): int
    requires 1 <= m <= 13
  {
    [0, 31, 59, 90, 120, 151, 181, 212, 243, 273, 304, 334, 365][m - 1] + (if m > 2 && IsLeap(y) then 1 else 0)
  }

  lemma MonthLength(y: int, m: int)
    requires 1 <= m <= 12
    ensures DaysBeforeMonth(y, m + 1) == DaysBeforeMonth(y, m) + DaysInMonth(y, m)
  {
  }

  lemma {:induction false} MonthsAscend(y: int, m: int, k: int)
    requires 1 <= m <= k <= 13
    ensures DaysBeforeMonth(y, k) >= DaysBeforeMonth(y, m) + 28 * (k - m)
    decreases k - m
  {
    if m < k {
      MonthsAscend(y, m, k - 1);
      MonthLength(y, k - 1);
    }
  }

  function MonthUp(y: int, yearDay: int, m: int): (r: int)
    requires 1 <= m <= 12 && DaysBeforeMonth(y, m) <= yearDay < DaysInYear(y)
    ensures 1 <= r <= 12 && DaysBeforeMonth(y, r) <= yearDay < DaysBeforeMonth(y, r + 1)
    decreases 12 - m
  {
    if yearDay < DaysBeforeMonth(y, m + 1) then m else MonthUp(y, yearDay, m + 1)
  }

  // ---------- dates ----------

  predicate Valid(c: Civil) { 1 <= c.month <= 12 && 1 <= c.day <= DaysInMonth(c.year, c.month) }

  function DayOf(c: Civil): int
    requires 1 <= c.month <= 12
  {
    DayFromYear(c.year) + DaysBeforeMonth(c.year, c.month) + c.day - 1
  }

  function CivilOf(n: int): (c: Civil)
    ensures Valid(c)
    ensures DayOf(c) == n
  {
    var y := YearOfDay(n);
    YearLength(y);
    var yearDay := n - DayFromYear(y);
    var m := MonthUp(y, yearDay, 1);
    MonthLength(y, m);
    Civil(y, m, yearDay - DaysBeforeMonth(y, m) + 1)
  }

  lemma DayWithinYear(c: Civil)
    requires Valid(c)
    ensures DayFromYear(c.year) <= DayOf(c) < DayFromYear(c.year + 1)
    ensures DaysBeforeMonth(c.year, c.month) <= DayOf(c) - DayFromYear(c.year) < DaysBeforeMonth(c.year, c.month + 1)
  {
    YearLength(c.year);
    MonthLength(c.year, c.month);
    MonthsAscend(c.year, 1, c.month);
    MonthsAscend(c.year, c.month + 1, 13);
  }

  /** Day numbers and valid dates correspond one to one (with CivilOf's contract). */
  lemma CivilUndoesDay(c: Civil)
    requires Valid(c)
    ensures CivilOf(DayOf(c)) == c
  {
    var d := CivilOf(DayOf(c));
    hide CivilOf;
    DayDeterminesDate(c, d);
  }

  lemma DayDeterminesDate(c: Civil, d: Civil)
    requires Valid(c) && Valid(d) && DayOf(c) == DayOf(d)
    ensures c == d
  {
    hide DayFromYear;
    hide DaysBeforeMonth;
    hide IsLeap;
    hide YearOfDay;
    DayWithinYear(c);
    DayWithinYear(d);
    YearIsUnique(DayOf(c), c.year);
    YearIsUnique(DayOf(c), d.year);
    if d.month < c.month { MonthsAscend(c.year, d.month + 1, c.month); }
    if c.month < d.month { MonthsAscend(c.year, c.month + 1, d.month); }
  }

  predicate Before(a: Civil, b: Civil) {
    a.year < b.year || (a.year == b.year && (a.month < b.month || (a.month == b.month && a.day < b.day)))
  }

  /** Later dates have larger day numbers. */
  lemma DaysAscend(a: Civil, b: Civil)
    requires Valid(a) && Valid(b)
    ensures Before(a, b) <==> DayOf(a) < DayOf(b)
  {
    EarlierDay(a, b);
    EarlierDay(b, a);
  }

  lemma EarlierDay(a: Civil, b: Civil)
    requires Valid(a) && Valid(b)
    ensures Before(a, b) ==> DayOf(a) < DayOf(b)
  {
    hide DayFromYear;
    hide DaysBeforeMonth;
    DayWithinYear(a);
    DayWithinYear(b);
    if a.year < b.year { YearsAscend(a.year + 1, b.year); }
    if a.year == b.year && a.month < b.month { MonthsAscend(a.year, a.month + 1, b.month); }
  }

  /** 0 = Sunday, as `getUTCDay`. */
  function WeekDay(n: int): int { (n + 4) % 7 }

  /** The first of January 2024 was a Monday, and so is every day a number of weeks before or after it. */
  lemma MondaysAre(n: int)
    ensures WeekDay(n) == 1 <==> n % 7 == DayOf(Civil(2024, 1, 1)) % 7
  {
    KnownDays();
  }

  /** Some days whose numbers are known, on both sides of leap days. */
  lemma KnownDays()
    ensures DayOf(Civil(1970, 1, 1)) == 0 && DayOf(Civil(2024, 1, 1)) == 19_723
    ensures DayOf(Civil(2000, 3, 1)) - DayOf(Civil(2000, 2, 28)) == 2 && DayOf(Civil(1900, 3, 1)) - DayOf(Civil(1900, 2, 28)) == 1
    ensures DayOf(Civil(2024, 3, 1)) - DayOf(Civil(2024, 2, 28)) == 2 && DayOf(Civil(2023, 3, 1)) - DayOf(Civil(2023, 2, 28)) == 1
  {
  }

  /** The day of the week by the formula of Appendix B of RFC 3339, 0 for Sunday. */
  function DayOfWeek(c: Civil): int { WeekSum(c) % 7 }

  function WeekSum(c: Civil): int {
    var late := c.month > 2;
    var month := if late then c.month - 2 else c.month + 10;
    var year := if late then c.year else c.year - 1;
    var cent, y := year / 100, year % 100;
    (26 * month - 2) / 10 + c.day + y + y / 4 + cent / 4 + 5 * cent
  }

  /** Counting days and the formula of the RFC give the same day of the week. */
  lemma WeekDayIsDayOfWeek(c: Civil)
    requires Valid(c)
    ensures WeekDay(DayOf(c)) == DayOfWeek(c)
  {
    var k := DaysAreWeekSum(c);
    hide WeekSum;
    hide DayOf;
    SevenTimes(WeekSum(c), k);
  }

  lemma DaysAreWeekSum(c: Civil) returns (k: int)
    requires Valid(c)
    ensures DayOf(c) + 4 == WeekSum(c) + 7 * k
  {
    var month := if c.month > 2 then c.month - 2 else c.month + 10;
    var year := if c.month > 2 then c.year else c.year - 1;
    var cent, y := year / 100, year % 100;
    k := 5217 * cent + 52 * y + 4 * month - 102_785;
    MarchFirst(year);
    FromMarchFirst(c);
    var march, shift := DayFromYear(year + 1) - 306, (26 * month - 2) / 10;
    hide DayOf;
    hide DayFromYear;
    assert DayOf(c) == march + shift + 28 * month - 30 + c.day - 1;
    assert WeekSum(c) == shift + c.day + y + y / 4 + cent / 4 + 5 * cent;
    hide WeekSum;
    AddUp(DayOf(c), WeekSum(c), march, shift, month, c.day, cent, y, y / 4, cent / 4);
  }

  lemma AddUp(n: int, sum: int, march: int, shift: int, month: int, day: int, cent: int, y: int, a: int, b: int)
    requires march == 36_524 * cent + 365 * y + a + b - 719_468
    requires n == march + shift + 28 * month - 30 + day - 1 && sum == shift + day + y + a + b + 5 * cent
    ensures n + 4 == sum + 7 * (5217 * cent + 52 * y + 4 * month - 102_785)
  {
  }

  lemma SevenTimes(n: int, k: int)
    ensures (n + 7 * k) % 7 == n % 7
  {
  }

  /** The first of March begins the year that ends with its leap day. */
  lemma MarchFirst(year: int)
    ensures var cent, y := year / 100, year % 100;
            DayFromYear(year + 1) - 306 == 36_524 * cent + 365 * y + y / 4 + cent / 4 - 719_468
  {
    var cent, y := year / 100, year % 100;
    assert year == 100 * cent + y;
    Quarters(cent, y);
    assert (year - 1968) / 4 == year / 4 - 492;
    assert (year - 1900) / 100 == cent - 19;
    assert (year - 1600) / 400 == year / 400 - 4;
  }

  lemma Quarters(cent: int, y: int)
    requires 0 <= y < 100
    ensures (100 * cent + y) / 4 == 25 * cent + y / 4 && (100 * cent + y) / 400 == cent / 4
  {
    assert 100 * cent + y == 400 * (cent / 4) + (100 * (cent % 4) + y);
  }

  lemma FromMarchFirst(c: Civil)
    requires Valid(c)
    ensures var month := if c.month > 2 then c.month - 2 else c.month + 10;
            var year := if c.month > 2 then c.year else c.year - 1;
            DayOf(c) == DayFromYear(year + 1) - 306 + (26 * month - 2) / 10 + 28 * month - 30 + c.day - 1
  {
    hide DayFromYear;
    YearLength(c.year);
  }

  // ---------- dates as text ----------

  function Pad2(n: int): (s: string)
    requires 0 <= n <= 99
    ensures |s| == 2
  {
    [Digit(n / 10), Digit(n % 10)]
  }

  function Pad4(n: int): (s: string)
    requires 0 <= n <= 9999
    ensures |s| == 4
  {
    Pad2(n / 100) + Pad2(n % 100)
  }

  /** A valid date with a four-digit year. */
  predicate Plain(c: Civil) { Valid(c) && 0 <= c.year <= 9999 }

  function Format(c: Civil): (s: string)
    requires Plain(c)
    ensures |s| == 10
  {
    Pad4(c.year) + "-" + Pad2(c.month) + "-" + Pad2(c.day)
  }

  /** The date a YYYY-MM-DD text stands for, if it does. */
  function Parse(s: string): (r: Option<Civil>)
    ensures r.Some? ==> Plain(r.value)
  {
    if |s| != 10 || !AllDigits(s[0..4]) || s[4] != '-' || !AllDigits(s[5..7]) || s[7] != '-' || !AllDigits(s[8..10]) then None
    else
      var c := Civil(Value2(s[0..2]) * 100 + Value2(s[2..4]), Value2(s[5..7]), Value2(s[8..10]));
      if Plain(c) then Some(c) else None
  }

  predicate IsDate(s: string) { Parse(s).Some? }

  lemma Pad2Value(n: int)
    requires 0 <= n <= 99
    ensures AllDigits(Pad2(n)) && Value2(Pad2(n)) == n
  {
  }

  lemma FormatParts(c: Civil)
    requires Plain(c)
    ensures var s := Format(c);
            && s[0..2] == Pad2(c.year / 100) && s[2..4] == Pad2(c.year % 100) && s[0..4] == Pad4(c.year)
            && s[4] == '-' && s[5..7] == Pad2(c.month) && s[7] == '-' && s[8..10] == Pad2(c.day)
  {
  }

  /** A date as text. */
  lemma PrintedDate()
    ensures Format(Civil(2024, 1, 8)) == "2024-01-08"
  {
  }

  /** A text is read as a date exactly if the date prints as that text. */
  lemma ParseMeans(s: string, c: Civil)
    ensures Parse(s) == Some(c) <==> Plain(c) && s == Format(c)
  {
    if Parse(s) == Some(c) { FormatUndoesParse(s); }
    if Plain(c) { ParseUndoesFormat(c); }
  }

  lemma ParseUndoesFormat(c: Civil)
    requires Plain(c)
    ensures Parse(Format(c)) == Some(c)
  {
    FormatParts(c);
    Pad2Value(c.year / 100);
    Pad2Value(c.year % 100);
    Pad2Value(c.month);
    Pad2Value(c.day);
  }

  lemma TwoDigits(s: string)
    requires |s| == 2 && AllDigits(s)
    ensures 0 <= Value2(s) <= 99 && Pad2(Value2(s)) == s
  {
    var a, b := s[0] as int - '0' as int, s[1] as int - '0' as int;
    assert Digit(a) == s[0] && Digit(b) == s[1];
    assert (a * 10 + b) / 10 == a && (a * 10 + b) % 10 == b;
  }

  lemma FormatUndoesParse(s: string)
    requires IsDate(s)
    ensures Format(Parse(s).value) == s
  {
    var c := Parse(s).value;
    var hi, lo := Value2(s[0..2]), Value2(s[2..4]);
    assert forall i :: 0 <= i < 4 ==> s[i] == s[0..4][i];
    TwoDigits(s[0..2]);
    TwoDigits(s[2..4]);
    TwoDigits(s[5..7]);
    TwoDigits(s[8..10]);
    assert c.year / 100 == hi && c.year % 100 == lo;
    assert s == s[0..2] + s[2..4] + [s[4]] + s[5..7] + [s[7]] + s[8..10];
  }

  lemma Pad2Less(a: int, b: int)
    requires 0 <= a <= 99 && 0 <= b <= 99
    ensures Less(Pad2(a), Pad2(b)) <==> a < b
    ensures Pad2(a) == Pad2(b) <==> a == b
  {
    Pad2Value(a);
    Pad2Value(b);
    LessConcat([Digit(a / 10)], [Digit(b / 10)], [Digit(a % 10)], [Digit(b % 10)]);
    LessChar(Digit(a / 10), Digit(b / 10));
    LessChar(Digit(a % 10), Digit(b % 10));
    assert Pad2(a) == [Digit(a / 10)] + [Digit(a % 10)] && Pad2(b) == [Digit(b / 10)] + [Digit(b % 10)];
  }

  lemma LessChar(a: char, b: char)
    ensures Less([a], [b]) <==> a < b
  {
    assert [a][1..] == "" && [b][1..] == "";
  }

  lemma Pad4Less(a: int, b: int)
    requires 0 <= a <= 9999 && 0 <= b <= 9999
    ensures Less(Pad4(a), Pad4(b)) <==> a < b
    ensures Pad4(a) == Pad4(b) <==> a == b
  {
    Pad2Less(a / 100, b / 100);
    Pad2Less(a % 100, b % 100);
    LessConcat(Pad2(a / 100), Pad2(b / 100), Pad2(a % 100), Pad2(b % 100));
    assert Pad4(a)[..2] == Pad2(a / 100) && Pad4(a)[2..] == Pad2(a % 100);
    assert Pad4(b)[..2] == Pad2(b / 100) && Pad4(b)[2..] == Pad2(b % 100);
  }

  lemma DashLess(s: string, t: string)
    ensures Less("-" + s, "-" + t) <==> Less(s, t)
    ensures "-" + s == "-" + t <==> s == t
  {
    LessConcat("-", "-", s, t);
    LessIrreflexive("-");
    assert ("-" + s)[1..] == s && ("-" + t)[1..] == t;
  }

  /** Comparing two dates as strings compares their day numbers. */
  lemma StringOrderIsDayOrder(a: Civil, b: Civil)
    requires Plain(a) && Plain(b)
    ensures Less(Format(a), Format(b)) <==> DayOf(a) < DayOf(b)
    ensures AtMost(Format(a), Format(b)) <==> DayOf(a) <= DayOf(b)
    ensures Format(a) == Format(b) <==> a == b
  {
    FormatLess(a, b);
    FormatLess(b, a);
    DaysAscend(a, b);
    DaysAscend(b, a);
    ParseUndoesFormat(a);
    ParseUndoesFormat(b);
  }

  lemma FormatLess(a: Civil, b: Civil)
    requires Plain(a) && Plain(b)
    ensures Less(Format(a), Format(b)) <==> Before(a, b)
  {
    var da, db := Pad2(a.day), Pad2(b.day);
    var ma, mb := Pad2(a.month), Pad2(b.month);
    Pad4Less(a.year, b.year);
    Pad2Less(a.month, b.month);
    Pad2Less(a.day, b.day);
    LessConcat(Pad4(a.year), Pad4(b.year), "-" + (ma + ("-" + da)), "-" + (mb + ("-" + db)));
    DashLess(ma + ("-" + da), mb + ("-" + db));
    LessConcat(ma, mb, "-" + da, "-" + db);
    DashLess(da, db);
    assert Format(a) == Pad4(a.year) + ("-" + (ma + ("-" + da)));
    assert Format(b) == Pad4(b.year) + ("-" + (mb + ("-" + db)));
  }
}

/** A fixed, Sunday-first proleptic Gregorian calendar over day numbers.

    Day number 0 is 1970-01-01 (a Thursday); a timestamp is a whole number of
    seconds since that midnight. Every date computation of the app (start of
    day, weekday, week start, first of month, days in a month, month grid) is
    defined here once. */
module Calendar {

  import opened Opt

  const SecondsPerDay := 86400

  /** The day a timestamp falls on: its start of day, as a day number. */
  function DayOf(t: int): (d: int)
    ensures d * SecondsPerDay <= t < (d + 1) * SecondsPerDay
  {
    t / SecondsPerDay
  }

  /** Whether two timestamps are in the same calendar day. */
  predicate SameDay(t: int, u: int) {
    DayOf(t) == DayOf(u)
  }

  // ---------------------------------------------------------------------------
  // Years

  predicate IsLeapYear(y: int) {
    y % 4 == 0 && (y % 100 != 0 || y % 400 == 0)
  }

  function DaysInYear(y: int): int {
    if IsLeapYear(y) then 366 else 365
  }

  /** Number of leap years in the years before `y`, counted from year 0. */
  function LeapsBefore(y: int): int {
    (y + 3) / 4 - (y + 99) / 100 + (y + 399) / 400
  }

  lemma LeapsStep(y: int)
    ensures LeapsBefore(y + 1) == LeapsBefore(y) + (if IsLeapYear(y) then 1 else 0)
  {
    assert (y + 4) / 4 - (y + 3) / 4 == (if y % 4 == 0 then 1 else 0);
    assert (y + 100) / 100 - (y + 99) / 100 == (if y % 100 == 0 then 1 else 0);
    assert (y + 400) / 400 - (y + 399) / 400 == (if y % 400 == 0 then 1 else 0);
  }

  /** Day number of January 1st of year `y`. */
  function YearStart(y: int): int {
    365 * (y - 1970) + LeapsBefore(y) - LeapsBefore(1970)
  }

  lemma YearStartStep(y: int)
    ensures YearStart(y + 1) == YearStart(y) + DaysInYear(y)
  {
    LeapsStep(y);
  }

  lemma {:induction false} YearStartMonotone(a: int, b: int)
    requires a < b
    ensures YearStart(a + 1) <= YearStart(b)
    decreases b - a
  {
    if a + 1 < b {
      YearStartMonotone(a + 1, b);
      YearStartStep(a + 1);
    }
  }

  /** The only year whose days contain `d` is `y`. */
  lemma YearUnique(d: int, y: int, z: int)
    requires YearStart(y) <= d < YearStart(y + 1)
    requires YearStart(z) <= d < YearStart(z + 1)
    ensures y == z
  {
    if y < z {
      YearStartMonotone(y, z);
    } else if z < y {
      YearStartMonotone(z, y);
    }
  }

  function YearUp(d: int, y: int): (r: int)
    requires YearStart(y) <= d
    ensures YearStart(r) <= d < YearStart(r + 1)
    decreases d - YearStart(y)
  {
    YearStartStep(y);
    if d < YearStart(y + 1) then y else YearUp(d, y + 1)
  }

  function YearDown(d: int, y: int): (r: int)
    requires d < YearStart(y + 1)
    ensures YearStart(r) <= d < YearStart(r + 1)
    decreases YearStart(y) - d
  {
    YearStartStep(y - 1);
    if YearStart(y) <= d then y else YearDown(d, y - 1)
  }

  /** The year day `d` belongs to. */
  function YearOf(d: int): (y: int)
    ensures YearStart(y) <= d < YearStart(y + 1)
  {
    if 0 <= d then YearUp(d, 1970) else YearDown(d, 1969)
  }

  // ---------------------------------------------------------------------------
  // Months

  predicate IsMonth(m: int) {
    1 <= m <= 12
  }

  function DaysInMonth(y: int, m: int): (n: int)
    requires IsMonth(m)
    ensures 28 <= n <= 31
  {
    if m == 2 then (if IsLeapYear(y) then 29 else 28)
    else if m == 4 || m == 6 || m == 9 || m == 11 then 30
    else 31
  }

  const CumulativeDays: seq<int> := [0, 31, 59, 90, 120, 151, 181, 212, 243, 273, 304, 334, 365]

  /** Days of year `y` before the first of month `m` (`m == 13` gives the whole year). */
  function DaysBeforeMonth(y: int, m: int): int
    requires 1 <= m <= 13
  {
    CumulativeDays[m - 1] + (if m > 2 && IsLeapYear(y) then 1 else 0)
  }

  lemma DaysBeforeMonthStep(y: int, m: int)
    requires IsMonth(m)
    ensures DaysBeforeMonth(y, m + 1) == DaysBeforeMonth(y, m) + DaysInMonth(y, m)
  {
  }

  lemma {:induction false} DaysBeforeMonthMonotone(y: int, a: int, b: int)
    requires 1 <= a < b <= 13
    ensures DaysBeforeMonth(y, a + 1) <= DaysBeforeMonth(y, b)
    decreases b - a
  {
    if a + 1 < b {
      DaysBeforeMonthMonotone(y, a + 1, b);
      DaysBeforeMonthStep(y, a + 1);
    }
  }

  function MonthFrom(y: int, doy: int, m: int): (r: int)
    requires IsMonth(m)
    requires DaysBeforeMonth(y, m) <= doy < DaysInYear(y)
    ensures IsMonth(r)
    ensures DaysBeforeMonth(y, r) <= doy < DaysBeforeMonth(y, r + 1)
    decreases 12 - m
  {
    DaysBeforeMonthStep(y, m);
    if m == 12 || doy < DaysBeforeMonth(y, m + 1) then m else MonthFrom(y, doy, m + 1)
  }

  // ---------------------------------------------------------------------------
  // Civil dates

  datatype Date = Date(year: int, month: int, day: int)

  predicate ValidDate(c: Date) {
    IsMonth(c.month) && 1 <= c.day <= DaysInMonth(c.year, c.month)
  }

  lemma DayOfYearBound(c: Date)
    requires ValidDate(c)
    ensures 0 <= DaysBeforeMonth(c.year, c.month) + c.day - 1 < DaysInYear(c.year)
  {
    DaysBeforeMonthStep(c.year, c.month);
    if c.month < 12 {
      DaysBeforeMonthMonotone(c.year, c.month, 13);
    }
  }

  /** Day number of a civil date. */
  function FromCivil(c: Date): (d: int)
    requires ValidDate(c)
    ensures YearStart(c.year) <= d < YearStart(c.year + 1)
  {
    DayOfYearBound(c);
    YearStartStep(c.year);
    YearStart(c.year) + DaysBeforeMonth(c.year, c.month) + c.day - 1
  }

  /** Civil date of a day number; `FromCivil` undoes it. */
  function ToCivil(d: int): (c: Date)
    ensures ValidDate(c)
    ensures FromCivil(c) == d
  {
    var y := YearOf(d);
    YearStartStep(y);
    var m := MonthFrom(y, d - YearStart(y), 1);
    DaysBeforeMonthStep(y, m);
    Date(y, m, d - YearStart(y) - DaysBeforeMonth(y, m) + 1)
  }

  /** `ToCivil` undoes `FromCivil`: day numbers and valid civil dates are in one-to-one correspondence. */
  lemma ToCivilFromCivil(c: Date)
    requires ValidDate(c)
    ensures ToCivil(FromCivil(c)) == c
  {
    var d := FromCivil(c);
    var e := ToCivil(d);
    YearUnique(d, c.year, e.year);
    var doy := d - YearStart(c.year);
    DaysBeforeMonthStep(c.year, c.month);
    DaysBeforeMonthStep(c.year, e.month);
    if c.month < e.month {
      DaysBeforeMonthMonotone(c.year, c.month, e.month);
    } else if e.month < c.month {
      DaysBeforeMonthMonotone(c.year, e.month, c.month);
    }
  }

  // ---------------------------------------------------------------------------
  // Weeks

  /** Weekday of a day, numbered as the app's calendar numbers it: 1 = Sunday ... 7 = Saturday. */
  function Weekday(d: int): (w: int)
    ensures 1 <= w <= 7
  {
    (d + 4) % 7 + 1
  }

  /** Day 0, 1970-01-01, is a Thursday, and each next day advances the weekday by one, from Saturday (7)
      back to Sunday (1); so the weekday repeats every seven days. */
  lemma WeekdaySteps(d: int)
    ensures Weekday(0) == 5
    ensures Weekday(d + 1) == if Weekday(d) == 7 then 1 else Weekday(d) + 1
    ensures Weekday(d + 7) == Weekday(d)
  {
  }

  /** The Sunday that starts the week containing `d`. */
  function WeekStart(d: int): (s: int)
    ensures Weekday(s) == 1
    ensures s <= d < s + 7
  {
    d - (Weekday(d) - 1)
  }

  /** Any Sunday whose week contains `d` is `WeekStart(d)`: the week of a day is unique. */
  lemma WeekStartUnique(d: int, s: int)
    requires Weekday(s) == 1
    requires s <= d < s + 7
    ensures s == WeekStart(d)
  {
    var t := WeekStart(d);
    var a, b := (s + 4) / 7, (t + 4) / 7;
    assert s + 4 == 7 * a && t + 4 == 7 * b;
    assert -7 < 7 * (a - b) < 7;
    assert a == b;
  }

  // ---------------------------------------------------------------------------
  // Month starts and grids

  /** First day of the month containing `d`. */
  function FirstOfMonth(d: int): (f: int)
    ensures ToCivil(f) == Date(ToCivil(d).year, ToCivil(d).month, 1)
    ensures f <= d < f + DaysInMonth(ToCivil(d).year, ToCivil(d).month)
  {
    var c := ToCivil(d);
    ToCivilFromCivil(Date(c.year, c.month, 1));
    FromCivil(Date(c.year, c.month, 1))
  }

  /** Months counted as `year * 12 + month - 1`, so consecutive months differ by one. */
  function MonthIndex(d: int): int {
    var c := ToCivil(d);
    c.year * 12 + c.month - 1
  }

  /** First day of the month with index `mi`. */
  function MonthStart(mi: int): int {
    FromCivil(Date(mi / 12, mi % 12 + 1, 1))
  }

  /** `MonthStart` undoes `MonthIndex`: the first day of month `mi` lies in month `mi`, on day 1. */
  lemma MonthStartIndex(mi: int)
    ensures MonthIndex(MonthStart(mi)) == mi
    ensures ToCivil(MonthStart(mi)).day == 1
  {
    ToCivilFromCivil(Date(mi / 12, mi % 12 + 1, 1));
  }

  /** The month index of a day leads back to the first of that day's month. */
  lemma MonthStartOfIndex(d: int)
    ensures MonthStart(MonthIndex(d)) == FirstOfMonth(d)
  {
    var c := ToCivil(d);
    var mi := MonthIndex(d);
    assert mi / 12 == c.year && mi % 12 + 1 == c.month;
  }

  /** Consecutive month indices are consecutive calendar months: the next month starts the day after
      month `mi` (month `mi % 12 + 1` of year `mi / 12`) ends. */
  lemma NextMonthStart(mi: int)
    ensures MonthStart(mi + 1) == MonthStart(mi) + DaysInMonth(mi / 12, mi % 12 + 1)
  {
    var y, m := mi / 12, mi % 12 + 1;
    FirstOfNextMonth(y, m);
    if m == 12 {
      assert (mi + 1) / 12 == y + 1 && (mi + 1) % 12 == 0;
    } else {
      assert (mi + 1) / 12 == y && (mi + 1) % 12 == m;
    }
  }

  lemma FirstOfNextMonth(y: int, m: int)
    requires IsMonth(m)
    ensures FromCivil(if m == 12 then Date(y + 1, 1, 1) else Date(y, m + 1, 1))
      == FromCivil(Date(y, m, 1)) + DaysInMonth(y, m)
  {
    DaysBeforeMonthStep(y, m);
    YearStartStep(y);
  }

  lemma CivilOfDay(c: Date, e: int)
    requires ValidDate(c)
    requires e == FromCivil(c)
    ensures ToCivil(e) == c
  {
    ToCivilFromCivil(c);
  }

  /** Day `j` (0-based) after the first of a month is day `j + 1` of that month. */
  lemma DayInMonth(y: int, m: int, f: int, k: int)
    requires IsMonth(m)
    requires f == FromCivil(Date(y, m, 1))
    requires f <= k < f + DaysInMonth(y, m)
    ensures ToCivil(k) == Date(y, m, k - f + 1)
  {
    CivilOfDay(Date(y, m, k - f + 1), k);
  }

  /** Leading blank cells before the first of a month in a Sunday-first grid: 0 for Sunday ... 6 for Saturday. */
  function LeadingBlanks(first: int): (b: int)
    ensures 0 <= b <= 6
    ensures b == Weekday(first) - 1
  {
    (Weekday(first) + 6) % 7
  }

  /** Number of days in the month containing `d`. */
  function MonthLength(d: int): (n: int)
    ensures 28 <= n <= 31
  {
    DaysInMonth(ToCivil(d).year, ToCivil(d).month)
  }

  /** `blanks` empty cells followed by the `n` days from `first` on. */
  function Grid(blanks: nat, first: int, n: nat): (g: seq<Option<int>>)
    ensures |g| == blanks + n
    ensures forall i :: 0 <= i < blanks ==> g[i].None?
    ensures forall i :: blanks <= i < |g| ==> g[i] == Some(first + i - blanks)
  {
    seq(blanks, _ => None) + seq(n, j => Some(first + j))
  }

  /** The Sunday-aligned grid of a month: blank cells, then every day of the month in order. */
  function MonthGrid(d: int): (g: seq<Option<int>>)
  {
    var f := FirstOfMonth(d);
    Grid(LeadingBlanks(f), f, MonthLength(d))
  }

  /** The days of a grid are exactly the days of its month: the `k`-th is day `k + 1` of that month. */
  lemma MonthGridDays(d: int)
    ensures var f := FirstOfMonth(d); var c := ToCivil(d);
      forall k :: f <= k < f + MonthLength(d) ==> ToCivil(k) == Date(c.year, c.month, k - f + 1)
  {
    var c := ToCivil(d);
    MonthDays(c.year, c.month);
  }

  /** The days of a month are exactly the day numbers from its first day on, in order. */
  lemma MonthDays(y: int, m: int)
    requires IsMonth(m)
    ensures var f := FromCivil(Date(y, m, 1));
      forall k :: f <= k < f + DaysInMonth(y, m) ==> ToCivil(k) == Date(y, m, k - f + 1)
  {
    var f := FromCivil(Date(y, m, 1));
    forall k | f <= k < f + DaysInMonth(y, m)
      ensures ToCivil(k) == Date(y, m, k - f + 1)
    {
      DayInMonth(y, m, f, k);
    }
  }
}

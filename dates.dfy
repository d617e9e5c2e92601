/** Calendar days as integers. Day 0 is 1970-01-01, a Thursday; the proleptic
    Gregorian calendar (Python's datetime) extends in both directions. */
module Dates {

  /** A calendar day: the number of days since 1970-01-01. */
  type Day = int

  const MicrosPerDay: nat := 86_400_000_000

  /** Python's `date.weekday()`: Monday is 0, Sunday is 6. */
  function Weekday(d: Day): (w: nat)
    ensures w < 7
  {
    (d + 3) % 7
  }

  /** pandas' `Series.dt.day_name()`, English locale. */
  function DayName(d: Day): string
  {
    ["Monday", "Tuesday", "Wednesday", "Thursday", "Friday", "Saturday", "Sunday"][Weekday(d)]
  }

  /** The rows every weekday pivot is reindexed to, in this order. */
  const WorkdayNames: seq<string> := ["Monday", "Tuesday", "Wednesday", "Thursday", "Friday"]

  /** The names of Saturday and Sunday are not among the pivot rows. */
  lemma WeekendNotWorkday(d: Day)
    ensures DayName(d) in WorkdayNames <==> Weekday(d) < 5
  {
  }

  /** `today - timedelta(days=today.weekday())`, the grid's Monday. */
  function MondayOf(today: Day): (m: Day)
    ensures Weekday(m) == 0
    ensures m <= today < m + 7
  {
    today - Weekday(today)
  }

  /** The five dates of the timesheet grid: this week's Monday to Friday. */
  function GridDays(today: Day): (days: seq<Day>)
    ensures |days| == 5
    ensures forall i :: 0 <= i < 5 ==> days[i] == MondayOf(today) + i && Weekday(days[i]) == i
    ensures forall i, j :: 0 <= i < j < 5 ==> days[i] < days[j]
  {
    var m := MondayOf(today);
    [m, m + 1, m + 2, m + 3, m + 4]
  }

  /** Today is one of the grid days exactly on a working day. */
  lemma TodayInGrid(today: Day)
    ensures today in GridDays(today) <==> Weekday(today) < 5
  {
    var days := GridDays(today);
    if Weekday(today) < 5 {
      assert days[Weekday(today)] == today;
    }
  }

  /** pandas' `date_range(start, end)` at daily frequency: both ends included,
      ascending, empty when the end comes first. */
  function DateRange(start: Day, end: Day): (r: seq<Day>)
    ensures |r| == if end < start then 0 else end - start + 1
    ensures forall i :: 0 <= i < |r| ==> r[i] == start + i
    decreases end - start
  {
    if end < start then [] else [start] + DateRange(start + 1, end)
  }

  /** Every day of the span appears, and nothing else. */
  lemma DateRangeMembers(start: Day, end: Day, d: Day)
    ensures d in DateRange(start, end) <==> start <= d <= end
  {
    if start <= d <= end {
      assert DateRange(start, end)[d - start] == d;
    }
  }

  /** A moment: a calendar day and the microseconds elapsed since its midnight. */
  datatype Instant = Instant(day: Day, micros: nat)
  {
    ghost predicate Valid()
    {
      micros < MicrosPerDay
    }

    /** The moment on a common microsecond axis. */
    function Stamp(): int
    {
      day * MicrosPerDay + micros
    }
  }

  /** `datetime.today() - timedelta(days=7)`: the same time of day one week back. */
  function WeekAgo(now: Instant): Instant
  {
    Instant(now.day - 7, now.micros)
  }

  /** A stored date read back with `to_datetime` is its midnight; it is in the
      weekly summary when that midnight is not earlier than a week ago. */
  predicate InLastWeek(d: Day, now: Instant)
  {
    Instant(d, 0).Stamp() >= WeekAgo(now).Stamp()
  }

  /** The window, day by day: the last six days and the future are in; the day
      exactly a week back is in only when `now` is exactly midnight. */
  lemma InLastWeekIff(d: Day, now: Instant)
    requires now.Valid()
    ensures InLastWeek(d, now) <==> d > now.day - 7 || (d == now.day - 7 && now.micros == 0)
  {
    if d > now.day - 7 {
      assert Instant(d, 0).Stamp() >= WeekAgo(now).Stamp() by {
        assert d * MicrosPerDay >= (now.day - 6) * MicrosPerDay;
      }
    } else if d < now.day - 7 {
      assert d * MicrosPerDay <= (now.day - 8) * MicrosPerDay;
    }
  }

  // ----- The civil calendar, for the "this month" listing -----

  predicate IsLeap(y: int)
  {
    y % 4 == 0 && (y % 100 != 0 || y % 400 == 0)
  }

  function YearLength(y: int): nat
  {
    if IsLeap(y) then 366 else 365
  }

  function MonthLength(y: int, m: int): nat
    requires 1 <= m <= 12
  {
    if m == 2 then (if IsLeap(y) then 29 else 28)
    else if m == 4 || m == 6 || m == 9 || m == 11 then 30
    else 31
  }

  /** Days of the year before the first of month `m`. */
  function MonthStart(y: int, m: int): nat
    requires 1 <= m <= 12
  {
    [0, 31, 59, 90, 120, 151, 181, 212, 243, 273, 304, 334][m - 1]
      + (if m > 2 && IsLeap(y) then 1 else 0)
  }

  lemma MonthStartStep(y: int, m: int)
    requires 1 <= m <= 12
    ensures m < 12 ==> MonthStart(y, m + 1) == MonthStart(y, m) + MonthLength(y, m)
    ensures m == 12 ==> MonthStart(y, m) + MonthLength(y, m) == YearLength(y)
  {
  }

  /** The month whose days contain day `doy` (counted from 0) of year `y`. */
  function MonthOfYear(y: int, doy: nat, m: int): (r: int)
    requires 1 <= m <= 12 && doy < YearLength(y)
    ensures 1 <= r <= m
    ensures MonthStart(y, r) <= doy || r == 1
    ensures r == m || doy < MonthStart(y, r + 1)
    decreases m
  {
    if m == 1 || MonthStart(y, m) <= doy then m else MonthOfYear(y, doy, m - 1)
  }

  /** The day number of 1 January of year `y`. */
  function YearStart(y: int): int
    decreases if y >= 1970 then y - 1970 else 1970 - y
  {
    if y == 1970 then 0
    else if y > 1970 then YearStart(y - 1) + YearLength(y - 1)
    else YearStart(y + 1) - YearLength(y)
  }

  lemma YearStartStep(y: int)
    ensures YearStart(y + 1) == YearStart(y) + YearLength(y)
  {
  }

  lemma {:induction false} YearStartMonotone(a: int, b: int)
    requires a <= b
    ensures YearStart(a) <= YearStart(b)
    decreases b - a
  {
    if a < b {
      YearStartStep(a);
      YearStartMonotone(a + 1, b);
    }
  }

  /** The year of the day `off` days after 1 January of year `y`, and that day's
      place in its year. */
  function Locate(y: int, off: int): (r: (int, nat))
    ensures r.1 < YearLength(r.0)
    ensures YearStart(r.0) + r.1 == YearStart(y) + off
    decreases if off < 0 then 366 - off else off
  {
    YearStartStep(y - 1);
    YearStartStep(y);
    if off < 0 then Locate(y - 1, off + YearLength(y - 1))
    else if off < YearLength(y) then (y, off)
    else Locate(y + 1, off - YearLength(y))
  }

  /** A date of the civil calendar. */
  datatype Civil = Civil(year: int, month: int, day: int)
  {
    ghost predicate Valid()
    {
      1 <= month <= 12 && 1 <= day <= MonthLength(year, month)
    }
  }

  /** The day number of a civil date. */
  function DayNumber(c: Civil): Day
    requires c.Valid()
  {
    YearStart(c.year) + MonthStart(c.year, c.month) + c.day - 1
  }

  /** The civil date of a day number, what `strftime("%Y-%m-%d")` spells out. */
  function CivilOf(d: Day): (c: Civil)
    ensures c.Valid()
  {
    var (y, doy) := Locate(1970, d);
    MonthStartStep(y, 12);
    var m := MonthOfYear(y, doy, 12);
    MonthStartStep(y, m);
    Civil(y, m, doy - MonthStart(y, m) + 1)
  }

  /** Day numbers to civil dates and back. */
  lemma DayNumberOfCivil(d: Day)
    ensures DayNumber(CivilOf(d)) == d
  {
  }

  lemma {:induction false} LocateYearStart(y0: int, y: int, k: nat)
    requires k < YearLength(y)
    ensures Locate(y0, YearStart(y) - YearStart(y0) + k) == (y, k)
    decreases if y >= y0 then y - y0 else y0 - y
  {
    var off := YearStart(y) - YearStart(y0) + k;
    if y > y0 {
      YearStartStep(y0);
      YearStartMonotone(y0 + 1, y);
      var next := off - YearLength(y0);
      assert off >= YearLength(y0);
      assert next == YearStart(y) - YearStart(y0 + 1) + k;
      LocateYearStart(y0 + 1, y, k);
      assert Locate(y0, off) == Locate(y0 + 1, next);
    } else if y < y0 {
      YearStartStep(y);
      YearStartStep(y0 - 1);
      YearStartMonotone(y + 1, y0);
      var prev := off + YearLength(y0 - 1);
      assert off < 0;
      assert prev == YearStart(y) - YearStart(y0 - 1) + k;
      LocateYearStart(y0 - 1, y, k);
      assert Locate(y0, off) == Locate(y0 - 1, prev);
    } else {
      assert off == k;
    }
  }

  /** The month search only stops at the month that holds the day. */
  lemma {:induction false} MonthOfYearUnique(y: int, doy: nat, m: int, target: int)
    requires 1 <= target <= m <= 12 && doy < YearLength(y)
    requires MonthStart(y, target) <= doy < MonthStart(y, target) + MonthLength(y, target)
    ensures MonthOfYear(y, doy, m) == target
    decreases m
  {
    if m > target {
      MonthStartStep(y, m - 1);
      MonthsAscending(y, target + 1, m);
      MonthStartStep(y, target);
      MonthOfYearUnique(y, doy, m - 1, target);
    }
  }

  lemma {:induction false} MonthsAscending(y: int, a: int, b: int)
    requires 1 <= a <= b <= 12
    ensures MonthStart(y, a) <= MonthStart(y, b)
    decreases b - a
  {
    if a < b {
      MonthStartStep(y, a);
      MonthsAscending(y, a + 1, b);
    }
  }

  /** Civil dates to day numbers and back. */
  lemma CivilOfDayNumber(c: Civil)
    requires c.Valid()
    ensures CivilOf(DayNumber(c)) == c
  {
    var y, m := c.year, c.month;
    var k := MonthStart(y, m) + c.day - 1;
    assert k < YearLength(y) by {
      MonthStartStep(y, m);
      MonthStartStep(y, 12);
      if m < 12 { MonthsAscending(y, m + 1, 12); }
    }
    LocateYearStart(1970, y, k);
    assert Locate(1970, DayNumber(c)) == (y, k);
    MonthOfYearUnique(y, k, 12, m);
  }

  /** The "YYYY-MM" part of a day's `strftime("%Y-%m-%d")`. */
  function YearMonth(d: Day): (int, int)
  {
    (CivilOf(d).year, CivilOf(d).month)
  }

  /** Two days share a month exactly when they lie in the same calendar month:
      between the first and the last day of it. */
  lemma SameMonthIff(d: Day, c: Civil)
    requires c.Valid() && c.day == 1
    ensures YearMonth(d) == (c.year, c.month) <==>
              DayNumber(c) <= d < DayNumber(c) + MonthLength(c.year, c.month)
  {
    var e := CivilOf(d);
    DayNumberOfCivil(d);
    if DayNumber(c) <= d < DayNumber(c) + MonthLength(c.year, c.month) {
      var c' := Civil(c.year, c.month, d - DayNumber(c) + 1);
      CivilOfDayNumber(c');
    }
  }
}

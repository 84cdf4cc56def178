/**
  The proleptic Gregorian calendar over day numbers, with day 1 on 1 January of year 1, as
  Python's `date.toordinal` counts them. Years are not limited to 1..9999 here.
*/
module Calendar {

  predicate IsLeap(year: int) {
    year % 4 == 0 && (year % 100 != 0 || year % 400 == 0)
  }

  /** A century year that skips its leap day. */
  predicate SkipsLeapDay(year: int) {
    year % 100 == 0 && year % 400 != 0
  }

  function DaysInMonth(year: int, month: int): int {
    if month == 2 then (if IsLeap(year) then 29 else 28)
    else if month in {4, 6, 9, 11} then 30
    else 31
  }

  datatype Date = Date(year: int, month: int, day: int)

  predicate IsDate(d: Date) {
    1 <= d.month <= 12 && 1 <= d.day <= DaysInMonth(d.year, d.month)
  }

  function NextDay(d: Date): Date {
    if d.day < DaysInMonth(d.year, d.month) then d.(day := d.day + 1)
    else if d.month < 12 then Date(d.year, d.month + 1, 1)
    else Date(d.year + 1, 1, 1)
  }

  function PreviousDay(d: Date): Date {
    if d.day > 1 then d.(day := d.day - 1)
    else if d.month > 1 then Date(d.year, d.month - 1, DaysInMonth(d.year, d.month - 1))
    else Date(d.year - 1, 12, 31)
  }

  /** The date of a day number, reached from day 1 one day at a time. */
  function DateOf(n: int): (d: Date)
    ensures IsDate(d)
    decreases if n >= 1 then n else 2 - n
  {
    if n == 1 then Date(1, 1, 1)
    else if n > 1 then NextDay(DateOf(n - 1))
    else PreviousDay(DateOf(n + 1))
  }

  /** Monday is 0 and Sunday is 6; day 1 is a Monday. */
  function Weekday(n: int): int { (n + 6) % 7 }

  // ---------------------------------------------------------------- counting days

  function YearLength(year: int): int { if IsLeap(year) then 366 else 365 }

  /** The days from 1 January of year 1 to 1 January of a year. */
  function DaysBeforeYear(year: int): int
    decreases if year >= 1 then year else 2 - year
  {
    if year == 1 then 0
    else if year > 1 then DaysBeforeYear(year - 1) + YearLength(year - 1)
    else DaysBeforeYear(year + 1) - YearLength(year)
  }

  function DaysBeforeMonth(year: int, month: int): int
    requires 1 <= month <= 12
  {
    [0, 31, 59, 90, 120, 151, 181, 212, 243, 273, 304, 334][month - 1]
    + if month > 2 && IsLeap(year) then 1 else 0
  }

  function DayNumber(d: Date): int
    requires IsDate(d)
  {
    DaysBeforeYear(d.year) + DaysBeforeMonth(d.year, d.month) + d.day
  }

  lemma NextYear(year: int)
    ensures DaysBeforeYear(year + 1) == DaysBeforeYear(year) + YearLength(year)
  {}

  lemma NextMonth(year: int, month: int)
    requires 1 <= month < 12
    ensures DaysBeforeMonth(year, month + 1) == DaysBeforeMonth(year, month) + DaysInMonth(year, month)
  {
    var table := [0, 31, 59, 90, 120, 151, 181, 212, 243, 273, 304, 334];
    assert month == 1 || month == 2 || month == 3 || month == 4 || month == 5 || month == 6
           || month == 7 || month == 8 || month == 9 || month == 10 || month == 11;
    assert table[month - 1] + (if month == 2 then 28 else if month in {4, 6, 9, 11} then 30 else 31) == table[month];
  }

  lemma NextDayNumber(d: Date)
    requires IsDate(d)
    ensures IsDate(NextDay(d)) && DayNumber(NextDay(d)) == DayNumber(d) + 1
  {
    if d.day == DaysInMonth(d.year, d.month) {
      if d.month < 12 {
        NextMonth(d.year, d.month);
      } else {
        NextYear(d.year);
      }
    }
  }

  lemma PreviousThenNext(d: Date)
    requires IsDate(d)
    ensures IsDate(PreviousDay(d)) && NextDay(PreviousDay(d)) == d
  {}

  /** The stepwise date has the day number it was reached from. */
  lemma {:induction false} DayNumberOfDate(n: int)
    ensures DayNumber(DateOf(n)) == n
    decreases if n >= 1 then n else 2 - n
  {
    if n > 1 {
      DayNumberOfDate(n - 1);
      NextDayNumber(DateOf(n - 1));
    } else if n < 1 {
      DayNumberOfDate(n + 1);
      PreviousThenNext(DateOf(n + 1));
      NextDayNumber(DateOf(n));
    }
  }

  lemma {:induction false} YearsAscend(a: int, b: int)
    requires a <= b
    ensures DaysBeforeYear(a) + 365 * (b - a) <= DaysBeforeYear(b) <= DaysBeforeYear(a) + 366 * (b - a)
    decreases b - a
  {
    if a < b {
      YearsAscend(a, b - 1);
      NextYear(b - 1);
    }
  }

  lemma DayWithinYear(d: Date)
    requires IsDate(d)
    ensures DaysBeforeYear(d.year) < DayNumber(d) <= DaysBeforeYear(d.year + 1)
  {
    NextYear(d.year);
    var k := d.month;
    assert k == 1 || k == 2 || k == 3 || k == 4 || k == 5 || k == 6 || k == 7 || k == 8 || k == 9
           || k == 10 || k == 11 || k == 12;
  }

  lemma MonthsAscend(year: int, a: int, b: int)
    requires 1 <= a < b <= 12
    ensures DaysBeforeMonth(year, a) + DaysInMonth(year, a) <= DaysBeforeMonth(year, b)
    decreases b - a
  {
    NextMonth(year, a);
    if a + 1 < b {
      MonthsAscend(year, a + 1, b);
    }
  }

  /** Later dates have greater day numbers. */
  lemma DateOrder(d: Date, e: Date)
    requires IsDate(d) && IsDate(e)
    ensures DayNumber(d) < DayNumber(e) <==>
            (|| d.year < e.year
             || (d.year == e.year && d.month < e.month)
             || (d.year == e.year && d.month == e.month && d.day < e.day))
  {
    DayWithinYear(d);
    DayWithinYear(e);
    if d.year < e.year {
      YearsAscend(d.year + 1, e.year);
    } else if e.year < d.year {
      YearsAscend(e.year + 1, d.year);
    } else if d.month < e.month {
      MonthsAscend(d.year, d.month, e.month);
    } else if e.month < d.month {
      MonthsAscend(d.year, e.month, d.month);
    }
  }

  /** Every date is the date of its day number. */
  lemma DateOfDayNumber(d: Date)
    requires IsDate(d)
    ensures DateOf(DayNumber(d)) == d
  {
    DayNumberOfDate(DayNumber(d));
    DateOrder(d, DateOf(DayNumber(d)));
    DateOrder(DateOf(DayNumber(d)), d);
  }

  // ---------------------------------------------------------------- recurring dates

  /** The day number of a month's day in a year, wherever the year has it. */
  function On(year: int, month: int, day: int): int
    requires IsDate(Date(year, month, day))
  {
    DayNumber(Date(year, month, day))
  }

  /** A day every year has: any day but 29 February. */
  predicate EveryYear(month: int, day: int) {
    1 <= month <= 12 && 1 <= day <= if month == 2 then 28 else DaysInMonth(1, month)
  }

  lemma Recurs(year: int, month: int, day: int)
    requires EveryYear(month, day)
    ensures IsDate(Date(year, month, day)) && IsDate(Date(year + 1, month, day))
    ensures On(year, month, day) + 365 <= On(year + 1, month, day) <= On(year, month, day) + 366
  {
    NextYear(year);
  }

  /** Two different days with one month and day are at least 365 days apart. */
  lemma SameMonthAndDayApart(m: int, n: int)
    requires m < n && DateOf(m).month == DateOf(n).month && DateOf(m).day == DateOf(n).day
    ensures m + 365 <= n
  {
    DayNumberOfDate(m);
    DayNumberOfDate(n);
    var d, e := DateOf(m), DateOf(n);
    DateOrder(d, e);
    YearsAscend(d.year, e.year);
    if IsLeap(d.year) && !IsLeap(e.year) && d.month > 2 {
      NextYear(d.year);
      YearsAscend(d.year + 1, e.year);
    }
  }

  /** A day that every year has comes round within any 366 consecutive days. */
  lemma EveryYearWithin(start: int, month: int, day: int) returns (n: int)
    requires EveryYear(month, day)
    ensures start <= n < start + 366 && DateOf(n).month == month && DateOf(n).day == day
  {
    var year := YearOf(start);
    OnWithinYear(year - 1, month, day);
    OnWithinYear(year, month, day);
    OnWithinYear(year + 1, month, day);
    n := if start <= On(year, month, day) then On(year, month, day) else On(year + 1, month, day);
  }

  lemma YearOf(n: int) returns (year: int)
    ensures DaysBeforeYear(year) < n <= DaysBeforeYear(year + 1)
  {
    year := DateOf(n).year;
    DayNumberOfDate(n);
    DayWithinYear(DateOf(n));
  }

  /** A day every year has lies in its year, carries its month and day, and recurs. */
  lemma OnWithinYear(year: int, month: int, day: int)
    requires EveryYear(month, day)
    ensures DaysBeforeYear(year) < On(year, month, day) <= DaysBeforeYear(year + 1)
    ensures On(year + 1, month, day) <= On(year, month, day) + 366
    ensures DateOf(On(year, month, day)).month == month && DateOf(On(year, month, day)).day == day
  {
    Recurs(year, month, day);
    DayWithinYear(Date(year, month, day));
    DateOfDayNumber(Date(year, month, day));
  }

  // ---------------------------------------------------------------- leap days

  function LeapDay(year: int): int
    requires IsLeap(year)
  {
    On(year, 2, 29)
  }

  /** Whether the years `a` and `b` carry consecutive leap days. */
  predicate Consecutive(a: int, b: int) {
    IsLeap(a) && IsLeap(b) && (b == a + 4 || (b == a + 8 && SkipsLeapDay(a + 4)))
  }

  lemma FourYearSpan(year: int)
    requires year % 4 == 0
    ensures DaysBeforeYear(year + 4) == DaysBeforeYear(year) + 1460 + if IsLeap(year) then 1 else 0
  {
    NextYear(year);
    NextYear(year + 1);
    NextYear(year + 2);
    NextYear(year + 3);
    LeapYearsApart(year);
  }

  lemma LeapDayNumber(year: int)
    requires IsLeap(year)
    ensures LeapDay(year) == DaysBeforeYear(year) + 60
  {}

  /** Consecutive leap days are 1461 days apart, or 2921 across a century that skips its own. */
  lemma ConsecutiveLeapDays(before: int, after: int)
    requires Consecutive(before, after)
    ensures LeapDay(after) == LeapDay(before) + if after == before + 4 then 1461 else 2921
  {
    FourYearSpan(before);
    LeapDayNumber(before);
    LeapDayNumber(after);
    if after == before + 8 {
      FourYearSpan(before + 4);
    }
  }

  lemma LeapYearsApart(year: int)
    requires year % 4 == 0
    ensures !IsLeap(year + 1) && !IsLeap(year + 2) && !IsLeap(year + 3)
    ensures IsLeap(year + 4) || (SkipsLeapDay(year + 4) && IsLeap(year + 8))
  {}

  /** The leap year before a year divisible by four. */
  lemma LeapYearBefore(y: int) returns (before: int)
    requires y % 4 == 0
    ensures before == (if IsLeap(y - 4) then y - 4 else y - 8)
    ensures IsLeap(before) && (IsLeap(y) ==> Consecutive(before, y))
  {
    before := if IsLeap(y - 4) then y - 4 else y - 8;
    LeapYearsApart(y - 8);
  }

  lemma LeapYearAfter(y: int) returns (after: int)
    requires y % 4 == 0
    ensures after == (if IsLeap(y + 4) then y + 4 else y + 8)
    ensures IsLeap(after) && (IsLeap(y) ==> Consecutive(y, after))
  {
    after := if IsLeap(y + 4) then y + 4 else y + 8;
    LeapYearsApart(y);
  }

  lemma LeapDayOrder(n: int, year: int)
    requires IsLeap(year)
    ensures DateOf(n).year < year ==> n < LeapDay(year)
    ensures DateOf(n).year > year ==> LeapDay(year) < n
  {
    DayNumberOfDate(n);
    DateOrder(DateOf(n), Date(year, 2, 29));
    DateOrder(Date(year, 2, 29), DateOf(n));
  }

  lemma FourthsApart(a: int, b: int)
    requires a % 4 == 0 && b % 4 == 0 && a < b < a + 8
    ensures b == a + 4
  {}

  lemma NoLeapYearBetween(before: int, year: int, after: int)
    requires Consecutive(before, after) && IsLeap(year)
    ensures !(before < year < after)
  {
    if before < year < after {
      FourthsApart(before, year);
    }
  }

  /** The leap years around a year, and the leap year it may be itself. */
  lemma LeapYearsAround(year: int) returns (before: int, middle: int, after: int)
    ensures before <= middle <= after && before < year < after
    ensures IsLeap(before) && IsLeap(middle) && IsLeap(after) && Consecutive(before, middle)
    ensures middle == after || (middle <= year && Consecutive(middle, after))
  {
    var y := FourthAtMost(year);
    before := LeapYearBefore(y);
    after := LeapYearAfter(y);
    middle := if IsLeap(y) then y else after;
    if !IsLeap(y) { AcrossSkippedYear(before, y, after); }
  }

  lemma FourthAtMost(year: int) returns (y: int)
    ensures y % 4 == 0 && y <= year < y + 4
  {
    y := year - year % 4;
  }

  /** The leap years before and after a century year that skips its own are its neighbours. */
  lemma AcrossSkippedYear(before: int, y: int, after: int)
    requires y % 4 == 0 && !IsLeap(y)
    requires before == (if IsLeap(y - 4) then y - 4 else y - 8) && after == (if IsLeap(y + 4) then y + 4 else y + 8)
    ensures before == y - 4 && after == y + 4 && SkipsLeapDay(y)
  {}

  /** The last leap day on or before a day, and the next one after it. */
  lemma LeapDaysAround(n: int) returns (before: int, after: int)
    ensures Consecutive(before, after) && LeapDay(before) <= n < LeapDay(after)
  {
    var first, middle, last := LeapYearsAround(DateOf(n).year);
    LeapDayOrder(n, first);
    LeapDayOrder(n, last);
    if LeapDay(middle) <= n {
      before, after := middle, last;
    } else {
      before, after := first, middle;
    }
  }
}

/**
  Which days a cron expression matches, and how far apart they can be
  (ergasterion/source_delivery.py:1425, 1500-1511).
*/
module CronDays {
  import opened Text
  import opened Cron
  import opened Calendar

  /** The number of days a boundary search looks at. */
  const SEARCH_DAYS: nat := 4 * 366 + 10

  /** Cron counts Sunday as 0 and Saturday as 6. */
  function CronWeekday(n: int): int { (Weekday(n) + 1) % 7 }

  predicate DayMatches(n: int, p: ParsedCron) {
    var date := DateOf(n);
    && date.month in p.months
    && if p.dayOfMonthRestricted && p.dayOfWeekRestricted
       then date.day in p.daysOfMonth || CronWeekday(n) in p.daysOfWeek
       else if p.dayOfMonthRestricted then date.day in p.daysOfMonth
       else if p.dayOfWeekRestricted then CronWeekday(n) in p.daysOfWeek
       else true
  }

  predicate IsLeapDay(n: int) {
    DateOf(n).month == 2 && DateOf(n).day == 29
  }

  /** Some calendar date matches. */
  ghost predicate CanMatch(p: ParsedCron) {
    exists n :: DayMatches(n, p)
  }

  /** Nothing but 29 February matches. */
  ghost predicate OnlyLeapDays(p: ParsedCron) {
    forall n | DayMatches(n, p) :: IsLeapDay(n)
  }

  ghost predicate MatchesWithin(p: ParsedCron, start: int, count: nat) {
    exists n :: start <= n < start + count && DayMatches(n, p)
  }

  /** The whole window lies strictly between two leap days that a century keeps eight years apart. */
  ghost predicate InSkippedGap(start: int, count: nat) {
    exists year :: Consecutive(year, year + 8) && LeapDay(year) < start && start + count <= LeapDay(year + 8)
  }

  lemma WeekdayAfter(n: int, weekday: int) returns (k: int)
    requires 0 <= weekday <= 6
    ensures 0 <= k <= 6 && CronWeekday(n + k) == weekday
  {
    var w := CronWeekday(n);
    assert w == n % 7;
    k := if weekday >= w then weekday - w else weekday - w + 7;
    assert n + k == 7 * (n / 7) + w + k;
  }

  /** A month's first seven days carry every weekday. */
  lemma WeekdayEarlyInMonth(start: int, month: int, weekday: int) returns (n: int)
    requires 1 <= month <= 12 && 0 <= weekday <= 6
    ensures start <= n < start + 372
    ensures DateOf(n).month == month && DateOf(n).day <= 7 && CronWeekday(n) == weekday
  {
    var first := EveryYearWithin(start, month, 1);
    var k := WeekdayAfter(first, weekday);
    n := first + k;
    DayNumberOfDate(first);
    DateOfDayNumber(Date(DateOf(first).year, month, 1 + k));
  }

  /** The months and days an expression allows, as a recurring date if there is one. */
  lemma EveryYearMatch(p: ParsedCron, start: int, month: int, day: int) returns (n: int)
    requires month in p.months && EveryYear(month, day)
    requires !p.dayOfWeekRestricted && (p.dayOfMonthRestricted ==> day in p.daysOfMonth)
    ensures start <= n < start + 366 && DayMatches(n, p) && !IsLeapDay(n)
  {
    n := EveryYearWithin(start, month, day);
  }

  lemma MatchWithin(p: ParsedCron, start: int, count: nat, n: int)
    requires start <= n < start + count && DayMatches(n, p) && !IsLeapDay(n)
    ensures MatchesWithin(p, start, count) && !OnlyLeapDays(p)
  {}

  lemma LeapDaysAscend(a: int, b: int)
    requires IsLeap(a) && IsLeap(b)
    ensures a < b <==> LeapDay(a) < LeapDay(b)
  {
    DateOrder(Date(a, 2, 29), Date(b, 2, 29));
  }

  lemma LeapDayOf(n: int)
    requires IsLeapDay(n)
    ensures IsLeap(DateOf(n).year) && n == LeapDay(DateOf(n).year)
  {
    DayNumberOfDate(n);
  }

  /** Nothing lies strictly between consecutive leap days. */
  lemma NoLeapDayBetween(before: int, after: int, n: int)
    requires Consecutive(before, after) && LeapDay(before) < n < LeapDay(after)
    ensures !IsLeapDay(n)
  {
    if IsLeapDay(n) {
      LeapDayOf(n);
      LeapDaysAscend(before, DateOf(n).year);
      LeapDaysAscend(DateOf(n).year, after);
      NoLeapYearBetween(before, DateOf(n).year, after);
    }
  }

  /** Leap days alone match inside the window exactly when no skipped century spans it. */
  lemma LeapDayWindow(p: ParsedCron, start: int, count: nat)
    requires count >= 1461
    requires OnlyLeapDays(p) && forall n | IsLeapDay(n) :: DayMatches(n, p)
    ensures MatchesWithin(p, start, count) <==> !InSkippedGap(start, count)
  {
    var before, after := LeapDaysAround(start - 1);
    ConsecutiveLeapDays(before, after);
    if LeapDay(after) < start + count {
      DateOfDayNumber(Date(after, 2, 29));
      assert DayMatches(LeapDay(after), p);
      if year :| Consecutive(year, year + 8) && LeapDay(year) < start && start + count <= LeapDay(year + 8) {
        NoLeapDayBetween(year, year + 8, LeapDay(after));
      }
    } else {
      assert Consecutive(before, before + 8);
      if n :| start <= n < start + count && DayMatches(n, p) {
        NoLeapDayBetween(before, after, n);
      }
    }
  }

  /** A date that is not 29 February recurs every year. */
  lemma DatesRecur(n: int)
    requires !IsLeapDay(n)
    ensures EveryYear(DateOf(n).month, DateOf(n).day)
  {}

  /**
    An expression that matches some date matches inside every window of at least 1461 days,
    the search window of 1474 among them, except exactly when it allows 29 February alone and
    the window lies in a gap a skipped century leaves.
  */
  lemma SearchWindowSuffices(p: ParsedCron, start: int, count: nat)
    requires InDomain(p) && CanMatch(p) && count >= 1461
    ensures MatchesWithin(p, start, count) <==> !(OnlyLeapDays(p) && InSkippedGap(start, count))
  {
    if p.dayOfWeekRestricted {
      var month :| 1 <= month <= 12 && month in p.months;
      var weekday :| 0 <= weekday <= 6 && weekday in p.daysOfWeek;
      var n := WeekdayEarlyInMonth(start, month, weekday);
      MatchWithin(p, start, count, n);
    } else if !p.dayOfMonthRestricted {
      var month :| 1 <= month <= 12 && month in p.months;
      var n := EveryYearMatch(p, start, month, 1);
      MatchWithin(p, start, count, n);
    } else if OnlyLeapDays(p) {
      var n :| DayMatches(n, p);
      assert IsLeapDay(n);
      LeapDayWindow(p, start, count);
    } else {
      var m :| DayMatches(m, p) && !IsLeapDay(m);
      DatesRecur(m);
      var n := EveryYearMatch(p, start, DateOf(m).month, DateOf(m).day);
      MatchWithin(p, start, count, n);
    }
  }

  /** Midnight on every 29 February: `0 0 29 2 *`. */
  function LeapDayMidnight(): ParsedCron {
    DateAndTime(0, 0, 29, 2)
  }

  lemma LeapDayMidnightText()
    ensures DateAndTimeText(0, 0, 29, 2) == "0 0 29 2 *"
  {
    assert Decimal(29) == Decimal(2) + [DigitChar(9)] == "29";
    var words := ["0", "0", "29", "2", "*"];
    assert Join(words[4..], ' ') == "*";
    assert Join(words[3..], ' ') == "2 *" by { assert words[3..][1..] == words[4..]; }
    assert Join(words[2..], ' ') == "29 2 *" by { assert words[2..][1..] == words[3..]; }
    assert Join(words[1..], ' ') == "0 29 2 *" by { assert words[1..][1..] == words[2..]; }
  }

  /** It is what the authored text parses to. */
  lemma LeapDayMidnightParses()
    ensures FieldsAccepted(Words("0 0 29 2 *")) && ParsedFields(Words("0 0 29 2 *")) == LeapDayMidnight()
  {
    LeapDayMidnightText();
    DateAndTimeRoundTrip(0, 0, 29, 2);
  }

  lemma FirstOfMarch2096()
    ensures LeapDay(2096) + 1 == DayNumber(Date(2096, 3, 1))
  {
    NextDayNumber(Date(2096, 2, 29));
  }

  lemma LeapDayMidnightInDomain()
    ensures InDomain(LeapDayMidnight())
  {
    var p := LeapDayMidnight();
    assert 0 in p.minutes && 0 in p.hours && 29 in p.daysOfMonth && 2 in p.months && 0 in p.daysOfWeek;
  }

  lemma LeapDayMidnightMatches(n: int)
    ensures DayMatches(n, LeapDayMidnight()) <==> IsLeapDay(n)
  {}

  /**
    The gap is real: the 1474 days from 1 March 2096 hold no 29 February, so an expression
    for 29 February, which other days match, is matched by none of them.
  */
  lemma CenturyGapExists()
    ensures var p, start := LeapDayMidnight(), LeapDay(2096) + 1;
            && InDomain(p) && CanMatch(p) && OnlyLeapDays(p)
            && InSkippedGap(start, SEARCH_DAYS)
            && (forall n | start <= n < start + SEARCH_DAYS :: !IsLeapDay(n))
            && !MatchesWithin(p, start, SEARCH_DAYS)
    ensures LeapDay(2096) + 1 == DayNumber(Date(2096, 3, 1))
  {
    var p, start := LeapDayMidnight(), LeapDay(2096) + 1;
    FirstOfMarch2096();
    LeapDayMidnightInDomain();
    ConsecutiveLeapDays(2096, 2104);
    assert Consecutive(2096, 2096 + 8);
    forall n | start <= n < start + SEARCH_DAYS
      ensures !IsLeapDay(n) && !DayMatches(n, p)
    {
      NoLeapDayBetween(2096, 2104, n);
      LeapDayMidnightMatches(n);
    }
    forall n
      ensures DayMatches(n, p) <==> IsLeapDay(n)
    {
      LeapDayMidnightMatches(n);
    }
    DateOfDayNumber(Date(2096, 2, 29));
    assert DayMatches(LeapDay(2096), p);
  }
}

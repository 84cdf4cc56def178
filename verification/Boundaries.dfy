/**
  What the boundary searches mean: the greatest occurrence up to an instant and the least
  one after it, and exactly which zones that holds in
  (ergasterion/source_delivery.py:1537-1617).
*/
module Boundaries {
  import opened Basics
  import opened Text
  import opened Cron
  import opened Calendar
  import opened CronDays
  import opened Schedule

  // ---------------------------------------------------------------- cron schedules

  /**
    `r` is the greatest occurrence from the schedule's start up to `at`; without one, every
    occurrence is further back than the searched days.
  */
  ghost predicate IsCurrent(p: ParsedCron, zone: Zone, startsAt: int, at: int, r: Option<int>) {
    match r
    case Some(b) =>
      && EligibleUpTo(p, zone, startsAt, at, b)
      && forall u | EligibleUpTo(p, zone, startsAt, at, u) :: u <= b
    case None =>
      forall u | EligibleUpTo(p, zone, startsAt, at, u) :: LocalDay(zone, u) <= LocalDay(zone, at) - SEARCH_DAYS
  }

  /** `r` is the least occurrence after `at`; without one, every occurrence is beyond the search. */
  ghost predicate IsNext(p: ParsedCron, zone: Zone, startsAt: int, at: int, r: Option<int>) {
    match r
    case Some(b) =>
      && EligibleAfter(p, zone, startsAt, at, b)
      && forall u | EligibleAfter(p, zone, startsAt, at, u) :: b <= u
    case None =>
      forall u | EligibleAfter(p, zone, startsAt, at, u) ::
        LocalDay(zone, u) >= LocalDay(zone, SearchFloor(startsAt, at)) + SEARCH_DAYS
  }

  /** No later instant is on an earlier local day than an instant on a whole local minute. */
  ghost predicate NeverBefore(zone: Zone) {
    forall t, u | t <= u && WholeMinute(Local(zone, t)) :: LocalDay(zone, t) <= LocalDay(zone, u)
  }

  /** No earlier instant is on a later local day than an instant on a whole local minute. */
  ghost predicate NeverAfter(zone: Zone) {
    forall t, u | t <= u && WholeMinute(Local(zone, u)) :: LocalDay(zone, t) <= LocalDay(zone, u)
  }

  lemma BackwardIsCurrent(p: ParsedCron, zone: Zone, startsAt: int, at: int, r: Option<int>)
    requires NeverBefore(zone) && FoundBackward(p, zone, startsAt, at, r)
    ensures IsCurrent(p, zone, startsAt, at, r)
  {
    forall u | EligibleUpTo(p, zone, startsAt, at, u)
      ensures LocalDay(zone, u) <= LocalDay(zone, at)
      ensures r.Some? ==> u <= r.value
    {
      assert r.Some? && r.value <= u ==> LocalDay(zone, r.value) <= LocalDay(zone, u);
    }
  }

  lemma ForwardIsNext(p: ParsedCron, zone: Zone, startsAt: int, at: int, r: Option<int>)
    requires NeverAfter(zone) && FoundForward(p, zone, startsAt, at, r)
    ensures IsNext(p, zone, startsAt, at, r)
  {
    forall u | EligibleAfter(p, zone, startsAt, at, u)
      ensures LocalDay(zone, SearchFloor(startsAt, at)) <= LocalDay(zone, u)
      ensures r.Some? ==> r.value <= u
    {
      assert r.Some? && u <= r.value ==> LocalDay(zone, u) <= LocalDay(zone, r.value);
    }
  }

  /** The forward search counts its days from the later of the instant and the last before the start. */
  lemma SearchFloorIsLatest(startsAt: int, at: int)
    ensures var floor := SearchFloor(startsAt, at);
            at <= floor && startsAt - 1 <= floor && (floor == at || floor == startsAt - 1)
  {}

  /** The expression that names the date and time an instant shows, every year. */
  function Yearly(zone: Zone, t: int): ParsedCron {
    var local := Local(zone, t);
    var date := DateOf(DayOf(local));
    DateAndTime(MinuteOf(local), HourOf(local), date.day, date.month)
  }

  /** It is what an expression that can be authored parses to. */
  lemma YearlyIsAuthored(zone: Zone, t: int) returns (text: string)
    requires WholeMinute(Local(zone, t))
    ensures FieldsAccepted(Words(text)) && ParsedFields(Words(text)) == Yearly(zone, t)
  {
    var local := Local(zone, t);
    var date := DateOf(DayOf(local));
    WholeMinuteIsNaive(local);
    text := DateAndTimeText(MinuteOf(local), HourOf(local), date.day, date.month);
    DateAndTimeRoundTrip(MinuteOf(local), HourOf(local), date.day, date.month);
  }

  lemma YearlyOccurs(zone: Zone, t: int)
    requires WholeMinute(Local(zone, t))
    ensures Occurs(Yearly(zone, t), zone, t)
    ensures InDomain(Yearly(zone, t))
  {
    var p := Yearly(zone, t);
    WholeMinuteIsNaive(Local(zone, t));
    assert MinuteOf(Local(zone, t)) in p.minutes && HourOf(Local(zone, t)) in p.hours;
    assert DateOf(LocalDay(zone, t)).day in p.daysOfMonth && DateOf(LocalDay(zone, t)).month in p.months;
    assert 0 in p.daysOfWeek;
  }

  /** Occurrences a year or more apart in local days are ordered the same way in time. */
  lemma YearApart(zone: Zone, t: int, u: int)
    requires FoldAware(zone)
    ensures LocalDay(zone, t) + 365 <= LocalDay(zone, u) ==> t < u
  {
    assert -DAY < zone.offset(t) < DAY && -DAY < zone.offset(u) < DAY;
  }

  /** On a yearly expression, another occurrence on another day is at least 365 days away. */
  lemma YearlyApart(zone: Zone, t: int, u: int)
    requires Occurs(Yearly(zone, t), zone, u) && LocalDay(zone, u) != LocalDay(zone, t)
    ensures LocalDay(zone, u) + 365 <= LocalDay(zone, t) || LocalDay(zone, t) + 365 <= LocalDay(zone, u)
  {
    if LocalDay(zone, u) < LocalDay(zone, t) {
      SameMonthAndDayApart(LocalDay(zone, u), LocalDay(zone, t));
    } else {
      SameMonthAndDayApart(LocalDay(zone, t), LocalDay(zone, u));
    }
  }

  /** Where the local day falls back, the backward search misses a real occurrence. */
  lemma BackwardMisses(zone: Zone, t: int, at: int, r: Option<int>)
    requires FoldAware(zone) && t <= at && WholeMinute(Local(zone, t))
    requires LocalDay(zone, at) < LocalDay(zone, t)
    requires FoundBackward(Yearly(zone, t), zone, t, at, r)
    ensures !IsCurrent(Yearly(zone, t), zone, t, at, r)
  {
    YearlyOccurs(zone, t);
    assert EligibleUpTo(Yearly(zone, t), zone, t, at, t);
    if r.Some? {
      YearApart(zone, r.value, t);
      YearlyApart(zone, t, r.value);
    }
  }

  lemma ForwardMisses(zone: Zone, at: int, u: int, r: Option<int>)
    requires FoldAware(zone) && at < u && WholeMinute(Local(zone, u))
    requires LocalDay(zone, u) < LocalDay(zone, at)
    requires FoundForward(Yearly(zone, u), zone, at, at, r)
    ensures !IsNext(Yearly(zone, u), zone, at, at, r)
  {
    YearlyOccurs(zone, u);
    assert EligibleAfter(Yearly(zone, u), zone, at, at, u);
    if r.Some? {
      YearApart(zone, u, r.value);
      YearlyApart(zone, u, r.value);
    }
  }

  /** Every authored expression, start and instant has the greatest occurrence as its outcome. */
  ghost predicate AlwaysGreatest(zone: Zone) {
    forall text, startsAt, at, r |
      FieldsAccepted(Words(text)) && FoundBackward(ParsedFields(Words(text)), zone, startsAt, at, r) ::
      IsCurrent(ParsedFields(Words(text)), zone, startsAt, at, r)
  }

  ghost predicate AlwaysLeast(zone: Zone) {
    forall text, startsAt, at, r |
      FieldsAccepted(Words(text)) && FoundForward(ParsedFields(Words(text)), zone, startsAt, at, r) ::
      IsNext(ParsedFields(Words(text)), zone, startsAt, at, r)
  }

  /**
    `current_boundary_at` returns the greatest occurrence for every authored expression, start
    and instant, exactly in the zones whose local day never falls behind a whole local minute.
  */
  lemma CurrentIsGreatestExactly(zone: Zone)
    requires FoldAware(zone)
    ensures NeverBefore(zone) <==> AlwaysGreatest(zone)
  {
    if NeverBefore(zone) {
      forall text, startsAt, at, r |
        FieldsAccepted(Words(text)) && FoundBackward(ParsedFields(Words(text)), zone, startsAt, at, r)
        ensures IsCurrent(ParsedFields(Words(text)), zone, startsAt, at, r)
      {
        BackwardIsCurrent(ParsedFields(Words(text)), zone, startsAt, at, r);
      }
    } else {
      var t, at :| t <= at && WholeMinute(Local(zone, t)) && LocalDay(zone, at) < LocalDay(zone, t);
      var text := YearlyIsAuthored(zone, t);
      var r := BackwardReturns(Yearly(zone, t), zone, t, at);
      BackwardMisses(zone, t, at, r);
    }
  }

  /** `next_boundary_after` likewise, in the zones whose local day never runs ahead of one. */
  lemma NextIsLeastExactly(zone: Zone)
    requires FoldAware(zone)
    ensures NeverAfter(zone) <==> AlwaysLeast(zone)
  {
    if NeverAfter(zone) {
      forall text, startsAt, at, r |
        FieldsAccepted(Words(text)) && FoundForward(ParsedFields(Words(text)), zone, startsAt, at, r)
        ensures IsNext(ParsedFields(Words(text)), zone, startsAt, at, r)
      {
        ForwardIsNext(ParsedFields(Words(text)), zone, startsAt, at, r);
      }
    } else {
      var at, u :| at <= u && WholeMinute(Local(zone, u)) && LocalDay(zone, u) < LocalDay(zone, at);
      var text := YearlyIsAuthored(zone, u);
      var r := ForwardReturns(Yearly(zone, u), zone, at, at);
      ForwardMisses(zone, at, u, r);
    }
  }

  /** The backward search has exactly one outcome. */
  lemma BackwardUnique(p: ParsedCron, zone: Zone, startsAt: int, at: int, r: Option<int>, s: Option<int>)
    requires FoundBackward(p, zone, startsAt, at, r) && FoundBackward(p, zone, startsAt, at, s)
    ensures r == s
  {
    if r.Some? && s.Some? {
      assert EligibleUpTo(p, zone, startsAt, at, r.value) && EligibleUpTo(p, zone, startsAt, at, s.value);
    }
  }

  lemma ForwardUnique(p: ParsedCron, zone: Zone, startsAt: int, at: int, r: Option<int>, s: Option<int>)
    requires FoundForward(p, zone, startsAt, at, r) && FoundForward(p, zone, startsAt, at, s)
    ensures r == s
  {
    if r.Some? && s.Some? {
      assert EligibleAfter(p, zone, startsAt, at, r.value) && EligibleAfter(p, zone, startsAt, at, s.value);
    }
  }

  /** Nothing lies strictly between the current boundary and the next one. */
  lemma NothingBetween(p: ParsedCron, zone: Zone, startsAt: int, at: int, current: Option<int>, next: Option<int>,
      u: int)
    requires NeverBefore(zone) && NeverAfter(zone)
    requires FoundBackward(p, zone, startsAt, at, current) && FoundForward(p, zone, startsAt, at, next)
    requires current.Some? && next.Some? && Occurs(p, zone, u)
    ensures !(current.value < u < next.value)
  {
    BackwardIsCurrent(p, zone, startsAt, at, current);
    ForwardIsNext(p, zone, startsAt, at, next);
  }

  // ---------------------------------------------------------------- when a search finds nothing

  /** Some listed minute of the day is one the zone's clock shows. */
  ghost predicate Shown(p: ParsedCron, zone: Zone, day: int) {
    exists t :: OnDay(p, zone, day, t)
  }

  /** Every matching one of the days shows some listed minute. */
  ghost predicate MatchesShown(p: ParsedCron, zone: Zone, start: int, count: nat) {
    forall day | start <= day < start + count && DayMatches(day, p) :: Shown(p, zone, day)
  }

  /** Some occurrence of one local day is still to come. */
  ghost predicate LeftOn(p: ParsedCron, zone: Zone, startsAt: int, at: int, day: int) {
    exists t :: EligibleAfter(p, zone, startsAt, at, t) && LocalDay(zone, t) == day
  }

  /** What a later day shows is still to come. */
  lemma LaterDayIsLeft(p: ParsedCron, zone: Zone, startsAt: int, at: int, day: int)
    requires NeverBefore(zone) && day > LocalDay(zone, SearchFloor(startsAt, at)) && DayMatches(day, p)
    ensures LeftOn(p, zone, startsAt, at, day) <==> Shown(p, zone, day)
  {
    if t :| OnDay(p, zone, day, t) {
      assert t > SearchFloor(startsAt, at);
      assert EligibleAfter(p, zone, startsAt, at, t);
    }
  }

  /**
    `next_boundary_after` is refused exactly when nothing is left of the local day it starts
    from and no other searched day that matches shows a listed minute.
  */
  lemma NextRefusedExactly(p: ParsedCron, zone: Zone, startsAt: int, at: int, r: Option<int>)
    requires NeverBefore(zone) && FoundForward(p, zone, startsAt, at, r)
    ensures var first := LocalDay(zone, SearchFloor(startsAt, at));
            r.None? <==> !LeftOn(p, zone, startsAt, at, first)
                         && forall day | first < day < first + SEARCH_DAYS && DayMatches(day, p) :: !Shown(p, zone, day)
  {
    var first := LocalDay(zone, SearchFloor(startsAt, at));
    forall day | first < day < first + SEARCH_DAYS && DayMatches(day, p)
      ensures LeftOn(p, zone, startsAt, at, day) <==> Shown(p, zone, day)
    {
      LaterDayIsLeft(p, zone, startsAt, at, day);
    }
    if r.Some? { assert LeftOn(p, zone, startsAt, at, LocalDay(zone, r.value)); }
  }

  /**
    Where every searched day that matches shows a listed minute, that is exactly when the
    expression matches no date, or only 29 February with the other searched days in the gap a
    skipped century leaves.
  */
  lemma NextRefusedInGap(p: ParsedCron, zone: Zone, startsAt: int, at: int, r: Option<int>)
    requires InDomain(p) && NeverBefore(zone) && FoundForward(p, zone, startsAt, at, r)
    requires MatchesShown(p, zone, LocalDay(zone, SearchFloor(startsAt, at)) + 1, SEARCH_DAYS - 1)
    ensures var first := LocalDay(zone, SearchFloor(startsAt, at));
            r.None? <==> !LeftOn(p, zone, startsAt, at, first)
                         && (CanMatch(p) ==> OnlyLeapDays(p) && InSkippedGap(first + 1, SEARCH_DAYS - 1))
  {
    var first := LocalDay(zone, SearchFloor(startsAt, at));
    NextRefusedExactly(p, zone, startsAt, at, r);
    if CanMatch(p) { SearchWindowSuffices(p, first + 1, SEARCH_DAYS - 1); }
  }

  /** Some occurrence of one local day is due at `at`. */
  ghost predicate DueOn(p: ParsedCron, zone: Zone, startsAt: int, at: int, day: int) {
    exists t :: EligibleUpTo(p, zone, startsAt, at, t) && LocalDay(zone, t) == day
  }

  /** Some listed minute the clock shows on the day is not before the schedule's start. */
  ghost predicate ShownSince(p: ParsedCron, zone: Zone, startsAt: int, day: int) {
    exists t :: OnDay(p, zone, day, t) && startsAt <= t
  }

  /** What an earlier day shows since the start is due. */
  lemma EarlierDayIsDue(p: ParsedCron, zone: Zone, startsAt: int, at: int, day: int)
    requires NeverAfter(zone) && day < LocalDay(zone, at) && DayMatches(day, p)
    ensures DueOn(p, zone, startsAt, at, day) <==> ShownSince(p, zone, startsAt, day)
  {
    if t :| OnDay(p, zone, day, t) && startsAt <= t {
      assert t <= at;
      assert EligibleUpTo(p, zone, startsAt, at, t);
    }
  }

  /**
    `current_boundary_at` has nothing to return exactly when nothing of the local day of `at`
    is due and no other searched day that matches shows a listed minute since the start.
  */
  lemma CurrentMissingExactly(p: ParsedCron, zone: Zone, startsAt: int, at: int, r: Option<int>)
    requires NeverAfter(zone) && FoundBackward(p, zone, startsAt, at, r)
    ensures var first := LocalDay(zone, at);
            r.None? <==> !DueOn(p, zone, startsAt, at, first)
                         && forall day | first - SEARCH_DAYS < day < first && DayMatches(day, p) ::
                              !ShownSince(p, zone, startsAt, day)
  {
    var first := LocalDay(zone, at);
    forall day | first - SEARCH_DAYS < day < first && DayMatches(day, p)
      ensures DueOn(p, zone, startsAt, at, day) <==> ShownSince(p, zone, startsAt, day)
    {
      EarlierDayIsDue(p, zone, startsAt, at, day);
    }
    if r.Some? { assert DueOn(p, zone, startsAt, at, LocalDay(zone, r.value)); }
  }

  /**
    For a schedule that started before the searched days, each of which shows a listed minute
    if it matches, that is exactly when the expression matches no date, or only 29 February
    with the other searched days in the gap a skipped century leaves.
  */
  lemma CurrentMissingInGap(p: ParsedCron, zone: Zone, startsAt: int, at: int, r: Option<int>)
    requires InDomain(p) && NeverBefore(zone) && NeverAfter(zone) && FoundBackward(p, zone, startsAt, at, r)
    requires LocalDay(zone, startsAt) <= LocalDay(zone, at) - SEARCH_DAYS
    requires MatchesShown(p, zone, LocalDay(zone, at) - SEARCH_DAYS + 1, SEARCH_DAYS - 1)
    ensures var first := LocalDay(zone, at);
            r.None? <==> !DueOn(p, zone, startsAt, at, first)
                         && (CanMatch(p) ==>
                               OnlyLeapDays(p) && InSkippedGap(first - SEARCH_DAYS + 1, SEARCH_DAYS - 1))
  {
    var first := LocalDay(zone, at);
    CurrentMissingExactly(p, zone, startsAt, at, r);
    forall day | first - SEARCH_DAYS < day < first && DayMatches(day, p)
      ensures ShownSince(p, zone, startsAt, day)
    {
      var t :| OnDay(p, zone, day, t);
      assert startsAt <= t;
    }
    if CanMatch(p) { SearchWindowSuffices(p, first - SEARCH_DAYS + 1, SEARCH_DAYS - 1); }
  }

  /** The loop's outcome exists, whatever the arguments: a count-down over the searched days. */
  lemma BackwardReturns(p: ParsedCron, zone: Zone, startsAt: int, at: int) returns (r: Option<int>)
    ensures FoundBackward(p, zone, startsAt, at, r)
  {
    var first := LocalDay(zone, at);
    r := None;
    var n := 0;
    while n < SEARCH_DAYS
      invariant n <= SEARCH_DAYS
      invariant forall u | EligibleUpTo(p, zone, startsAt, at, u) :: !(first - n < LocalDay(zone, u) <= first)
    {
      if u :| EligibleUpTo(p, zone, startsAt, at, u) && LocalDay(zone, u) == first - n {
        var best := GreatestOn(p, zone, startsAt, at, u);
        r := Some(best);
        return;
      }
      n := n + 1;
    }
  }

  lemma GreatestOn(p: ParsedCron, zone: Zone, startsAt: int, at: int, t: int) returns (best: int)
    requires EligibleUpTo(p, zone, startsAt, at, t)
    ensures GreatestOfDay(p, zone, startsAt, at, best) && LocalDay(zone, best) == LocalDay(zone, t)
    decreases at - t
  {
    if u :| EligibleUpTo(p, zone, startsAt, at, u) && LocalDay(zone, u) == LocalDay(zone, t) && t < u {
      best := GreatestOn(p, zone, startsAt, at, u);
    } else {
      best := t;
    }
  }

  lemma ForwardReturns(p: ParsedCron, zone: Zone, startsAt: int, at: int) returns (r: Option<int>)
    ensures FoundForward(p, zone, startsAt, at, r)
  {
    var first := LocalDay(zone, SearchFloor(startsAt, at));
    r := None;
    var n := 0;
    while n < SEARCH_DAYS
      invariant n <= SEARCH_DAYS
      invariant forall u | EligibleAfter(p, zone, startsAt, at, u) :: !(first <= LocalDay(zone, u) < first + n)
    {
      if u :| EligibleAfter(p, zone, startsAt, at, u) && LocalDay(zone, u) == first + n {
        var best := LeastOn(p, zone, startsAt, at, u);
        r := Some(best);
        return;
      }
      n := n + 1;
    }
  }

  lemma LeastOn(p: ParsedCron, zone: Zone, startsAt: int, at: int, t: int) returns (best: int)
    requires EligibleAfter(p, zone, startsAt, at, t)
    ensures LeastOfDay(p, zone, startsAt, at, best) && LocalDay(zone, best) == LocalDay(zone, t)
    decreases t - at
  {
    if u :| EligibleAfter(p, zone, startsAt, at, u) && LocalDay(zone, u) == LocalDay(zone, t) && u < t {
      best := LeastOn(p, zone, startsAt, at, u);
    } else {
      best := t;
    }
  }

  // ---------------------------------------------------------------- eligible boundaries

  /**
    A boundary is eligible exactly when it is a real occurrence at or before the evaluation
    time and no earlier than the schedule's start, in every zone.
  */
  method IsEligibleCronBoundary(p: ParsedCron, zone: Zone, startsAt: int, boundaryAt: int, at: int)
    returns (eligible: bool)
    requires FoldAware(zone)
    ensures eligible <==> Occurs(p, zone, boundaryAt) && startsAt <= boundaryAt <= at
  {
    if boundaryAt > at { return false; }
    var current := CurrentCronBoundary(p, zone, startsAt, boundaryAt);
    if EligibleUpTo(p, zone, startsAt, boundaryAt, boundaryAt) {
      assert current.Some?;
      assert EligibleUpTo(p, zone, startsAt, boundaryAt, current.value);
    }
    return current == Some(boundaryAt);
  }

  // ---------------------------------------------------------------- interval schedules

  /** An instant a whole number of steps after the anchor. */
  predicate OnInterval(anchor: int, step: int, t: int)
    requires step >= 1
  {
    t >= anchor && (t - anchor) % step == 0
  }

  function CurrentInterval(anchor: int, step: int, at: int): Option<int>
    requires step >= 1
  {
    if at < anchor then None else Some(anchor + (at - anchor) / step * step)
  }

  function NextInterval(anchor: int, step: int, at: int): int
    requires step >= 1
  {
    if at < anchor then anchor else anchor + ((at - anchor) / step + 1) * step
  }

  lemma {:induction false} MultipleRemainder(k: nat, step: int)
    requires step >= 1
    ensures k * step % step == 0 && k * step / step == k
  {
    if k > 0 {
      MultipleRemainder(k - 1, step);
      StepUp((k - 1) * step, step);
      assert k * step == (k - 1) * step + step;
    } else {
      assert k * step == 0;
    }
  }

  lemma StepUp(x: int, step: int)
    requires x >= 0 && step >= 1
    ensures (x + step) % step == x % step && (x + step) / step == x / step + 1
  {
    var q, r := x / step, x % step;
    assert x == q * step + r;
    assert x + step == (q + 1) * step + r;
    QuotientUnique(x + step, q + 1, r, step);
  }

  lemma QuotientUnique(x: int, q: int, r: int, step: int)
    requires step >= 1 && x == q * step + r && 0 <= r < step
    ensures x / step == q && x % step == r
  {
    var q', r' := x / step, x % step;
    Difference(q, q', step);
    Multiples(1, q - q', step);
    Multiples(1, q' - q, step);
  }

  lemma Difference(a: int, b: int, step: int)
    ensures (a - b) * step == a * step - b * step
    ensures (b - a) * step == b * step - a * step
  {}

  /**
    The interval form needs no search: it returns the greatest multiple of the step up to
    an instant and the least one after it, with nothing between.
  */
  lemma IntervalBoundaries(anchor: int, step: int, at: int)
    requires step >= 1
    ensures var c := CurrentInterval(anchor, step, at);
            && (c.None? <==> forall u | OnInterval(anchor, step, u) :: u > at)
            && (c.Some? ==> OnInterval(anchor, step, c.value) && c.value <= at
                            && forall u | OnInterval(anchor, step, u) && u <= at :: u <= c.value)
    ensures var n := NextInterval(anchor, step, at);
            && OnInterval(anchor, step, n) && at < n
            && forall u | OnInterval(anchor, step, u) && at < u :: n <= u
  {
    if at < anchor {
      assert OnInterval(anchor, step, anchor) by { MultipleRemainder(0, step); }
    } else {
      var q := (at - anchor) / step;
      assert at - anchor == q * step + (at - anchor) % step;
      MultipleRemainder(q, step);
      MultipleRemainder(q + 1, step);
      assert (q + 1) * step == q * step + step;
      assert OnInterval(anchor, step, anchor + q * step);
      forall u | OnInterval(anchor, step, u)
        ensures u <= at ==> u <= anchor + q * step
        ensures at < u ==> anchor + (q + 1) * step <= u
      {
        var k := (u - anchor) / step;
        assert u - anchor == k * step;
        if k <= q { Multiples(k, q, step); } else { Multiples(q + 1, k, step); }
      }
    }
  }

  lemma Multiples(a: int, b: int, step: int)
    requires step >= 1
    ensures a <= b ==> a * step <= b * step
  {}

  /** An interval boundary is eligible exactly when it is on the interval and at or before `at`. */
  method IsEligibleIntervalBoundary(anchor: int, everyMinutes: nat, boundaryAt: int, at: int)
    returns (eligible: bool)
    requires everyMinutes >= 1
    ensures eligible <==> boundaryAt <= at && OnInterval(anchor, everyMinutes * MINUTE, boundaryAt)
  {
    if boundaryAt > at { return false; }
    IntervalBoundaries(anchor, everyMinutes * MINUTE, boundaryAt);
    return CurrentInterval(anchor, everyMinutes * MINUTE, boundaryAt) == Some(boundaryAt);
  }

  // ---------------------------------------------------------------- a zone with one transition

  /**
    The zone database's rule for one transition at instant `turn` from offset `before` to
    offset `after`: a wall time is read with the later of the two wall-clock turns on the
    first fold and the earlier one on the second.
  */
  function OneTransition(turn: int, before: int, after: int): Zone {
    var late, early := if before > after then before else after, if before > after then after else before;
    Zone((t: int) => if t < turn then before else after,
         (naive: int, fold: bool) =>
           if naive < turn + (if fold then early else late) then before else after)
  }

  lemma OneTransitionFoldAware(turn: int, before: int, after: int)
    requires -DAY < before < DAY && -DAY < after < DAY
    ensures FoldAware(OneTransition(turn, before, after))
  {}

  /**
    A skipped local time has no instant, a repeated one has two, every other has one.
  */
  lemma GapOrdinaryAndFold(turn: int, before: int, after: int, naive: int)
    ensures var n := |LocalToUtcInstants(OneTransition(turn, before, after), naive)|;
            n == if turn + before <= naive < turn + after then 0
                 else if turn + after <= naive < turn + before then 2
                 else 1
  {}

  /** The last whole local minute before the turn. */
  function LastMinuteBefore(turn: int, before: int): int {
    (turn + before - 1) / MINUTE * MINUTE
  }

  /**
    Such a zone is one where `current_boundary_at` is right exactly when the turn does not
    set the wall clock back to a day before that of the last whole minute already shown.
  */
  lemma OneTransitionNeverBefore(turn: int, before: int, after: int)
    ensures NeverBefore(OneTransition(turn, before, after))
            <==> DayOf(LastMinuteBefore(turn, before)) <= DayOf(turn + after)
  {
    var zone := OneTransition(turn, before, after);
    var last := LastMinuteBefore(turn, before);
    LastMinuteIsLast(turn + before, last);
    assert Local(zone, last - before) == last;
    assert Local(zone, turn) == turn + after;
    if NeverBefore(zone) {
      assert LocalDay(zone, last - before) <= LocalDay(zone, turn);
    }
    if DayOf(last) <= DayOf(turn + after) {
      forall t, u | t <= u && WholeMinute(Local(zone, t))
        ensures LocalDay(zone, t) <= LocalDay(zone, u)
      {
        LastMinuteIsLast(turn + before, Local(zone, t));
        DaysAscend(Local(zone, t), Local(zone, u));
        DaysAscend(Local(zone, t), last);
        DaysAscend(turn + after, Local(zone, u));
      }
    }
  }

  /** The first whole local minute from the turn on. */
  function FirstMinuteAfter(turn: int, after: int): int {
    (turn + after + MINUTE - 1) / MINUTE * MINUTE
  }

  /**
    And one where `next_boundary_after` is right exactly when the turn does not set the wall
    clock back so far that the first whole minute it shows is of a day already past.
  */
  lemma OneTransitionNeverAfter(turn: int, before: int, after: int)
    ensures NeverAfter(OneTransition(turn, before, after))
            <==> DayOf(turn + before - 1) <= DayOf(FirstMinuteAfter(turn, after))
  {
    var zone := OneTransition(turn, before, after);
    var first := FirstMinuteAfter(turn, after);
    FirstMinuteIsFirst(turn + after, first);
    assert Local(zone, first - after) == first;
    assert Local(zone, turn - 1) == turn - 1 + before;
    if NeverAfter(zone) {
      assert LocalDay(zone, turn - 1) <= LocalDay(zone, first - after);
    }
    if DayOf(turn + before - 1) <= DayOf(first) {
      forall t, u | t <= u && WholeMinute(Local(zone, u))
        ensures LocalDay(zone, t) <= LocalDay(zone, u)
      {
        NotPastTurn(turn, before, after, t, u);
      }
    }
  }

  lemma NotPastTurn(turn: int, before: int, after: int, t: int, u: int)
    requires DayOf(turn + before - 1) <= DayOf(FirstMinuteAfter(turn, after))
    requires t <= u && WholeMinute(Local(OneTransition(turn, before, after), u))
    ensures LocalDay(OneTransition(turn, before, after), t) <= LocalDay(OneTransition(turn, before, after), u)
  {
    var zone, first := OneTransition(turn, before, after), FirstMinuteAfter(turn, after);
    FirstMinuteIsFirst(turn + after, Local(zone, u));
    DaysAscend(Local(zone, t), Local(zone, u));
    DaysAscend(first, Local(zone, u));
    DaysAscend(Local(zone, t), turn + before - 1);
  }

  lemma FirstMinuteIsFirst(instant: int, local: int)
    ensures var first := (instant + MINUTE - 1) / MINUTE * MINUTE;
            && WholeMinute(first) && instant <= first
            && (WholeMinute(local) && instant <= local ==> first <= local)
  {
    LastMinuteIsLast(instant + MINUTE, local);
    var k := (instant + MINUTE - 1) / MINUTE;
    if WholeMinute(local) && instant <= local {
      assert local == local / MINUTE * MINUTE;
    }
  }

  /** A clock set back one hour at 00:01 of day 0, to 23:01 of the day before. */
  function MidnightFold(): Zone { OneTransition(MINUTE, 0, -HOUR) }

  lemma MidnightFoldShows()
    ensures LocalDay(MidnightFold(), MINUTE - 1) == 0 && Local(MidnightFold(), MINUTE) == Naive(-1, 23, 1)
  {
    Quotient(MINUTE - 1, 0, MINUTE - 1, DAY);
  }

  lemma MidnightFoldTurnsBack()
    ensures DayOf(LastMinuteBefore(MINUTE, 0)) == DayOf(MINUTE - 1) == 0
    ensures DayOf(MINUTE - HOUR) == DayOf(FirstMinuteAfter(MINUTE, -HOUR)) == -1
  {
    Quotient(MINUTE - 1, 0, MINUTE - 1, MINUTE);
    Quotient(MINUTE - 1, 0, MINUTE - 1, DAY);
    Quotient(MINUTE - HOUR, -1, DAY + MINUTE - HOUR, DAY);
    Quotient(MINUTE - HOUR + MINUTE - 1, -59, MINUTE - 1, MINUTE);
  }

  /** In that zone both searches return wrong boundaries for some authored expression. */
  lemma MidnightFoldFails()
    ensures FoldAware(MidnightFold()) && !NeverBefore(MidnightFold()) && !NeverAfter(MidnightFold())
    ensures !AlwaysGreatest(MidnightFold()) && !AlwaysLeast(MidnightFold())
  {
    MidnightFoldTurnsBack();
    OneTransitionFoldAware(MINUTE, 0, -HOUR);
    OneTransitionNeverBefore(MINUTE, 0, -HOUR);
    OneTransitionNeverAfter(MINUTE, 0, -HOUR);
    CurrentIsGreatestExactly(MidnightFold());
    NextIsLeastExactly(MidnightFold());
  }

  lemma DaysAscend(a: int, b: int)
    ensures a <= b ==> DayOf(a) <= DayOf(b)
  {}

  /** No whole minute lies between the last one before an instant and the instant. */
  lemma LastMinuteIsLast(instant: int, local: int)
    ensures WholeMinute((instant - 1) / MINUTE * MINUTE) && (instant - 1) / MINUTE * MINUTE < instant
    ensures WholeMinute(local) && local < instant ==> local <= (instant - 1) / MINUTE * MINUTE
  {
    var k := (instant - 1) / MINUTE;
    Quotient(k * MINUTE, k, 0, MINUTE);
    if WholeMinute(local) && local < instant {
      assert local == local / MINUTE * MINUTE;
    }
  }
}

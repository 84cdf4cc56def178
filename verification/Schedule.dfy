/**
  The schedule engine (ergasterion/source_delivery.py:1514-1617).

  An instant is a number of microseconds of UTC, a local time a number of microseconds of
  the wall clock, both counted from midnight before day 0 of the calendar.
*/
module Schedule {
  import opened Basics
  import opened Cron
  import opened CronDays

  const MINUTE: int := 60_000_000
  const HOUR: int := 3_600_000_000
  const DAY: int := 86_400_000_000

  // ---------------------------------------------------------------- local time

  /**
    A time zone: the offset in force at an instant, and the offset a wall-clock reading is
    resolved with on its first (`false`) and second (`true`) fold.
  */
  datatype Zone = Zone(offset: int -> int, wallOffset: (int, bool) -> int)

  function Local(zone: Zone, t: int): int { t + zone.offset(t) }

  function DayOf(local: int): int { local / DAY }

  function LocalDay(zone: Zone, t: int): int { DayOf(Local(zone, t)) }

  predicate WholeMinute(local: int) { local % MINUTE == 0 }

  function HourOf(local: int): int { (local % DAY) / HOUR }

  function MinuteOf(local: int): int { (local % HOUR) / MINUTE }

  function Naive(day: int, hour: int, minute: int): int { day * DAY + hour * HOUR + minute * MINUTE }

  lemma Quotient(n: int, q: int, r: int, unit: int)
    requires unit in {MINUTE, HOUR, DAY} && n == q * unit + r && 0 <= r < unit
    ensures n / unit == q && n % unit == r
  {}

  lemma NaiveParts(day: int, hour: int, minute: int)
    requires 0 <= hour <= 23 && 0 <= minute <= 59
    ensures var n := Naive(day, hour, minute);
            WholeMinute(n) && DayOf(n) == day && HourOf(n) == hour && MinuteOf(n) == minute
  {
    var n := Naive(day, hour, minute);
    var ofDay := hour * HOUR + minute * MINUTE;
    Quotient(n, day, ofDay, DAY);
    Quotient(ofDay, hour, minute * MINUTE, HOUR);
    Quotient(n, day * 24 + hour, minute * MINUTE, HOUR);
    Quotient(n, (day * 24 + hour) * 60 + minute, 0, MINUTE);
    Quotient(minute * MINUTE, minute, 0, MINUTE);
  }

  lemma WholeMinuteIsNaive(local: int)
    requires WholeMinute(local)
    ensures local == Naive(DayOf(local), HourOf(local), MinuteOf(local))
    ensures 0 <= HourOf(local) <= 23 && 0 <= MinuteOf(local) <= 59
  {
    var rest := local % DAY;
    assert local == DAY * DayOf(local) + rest;
    assert rest == HOUR * HourOf(local) + rest % HOUR;
    assert local == HOUR * (24 * DayOf(local) + HourOf(local)) + rest % HOUR;
    assert rest % HOUR == local % HOUR;
    assert local == MINUTE * (local / MINUTE);
    assert local % HOUR == MINUTE * (local / MINUTE - 60 * (local / HOUR));
  }

  /** The instant a wall-clock reading stands for on one fold. */
  function Resolve(zone: Zone, naive: int, fold: bool): int {
    naive - zone.wallOffset(naive, fold)
  }

  /**
    PEP 495: the two folds of a local time reach every instant that shows it, and offsets
    stay under 24 hours either way.
  */
  ghost predicate FoldAware(zone: Zone) {
    && (forall t :: Resolve(zone, Local(zone, t), false) == t || Resolve(zone, Local(zone, t), true) == t)
    && (forall t :: -DAY < zone.offset(t) < DAY)
  }

  /** Fold-aware resolution: the instants of a local time, ascending, none of them twice. */
  function LocalToUtcInstants(zone: Zone, naive: int): seq<int> {
    var first, second := Resolve(zone, naive, false), Resolve(zone, naive, true);
    var a := if Local(zone, first) == naive then [first] else [];
    var b := if Local(zone, second) == naive && second != first then [second] else [];
    if a != [] && b != [] && second < first then b + a else a + b
  }

  /** Resolution returns exactly the instants whose local time is the one asked for. */
  lemma ResolutionIsExact(zone: Zone, naive: int)
    requires FoldAware(zone)
    ensures forall t :: t in LocalToUtcInstants(zone, naive) <==> Local(zone, t) == naive
    ensures Distinct(LocalToUtcInstants(zone, naive)) && |LocalToUtcInstants(zone, naive)| <= 2
  {
    forall t
      ensures t in LocalToUtcInstants(zone, naive) <==> Local(zone, t) == naive
    {
      if Local(zone, t) == naive {
        assert Resolve(zone, Local(zone, t), false) == t || Resolve(zone, Local(zone, t), true) == t;
      }
    }
  }

  // ---------------------------------------------------------------- occurrences

  /** `t` shows a listed hour and minute of one local day, on the minute. */
  predicate OnDay(p: ParsedCron, zone: Zone, day: int, t: int) {
    var local := Local(zone, t);
    WholeMinute(local) && DayOf(local) == day && HourOf(local) in p.hours && MinuteOf(local) in p.minutes
  }

  /** A scheduled occurrence: a listed hour and minute of a matching local day. */
  predicate Occurs(p: ParsedCron, zone: Zone, t: int) {
    OnDay(p, zone, LocalDay(zone, t), t) && DayMatches(LocalDay(zone, t), p)
  }

  /** Insertion sort for Python's `sorted` on instants. */
  function InsertInstant(t: int, s: seq<int>): seq<int> {
    if s == [] || t <= s[0] then [t] + s else [s[0]] + InsertInstant(t, s[1..])
  }

  function SortInstants(s: seq<int>): seq<int> {
    if s == [] then [] else InsertInstant(s[0], SortInstants(s[1..]))
  }

  predicate Ascending(s: seq<int>) {
    forall i, j | 0 <= i < j < |s| :: s[i] <= s[j]
  }

  lemma {:induction false} InsertInstantKeeps(t: int, s: seq<int>)
    requires Ascending(s)
    ensures Ascending(InsertInstant(t, s))
    ensures forall x :: x in InsertInstant(t, s) <==> x == t || x in s
  {
    if s != [] {
      assert s == [s[0]] + s[1..];
      if t > s[0] {
        var rest := InsertInstant(t, s[1..]);
        InsertInstantKeeps(t, s[1..]);
        forall j | 0 <= j < |rest|
          ensures s[0] <= rest[j]
        {
          assert rest[j] == t || rest[j] in s[1..];
        }
      }
    }
  }

  lemma {:induction false} SortInstantsKeeps(s: seq<int>)
    ensures Ascending(SortInstants(s))
    ensures forall x :: x in SortInstants(s) <==> x in s
  {
    if s != [] {
      SortInstantsKeeps(s[1..]);
      InsertInstantKeeps(s[0], SortInstants(s[1..]));
      assert s == [s[0]] + s[1..];
    }
  }

  /** Every occurrence of one local day, ascending. */
  method CronDayOccurrences(day: int, p: ParsedCron, zone: Zone) returns (occurrences: seq<int>)
    requires FoldAware(zone)
    ensures Ascending(occurrences)
    ensures forall t :: t in occurrences <==> OnDay(p, zone, day, t)
  {
    occurrences := [];
    for hour := 0 to 24
      invariant forall t :: t in occurrences <==> OnDay(p, zone, day, t) && HourOf(Local(zone, t)) < hour
    {
      if hour in p.hours {
        for minute := 0 to 60
          invariant forall t :: t in occurrences <==>
                      OnDay(p, zone, day, t) && (|| HourOf(Local(zone, t)) < hour
                                                 || (HourOf(Local(zone, t)) == hour
                                                   && MinuteOf(Local(zone, t)) < minute))
        {
          if minute in p.minutes {
            InstantsShow(zone, day, hour, minute);
            occurrences := occurrences + LocalToUtcInstants(zone, Naive(day, hour, minute));
          }
        }
        forall t | OnDay(p, zone, day, t)
          ensures MinuteOf(Local(zone, t)) < 60
        {
          WholeMinuteIsNaive(Local(zone, t));
        }
      }
    }
    forall t | OnDay(p, zone, day, t)
      ensures HourOf(Local(zone, t)) < 24
    {
      WholeMinuteIsNaive(Local(zone, t));
    }
    SortInstantsKeeps(occurrences);
    occurrences := SortInstants(occurrences);
  }

  /** The instants of a local time are those that show its day, hour and minute. */
  lemma InstantsShow(zone: Zone, day: int, hour: int, minute: int)
    requires FoldAware(zone) && 0 <= hour <= 23 && 0 <= minute <= 59
    ensures forall t :: t in LocalToUtcInstants(zone, Naive(day, hour, minute)) <==>
              (var local := Local(zone, t);
               WholeMinute(local) && DayOf(local) == day && HourOf(local) == hour && MinuteOf(local) == minute)
  {
    ResolutionIsExact(zone, Naive(day, hour, minute));
    NaiveParts(day, hour, minute);
    forall t | WholeMinute(Local(zone, t))
      ensures Local(zone, t) == Naive(LocalDay(zone, t), HourOf(Local(zone, t)), MinuteOf(Local(zone, t)))
    {
      WholeMinuteIsNaive(Local(zone, t));
    }
  }

  // ---------------------------------------------------------------- what a search finds

  /** An occurrence from the schedule's start up to an instant. */
  predicate EligibleUpTo(p: ParsedCron, zone: Zone, startsAt: int, at: int, t: int) {
    Occurs(p, zone, t) && startsAt <= t <= at
  }

  predicate EligibleAfter(p: ParsedCron, zone: Zone, startsAt: int, at: int, t: int) {
    Occurs(p, zone, t) && startsAt <= t && at < t
  }

  /** `t` is the greatest eligible instant among those on its own local day. */
  ghost predicate GreatestOfDay(p: ParsedCron, zone: Zone, startsAt: int, at: int, t: int) {
    && EligibleUpTo(p, zone, startsAt, at, t)
    && forall u | EligibleUpTo(p, zone, startsAt, at, u) && LocalDay(zone, u) == LocalDay(zone, t) :: u <= t
  }

  ghost predicate LeastOfDay(p: ParsedCron, zone: Zone, startsAt: int, at: int, t: int) {
    && EligibleAfter(p, zone, startsAt, at, t)
    && forall u | EligibleAfter(p, zone, startsAt, at, u) && LocalDay(zone, u) == LocalDay(zone, t) :: t <= u
  }

  /**
    What the backward search returns: the greatest eligible instant of the first searched
    day that has one, counting down from the local day of `at`, or nothing.
  */
  ghost predicate FoundBackward(p: ParsedCron, zone: Zone, startsAt: int, at: int, r: Option<int>) {
    var first := LocalDay(zone, at);
    match r
    case Some(b) =>
      && GreatestOfDay(p, zone, startsAt, at, b)
      && first - SEARCH_DAYS < LocalDay(zone, b) <= first
      && forall u | EligibleUpTo(p, zone, startsAt, at, u) :: !(LocalDay(zone, b) < LocalDay(zone, u) <= first)
    case None =>
      forall u | EligibleUpTo(p, zone, startsAt, at, u) :: !(first - SEARCH_DAYS < LocalDay(zone, u) <= first)
  }

  /** The instant a forward search counts its days from. */
  function SearchFloor(startsAt: int, at: int): int {
    if at >= startsAt - 1 then at else startsAt - 1
  }

  ghost predicate FoundForward(p: ParsedCron, zone: Zone, startsAt: int, at: int, r: Option<int>) {
    var first := LocalDay(zone, SearchFloor(startsAt, at));
    match r
    case Some(b) =>
      && LeastOfDay(p, zone, startsAt, at, b)
      && first <= LocalDay(zone, b) < first + SEARCH_DAYS
      && forall u | EligibleAfter(p, zone, startsAt, at, u) :: !(first <= LocalDay(zone, u) < LocalDay(zone, b))
    case None =>
      forall u | EligibleAfter(p, zone, startsAt, at, u) :: !(first <= LocalDay(zone, u) < first + SEARCH_DAYS)
  }

  /** The candidates of one day that lie between two bounds, as their greatest. */
  method GreatestBetween(occurrences: seq<int>, low: int, high: int) returns (best: Option<int>)
    ensures best.Some? ==> best.value in occurrences && low <= best.value <= high
    ensures forall t | t in occurrences && low <= t <= high :: best.Some? && t <= best.value
  {
    best := None;
    for i := 0 to |occurrences|
      invariant best.Some? ==> best.value in occurrences && low <= best.value <= high
      invariant forall k | 0 <= k < i && low <= occurrences[k] <= high :: best.Some? && occurrences[k] <= best.value
    {
      var t := occurrences[i];
      if low <= t <= high && (best.None? || t > best.value) { best := Some(t); }
    }
  }

  method LeastFrom(occurrences: seq<int>, low: int, after: int) returns (best: Option<int>)
    ensures best.Some? ==> best.value in occurrences && low <= best.value && after < best.value
    ensures forall t | t in occurrences && low <= t && after < t :: best.Some? && best.value <= t
  {
    best := None;
    for i := 0 to |occurrences|
      invariant best.Some? ==> best.value in occurrences && low <= best.value && after < best.value
      invariant forall k | 0 <= k < i && low <= occurrences[k] && after < occurrences[k] ::
                  best.Some? && best.value <= occurrences[k]
    {
      var t := occurrences[i];
      if low <= t && after < t && (best.None? || t < best.value) { best := Some(t); }
    }
  }

  method CurrentCronBoundary(p: ParsedCron, zone: Zone, startsAt: int, at: int) returns (r: Option<int>)
    requires FoldAware(zone)
    ensures FoundBackward(p, zone, startsAt, at, r)
  {
    if at < startsAt { return None; }
    var day := LocalDay(zone, at);
    ghost var first := day;
    for n := 0 to SEARCH_DAYS
      invariant day == first - n
      invariant forall u | EligibleUpTo(p, zone, startsAt, at, u) :: !(day < LocalDay(zone, u) <= first)
    {
      var best := GreatestOn(p, zone, startsAt, at, day);
      if best.Some? { return best; }
      day := day - 1;
    }
    return None;
  }

  /** The greatest occurrence of one day between the start and the instant. */
  method GreatestOn(p: ParsedCron, zone: Zone, startsAt: int, at: int, day: int) returns (best: Option<int>)
    requires FoldAware(zone)
    ensures best.Some? ==> LocalDay(zone, best.value) == day && GreatestOfDay(p, zone, startsAt, at, best.value)
    ensures best.None? ==> forall u | EligibleUpTo(p, zone, startsAt, at, u) :: LocalDay(zone, u) != day
  {
    best := None;
    if DayMatches(day, p) {
      var occurrences := CronDayOccurrences(day, p, zone);
      best := GreatestBetween(occurrences, startsAt, at);
    }
  }

  method NextCronBoundary(p: ParsedCron, zone: Zone, startsAt: int, at: int) returns (r: Option<int>)
    requires FoldAware(zone)
    ensures FoundForward(p, zone, startsAt, at, r)
  {
    var day := LocalDay(zone, SearchFloor(startsAt, at));
    ghost var first := day;
    for n := 0 to SEARCH_DAYS
      invariant day == first + n
      invariant forall u | EligibleAfter(p, zone, startsAt, at, u) :: !(first <= LocalDay(zone, u) < day)
    {
      var best := LeastOn(p, zone, startsAt, at, day);
      if best.Some? { return best; }
      day := day + 1;
    }
    return None;
  }

  /** The least occurrence of one day after the instant, from the start on. */
  method LeastOn(p: ParsedCron, zone: Zone, startsAt: int, at: int, day: int) returns (best: Option<int>)
    requires FoldAware(zone)
    ensures best.Some? ==> LocalDay(zone, best.value) == day && LeastOfDay(p, zone, startsAt, at, best.value)
    ensures best.None? ==> forall u | EligibleAfter(p, zone, startsAt, at, u) :: LocalDay(zone, u) != day
  {
    best := None;
    if DayMatches(day, p) {
      var occurrences := CronDayOccurrences(day, p, zone);
      best := LeastFrom(occurrences, startsAt, at);
    }
  }
}

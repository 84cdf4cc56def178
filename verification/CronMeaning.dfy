/**
  What a written cron expression means: its parts, its fields, the days it admits and the
  instants at which it is due, said of the five words themselves
  (ergasterion/source_delivery.py:1424, 1432-1534).
*/
module CronMeaning {
  import opened Basics
  import opened Text
  import opened Cron
  import opened Calendar
  import opened CronDays
  import opened Schedule

  // ---------------------------------------------------------------- what a part says

  ghost predicate SpellsBase(s: string, b: Base) {
    match b
    case Star => s == "*"
    case Number(n) => SpellsNumber(s, n)
    case Span(from, to) =>
      exists a, z :: s == a + ['-'] + z && SpellsNumber(a, from) && SpellsNumber(z, to)
  }

  /** Digits, leading zeros included. */
  predicate SpellsNumber(s: string, n: nat) {
    IsNumeral(s) && NumeralValue(s) == n
  }

  /** The text is the written part, its step after a slash. */
  ghost predicate Spells(s: string, p: Part) {
    match p.step
    case None => SpellsBase(s, p.base)
    case Some(k) => exists b, z :: s == b + ['/'] + z && SpellsBase(b, p.base) && SpellsNumber(z, k)
  }

  /** Why a part that can be read is refused, if it is. */
  function PartRefusal(p: Part, low: int, high: int): Option<CronError> {
    if p.step == Some(0) then Some(StepNotPositive) else
    match p.base
    case Star => None
    case Number(n) =>
      if p.step.Some? then Some(StepNeedsRange) else if low <= n <= high then None else Some(OutsideDomain)
    case Span(from, to) =>
      if !(low <= from <= high && low <= to <= high) then Some(OutsideDomain)
      else if to < from then Some(DescendingRange) else None
  }

  /** The value is one the part names: `from`, `from + step`, ... as far as its end. */
  ghost predicate Names(p: Part, low: int, high: int, v: int) {
    var step := StepOf(p);
    match p.base
    case Star => v <= high && exists k: nat :: v == Nth(low, step, k)
    case Number(n) => v == n
    case Span(from, to) => v <= to && exists k: nat :: v == Nth(from, step, k)
  }

  function Nth(first: int, step: int, k: nat): int { first + k * step }

  lemma StepsExactly(p: Progression, v: int)
    requires p.step >= 1
    ensures Contains(p, v) <==> v <= p.last && exists k: nat :: v == Nth(p.first, p.step, k)
  {
    if Contains(p, v) {
      var k: nat := (v - p.first) / p.step;
      assert v - p.first == p.step * k + (v - p.first) % p.step;
      assert v == Nth(p.first, p.step, k);
    }
    if k: nat :| v == Nth(p.first, p.step, k) { MultipleLeavesNothing(k, p.step, v - p.first); }
  }

  lemma MultipleLeavesNothing(k: nat, step: int, n: int)
    requires step >= 1 && n == k * step
    ensures n % step == 0 && n >= 0
  {
    var q := n / step;
    assert n == step * q + n % step;
    assert step * (k - q) == n % step;
    if k > q {
      AtLeast(step, k - q);
    } else if k < q {
      AtLeast(step, q - k);
    }
  }

  lemma AtLeast(a: int, b: int)
    requires a >= 1 && b >= 1
    ensures a * b >= a
  {}

  lemma BaseExactly(s: string, b: Base)
    ensures SpellsBase(s, b) <==> ParseBase(s) == Some(b)
  {
    var i := IndexOf(s, '-');
    match b
    case Star =>
    case Number(n) =>
      if IsNumeral(s) {
        NumeralHasNo(s, '-');
        NumeralHasNo(s, '*');
      }
    case Span(from, to) =>
      if a, z :| s == a + ['-'] + z && SpellsNumber(a, from) && SpellsNumber(z, to) {
        NumeralHasNo(a, '-');
        Around(a, '-', z);
        assert |s| > 1;
      }
      if ParseBase(s) == Some(b) { SpanSpelled(s, from, to); }
  }

  lemma SpanSpelled(s: string, from: nat, to: nat)
    requires ParseBase(s) == Some(Span(from, to))
    ensures SpellsBase(s, Span(from, to))
  {
    var i := IndexOf(s, '-');
    assert s == s[..i] + ['-'] + s[i + 1..];
    assert SpellsNumber(s[..i], from) && SpellsNumber(s[i + 1..], to);
  }

  lemma BaseHasNoSlash(s: string, b: Base)
    requires SpellsBase(s, b)
    ensures '/' !in s
  {
    match b
    case Star =>
    case Number(n) => NumeralHasNo(s, '/');
    case Span(from, to) =>
      var a, z :| s == a + ['-'] + z && SpellsNumber(a, from) && SpellsNumber(z, to);
      NumeralHasNo(a, '/');
      NumeralHasNo(z, '/');
  }

  /** Where the slash of a written part is, and what stands on either side. */
  lemma PartSplits(s: string, p: Part)
    requires Spells(s, p)
    ensures var i := IndexOf(s, '/');
            && ParseBase(s[..i]) == Some(p.base)
            && (p.step.None? ==> i == |s|) && (p.step.Some? ==> i < |s| && SpellsNumber(s[i + 1..], p.step.value))
  {
    var i := IndexOf(s, '/');
    if p.step.None? {
      BaseHasNoSlash(s, p.base);
      IndexOfSeparated(s, '/', []);
      assert s[..i] == s;
    } else {
      var b, z :| s == b + ['/'] + z && SpellsBase(b, p.base) && SpellsNumber(z, p.step.value);
      BaseHasNoSlash(b, p.base);
      Around(b, '/', z);
    }
    BaseExactly(s[..i], p.base);
  }

  lemma Around(a: string, c: char, z: string)
    requires c !in a
    ensures var s := a + [c] + z;
            IndexOf(s, c) == |a| && s[..|a|] == a && s[|a| + 1..] == z
  {
    IndexOfSeparated(a, c, z);
  }

  function StepOf(p: Part): nat { if p.step.Some? then p.step.value else 1 }

  /** The progression of a part without fault. */
  function ProgressionOf(p: Part, low: int, high: int): Progression {
    match p.base
    case Star => Progression(low, high, StepOf(p))
    case Number(n) => Progression(n, n, StepOf(p))
    case Span(from, to) => Progression(from, to, StepOf(p))
  }

  lemma NamesExactly(p: Part, low: int, high: int, v: int)
    requires PartRefusal(p, low, high).None?
    ensures Contains(ProgressionOf(p, low, high), v) <==> Names(p, low, high, v)
  {
    StepsExactly(ProgressionOf(p, low, high), v);
    if p.base.Number? && v == p.base.n { assert v == Nth(v, 1, 0); }
  }

  /** A part that can be read is accepted, as what it means, exactly when nothing is wrong with it. */
  lemma ReadPart(s: string, p: Part, low: int, high: int)
    requires Spells(s, p)
    ensures ParsePart(s, low, high) == match PartRefusal(p, low, high)
                                       case Some(e) => Err(e)
                                       case None => Ok(ProgressionOf(p, low, high))
  {
    PartSplits(s, p);
    match p.base {
      case Star =>
      case Number(n) =>
      case Span(from, to) =>
    }
  }

  /** Anything else is no part. */
  lemma UnreadPart(s: string, low: int, high: int)
    ensures ParsePart(s, low, high) == Err(NotAPart) <==> forall p :: !Spells(s, p)
  {
    if ParsePart(s, low, high) != Err(NotAPart) {
      var p := PartOf(s, low, high);
    } else {
      forall p
        ensures !Spells(s, p)
      {
        if Spells(s, p) { ReadPart(s, p, low, high); }
      }
    }
  }

  lemma PartOf(s: string, low: int, high: int) returns (p: Part)
    requires ParsePart(s, low, high) != Err(NotAPart)
    ensures Spells(s, p)
  {
    var i := IndexOf(s, '/');
    var base := ParseBase(s[..i]).value;
    BaseExactly(s[..i], base);
    if i < |s| {
      var z := s[i + 1..];
      assert s == s[..i] + ['/'] + z && SpellsNumber(z, NumeralValue(z));
      p := Part(base, Some(NumeralValue(z)));
    } else {
      assert s[..i] == s;
      p := Part(base, None);
    }
  }

  // ---------------------------------------------------------------- what a field admits

  /** Some part of the comma list, read and free of fault, names the value. */
  ghost predicate Admits(field: string, low: int, high: int, v: int) {
    exists i, p | 0 <= i < |Split(field, ',')| :: ReadsAs(Split(field, ',')[i], p, low, high) && Names(p, low, high, v)
  }

  ghost predicate ReadsAs(s: string, p: Part, low: int, high: int) {
    Spells(s, p) && PartRefusal(p, low, high).None?
  }

  lemma PartAdmits(s: string, low: int, high: int, v: int)
    requires ParsePart(s, low, high).Ok?
    ensures Covers(s, low, high, v) <==> exists p :: ReadsAs(s, p, low, high) && Names(p, low, high, v)
  {
    var p := PartOf(s, low, high);
    ReadPart(s, p, low, high);
    assert ReadsAs(s, p, low, high);
    forall q | Spells(s, q)
      ensures Contains(ParsePart(s, low, high).value, v) <==> Names(q, low, high, v)
    {
      ReadPart(s, q, low, high);
      NamesExactly(q, low, high, v);
    }
  }

  /** An accepted field holds exactly the values its text admits. */
  lemma FieldAdmits(field: string, low: int, high: int, v: int)
    requires low <= high && FieldValues(field, low, high).Ok?
    ensures v in FieldValues(field, low, high).value <==> Admits(field, low, high, v)
  {
    FieldIsUnion(field, low, high);
    var parts := Split(field, ',');
    forall i | 0 <= i < |parts|
      ensures Covers(parts[i], low, high, v)
              <==> exists p :: ReadsAs(parts[i], p, low, high) && Names(p, low, high, v)
    {
      assert parts[i] in parts;
      PartAdmits(parts[i], low, high, v);
    }
  }

  /** A field is accepted exactly when every part of its comma list can be read and has no fault. */
  lemma FieldAcceptedExactly(field: string, low: int, high: int)
    requires low <= high
    ensures FieldValues(field, low, high).Ok?
            <==> forall i | 0 <= i < |Split(field, ',')| :: Faultless(Split(field, ',')[i], low, high)
  {
    var parts := Split(field, ',');
    PartsAcceptedExactly(parts, low, high);
    forall i | 0 <= i < |parts|
      ensures ParsePart(parts[i], low, high).Ok? <==> Faultless(parts[i], low, high)
    {
      FaultlessExactly(parts[i], low, high);
    }
  }

  ghost predicate Faultless(s: string, low: int, high: int) {
    exists p :: ReadsAs(s, p, low, high)
  }

  lemma FaultlessExactly(s: string, low: int, high: int)
    ensures ParsePart(s, low, high).Ok? <==> Faultless(s, low, high)
  {
    if ParsePart(s, low, high).Ok? {
      var p := PartOf(s, low, high);
      ReadPart(s, p, low, high);
      assert ReadsAs(s, p, low, high);
    }
    if Faultless(s, low, high) {
      var p :| ReadsAs(s, p, low, high);
      ReadPart(s, p, low, high);
    }
  }

  lemma {:induction false} PartsAcceptedExactly(parts: seq<string>, low: int, high: int)
    requires low <= high
    ensures PartsValues(parts, low, high).Ok? <==> forall i | 0 <= i < |parts| :: ParsePart(parts[i], low, high).Ok?
  {
    if parts != [] {
      var init := parts[..|parts| - 1];
      PartsAcceptedExactly(init, low, high);
      assert forall i | 0 <= i < |init| :: init[i] == parts[i];
    }
  }

  // ---------------------------------------------------------------- the days an expression admits

  const SUNDAY: int := DayNumber(Date(2000, 1, 2))

  /** The days since a Sunday, 2 January 2000, by sevens: Sunday is 0 and Saturday 6. */
  function DaysSinceSunday(n: int): int { (n - SUNDAY) % 7 }

  /**
    The month is admitted, and so is the date: by both day fields where one of them is a star,
    which admits every day, and by either where neither is.
  */
  ghost predicate AdmitsDay(fields: seq<string>, date: Date, weekday: int)
    requires |fields| == 5
  {
    var byDate, byWeekday := Admits(fields[2], 1, 31, date.day), Admits(fields[4], 0, 6, weekday);
    && Admits(fields[3], 1, 12, date.month)
    && if fields[2] != "*" && fields[4] != "*" then byDate || byWeekday
       else (fields[2] == "*" || byDate) && (fields[4] == "*" || byWeekday)
  }

  lemma LeapYearsBefore(year: int)
    ensures DaysBeforeYear(year) == 365 * (year - 1) + (year - 1) / 4 - (year - 1) / 100 + (year - 1) / 400
    decreases if year >= 1 then year else 2 - year
  {
    if year > 1 {
      LeapYearsBefore(year - 1);
      OneMore(year - 1);
    } else if year < 1 {
      LeapYearsBefore(year + 1);
      OneMore(year);
    }
  }

  lemma OneMore(year: int)
    ensures year / 4 - year / 100 + year / 400
            == (year - 1) / 4 - (year - 1) / 100 + (year - 1) / 400 + if IsLeap(year) then 1 else 0
  {
    NextMultiple(year, 4);
    NextMultiple(year, 100);
    NextMultiple(year, 400);
  }

  lemma NextMultiple(n: int, unit: int)
    requires unit in {4, 100, 400}
    ensures n / unit == (n - 1) / unit + if n % unit == 0 then 1 else 0
  {}

  lemma SundayIsKnown()
    ensures SUNDAY == 730121 && SUNDAY % 7 == 0
  {
    LeapYearsBefore(2000);
  }

  lemma WeekdayFromSunday(n: int)
    ensures CronWeekday(n) == DaysSinceSunday(n)
  {
    SundayIsKnown();
  }

  /** A day matches a parsed expression exactly when the five written fields admit it. */
  lemma DayMatchesExactly(fields: seq<string>, n: int)
    requires FieldsAccepted(fields)
    ensures DayMatches(n, ParsedFields(fields)) <==> AdmitsDay(fields, DateOf(n), DaysSinceSunday(n))
  {
    WeekdayFromSunday(n);
    FieldAdmits(fields[2], 1, 31, DateOf(n).day);
    FieldAdmits(fields[3], 1, 12, DateOf(n).month);
    FieldAdmits(fields[4], 0, 6, DaysSinceSunday(n));
  }

  // ---------------------------------------------------------------- when an expression is due

  /** The wall clock shows a date, hour and minute on the whole minute that the five fields admit. */
  ghost predicate DueAt(fields: seq<string>, local: int)
    requires |fields| == 5
  {
    exists n, hour, minute | 0 <= hour <= 23 && 0 <= minute <= 59 ::
      && local == Naive(n, hour, minute)
      && Admits(fields[0], 0, 59, minute) && Admits(fields[1], 0, 23, hour)
      && AdmitsDay(fields, DateOf(n), DaysSinceSunday(n))
  }

  /** An instant is an occurrence exactly when its local time is one the written fields admit. */
  lemma OccursExactly(fields: seq<string>, zone: Zone, t: int)
    requires FieldsAccepted(fields)
    ensures Occurs(ParsedFields(fields), zone, t) <==> DueAt(fields, Local(zone, t))
  {
    var local := Local(zone, t);
    if WholeMinute(local) {
      WholeMinuteIsNaive(local);
      MinuteAndDay(fields, DayOf(local), HourOf(local), MinuteOf(local));
    }
    forall n, hour, minute | 0 <= hour <= 23 && 0 <= minute <= 59 && local == Naive(n, hour, minute)
      ensures WholeMinute(local) && n == DayOf(local) && hour == HourOf(local) && minute == MinuteOf(local)
    {
      NaiveParts(n, hour, minute);
    }
  }

  lemma MinuteAndDay(fields: seq<string>, n: int, hour: int, minute: int)
    requires FieldsAccepted(fields)
    ensures var p := ParsedFields(fields);
            && (minute in p.minutes <==> Admits(fields[0], 0, 59, minute))
            && (hour in p.hours <==> Admits(fields[1], 0, 23, hour))
            && (DayMatches(n, p) <==> AdmitsDay(fields, DateOf(n), DaysSinceSunday(n)))
  {
    FieldAdmits(fields[0], 0, 59, minute);
    FieldAdmits(fields[1], 0, 23, hour);
    DayMatchesExactly(fields, n);
  }
}

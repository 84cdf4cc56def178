/**
  The cron field grammar (ergasterion/source_delivery.py:1424-1498): stars, numbers,
  ascending ranges, comma lists and steps, each inside its field's domain.
*/
module Cron {
  import opened Basics
  import opened Text

  datatype CronError =
    | NotAPart | StepNotPositive | OutsideDomain | DescendingRange | StepNeedsRange | NotFiveFields
    | EmptyDomain

  /** The values `first`, `first + step`, ... up to `last`. */
  datatype Progression = Progression(first: int, last: int, step: int)

  predicate Contains(p: Progression, v: int) {
    p.first <= v <= p.last && p.step >= 1 && (v - p.first) % p.step == 0
  }

  function Values(p: Progression): set<int> {
    set v | p.first <= v <= p.last && Contains(p, v)
  }

  /** A base the grammar admits: a star, a number, or two numbers around a hyphen. */
  datatype Base = Star | Number(n: nat) | Span(from: nat, to: nat)

  function ParseBase(s: string): Option<Base> {
    if s == "*" then Some(Star) else
    var i := IndexOf(s, '-');
    if i == |s| then (if IsNumeral(s) then Some(Number(NumeralValue(s))) else None)
    else if IsNumeral(s[..i]) && IsNumeral(s[i + 1..])
    then Some(Span(NumeralValue(s[..i]), NumeralValue(s[i + 1..])))
    else None
  }

  /** One comma-separated part: its progression, or why the part is refused. */
  function ParsePart(part: string, low: int, high: int): Result<Progression, CronError> {
    var i := IndexOf(part, '/');
    var base := ParseBase(part[..i]);
    if base.None? || (i < |part| && !IsNumeral(part[i + 1..])) then Err(NotAPart) else
    var step := if i < |part| then NumeralValue(part[i + 1..]) else 1;
    if step < 1 then Err(StepNotPositive) else
    match base.value
    case Star => Ok(Progression(low, high, step))
    case Span(from, to) =>
      if !(low <= from <= high && low <= to <= high) then Err(OutsideDomain)
      else if from > to then Err(DescendingRange)
      else Ok(Progression(from, to, step))
    case Number(n) =>
      if i < |part| then Err(StepNeedsRange)
      else if !(low <= n <= high) then Err(OutsideDomain)
      else Ok(Progression(n, n, step))
  }

  lemma PartInDomain(part: string, low: int, high: int)
    requires low <= high && ParsePart(part, low, high).Ok?
    ensures var p := ParsePart(part, low, high).value;
            p.step >= 1 && low <= p.first <= p.last <= high
  {}

  /** The union of the parts' values, or the first refused part's error. */
  function PartsValues(parts: seq<string>, low: int, high: int): Result<set<int>, CronError>
    requires low <= high
  {
    if parts == [] then Ok({}) else
    var init := PartsValues(parts[..|parts| - 1], low, high);
    if init.Err? then init else
    var last := ParsePart(parts[|parts| - 1], low, high);
    if last.Err? then Err(last.error) else
    Ok(init.value + Values(last.value))
  }

  function FieldValues(token: string, low: int, high: int): Result<set<int>, CronError>
    requires low <= high
  {
    PartsValues(Split(token, ','), low, high)
  }

  /** Grows the value set part by part. */
  method ParseCronField(token: string, low: int, high: int) returns (r: Result<set<int>, CronError>)
    requires low <= high
    ensures r == FieldValues(token, low, high)
  {
    var values: set<int> := {};
    var parts := Split(token, ',');
    for i := 0 to |parts|
      invariant PartsValues(parts[..i], low, high) == Ok(values)
    {
      assert parts[..i + 1][..i] == parts[..i];
      var part := ParsePart(parts[i], low, high);
      if part.Err? {
        FirstErrorWins(parts, i + 1, low, high);
        return Err(part.error);
      }
      values := values + Values(part.value);
    }
    assert parts[..|parts|] == parts;
    return Ok(values);
  }

  lemma {:induction false} FirstErrorWins(parts: seq<string>, i: nat, low: int, high: int)
    requires low <= high && i <= |parts| && PartsValues(parts[..i], low, high).Err?
    ensures PartsValues(parts, low, high) == PartsValues(parts[..i], low, high)
    decreases |parts|
  {
    if i < |parts| {
      assert parts[..|parts| - 1][..i] == parts[..i];
      FirstErrorWins(parts[..|parts| - 1], i, low, high);
    } else {
      assert parts[..i] == parts;
    }
  }

  /** Some value, and only values of the domain. */
  predicate Within(s: set<int>, low: int, high: int) {
    (exists v | low <= v <= high :: v in s) && (forall v | v in s :: low <= v <= high)
  }

  /** The part is accepted and its progression contains `v`. */
  predicate Covers(part: string, low: int, high: int, v: int) {
    ParsePart(part, low, high).Ok? && Contains(ParsePart(part, low, high).value, v)
  }

  predicate SomeCovers(parts: seq<string>, low: int, high: int, v: int) {
    exists i | 0 <= i < |parts| :: Covers(parts[i], low, high, v)
  }

  lemma SomeCoversLast(parts: seq<string>, low: int, high: int, v: int)
    requires parts != []
    ensures SomeCovers(parts, low, high, v)
            <==> SomeCovers(parts[..|parts| - 1], low, high, v) || Covers(parts[|parts| - 1], low, high, v)
  {
    var init := parts[..|parts| - 1];
    if i :| 0 <= i < |parts| && Covers(parts[i], low, high, v) {
      if i < |init| { assert init[i] == parts[i]; }
    }
    if i :| 0 <= i < |init| && Covers(init[i], low, high, v) {
      assert parts[i] == init[i];
    }
  }

  lemma {:induction false} PartsUnion(parts: seq<string>, low: int, high: int, v: int)
    requires low <= high && PartsValues(parts, low, high).Ok?
    ensures forall part | part in parts :: ParsePart(part, low, high).Ok?
    ensures v in PartsValues(parts, low, high).value <==> SomeCovers(parts, low, high, v)
  {
    if parts != [] {
      var n := |parts| - 1;
      PartsUnion(parts[..n], low, high, v);
      SomeCoversLast(parts, low, high, v);
      assert parts == parts[..n] + [parts[n]];
    }
  }

  /** An accepted field is the non-empty union of its parts' progressions, inside its domain. */
  lemma FieldIsUnion(token: string, low: int, high: int)
    requires low <= high && FieldValues(token, low, high).Ok?
    ensures Within(FieldValues(token, low, high).value, low, high)
    ensures forall part | part in Split(token, ',') :: ParsePart(part, low, high).Ok?
    ensures forall v :: v in FieldValues(token, low, high).value <==> SomeCovers(Split(token, ','), low, high, v)
  {
    var parts, s := Split(token, ','), FieldValues(token, low, high).value;
    forall v
      ensures v in s <==> SomeCovers(parts, low, high, v)
      ensures v in s ==> low <= v <= high
    {
      PartsUnion(parts, low, high, v);
      if v in s {
        var i :| 0 <= i < |parts| && Covers(parts[i], low, high, v);
        PartInDomain(parts[i], low, high);
      }
    }
    PartsUnion(parts, low, high, 0);
    PartInDomain(parts[0], low, high);
    var first := ParsePart(parts[0], low, high).value.first;
    assert Covers(parts[0], low, high, first);
    assert SomeCovers(parts, low, high, first);
  }

  // ---------------------------------------------------------------- writing a field

  /** An authored part: a base and, on a star or a range, perhaps a step. */
  datatype Part = Part(base: Base, step: Option<nat>)

  predicate WellFormed(p: Part, low: nat, high: nat) {
    && (p.step.Some? ==> p.step.value >= 1 && !p.base.Number?)
    && match p.base
       case Star => true
       case Number(n) => low <= n <= high
       case Span(from, to) => low <= from <= to <= high
  }

  function Meaning(p: Part, low: nat, high: nat): Progression {
    var step := if p.step.Some? then p.step.value else 1;
    match p.base
    case Star => Progression(low, high, step)
    case Number(n) => Progression(n, n, step)
    case Span(from, to) => Progression(from, to, step)
  }

  /** Some part's progression contains `v`. */
  predicate Means(parts: seq<Part>, low: nat, high: nat, v: int) {
    exists i | 0 <= i < |parts| :: Contains(Meaning(parts[i], low, high), v)
  }

  function WriteBase(b: Base): string {
    match b
    case Star => "*"
    case Number(n) => Decimal(n)
    case Span(from, to) => Decimal(from) + ['-'] + Decimal(to)
  }

  function WritePart(p: Part): string {
    if p.step.Some? then WriteBase(p.base) + ['/'] + Decimal(p.step.value) else WriteBase(p.base)
  }

  lemma NumeralHasNo(s: string, c: char)
    requires IsNumeral(s) && !IsDigit(c)
    ensures c !in s
  {}

  lemma BaseRoundTrip(b: Base)
    ensures ParseBase(WriteBase(b)) == Some(b)
    ensures '/' !in WriteBase(b) && ',' !in WriteBase(b)
  {
    match b
    case Star =>
    case Number(n) =>
      DecimalRoundTrip(n);
      NumeralHasNo(Decimal(n), '*');
      IndexOfSeparated(Decimal(n), '-', []);
    case Span(from, to) => SpanRoundTrip(from, to);
  }

  lemma SpanRoundTrip(from: nat, to: nat)
    ensures ParseBase(WriteBase(Span(from, to))) == Some(Span(from, to))
    ensures '/' !in WriteBase(Span(from, to)) && ',' !in WriteBase(Span(from, to))
  {
    var a, b := Decimal(from), Decimal(to);
    var s := a + ['-'] + b;
    DecimalRoundTrip(from);
    DecimalRoundTrip(to);
    NumeralHasNo(a, '-');
    IndexOfSeparated(a, '-', b);
    assert s[..|a|] == a && s[|a| + 1..] == b;
    assert |s| > 1;
  }

  lemma PartRoundTrip(p: Part, low: nat, high: nat)
    requires low <= high && WellFormed(p, low, high)
    ensures ParsePart(WritePart(p), low, high) == Ok(Meaning(p, low, high))
    ensures ',' !in WritePart(p)
  {
    var base := WriteBase(p.base);
    BaseRoundTrip(p.base);
    if p.step.Some? {
      var step := Decimal(p.step.value);
      DecimalRoundTrip(p.step.value);
      IndexOfSeparated(base, '/', step);
      assert (base + ['/'] + step)[..|base|] == base && (base + ['/'] + step)[|base| + 1..] == step;
    } else {
      IndexOfSeparated(base, '/', []);
      assert base[..|base|] == base;
    }
  }

  function WriteParts(parts: seq<Part>): (r: seq<string>)
    ensures |r| == |parts|
    ensures forall i | 0 <= i < |parts| :: r[i] == WritePart(parts[i])
  {
    seq(|parts|, i requires 0 <= i < |parts| => WritePart(parts[i]))
  }

  lemma {:induction false} PartsAccepted(parts: seq<Part>, low: nat, high: nat, v: int)
    requires low <= high && forall i | 0 <= i < |parts| :: WellFormed(parts[i], low, high)
    ensures PartsValues(WriteParts(parts), low, high).Ok?
    ensures v in PartsValues(WriteParts(parts), low, high).value <==> Means(parts, low, high, v)
  {
    if parts != [] {
      var n := |parts| - 1;
      var init := parts[..n];
      PartsAccepted(init, low, high, v);
      assert WriteParts(parts)[..n] == WriteParts(init);
      PartRoundTrip(parts[n], low, high);
      MeansLast(parts, low, high, v);
    }
  }

  lemma MeansLast(parts: seq<Part>, low: nat, high: nat, v: int)
    requires parts != []
    ensures Means(parts, low, high, v)
            <==> Means(parts[..|parts| - 1], low, high, v)
                 || Contains(Meaning(parts[|parts| - 1], low, high), v)
  {
    var init := parts[..|parts| - 1];
    if i :| 0 <= i < |parts| && Contains(Meaning(parts[i], low, high), v) {
      if i < |init| { assert init[i] == parts[i]; }
    }
    if i :| 0 <= i < |init| && Contains(Meaning(init[i], low, high), v) {
      assert parts[i] == init[i];
    }
  }

  /**
    Writing out well-formed parts as a comma list and parsing the list as a field returns
    the union of what the parts mean.
  */
  lemma FieldRoundTrip(parts: seq<Part>, low: nat, high: nat)
    requires low <= high && parts != []
    requires forall i | 0 <= i < |parts| :: WellFormed(parts[i], low, high)
    ensures FieldValues(Join(WriteParts(parts), ','), low, high).Ok?
    ensures forall v :: v in FieldValues(Join(WriteParts(parts), ','), low, high).value
                        <==> Means(parts, low, high, v)
  {
    forall i | 0 <= i < |parts|
      ensures ',' !in WriteParts(parts)[i]
    {
      PartRoundTrip(parts[i], low, high);
    }
    SplitJoin(WriteParts(parts), ',');
    PartsAccepted(parts, low, high, 0);
    forall v
      ensures v in FieldValues(Join(WriteParts(parts), ','), low, high).value <==> Means(parts, low, high, v)
    {
      PartsAccepted(parts, low, high, v);
    }
  }

  /** In particular a comma list of numbers, in any order, returns the set of the numbers. */
  lemma NumberListRoundTrip(numbers: seq<nat>, low: nat, high: nat)
    requires low <= high && numbers != []
    requires forall i | 0 <= i < |numbers| :: low <= numbers[i] <= high
    ensures var parts := seq(|numbers|, i requires 0 <= i < |numbers| => Part(Number(numbers[i]), None));
            FieldValues(Join(WriteParts(parts), ','), low, high) == Ok(set i | 0 <= i < |numbers| :: numbers[i])
  {
    var parts := seq(|numbers|, i requires 0 <= i < |numbers| => Part(Number(numbers[i]), None));
    FieldRoundTrip(parts, low, high);
    var expected: set<int> := set i | 0 <= i < |numbers| :: numbers[i];
    forall v
      ensures Means(parts, low, high, v) <==> v in expected
    {
      if Means(parts, low, high, v) {
        var i :| 0 <= i < |parts| && Contains(Meaning(parts[i], low, high), v);
        assert v == numbers[i];
      }
      if v in expected {
        var i :| 0 <= i < |numbers| && v == numbers[i];
        assert Contains(Meaning(parts[i], low, high), v);
      }
    }
    var got := FieldValues(Join(WriteParts(parts), ','), low, high).value;
    assert forall v :: v in got <==> v in expected;
    assert got == expected;
  }

  // ---------------------------------------------------------------- five fields

  datatype ParsedCron = ParsedCron(
    minutes: set<int>, hours: set<int>, daysOfMonth: set<int>, months: set<int>, daysOfWeek: set<int>,
    dayOfMonthRestricted: bool, dayOfWeekRestricted: bool)

  /** The domains of the five fields. */
  predicate InDomain(p: ParsedCron) {
    && Within(p.minutes, 0, 59) && Within(p.hours, 0, 23) && Within(p.daysOfMonth, 1, 31)
    && Within(p.months, 1, 12) && Within(p.daysOfWeek, 0, 6)
  }

  /** Five fields, each accepted in its own domain. */
  predicate FieldsAccepted(fields: seq<string>) {
    && |fields| == 5
    && FieldValues(fields[0], 0, 59).Ok? && FieldValues(fields[1], 0, 23).Ok?
    && FieldValues(fields[2], 1, 31).Ok? && FieldValues(fields[3], 1, 12).Ok?
    && FieldValues(fields[4], 0, 6).Ok?
  }

  /** What five accepted fields allow. */
  function ParsedFields(fields: seq<string>): ParsedCron
    requires FieldsAccepted(fields)
  {
    ParsedCron(
      FieldValues(fields[0], 0, 59).value, FieldValues(fields[1], 0, 23).value,
      FieldValues(fields[2], 1, 31).value, FieldValues(fields[3], 1, 12).value,
      FieldValues(fields[4], 0, 6).value, fields[2] != "*", fields[4] != "*")
  }

  /** Parse the words of an expression as its five fields; no accepted field is empty. */
  method ParseCronExpression(expression: string) returns (r: Result<ParsedCron, CronError>)
    ensures r.Ok? <==> FieldsAccepted(Words(expression))
    ensures r.Ok? ==> r.value == ParsedFields(Words(expression)) && InDomain(r.value)
    ensures r == Err(NotFiveFields) <==> |Words(expression)| != 5
    ensures r != Err(EmptyDomain)
  {
    var fields := Words(expression);
    if |fields| != 5 { return Err(NotFiveFields); }
    var minutes := ParseCronField(fields[0], 0, 59);
    if minutes.Err? { FieldErrors(fields[0], 0, 59); return Err(minutes.error); }
    var hours := ParseCronField(fields[1], 0, 23);
    if hours.Err? { FieldErrors(fields[1], 0, 23); return Err(hours.error); }
    var daysOfMonth := ParseCronField(fields[2], 1, 31);
    if daysOfMonth.Err? { FieldErrors(fields[2], 1, 31); return Err(daysOfMonth.error); }
    var months := ParseCronField(fields[3], 1, 12);
    if months.Err? { FieldErrors(fields[3], 1, 12); return Err(months.error); }
    var daysOfWeek := ParseCronField(fields[4], 0, 6);
    if daysOfWeek.Err? { FieldErrors(fields[4], 0, 6); return Err(daysOfWeek.error); }
    FieldIsUnion(fields[0], 0, 59);
    FieldIsUnion(fields[1], 0, 23);
    FieldIsUnion(fields[2], 1, 31);
    FieldIsUnion(fields[3], 1, 12);
    FieldIsUnion(fields[4], 0, 6);
    if minutes.value == {} || hours.value == {} || daysOfMonth.value == {} || months.value == {}
       || daysOfWeek.value == {}
    {
      return Err(EmptyDomain);
    }
    return Ok(ParsedCron(minutes.value, hours.value, daysOfMonth.value, months.value, daysOfWeek.value,
                         fields[2] != "*", fields[4] != "*"));
  }

  /** An accepted expression stays in its domains. */
  lemma AcceptedInDomain(fields: seq<string>)
    requires FieldsAccepted(fields)
    ensures InDomain(ParsedFields(fields))
  {
    FieldIsUnion(fields[0], 0, 59);
    FieldIsUnion(fields[1], 0, 23);
    FieldIsUnion(fields[2], 1, 31);
    FieldIsUnion(fields[3], 1, 12);
    FieldIsUnion(fields[4], 0, 6);
  }

  // ---------------------------------------------------------------- one date and time of every year

  function DateAndTime(minute: int, hour: int, day: int, month: int): ParsedCron {
    ParsedCron({minute}, {hour}, {day}, {month}, {0, 1, 2, 3, 4, 5, 6}, true, false)
  }

  /** The expression as it is authored, `minute hour day month *`. */
  function DateAndTimeText(minute: nat, hour: nat, day: nat, month: nat): string {
    Join([Decimal(minute), Decimal(hour), Decimal(day), Decimal(month), "*"], ' ')
  }

  lemma NumberRoundTrip(n: nat, low: nat, high: nat)
    requires low <= n <= high
    ensures FieldValues(Decimal(n), low, high) == Ok({n})
    ensures IsWord(Decimal(n)) && Decimal(n) != "*"
  {
    NumberListRoundTrip([n], low, high);
    var parts := seq(1, i requires 0 <= i < 1 => Part(Number([n][i]), None));
    assert WriteParts(parts)[0] == Decimal(n);
    assert Join(WriteParts(parts), ',') == Decimal(n);
    assert (set i | 0 <= i < 1 :: [n][i]) == {n};
    DecimalRoundTrip(n);
  }

  lemma StarMeans(v: int)
    ensures Means([Part(Star, None)], 0, 6, v) <==> 0 <= v <= 6
  {
    var parts := [Part(Star, None)];
    assert Means(parts, 0, 6, v) <==> Contains(Meaning(parts[0], 0, 6), v);
  }

  lemma StarRoundTrip(star: string)
    requires star == Join(WriteParts([Part(Star, None)]), ',')
    ensures FieldValues(star, 0, 6) == Ok({0, 1, 2, 3, 4, 5, 6})
  {
    FieldRoundTrip([Part(Star, None)], 0, 6);
    var got := FieldValues(star, 0, 6).value;
    forall v
      ensures v in got <==> v in {0, 1, 2, 3, 4, 5, 6}
    {
      StarMeans(v);
    }
    assert got == {0, 1, 2, 3, 4, 5, 6};
  }

  lemma StarIsWritten()
    ensures Join(WriteParts([Part(Star, None)]), ',') == "*" && IsWord("*")
  {
    assert WriteParts([Part(Star, None)])[0] == "*";
  }

  lemma DateAndTimeFields(a: string, b: string, c: string, d: string, star: string,
                          minute: int, hour: int, day: int, month: int)
    requires FieldValues(a, 0, 59) == Ok({minute}) && FieldValues(b, 0, 23) == Ok({hour})
    requires FieldValues(c, 1, 31) == Ok({day}) && FieldValues(d, 1, 12) == Ok({month}) && c != "*"
    requires FieldValues(star, 0, 6) == Ok({0, 1, 2, 3, 4, 5, 6}) && star == "*"
    requires IsWord(a) && IsWord(b) && IsWord(c) && IsWord(d) && IsWord(star)
    ensures var text := Join([a, b, c, d, star], ' ');
            FieldsAccepted(Words(text)) && ParsedFields(Words(text)) == DateAndTime(minute, hour, day, month)
  {
    FiveWords(a, b, c, d, star);
  }

  lemma FiveWords(a: string, b: string, c: string, d: string, e: string)
    requires IsWord(a) && IsWord(b) && IsWord(c) && IsWord(d) && IsWord(e)
    ensures Words(Join([a, b, c, d, e], ' ')) == [a, b, c, d, e]
  {
    WordsRoundTrip([a, b, c, d, e]);
  }

  /** The authored expression parses to the date and time it names. */
  lemma DateAndTimeRoundTrip(minute: nat, hour: nat, day: nat, month: nat)
    requires minute <= 59 && hour <= 23 && 1 <= day <= 31 && 1 <= month <= 12
    ensures FieldsAccepted(Words(DateAndTimeText(minute, hour, day, month)))
    ensures ParsedFields(Words(DateAndTimeText(minute, hour, day, month))) == DateAndTime(minute, hour, day, month)
  {
    NumberRoundTrip(minute, 0, 59);
    NumberRoundTrip(hour, 0, 23);
    NumberRoundTrip(day, 1, 31);
    NumberRoundTrip(month, 1, 12);
    StarIsWritten();
    StarRoundTrip("*");
    DateAndTimeFields(Decimal(minute), Decimal(hour), Decimal(day), Decimal(month), "*", minute, hour, day, month);
  }

  lemma FieldErrors(token: string, low: int, high: int)
    requires low <= high && FieldValues(token, low, high).Err?
    ensures FieldValues(token, low, high).error in
              {NotAPart, StepNotPositive, OutsideDomain, DescendingRange, StepNeedsRange}
  {
    PartsErrors(Split(token, ','), low, high);
  }

  lemma {:induction false} PartsErrors(parts: seq<string>, low: int, high: int)
    requires low <= high && PartsValues(parts, low, high).Err?
    ensures PartsValues(parts, low, high).error in
              {NotAPart, StepNotPositive, OutsideDomain, DescendingRange, StepNeedsRange}
  {
    if parts != [] && PartsValues(parts[..|parts| - 1], low, high).Err? {
      PartsErrors(parts[..|parts| - 1], low, high);
    }
  }
}

/**
  What the two boundary searches return for an authored expression, said of its five written
  fields and of the wall clock (ergasterion/source_delivery.py:1501-1602).
*/
module BoundaryMeaning {
  import opened Basics
  import opened Text
  import opened Cron
  import opened Schedule
  import opened CronMeaning
  import opened Boundaries

  /** The wall clock shows a time the written fields admit, and the schedule has started. */
  ghost predicate Scheduled(text: string, zone: Zone, startsAt: int, t: int)
    requires FieldsAccepted(Words(text))
  {
    DueAt(Words(text), Local(zone, t)) && startsAt <= t
  }

  lemma ScheduledExactly(text: string, zone: Zone, startsAt: int, at: int, t: int)
    requires FieldsAccepted(Words(text))
    ensures var p := ParsedFields(Words(text));
            && (EligibleUpTo(p, zone, startsAt, at, t) <==> Scheduled(text, zone, startsAt, t) && t <= at)
            && (EligibleAfter(p, zone, startsAt, at, t) <==> Scheduled(text, zone, startsAt, t) && at < t)
  {
    OccursExactly(Words(text), zone, t);
  }

  /** The greatest scheduled instant up to `at`, or none, with every one 1474 or more local days back. */
  ghost predicate GreatestScheduled(text: string, zone: Zone, startsAt: int, at: int, r: Option<int>)
    requires FieldsAccepted(Words(text))
  {
    match r
    case Some(b) =>
      && Scheduled(text, zone, startsAt, b) && b <= at
      && forall u | Scheduled(text, zone, startsAt, u) && u <= at :: u <= b
    case None =>
      forall u | Scheduled(text, zone, startsAt, u) && u <= at :: LocalDay(zone, u) + 1474 <= LocalDay(zone, at)
  }

  /** The least scheduled instant after `at`, or none, with every one 1474 or more local days ahead. */
  ghost predicate LeastScheduled(text: string, zone: Zone, startsAt: int, at: int, r: Option<int>)
    requires FieldsAccepted(Words(text))
  {
    match r
    case Some(b) =>
      && Scheduled(text, zone, startsAt, b) && at < b
      && forall u | Scheduled(text, zone, startsAt, u) && at < u :: b <= u
    case None =>
      forall u | Scheduled(text, zone, startsAt, u) && at < u ::
        LocalDay(zone, u) >= LocalDay(zone, if at < startsAt - 1 then startsAt - 1 else at) + 1474
  }

  /** In the zones that suit it, the backward search means what its documentation says. */
  lemma CurrentByText(text: string, zone: Zone, startsAt: int, at: int, r: Option<int>)
    requires FoldAware(zone) && NeverBefore(zone) && FieldsAccepted(Words(text))
    requires FoundBackward(ParsedFields(Words(text)), zone, startsAt, at, r)
    ensures GreatestScheduled(text, zone, startsAt, at, r)
  {
    var p := ParsedFields(Words(text));
    BackwardIsCurrent(p, zone, startsAt, at, r);
    forall u
      ensures EligibleUpTo(p, zone, startsAt, at, u) <==> Scheduled(text, zone, startsAt, u) && u <= at
    {
      ScheduledExactly(text, zone, startsAt, at, u);
    }
  }

  /** And so does the forward search. */
  lemma NextByText(text: string, zone: Zone, startsAt: int, at: int, r: Option<int>)
    requires FoldAware(zone) && NeverAfter(zone) && FieldsAccepted(Words(text))
    requires FoundForward(ParsedFields(Words(text)), zone, startsAt, at, r)
    ensures LeastScheduled(text, zone, startsAt, at, r)
  {
    var p := ParsedFields(Words(text));
    ForwardIsNext(p, zone, startsAt, at, r);
    SearchFloorIsLatest(startsAt, at);
    forall u
      ensures EligibleAfter(p, zone, startsAt, at, u) <==> Scheduled(text, zone, startsAt, u) && at < u
    {
      ScheduledExactly(text, zone, startsAt, at, u);
    }
  }
}

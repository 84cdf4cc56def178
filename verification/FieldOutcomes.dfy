/**
  When a composition step succeeds, what its error names, and where in the ordered fields its
  own fields stand (ergasterion/framework/contract.py:1131-1199).
*/
module FieldOutcomes {
  import opened Basics
  import opened Relations
  import opened Composition
  import opened FieldPropagation

  // ---------------------------------------------------------------- the ordered dictionary

  /** Assigning a carried name replaces its field in place; a new one goes to the end. */
  lemma {:induction false} AssignedInPlace(fields: seq<Field>, field: Field)
    requires DistinctNames(fields)
    ensures !Present(fields, field.name) ==> With(fields, field) == fields + [field]
    ensures Present(fields, field.name) ==>
              && |With(fields, field)| == |fields|
              && forall i | 0 <= i < |fields| ::
                   With(fields, field)[i] == if fields[i].name == field.name then field else fields[i]
  {
    if fields != [] {
      var init, last := fields[..|fields| - 1], fields[|fields| - 1];
      AssignedInPlace(init, field);
      assert forall i | 0 <= i < |init| :: init[i] == fields[i];
      assert Present(fields, field.name) <==> Present(init, field.name) || last.name == field.name;
    }
  }

  /** Taking a name away leaves the others in their order. */
  lemma {:induction false} TakenFromPlace(fields: seq<Field>, name: string)
    requires DistinctNames(fields)
    ensures !Present(fields, name) ==> Without(fields, name) == fields
    ensures forall i | 0 <= i < |fields| && fields[i].name == name ::
              Without(fields, name) == fields[..i] + fields[i + 1..]
  {
    if fields != [] {
      var init, n := fields[..|fields| - 1], |fields| - 1;
      TakenFromPlace(init, name);
      assert forall i | 0 <= i < n :: init[i] == fields[i];
      if fields[n].name == name {
        assert !Present(init, name);
      } else {
        forall i | 0 <= i < n && fields[i].name == name
          ensures Without(fields, name) == fields[..i] + fields[i + 1..]
        {
          assert init[..i] == fields[..i] && init[i + 1..] + [fields[n]] == fields[i + 1..];
        }
      }
    }
  }

  // ---------------------------------------------------------------- when a step succeeds

  /** The first name the relation does not carry. */
  ghost predicate FirstMissing(available: seq<Field>, names: seq<string>, name: string) {
    exists i | 0 <= i < |names| ::
      names[i] == name && !Present(available, name) && forall k | 0 <= k < i :: Present(available, names[k])
  }

  lemma {:induction false} BorrowOutcome(fields: seq<Field>, available: seq<Field>, names: seq<string>)
    ensures var r := Borrowed(fields, available, names);
            && (r.Ok? <==> forall i | 0 <= i < |names| :: Present(available, names[i]))
            && (r.Err? ==> r.error.FieldUnresolved? && FirstMissing(available, names, r.error.field))
  {
    if names != [] {
      var init, last := names[..|names| - 1], names[|names| - 1];
      BorrowOutcome(fields, available, init);
      LookupFinds(available, last);
      assert forall i | 0 <= i < |init| :: init[i] == names[i];
    }
  }

  /** The lookup reads a supplied relation that carries every field it names. */
  predicate LookupResolves(lookup: Enrichment, schemas: map<string, Schema>) {
    var key := ReadKey(Read(lookup.contract, lookup.relation));
    key in schemas && forall i | 0 <= i < |lookup.fields| :: Present(schemas[key].fields, lookup.fields[i])
  }

  /** Why the lookup does not resolve: its relation is not supplied, or a field it names is missing. */
  ghost predicate LookupFails(lookup: Enrichment, schemas: map<string, Schema>, e: PropagationError) {
    var key := ReadKey(Read(lookup.contract, lookup.relation));
    if key !in schemas then e == PropagationError.SourceUnresolved(lookup.contract)
    else e.FieldUnresolved? && FirstMissing(schemas[key].fields, lookup.fields, e.field)
  }

  ghost predicate FirstLookupFails(lookups: seq<Enrichment>, schemas: map<string, Schema>, e: PropagationError) {
    exists i | 0 <= i < |lookups| ::
      LookupFails(lookups[i], schemas, e) && forall k | 0 <= k < i :: LookupResolves(lookups[k], schemas)
  }

  /** An enrichment succeeds exactly when every lookup resolves; else its first failure is told. */
  lemma {:induction false} EnrichOutcome(fields: seq<Field>, lookups: seq<Enrichment>, schemas: map<string, Schema>)
    ensures var r := Enriched(fields, lookups, schemas);
            && (r.Ok? <==> forall i | 0 <= i < |lookups| :: LookupResolves(lookups[i], schemas))
            && (r.Err? ==> FirstLookupFails(lookups, schemas, r.error))
  {
    if lookups != [] {
      var init, n := lookups[..|lookups| - 1], |lookups| - 1;
      EnrichOutcome(fields, init, schemas);
      assert forall i | 0 <= i < n :: init[i] == lookups[i];
      var before, key := Enriched(fields, init, schemas), ReadKey(Read(lookups[n].contract, lookups[n].relation));
      if before.Ok? && key in schemas { BorrowOutcome(before.value, schemas[key].fields, lookups[n].fields); }
      LaterFailure(lookups, schemas);
    }
  }

  lemma LaterFailure(lookups: seq<Enrichment>, schemas: map<string, Schema>)
    requires lookups != []
    ensures forall e | FirstLookupFails(lookups[..|lookups| - 1], schemas, e) :: FirstLookupFails(lookups, schemas, e)
  {
    var init := lookups[..|lookups| - 1];
    forall e | FirstLookupFails(init, schemas, e)
      ensures FirstLookupFails(lookups, schemas, e)
    {
      var i :| 0 <= i < |init| && LookupFails(init[i], schemas, e)
        && forall k | 0 <= k < i :: LookupResolves(init[k], schemas);
      assert lookups[i] == init[i] && forall k | 0 <= k < i :: lookups[k] == init[k];
    }
  }

  lemma {:induction false} GroupOutcome(fields: seq<Field>, names: seq<string>)
    ensures var r := Grouped(fields, names);
            && (r.Ok? <==> forall i | 0 <= i < |names| :: Present(fields, names[i]))
            && (r.Err? ==> r.error.FieldUnresolved? && FirstMissing(fields, names, r.error.field))
  {
    if names != [] {
      var init, last := names[..|names| - 1], names[|names| - 1];
      GroupOutcome(fields, init);
      LookupFinds(fields, last);
      assert forall i | 0 <= i < |init| :: init[i] == names[i];
    }
  }

  predicate Typed(a: Aggregate) { a.name != "" && a.kind.Some? }

  ghost predicate FirstUntyped(aggregates: seq<Aggregate>, name: string) {
    exists i | 0 <= i < |aggregates| ::
      aggregates[i].name == name && !Typed(aggregates[i]) && forall k | 0 <= k < i :: Typed(aggregates[k])
  }

  lemma {:induction false} AggregateOutcome(grouped: seq<Field>, aggregates: seq<Aggregate>)
    ensures var r := Aggregated(grouped, aggregates);
            && (r.Ok? <==> forall i | 0 <= i < |aggregates| :: Typed(aggregates[i]))
            && (r.Err? ==> r.error.FieldUnresolved? && FirstUntyped(aggregates, r.error.field))
  {
    if aggregates != [] {
      var init := aggregates[..|aggregates| - 1];
      AggregateOutcome(grouped, init);
      assert forall i | 0 <= i < |init| :: init[i] == aggregates[i];
    }
  }

  predicate StepSucceeds(fields: seq<Field>, step: Step, schemas: map<string, Schema>) {
    match step
    case Enrich(lookups) => forall i | 0 <= i < |lookups| :: LookupResolves(lookups[i], schemas)
    case Aggregation(grain, groups, aggregates) =>
      && (forall i | 0 <= i < |grain| :: Present(fields, grain[i]))
      && (forall i | 0 <= i < |groups| :: Present(fields, groups[i]))
      && (forall i | 0 <= i < |aggregates| :: Typed(aggregates[i]))
    case _ => true
  }

  /**
    A step fails only where a lookup does not resolve, a grouped field is not carried, or an
    aggregate has no name or type; a step of any other pattern but the four carries its fields on.
  */
  lemma StepOutcome(fields: seq<Field>, step: Step, schemas: map<string, Schema>)
    ensures StepFields(fields, step, schemas).Ok? <==> StepSucceeds(fields, step, schemas)
    ensures step.Validate? || step.Pass? ==> StepFields(fields, step, schemas) == Ok(fields)
    ensures step.Enrich? && StepFields(fields, step, schemas).Err?
            ==> FirstLookupFails(step.lookups, schemas, StepFields(fields, step, schemas).error)
    ensures step.Aggregation? && StepFields(fields, step, schemas).Err?
            ==> var e := StepFields(fields, step, schemas).error;
                e.FieldUnresolved? && (FirstMissing(fields, step.grain + step.groups, e.field)
                                       || FirstUntyped(step.aggregates, e.field))
  {
    match step {
      case Enrich(lookups) => EnrichOutcome(fields, lookups, schemas);
      case Aggregation(grain, groups, aggregates) => AggregationOutcome(fields, grain, groups, aggregates);
      case _ =>
    }
  }

  lemma AggregationOutcome(fields: seq<Field>, grain: seq<string>, groups: seq<string>, aggregates: seq<Aggregate>)
    ensures var grouped := Grouped(fields, grain + groups);
            && (grouped.Ok? <==> (forall i | 0 <= i < |grain| :: Present(fields, grain[i]))
                                 && forall i | 0 <= i < |groups| :: Present(fields, groups[i]))
            && (grouped.Err? ==> grouped.error.FieldUnresolved?
                                 && FirstMissing(fields, grain + groups, grouped.error.field))
            && (grouped.Ok? ==>
                  var r := Aggregated(grouped.value, aggregates);
                  && (r.Ok? <==> forall i | 0 <= i < |aggregates| :: Typed(aggregates[i]))
                  && (r.Err? ==> r.error.FieldUnresolved? && FirstUntyped(aggregates, r.error.field)))
  {
    var names := grain + groups;
    GroupOutcome(fields, names);
    assert forall i | 0 <= i < |grain| :: names[i] == grain[i];
    assert forall i | 0 <= i < |groups| :: names[|grain| + i] == groups[i];
    if Grouped(fields, names).Ok? { AggregateOutcome(Grouped(fields, names).value, aggregates); }
  }
}

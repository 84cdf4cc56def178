/**
  How a composition's steps change the fields it carries
  (ergasterion/framework/contract.py:1113-1201).
*/
module FieldPropagation {
  import opened Basics
  import opened Relations
  import opened Composition
  import opened OpeningComposition

  /** A mapping entry renames and casts a column, or drops it. */
  datatype Mapping = Mapping(from: string, to: Option<string>, kind: NeutralType)

  /** An inline expression with the columns its parser resolves. */
  datatype Expression = Expression(text: string, columns: seq<string>)

  datatype Calculation =
    | ByExpression(name: string, kind: NeutralType, expression: Expression)
    | ByRule(name: string, kind: NeutralType, rule: string, version: Option<nat>)

  datatype Enrichment = Enrichment(contract: string, relation: Option<string>, fields: seq<string>)

  datatype Aggregate = Aggregate(name: string, kind: Option<NeutralType>, expression: Expression)

  /** A rule on one field, or a reconciliation of a metric with upstream contracts. */
  datatype ValidationRule =
    | OnField(field: string, notNull: bool, completeness: Option<real>)
    | Reconcile(metric: string, contracts: seq<string>)

  /** `Validate` and every other pattern, for which `Pass` stands, change no field. */
  datatype Step =
    | Transform(mapping: seq<Mapping>)
    | Calculate(calculations: seq<Calculation>)
    | Enrich(lookups: seq<Enrichment>)
    | Aggregation(grain: seq<string>, groups: seq<string>, aggregates: seq<Aggregate>)
    | Validate(stage: string, rules: seq<ValidationRule>)
    | Pass

  datatype PropagationError =
    | CompositionFails(error: CompositionError)
    | SourceUnresolved(contract: string)
    | FieldUnresolved(field: string)

  type Fields = Result<seq<Field>, PropagationError>

  function NewField(name: string, kind: NeutralType): Field { Field(name, kind, false, None, None) }

  // ---------------------------------------------------------------- an ordered dictionary of fields

  /** `pop` with a default. */
  function Without(fields: seq<Field>, name: string): seq<Field> {
    if fields == [] then []
    else
      var init := Without(fields[..|fields| - 1], name);
      if fields[|fields| - 1].name == name then init else init + [fields[|fields| - 1]]
  }

  /** Assignment under the field's own name: in place when the name is there, else at the end. */
  function With(fields: seq<Field>, field: Field): seq<Field> {
    if fields == [] then [field]
    else
      var init, last := fields[..|fields| - 1], fields[|fields| - 1];
      if last.name == field.name then init + [field]
      else if Present(init, field.name) then With(init, field) + [last]
      else fields + [field]
  }

  lemma {:induction false} WithoutLooksUp(fields: seq<Field>, name: string, other: string)
    ensures Lookup(Without(fields, name), other) == if other == name then None else Lookup(fields, other)
  {
    if fields != [] {
      WithoutLooksUp(fields[..|fields| - 1], name, other);
      LastField(Without(fields[..|fields| - 1], name), fields[|fields| - 1], other);
    }
  }

  lemma {:induction false} WithLooksUp(fields: seq<Field>, field: Field, other: string)
    ensures Lookup(With(fields, field), other) == if other == field.name then Some(field) else Lookup(fields, other)
  {
    if fields == [] {
      assert Lookup([], other) == None;
      LastField([], field, other);
    } else {
      var init, last := fields[..|fields| - 1], fields[|fields| - 1];
      WithLooksUp(init, field, other);
      LastField(init, field, other);
      LastField(With(init, field), last, other);
      LastField(fields, field, other);
    }
  }

  lemma PresentWith(fields: seq<Field>, field: Field, name: string)
    ensures Present(With(fields, field), name) <==> Present(fields, name) || field.name == name
  {
    WithLooksUp(fields, field, name);
    LookupFinds(fields, name);
    LookupFinds(With(fields, field), name);
  }

  lemma LastField(init: seq<Field>, last: Field, name: string)
    ensures Lookup(init + [last], name) == if last.name == name then Some(last) else Lookup(init, name)
  {
    assert (init + [last])[..|init|] == init;
  }

  /** Assigning a name never leaves it twice. */
  lemma {:induction false} WithKeepsDistinct(fields: seq<Field>, field: Field)
    requires DistinctNames(fields)
    ensures DistinctNames(With(fields, field))
    ensures forall name :: Present(With(fields, field), name) <==> Present(fields, name) || name == field.name
  {
    forall name
      ensures Present(With(fields, field), name) <==> Present(fields, name) || name == field.name
    {
      WithLooksUp(fields, field, name);
      LookupFinds(With(fields, field), name);
      LookupFinds(fields, name);
    }
    if fields != [] {
      var init, last := fields[..|fields| - 1], fields[|fields| - 1];
      WithKeepsDistinct(init, field);
      assert !Present(init, last.name);
    }
  }

  lemma {:induction false} WithoutKeepsDistinct(fields: seq<Field>, name: string)
    requires DistinctNames(fields)
    ensures DistinctNames(Without(fields, name))
    ensures forall other :: Present(Without(fields, name), other) <==> Present(fields, other) && other != name
  {
    forall other
      ensures Present(Without(fields, name), other) <==> Present(fields, other) && other != name
    {
      WithoutLooksUp(fields, name, other);
      LookupFinds(Without(fields, name), other);
      LookupFinds(fields, other);
    }
    if fields != [] {
      var init, last := fields[..|fields| - 1], fields[|fields| - 1];
      WithoutKeepsDistinct(init, name);
      assert !Present(init, last.name);
    }
  }

  function DictOf(fields: seq<Field>): seq<Field> {
    if fields == [] then [] else With(DictOf(fields[..|fields| - 1]), fields[|fields| - 1])
  }

  lemma {:induction false} DictHolds(fields: seq<Field>)
    ensures DistinctNames(DictOf(fields))
    ensures forall name :: Lookup(DictOf(fields), name) == Lookup(fields, name)
    ensures forall name :: Present(DictOf(fields), name) <==> Present(fields, name)
  {
    if fields != [] {
      var init, last := fields[..|fields| - 1], fields[|fields| - 1];
      DictHolds(init);
      WithKeepsDistinct(DictOf(init), last);
      forall name
        ensures Lookup(DictOf(fields), name) == Lookup(fields, name)
      {
        WithLooksUp(DictOf(init), last, name);
      }
    }
    forall name
      ensures Present(DictOf(fields), name) <==> Present(fields, name)
    {
      LookupFinds(DictOf(fields), name);
      LookupFinds(fields, name);
    }
  }

  // ---------------------------------------------------------------- the four steps that change fields

  function Mapped(fields: seq<Field>, entry: Mapping): seq<Field> {
    var rest := Without(fields, entry.from);
    if entry.to.Some? && entry.to.value != "" then With(rest, NewField(entry.to.value, entry.kind)) else rest
  }

  function Transformed(fields: seq<Field>, mapping: seq<Mapping>): seq<Field> {
    if mapping == [] then fields else Mapped(Transformed(fields, mapping[..|mapping| - 1]), mapping[|mapping| - 1])
  }

  function Calculated(fields: seq<Field>, calculations: seq<Calculation>): seq<Field> {
    if calculations == [] then fields else
    var init, last := Calculated(fields, calculations[..|calculations| - 1]), calculations[|calculations| - 1];
    if last.name == "" then init else With(init, NewField(last.name, last.kind))
  }

  /** The named fields of one looked-up relation. */
  function Borrowed(fields: seq<Field>, available: seq<Field>, names: seq<string>): Fields {
    if names == [] then Ok(fields) else
    var init := Borrowed(fields, available, names[..|names| - 1]);
    if init.Err? then init else
    var name := names[|names| - 1];
    var referenced := Lookup(available, name);
    if referenced.None? then Err(FieldUnresolved(name)) else Ok(With(init.value, NewField(name, referenced.value.kind)))
  }

  function LookupKey(lookup: Enrichment): string { ReadKey(Read(lookup.contract, lookup.relation)) }

  function Enriched(fields: seq<Field>, lookups: seq<Enrichment>, schemas: map<string, Schema>): Fields {
    if lookups == [] then Ok(fields) else
    var init := Enriched(fields, lookups[..|lookups| - 1], schemas);
    if init.Err? then init else
    var last := lookups[|lookups| - 1];
    if LookupKey(last) !in schemas then Err(SourceUnresolved(last.contract))
    else Borrowed(init.value, schemas[LookupKey(last)].fields, last.fields)
  }

  /** The grouped fields an aggregation keeps. */
  function Grouped(fields: seq<Field>, names: seq<string>): Fields {
    if names == [] then Ok([]) else
    var init := Grouped(fields, names[..|names| - 1]);
    if init.Err? then init else
    var existing := Lookup(fields, names[|names| - 1]);
    if existing.None? then Err(FieldUnresolved(names[|names| - 1])) else Ok(With(init.value, existing.value))
  }

  function Aggregated(grouped: seq<Field>, aggregates: seq<Aggregate>): Fields {
    if aggregates == [] then Ok(grouped) else
    var init := Aggregated(grouped, aggregates[..|aggregates| - 1]);
    if init.Err? then init else
    var last := aggregates[|aggregates| - 1];
    if last.name == "" || last.kind.None? then Err(FieldUnresolved(last.name))
    else Ok(With(init.value, NewField(last.name, last.kind.value)))
  }

  function StepFields(fields: seq<Field>, step: Step, schemas: map<string, Schema>): Fields {
    match step
    case Transform(mapping) => Ok(Transformed(fields, mapping))
    case Calculate(calculations) => Ok(Calculated(fields, calculations))
    case Enrich(lookups) => Enriched(fields, lookups, schemas)
    case Aggregation(grain, groups, aggregates) =>
      var grouped := Grouped(fields, grain + groups);
      if grouped.Err? then grouped else Aggregated(grouped.value, aggregates)
    case _ => Ok(fields)
  }

  /** The fields carried after the first n steps. */
  function FieldsAfter(opening: seq<Field>, steps: seq<Step>, n: nat, schemas: map<string, Schema>): Fields
    requires n <= |steps|
  {
    if n == 0 then Ok(DictOf(opening)) else
    var before := FieldsAfter(opening, steps, n - 1, schemas);
    if before.Err? then before else StepFields(before.value, steps[n - 1], schemas)
  }

  // ---------------------------------------------------------------- the loops

  method TransformFields(before: seq<Field>, mapping: seq<Mapping>) returns (fields: seq<Field>)
    ensures fields == Transformed(before, mapping)
  {
    fields := before;
    for i := 0 to |mapping|
      invariant fields == Transformed(before, mapping[..i])
    {
      assert mapping[..i + 1][..i] == mapping[..i];
      fields := Without(fields, mapping[i].from);
      if mapping[i].to.Some? && mapping[i].to.value != "" {
        fields := With(fields, NewField(mapping[i].to.value, mapping[i].kind));
      }
    }
    assert mapping[..|mapping|] == mapping;
  }

  method CalculateFields(before: seq<Field>, calculations: seq<Calculation>) returns (fields: seq<Field>)
    ensures fields == Calculated(before, calculations)
  {
    fields := before;
    for i := 0 to |calculations|
      invariant fields == Calculated(before, calculations[..i])
    {
      assert calculations[..i + 1][..i] == calculations[..i];
      if calculations[i].name != "" {
        fields := With(fields, NewField(calculations[i].name, calculations[i].kind));
      }
    }
    assert calculations[..|calculations|] == calculations;
  }

  method BorrowFields(before: seq<Field>, available: seq<Field>, names: seq<string>) returns (r: Fields)
    ensures r == Borrowed(before, available, names)
  {
    var fields := before;
    for i := 0 to |names|
      invariant Borrowed(before, available, names[..i]) == Ok(fields)
    {
      assert names[..i + 1][..i] == names[..i];
      var referenced := Lookup(available, names[i]);
      if referenced.None? {
        BorrowFails(before, available, names, i + 1);
        return Err(FieldUnresolved(names[i]));
      }
      fields := With(fields, NewField(names[i], referenced.value.kind));
    }
    assert names[..|names|] == names;
    return Ok(fields);
  }

  lemma {:induction false} BorrowFails(before: seq<Field>, available: seq<Field>, names: seq<string>, i: nat)
    requires i <= |names| && Borrowed(before, available, names[..i]).Err?
    ensures Borrowed(before, available, names) == Borrowed(before, available, names[..i])
  {
    if i < |names| {
      assert names[..|names| - 1][..i] == names[..i];
      BorrowFails(before, available, names[..|names| - 1], i);
    } else {
      assert names[..i] == names;
    }
  }

  method EnrichFields(before: seq<Field>, lookups: seq<Enrichment>, schemas: map<string, Schema>) returns (r: Fields)
    ensures r == Enriched(before, lookups, schemas)
  {
    var fields := before;
    for i := 0 to |lookups|
      invariant Enriched(before, lookups[..i], schemas) == Ok(fields)
    {
      assert lookups[..i + 1][..i] == lookups[..i];
      var key := LookupKey(lookups[i]);
      if key !in schemas {
        EnrichFails(before, lookups, schemas, i + 1);
        return Err(SourceUnresolved(lookups[i].contract));
      }
      var borrowed := BorrowFields(fields, schemas[key].fields, lookups[i].fields);
      if borrowed.Err? {
        EnrichFails(before, lookups, schemas, i + 1);
        return borrowed;
      }
      fields := borrowed.value;
    }
    assert lookups[..|lookups|] == lookups;
    return Ok(fields);
  }

  lemma {:induction false} EnrichFails(before: seq<Field>, lookups: seq<Enrichment>, schemas: map<string, Schema>,
      i: nat)
    requires i <= |lookups| && Enriched(before, lookups[..i], schemas).Err?
    ensures Enriched(before, lookups, schemas) == Enriched(before, lookups[..i], schemas)
  {
    if i < |lookups| {
      assert lookups[..|lookups| - 1][..i] == lookups[..i];
      EnrichFails(before, lookups[..|lookups| - 1], schemas, i);
    } else {
      assert lookups[..i] == lookups;
    }
  }

  method GroupFields(fields: seq<Field>, names: seq<string>) returns (r: Fields)
    ensures r == Grouped(fields, names)
  {
    var grouped: seq<Field> := [];
    for i := 0 to |names|
      invariant Grouped(fields, names[..i]) == Ok(grouped)
    {
      assert names[..i + 1][..i] == names[..i];
      var existing := Lookup(fields, names[i]);
      if existing.None? {
        GroupFails(fields, names, i + 1);
        return Err(FieldUnresolved(names[i]));
      }
      grouped := With(grouped, existing.value);
    }
    assert names[..|names|] == names;
    return Ok(grouped);
  }

  method AggregateFields(grouped: seq<Field>, aggregates: seq<Aggregate>) returns (r: Fields)
    ensures r == Aggregated(grouped, aggregates)
  {
    var fields := grouped;
    for i := 0 to |aggregates|
      invariant Aggregated(grouped, aggregates[..i]) == Ok(fields)
    {
      assert aggregates[..i + 1][..i] == aggregates[..i];
      if aggregates[i].name == "" || aggregates[i].kind.None? {
        AggregateFails(grouped, aggregates, i + 1);
        return Err(FieldUnresolved(aggregates[i].name));
      }
      fields := With(fields, NewField(aggregates[i].name, aggregates[i].kind.value));
    }
    assert aggregates[..|aggregates|] == aggregates;
    return Ok(fields);
  }

  lemma {:induction false} GroupFails(fields: seq<Field>, names: seq<string>, i: nat)
    requires i <= |names| && Grouped(fields, names[..i]).Err?
    ensures Grouped(fields, names) == Grouped(fields, names[..i])
  {
    if i < |names| {
      assert names[..|names| - 1][..i] == names[..i];
      GroupFails(fields, names[..|names| - 1], i);
    } else {
      assert names[..i] == names;
    }
  }

  lemma {:induction false} AggregateFails(grouped: seq<Field>, aggregates: seq<Aggregate>, i: nat)
    requires i <= |aggregates| && Aggregated(grouped, aggregates[..i]).Err?
    ensures Aggregated(grouped, aggregates) == Aggregated(grouped, aggregates[..i])
  {
    if i < |aggregates| {
      assert aggregates[..|aggregates| - 1][..i] == aggregates[..i];
      AggregateFails(grouped, aggregates[..|aggregates| - 1], i);
    } else {
      assert aggregates[..i] == aggregates;
    }
  }

  method ApplyStep(fields: seq<Field>, step: Step, schemas: map<string, Schema>) returns (r: Fields)
    ensures r == StepFields(fields, step, schemas)
  {
    match step {
      case Transform(mapping) =>
        var after := TransformFields(fields, mapping);
        return Ok(after);
      case Calculate(calculations) =>
        var after := CalculateFields(fields, calculations);
        return Ok(after);
      case Enrich(lookups) =>
        r := EnrichFields(fields, lookups, schemas);
      case Aggregation(grain, groups, aggregates) =>
        r := GroupFields(fields, grain + groups);
        if r.Ok? { r := AggregateFields(r.value, aggregates); }
      case _ =>
        return Ok(fields);
    }
  }

  /** The field set after each of the first steps. */
  ghost predicate Occurrences(opening: seq<Field>, steps: seq<Step>, schemas: map<string, Schema>,
                              occurrences: seq<seq<Field>>) {
    && |occurrences| <= |steps|
    && forall i | 0 <= i < |occurrences| :: Ok(occurrences[i]) == FieldsAfter(opening, steps, i + 1, schemas)
  }

  lemma OneMoreOccurrence(opening: seq<Field>, steps: seq<Step>, schemas: map<string, Schema>,
      occurrences: seq<seq<Field>>, fields: seq<Field>)
    requires |occurrences| < |steps| && Occurrences(opening, steps, schemas, occurrences)
    requires FieldsAfter(opening, steps, |occurrences| + 1, schemas) == Ok(fields)
    ensures Occurrences(opening, steps, schemas, occurrences + [fields])
  {}

  /** The ordered dictionary the opening fields make. */
  method OpeningDict(opening: seq<Field>) returns (fields: seq<Field>)
    ensures fields == DictOf(opening)
  {
    fields := [];
    for i := 0 to |opening|
      invariant fields == DictOf(opening[..i])
    {
      assert opening[..i + 1][..i] == opening[..i];
      fields := With(fields, opening[i]);
    }
    assert opening[..|opening|] == opening;
  }

  /** The fields after one more step, or the error that ends propagation. */
  method NextFields(opening: seq<Field>, steps: seq<Step>, schemas: map<string, Schema>, i: nat, fields: seq<Field>)
    returns (r: Fields)
    requires i < |steps| && FieldsAfter(opening, steps, i, schemas) == Ok(fields)
    ensures r == FieldsAfter(opening, steps, i + 1, schemas)
    ensures r.Err? ==> r == FieldsAfter(opening, steps, |steps|, schemas)
  {
    r := ApplyStep(fields, steps[i], schemas);
    if r.Err? { PropagationFails(opening, steps, schemas, i + 1, |steps|); }
  }

  /** The fields after every step, in step order, or the first step's error. */
  method PropagateSteps(opening: seq<Field>, steps: seq<Step>, schemas: map<string, Schema>)
    returns (r: Result<seq<seq<Field>>, PropagationError>)
    ensures r.Ok? <==> FieldsAfter(opening, steps, |steps|, schemas).Ok?
    ensures r.Err? ==> Err(r.error) == FieldsAfter(opening, steps, |steps|, schemas)
    ensures r.Ok? ==> |r.value| == |steps| && Occurrences(opening, steps, schemas, r.value)
  {
    var fields := OpeningDict(opening);
    var occurrences: seq<seq<Field>> := [];
    for i := 0 to |steps|
      invariant FieldsAfter(opening, steps, i, schemas) == Ok(fields)
      invariant |occurrences| == i && Occurrences(opening, steps, schemas, occurrences)
    {
      var after := NextFields(opening, steps, schemas, i, fields);
      if after.Err? { return Err(after.error); }
      OneMoreOccurrence(opening, steps, schemas, occurrences, after.value);
      fields := after.value;
      occurrences := occurrences + [fields];
    }
    return Ok(occurrences);
  }

  /** The field set the sources open with, and the field set after every step. */
  method PropagateRelationFields(
    sources: seq<Source>, combination: Option<Combination>, steps: seq<Step>, schemas: map<string, Schema>)
    returns (r: Result<(Opening, seq<seq<Field>>), PropagationError>)
    ensures r.Ok? ==>
              && (forall i | 0 <= i < |sources| :: SourceReady(sources[i], schemas))
              && Opens(sources, schemas, combination, r.value.0) && |r.value.1| == |steps|
              && forall i | 0 <= i < |steps| :: Ok(r.value.1[i]) == FieldsAfter(r.value.0.fields, steps, i + 1, schemas)
    ensures r.Err? && r.error.CompositionFails? <==>
            !((forall i | 0 <= i < |sources| :: SourceReady(sources[i], schemas))
              && (|sources| <= 1 || Combines(ConformedSources(sources, schemas), combination)))
    ensures r.Err? && !r.error.CompositionFails? ==>
              && (forall i | 0 <= i < |sources| :: SourceReady(sources[i], schemas))
              && exists opening :: Opens(sources, schemas, combination, opening)
                                   && FieldsAfter(opening.fields, steps, |steps|, schemas) == Err(r.error)
  {
    var opening := ResolveOpeningComposition(sources, schemas, combination);
    if opening.Err? { return Err(CompositionFails(opening.error)); }
    var occurrences := PropagateSteps(opening.value.fields, steps, schemas);
    if occurrences.Err? {
      StepsNeverFailToCompose(opening.value.fields, steps, |steps|, schemas);
      return Err(occurrences.error);
    }
    return Ok((opening.value, occurrences.value));
  }

  lemma {:induction false} StepsNeverFailToCompose(opening: seq<Field>, steps: seq<Step>, n: nat,
      schemas: map<string, Schema>)
    requires n <= |steps|
    ensures FieldsAfter(opening, steps, n, schemas).Err?
            ==> !FieldsAfter(opening, steps, n, schemas).error.CompositionFails?
  {
    if n > 0 {
      StepsNeverFailToCompose(opening, steps, n - 1, schemas);
      var before := FieldsAfter(opening, steps, n - 1, schemas);
      if before.Ok? { StepNeverFailsToCompose(before.value, steps[n - 1], schemas); }
    }
  }

  lemma StepNeverFailsToCompose(fields: seq<Field>, step: Step, schemas: map<string, Schema>)
    ensures StepFields(fields, step, schemas).Err? ==> !StepFields(fields, step, schemas).error.CompositionFails?
  {
    match step {
      case Enrich(lookups) => LookupsNeverFailToCompose(fields, lookups, schemas);
      case Aggregation(grain, groups, aggregates) => GroupsNeverFailToCompose(fields, grain + groups, aggregates);
      case _ =>
    }
  }

  lemma {:induction false} LookupsNeverFailToCompose(fields: seq<Field>, lookups: seq<Enrichment>,
      schemas: map<string, Schema>)
    ensures Enriched(fields, lookups, schemas).Err? ==> !Enriched(fields, lookups, schemas).error.CompositionFails?
  {
    if lookups != [] {
      var init, last := Enriched(fields, lookups[..|lookups| - 1], schemas), lookups[|lookups| - 1];
      LookupsNeverFailToCompose(fields, lookups[..|lookups| - 1], schemas);
      if init.Ok? && LookupKey(last) in schemas {
        BorrowNeverFailsToCompose(init.value, schemas[LookupKey(last)].fields, last.fields);
      }
    }
  }

  lemma {:induction false} BorrowNeverFailsToCompose(fields: seq<Field>, available: seq<Field>, names: seq<string>)
    ensures Borrowed(fields, available, names).Err? ==> Borrowed(fields, available, names).error.FieldUnresolved?
  {
    if names != [] { BorrowNeverFailsToCompose(fields, available, names[..|names| - 1]); }
  }

  lemma {:induction false} GroupsNeverFailToCompose(fields: seq<Field>, names: seq<string>, aggregates: seq<Aggregate>)
    ensures Grouped(fields, names).Err? ==> Grouped(fields, names).error.FieldUnresolved?
    ensures forall grouped ::
            Aggregated(grouped, aggregates).Err? ==> Aggregated(grouped, aggregates).error.FieldUnresolved?
    decreases |names| + |aggregates|
  {
    if names != [] { GroupsNeverFailToCompose(fields, names[..|names| - 1], aggregates); }
    if aggregates != [] { GroupsNeverFailToCompose(fields, names, aggregates[..|aggregates| - 1]); }
  }

  lemma {:induction false} PropagationFails(opening: seq<Field>, steps: seq<Step>, schemas: map<string, Schema>,
      i: nat, n: nat)
    requires i <= n <= |steps| && FieldsAfter(opening, steps, i, schemas).Err?
    ensures FieldsAfter(opening, steps, n, schemas) == FieldsAfter(opening, steps, i, schemas)
  {
    if i < n { PropagationFails(opening, steps, schemas, i, n - 1); }
  }

  // ---------------------------------------------------------------- what a step leaves

  predicate Sets(entry: Mapping, name: string) {
    entry.to == Some(name) && name != ""
  }

  /** An entry decides what becomes of a name. */
  predicate Touches(entry: Mapping, name: string) {
    entry.from == name || Sets(entry, name)
  }

  lemma MappedLooksUp(fields: seq<Field>, entry: Mapping, name: string)
    ensures Lookup(Mapped(fields, entry), name)
            == if Sets(entry, name) then Some(NewField(name, entry.kind))
               else if entry.from == name then None else Lookup(fields, name)
  {
    WithoutLooksUp(fields, entry.from, name);
    if entry.to.Some? {
      WithLooksUp(Without(fields, entry.from), NewField(entry.to.value, entry.kind), name);
    }
  }

  /**
    The last entry that touches a name decides: the name is carried with that entry's type
    when the entry sets it and gone when the entry only takes it away. An untouched name is
    carried as before.
  */
  lemma {:induction false} LastTouchDecides(fields: seq<Field>, mapping: seq<Mapping>, name: string, last: int)
    requires -1 <= last < |mapping|
    requires last >= 0 ==> Touches(mapping[last], name)
    requires forall k | last < k < |mapping| :: !Touches(mapping[k], name)
    ensures Lookup(Transformed(fields, mapping), name)
            == if last < 0 then Lookup(fields, name)
               else if Sets(mapping[last], name) then Some(Field(name, mapping[last].kind, false, None, None)) else None
  {
    if mapping != [] {
      var init := mapping[..|mapping| - 1];
      MappedLooksUp(Transformed(fields, init), mapping[|mapping| - 1], name);
      if last < |mapping| - 1 {
        LastTouchDecides(fields, init, name, last);
      }
    }
  }

  /** The k-th entry takes a name away and no later one sets it again. */
  predicate TakenAt(mapping: seq<Mapping>, k: nat, name: string)
    requires k < |mapping|
  {
    mapping[k].from == name && forall l | k <= l < |mapping| :: !Sets(mapping[l], name)
  }

  /**
    A field a mapping declares is carried after it exactly when no later entry of the same
    mapping takes it away for good.
  */
  lemma DeclaredIsCarriedExactly(fields: seq<Field>, mapping: seq<Mapping>, i: nat, name: string)
    requires i < |mapping| && Sets(mapping[i], name)
    ensures Lookup(Transformed(fields, mapping), name).Some?
            <==> forall k | i < k < |mapping| :: !TakenAt(mapping, k, name)
  {
    var last := LastTouch(mapping, name, i);
    LastTouchDecides(fields, mapping, name, last);
    if k :| i < k < |mapping| && TakenAt(mapping, k, name) {
      assert Touches(mapping[k], name) && last >= k;
    } else if !Sets(mapping[last], name) {
      assert TakenAt(mapping, last, name);
    }
  }

  lemma {:induction false} LastTouch(mapping: seq<Mapping>, name: string, i: nat) returns (last: nat)
    requires i < |mapping| && Touches(mapping[i], name)
    ensures i <= last < |mapping| && Touches(mapping[last], name)
    ensures forall k | last < k < |mapping| :: !Touches(mapping[k], name)
    decreases |mapping| - i
  {
    if j :| i < j < |mapping| && Touches(mapping[j], name) {
      last := LastTouch(mapping, name, j);
    } else {
      last := i;
    }
  }

  /** The last calculation of a name decides its type; the others keep theirs. */
  lemma {:induction false} LastCalculationDecides(fields: seq<Field>, calculations: seq<Calculation>, name: string,
      last: int)
    requires -1 <= last < |calculations| && name != ""
    requires last >= 0 ==> calculations[last].name == name
    requires forall k | last < k < |calculations| :: calculations[k].name != name
    ensures Lookup(Calculated(fields, calculations), name)
            == if last < 0 then Lookup(fields, name) else Some(Field(name, calculations[last].kind, false, None, None))
  {
    if calculations != [] {
      var init, c := calculations[..|calculations| - 1], calculations[|calculations| - 1];
      if c.name != "" { WithLooksUp(Calculated(fields, init), NewField(c.name, c.kind), name); }
      if last < |init| { LastCalculationDecides(fields, init, name, last); }
    }
  }

  /** A borrowed field has the type its relation gives it; the others keep theirs. */
  lemma {:induction false} BorrowedLooksUp(fields: seq<Field>, available: seq<Field>, names: seq<string>, name: string)
    requires Borrowed(fields, available, names).Ok?
    ensures name in names ==> Lookup(available, name).Some?
    ensures Lookup(Borrowed(fields, available, names).value, name)
            == if name in names then Some(NewField(name, Lookup(available, name).value.kind)) else Lookup(fields, name)
  {
    if names != [] {
      var init, last := names[..|names| - 1], names[|names| - 1];
      BorrowedLooksUp(fields, available, init, name);
      WithLooksUp(Borrowed(fields, available, init).value, NewField(last, Lookup(available, last).value.kind), name);
      assert names == init + [last];
    }
  }

  /** The last lookup that brings a name decides its type: the one of the relation it reads. */
  lemma {:induction false} LastLookupDecides(
    fields: seq<Field>, lookups: seq<Enrichment>, schemas: map<string, Schema>, name: string, last: int)
    requires Enriched(fields, lookups, schemas).Ok? && -1 <= last < |lookups|
    requires last >= 0 ==> name in lookups[last].fields
    requires forall k | last < k < |lookups| :: name !in lookups[k].fields
    ensures last >= 0 ==>
              LookupKey(lookups[last]) in schemas && Lookup(schemas[LookupKey(lookups[last])].fields, name).Some?
    ensures Lookup(Enriched(fields, lookups, schemas).value, name)
            == if last < 0 then Lookup(fields, name)
               else
                 Some(Field(name, Lookup(schemas[LookupKey(lookups[last])].fields, name).value.kind, false, None, None))
  {
    if lookups != [] {
      var init, lookup := lookups[..|lookups| - 1], lookups[|lookups| - 1];
      BorrowedLooksUp(Enriched(fields, init, schemas).value, schemas[LookupKey(lookup)].fields, lookup.fields, name);
      if last < |init| { LastLookupDecides(fields, init, schemas, name, last); }
    }
  }

  /** An aggregate has its declared type, and a grouped field is carried as it was. */
  lemma LastAggregateDecides(
    fields: seq<Field>, grain: seq<string>, groups: seq<string>, aggregates: seq<Aggregate>, name: string, last: int)
    requires StepFields(fields, Aggregation(grain, groups, aggregates), map[]).Ok? && -1 <= last < |aggregates|
    requires last >= 0 ==> aggregates[last].name == name
    requires forall k | last < k < |aggregates| :: aggregates[k].name != name
    ensures last >= 0 ==> aggregates[last].kind.Some?
    ensures Lookup(StepFields(fields, Aggregation(grain, groups, aggregates), map[]).value, name)
            == if last >= 0 then Some(Field(name, aggregates[last].kind.value, false, None, None))
               else if name in grain + groups then Lookup(fields, name) else None
  {
    var grouped := Grouped(fields, grain + groups).value;
    GroupedNames(fields, grain + groups, name);
    AggregatedLooksUp(grouped, aggregates, name, last);
  }

  lemma {:induction false} AggregatedLooksUp(grouped: seq<Field>, aggregates: seq<Aggregate>, name: string, last: int)
    requires Aggregated(grouped, aggregates).Ok? && -1 <= last < |aggregates|
    requires last >= 0 ==> aggregates[last].name == name
    requires forall k | last < k < |aggregates| :: aggregates[k].name != name
    ensures last >= 0 ==> aggregates[last].kind.Some?
    ensures Lookup(Aggregated(grouped, aggregates).value, name)
            == if last < 0 then Lookup(grouped, name) else Some(NewField(name, aggregates[last].kind.value))
  {
    if aggregates != [] {
      var init, a := aggregates[..|aggregates| - 1], aggregates[|aggregates| - 1];
      WithLooksUp(Aggregated(grouped, init).value, NewField(a.name, a.kind.value), name);
      if last < |init| { AggregatedLooksUp(grouped, init, name, last); }
    }
  }

  predicate Named(aggregates: seq<Aggregate>, name: string) {
    exists i | 0 <= i < |aggregates| :: aggregates[i].name == name
  }

  /** The names an aggregation leaves are exactly its groups and its aggregates. */
  lemma AggregationLeaves(fields: seq<Field>, grain: seq<string>, groups: seq<string>, aggregates: seq<Aggregate>,
      name: string)
    requires StepFields(fields, Aggregation(grain, groups, aggregates), map[]).Ok?
    ensures Present(StepFields(fields, Aggregation(grain, groups, aggregates), map[]).value, name)
            <==> name in grain || name in groups || Named(aggregates, name)
  {
    var grouped := Grouped(fields, grain + groups);
    GroupedNames(fields, grain + groups, name);
    AggregatedNames(grouped.value, aggregates, name);
    LookupFinds(grouped.value, name);
  }

  lemma {:induction false} GroupedNames(fields: seq<Field>, names: seq<string>, name: string)
    requires Grouped(fields, names).Ok?
    ensures Lookup(Grouped(fields, names).value, name) == if name in names then Lookup(fields, name) else None
    ensures name in names ==> Lookup(fields, name).Some?
  {
    if names != [] {
      var init, last := names[..|names| - 1], names[|names| - 1];
      GroupedNames(fields, init, name);
      LookupFinds(fields, last);
      WithLooksUp(Grouped(fields, init).value, Lookup(fields, last).value, name);
      assert names == init + [last];
    }
  }

  lemma NamedLast(init: seq<Aggregate>, last: Aggregate, name: string)
    ensures Named(init + [last], name) <==> Named(init, name) || last.name == name
  {
    var all := init + [last];
    assert all[|init|] == last && forall i | 0 <= i < |init| :: all[i] == init[i];
  }

  lemma {:induction false} AggregatedNames(grouped: seq<Field>, aggregates: seq<Aggregate>, name: string)
    requires Aggregated(grouped, aggregates).Ok?
    ensures Present(Aggregated(grouped, aggregates).value, name) <==> Present(grouped, name) || Named(aggregates, name)
  {
    if aggregates != [] {
      var init, last := aggregates[..|aggregates| - 1], aggregates[|aggregates| - 1];
      AggregatedNames(grouped, init, name);
      PresentWith(Aggregated(grouped, init).value, NewField(last.name, last.kind.value), name);
      NamedLast(init, last, name);
      assert aggregates == init + [last];
    }
  }

  // ---------------------------------------------------------------- names stay distinct

  lemma {:induction false} TransformKeepsDistinct(fields: seq<Field>, mapping: seq<Mapping>)
    requires DistinctNames(fields)
    ensures DistinctNames(Transformed(fields, mapping))
  {
    if mapping != [] {
      var before, entry := Transformed(fields, mapping[..|mapping| - 1]), mapping[|mapping| - 1];
      TransformKeepsDistinct(fields, mapping[..|mapping| - 1]);
      WithoutKeepsDistinct(before, entry.from);
      if entry.to.Some? {
        WithKeepsDistinct(Without(before, entry.from), NewField(entry.to.value, entry.kind));
      }
    }
  }

  lemma {:induction false} CalculateKeepsDistinct(fields: seq<Field>, calculations: seq<Calculation>)
    requires DistinctNames(fields)
    ensures DistinctNames(Calculated(fields, calculations))
  {
    if calculations != [] {
      var init, last := calculations[..|calculations| - 1], calculations[|calculations| - 1];
      CalculateKeepsDistinct(fields, init);
      WithKeepsDistinct(Calculated(fields, init), NewField(last.name, last.kind));
    }
  }

  lemma {:induction false} BorrowKeepsDistinct(fields: seq<Field>, available: seq<Field>, names: seq<string>)
    requires DistinctNames(fields) && Borrowed(fields, available, names).Ok?
    ensures DistinctNames(Borrowed(fields, available, names).value)
  {
    if names != [] {
      var init, last := names[..|names| - 1], names[|names| - 1];
      BorrowKeepsDistinct(fields, available, init);
      WithKeepsDistinct(Borrowed(fields, available, init).value, NewField(last, Lookup(available, last).value.kind));
    }
  }

  lemma {:induction false} EnrichKeepsDistinct(fields: seq<Field>, lookups: seq<Enrichment>,
      schemas: map<string, Schema>)
    requires DistinctNames(fields) && Enriched(fields, lookups, schemas).Ok?
    ensures DistinctNames(Enriched(fields, lookups, schemas).value)
  {
    if lookups != [] {
      var init, last := lookups[..|lookups| - 1], lookups[|lookups| - 1];
      EnrichKeepsDistinct(fields, init, schemas);
      BorrowKeepsDistinct(Enriched(fields, init, schemas).value, schemas[LookupKey(last)].fields, last.fields);
    }
  }

  lemma {:induction false} GroupKeepsDistinct(fields: seq<Field>, names: seq<string>)
    requires Grouped(fields, names).Ok?
    ensures DistinctNames(Grouped(fields, names).value)
  {
    if names != [] {
      var init, last := names[..|names| - 1], names[|names| - 1];
      GroupKeepsDistinct(fields, init);
      WithKeepsDistinct(Grouped(fields, init).value, Lookup(fields, last).value);
    }
  }

  lemma {:induction false} AggregateKeepsDistinct(grouped: seq<Field>, aggregates: seq<Aggregate>)
    requires DistinctNames(grouped) && Aggregated(grouped, aggregates).Ok?
    ensures DistinctNames(Aggregated(grouped, aggregates).value)
  {
    if aggregates != [] {
      var init, last := aggregates[..|aggregates| - 1], aggregates[|aggregates| - 1];
      AggregateKeepsDistinct(grouped, init);
      WithKeepsDistinct(Aggregated(grouped, init).value, NewField(last.name, last.kind.value));
    }
  }

  lemma StepKeepsDistinct(fields: seq<Field>, step: Step, schemas: map<string, Schema>)
    requires DistinctNames(fields) && StepFields(fields, step, schemas).Ok?
    ensures DistinctNames(StepFields(fields, step, schemas).value)
  {
    match step {
      case Transform(mapping) => TransformKeepsDistinct(fields, mapping);
      case Calculate(calculations) => CalculateKeepsDistinct(fields, calculations);
      case Enrich(lookups) => EnrichKeepsDistinct(fields, lookups, schemas);
      case Aggregation(grain, groups, aggregates) =>
        GroupKeepsDistinct(fields, grain + groups);
        AggregateKeepsDistinct(Grouped(fields, grain + groups).value, aggregates);
      case _ =>
    }
  }

  /** After every step no two fields share a name, even where the opening repeats a merge key. */
  lemma {:induction false} FieldsStayDistinct(opening: seq<Field>, steps: seq<Step>, n: nat,
      schemas: map<string, Schema>)
    requires n <= |steps| && FieldsAfter(opening, steps, n, schemas).Ok?
    ensures DistinctNames(FieldsAfter(opening, steps, n, schemas).value)
  {
    if n == 0 {
      DictHolds(opening);
    } else {
      FieldsStayDistinct(opening, steps, n - 1, schemas);
      StepKeepsDistinct(FieldsAfter(opening, steps, n - 1, schemas).value, steps[n - 1], schemas);
    }
  }
}

/**
  The relation registry of a declared estate: derivation by field propagation, and the order of
  the product graph its declared reads build
  (ergasterion/framework/contract.py:733-744, 1204-1240, 1527-1544, 1617-1690;
  ergasterion/framework/graph.py:631-695).
*/
module EstateRelations {
  import opened Basics
  import opened Relations
  import opened Composition
  import opened OpeningComposition
  import opened FieldPropagation
  import opened FieldLineage
  import opened ProductGraph
  import opened EstateGraph
  import Order = ProductOrder
  import Passes = RelationRegistry

  // ---------------------------------------------------------------- derivation

  predicate RuleRequires(rule: ValidationRule, name: string) {
    rule.OnField? && rule.field == name && (rule.notNull || rule.completeness == Some(1.0))
  }

  predicate StepRequires(step: Step, name: string) {
    step.Validate? && exists i | 0 <= i < |step.rules| :: RuleRequires(step.rules[i], name)
  }

  /** Some validation rule forbids the field to be null, or wants it complete. */
  predicate Requires(steps: seq<Step>, name: string) {
    exists k | 0 <= k < |steps| :: StepRequires(steps[k], name)
  }

  /** A published field keeps its name, type and mark; a rule may add the mark. */
  function Marked(field: Field, required: bool): Field {
    Field(field.name, field.kind, field.required || required, None, None)
  }

  function MarkedFields(fields: seq<Field>, steps: seq<Step>): seq<Field> {
    seq(|fields|, i requires 0 <= i < |fields| => Marked(fields[i], Requires(steps, fields[i].name)))
  }

  /** The fields propagation leaves a composition with, those its validation rules require marked. */
  function DerivedFields(document: Document, schemas: map<string, Schema>): Option<seq<Field>> {
    var opening := OpenedFields(Plain(document.sources), schemas, document.combination);
    if opening.None? then None else
    var fields := FieldsAfter(opening.value, document.steps, |document.steps|, schemas);
    if fields.Err? then None else Some(MarkedFields(fields.value, document.steps))
  }

  method RequiredByRules(rules: seq<ValidationRule>, before: set<string>) returns (names: set<string>)
    ensures forall name :: name in names <==>
              name in before || exists i | 0 <= i < |rules| :: RuleRequires(rules[i], name)
  {
    names := before;
    for i := 0 to |rules|
      invariant forall name :: name in names <==>
                  name in before || exists k | 0 <= k < i :: RuleRequires(rules[k], name)
    {
      if rules[i].OnField? && (rules[i].notNull || rules[i].completeness == Some(1.0)) {
        assert RuleRequires(rules[i], rules[i].field);
        names := names + {rules[i].field};
      }
    }
  }

  /** The fields the validation rules require. */
  method RequiredFieldNames(steps: seq<Step>) returns (names: set<string>)
    ensures forall name :: name in names <==> Requires(steps, name)
  {
    names := {};
    for k := 0 to |steps|
      invariant forall name :: name in names <==> exists j | 0 <= j < k :: StepRequires(steps[j], name)
    {
      if steps[k].Validate? { names := RequiredByRules(steps[k].rules, names); }
    }
  }

  /** What is derived is what propagation leaves, marked, and nothing where propagation is refused. */
  method DerivePropagated(document: Document, schemas: map<string, Schema>) returns (r: Option<seq<Field>>)
    ensures r == DerivedFields(document, schemas)
  {
    var propagated := PropagateRelationFields(Plain(document.sources), document.combination, document.steps, schemas);
    if propagated.Err? { return None; }
    var (opening, occurrences) := propagated.value;
    var final := if occurrences == [] then DictOf(opening.fields) else occurrences[|occurrences| - 1];
    var marked := MarkRequired(final, document.steps);
    return Some(marked);
  }

  method MarkRequired(fields: seq<Field>, steps: seq<Step>) returns (marked: seq<Field>)
    ensures marked == MarkedFields(fields, steps)
  {
    var required := RequiredFieldNames(steps);
    marked := seq(|fields|, i requires 0 <= i < |fields| => Marked(fields[i], fields[i].name in required));
    assert forall i | 0 <= i < |fields| :: marked[i] == MarkedFields(fields, steps)[i];
  }

  // ---------------------------------------------------------------- stored names do not matter

  ghost predicate AlikeFields(a: seq<Field>, b: seq<Field>) {
    LogicalFields(a) == LogicalFields(b)
  }

  lemma AlikeAt(a: seq<Field>, b: seq<Field>, i: nat)
    requires AlikeFields(a, b) && i < |a|
    ensures |a| == |b| && a[i].(physicalName := None) == b[i].(physicalName := None)
  {
    assert |LogicalFields(a)| == |a| && LogicalFields(a)[i] == LogicalFields(b)[i];
  }

  lemma AlikePresent(a: seq<Field>, b: seq<Field>, name: string)
    requires AlikeFields(a, b)
    ensures Present(a, name) <==> Present(b, name)
  {
    assert |LogicalFields(a)| == |a| && |LogicalFields(b)| == |b|;
    forall i | 0 <= i < |a|
      ensures a[i].name == b[i].name
    {
      AlikeAt(a, b, i);
    }
  }

  lemma AlikeConform(a: seq<Field>, b: seq<Field>, mapping: seq<Conform>)
    requires AlikeFields(a, b)
    ensures ConformedFields(a, mapping) == ConformedFields(b, mapping)
    ensures Conformable(a, mapping) <==> Conformable(b, mapping)
  {
    assert |LogicalFields(a)| == |a| && |LogicalFields(b)| == |b|;
    forall i | 0 <= i < |a|
      ensures ConformedField(a[i], mapping) == ConformedField(b[i], mapping)
    {
      AlikeAt(a, b, i);
    }
    forall i | 0 <= i < |mapping|
      ensures Present(a, mapping[i].from) <==> Present(b, mapping[i].from)
    {
      AlikePresent(a, b, mapping[i].from);
    }
  }

  lemma {:induction false} AlikeLookup(a: seq<Field>, b: seq<Field>, name: string)
    requires AlikeFields(a, b)
    ensures Lookup(a, name).Some? <==> Lookup(b, name).Some?
    ensures Lookup(a, name).Some? ==> Lookup(a, name).value.kind == Lookup(b, name).value.kind
  {
    assert |LogicalFields(a)| == |a| && |LogicalFields(b)| == |b|;
    if a != [] {
      var n := |a| - 1;
      AlikeAt(a, b, n);
      assert LogicalFields(a[..n]) == LogicalFields(a)[..n] && LogicalFields(b[..n]) == LogicalFields(b)[..n];
      AlikeLookup(a[..n], b[..n], name);
    }
  }

  lemma AlikeSchema(a: map<string, Schema>, b: map<string, Schema>, key: string)
    requires LogicalSchemas(a) == LogicalSchemas(b)
    ensures key in a <==> key in b
    ensures key in a ==> AlikeFields(a[key].fields, b[key].fields)
  {
    assert key in a <==> key in LogicalSchemas(a);
    assert key in b <==> key in LogicalSchemas(b);
    if key in a { assert Logical(a[key]) == LogicalSchemas(a)[key] == LogicalSchemas(b)[key] == Logical(b[key]); }
  }

  lemma AlikeSource(source: Source, a: map<string, Schema>, b: map<string, Schema>)
    requires LogicalSchemas(a) == LogicalSchemas(b)
    ensures SourceReady(source, a) <==> SourceReady(source, b)
    ensures SourceReady(source, a) ==> ConformedSource(source, a) == ConformedSource(source, b)
  {
    AlikeSchema(a, b, KeyOf(source));
    if KeyOf(source) in a {
      AlikeConform(a[KeyOf(source)].fields, b[KeyOf(source)].fields, source.mapping);
      forall i | 0 <= i < |source.expected|
        ensures Present(a[KeyOf(source)].fields, source.expected[i])
                <==> Present(b[KeyOf(source)].fields, source.expected[i])
      {
        AlikePresent(a[KeyOf(source)].fields, b[KeyOf(source)].fields, source.expected[i]);
      }
    }
  }

  lemma AlikeOpening(sources: seq<Source>, a: map<string, Schema>, b: map<string, Schema>,
      combination: Option<Combination>)
    requires LogicalSchemas(a) == LogicalSchemas(b)
    ensures OpenedFields(sources, a, combination) == OpenedFields(sources, b, combination)
  {
    forall i | 0 <= i < |sources|
      ensures SourceReady(sources[i], a) <==> SourceReady(sources[i], b)
      ensures SourceReady(sources[i], a) ==> ConformedSource(sources[i], a) == ConformedSource(sources[i], b)
    {
      AlikeSource(sources[i], a, b);
    }
    if forall i | 0 <= i < |sources| :: SourceReady(sources[i], a) {
      assert forall i | 0 <= i < |sources| :: SourceReady(sources[i], b);
      assert ConformedSources(sources, a) == ConformedSources(sources, b);
    }
  }

  lemma {:induction false} AlikeBorrow(fields: seq<Field>, a: seq<Field>, b: seq<Field>, names: seq<string>)
    requires AlikeFields(a, b)
    ensures Borrowed(fields, a, names) == Borrowed(fields, b, names)
  {
    if names != [] {
      AlikeBorrow(fields, a, b, names[..|names| - 1]);
      AlikeLookup(a, b, names[|names| - 1]);
    }
  }

  lemma {:induction false} AlikeEnrich(fields: seq<Field>, lookups: seq<Enrichment>, a: map<string, Schema>,
      b: map<string, Schema>)
    requires LogicalSchemas(a) == LogicalSchemas(b)
    ensures Enriched(fields, lookups, a) == Enriched(fields, lookups, b)
  {
    if lookups != [] {
      var init, last := lookups[..|lookups| - 1], lookups[|lookups| - 1];
      AlikeEnrich(fields, init, a, b);
      AlikeSchema(a, b, LookupKey(last));
      if Enriched(fields, init, a).Ok? && LookupKey(last) in a {
        AlikeBorrow(Enriched(fields, init, a).value, a[LookupKey(last)].fields, b[LookupKey(last)].fields, last.fields);
      }
    }
  }

  lemma {:induction false} AlikeSteps(opening: seq<Field>, steps: seq<Step>, n: nat, a: map<string, Schema>,
      b: map<string, Schema>)
    requires n <= |steps| && LogicalSchemas(a) == LogicalSchemas(b)
    ensures FieldsAfter(opening, steps, n, a) == FieldsAfter(opening, steps, n, b)
  {
    if n > 0 {
      AlikeSteps(opening, steps, n - 1, a, b);
      var before := FieldsAfter(opening, steps, n - 1, a);
      if before.Ok? && steps[n - 1].Enrich? { AlikeEnrich(before.value, steps[n - 1].lookups, a, b); }
    }
  }

  /** Propagation never looks at the names its sources' columns are stored under. */
  lemma DerivationIgnoresStoredNames(document: Document, a: map<string, Schema>, b: map<string, Schema>)
    requires LogicalSchemas(a) == LogicalSchemas(b)
    ensures DerivedFields(document, a) == DerivedFields(document, b)
  {
    AlikeOpening(Plain(document.sources), a, b, document.combination);
    var opening := OpenedFields(Plain(document.sources), a, document.combination);
    if opening.Some? { AlikeSteps(opening.value, document.steps, |document.steps|, a, b); }
  }

  // ---------------------------------------------------------------- the declared estate

  function StepInputs(steps: seq<Step>): seq<Read> {
    if steps == [] then [] else
    var init, last := StepInputs(steps[..|steps| - 1]), steps[|steps| - 1];
    if last.Enrich?
    then init + seq(|last.lookups|,
      i requires 0 <= i < |last.lookups| => Read(last.lookups[i].contract, last.lookups[i].relation))
    else init
  }

  /** Every read a document declares, of products and fixtures alike. */
  function InputsOf(document: Document): seq<Read> {
    seq(|document.sources|, i requires 0 <= i < |document.sources| =>
      Read(document.sources[i].source.contract, document.sources[i].source.relation))
    + StepInputs(document.steps)
  }

  function ProductsOf(entries: Entries): map<string, Passes.Product> {
    map name | name in entries :: Passes.Product(entries[name].landing, InputsOf(entries[name].document))
  }

  /**
    The estate resolution works on. `land` is what a landing product publishes; `publish` what
    a product's shape and stored names make of the fields it derives.
  */
  function EstateOf(entries: Entries, opening: map<string, Schema>, land: string -> Option<seq<ShapeRelation>>,
                    publish: (Declaration, seq<Field>) -> Option<seq<ShapeRelation>>): Passes.Estate {
    Passes.Estate(
      ProductsOf(entries), opening, land,
      (name: string, schemas: map<string, Schema>) => Derived(entries, publish, name, schemas))
  }

  function Derived(entries: Entries, publish: (Declaration, seq<Field>) -> Option<seq<ShapeRelation>>, name: string,
                   schemas: map<string, Schema>): Option<seq<ShapeRelation>> {
    if name !in entries then None else
    var fields := DerivedFields(entries[name].document, schemas);
    if fields.None? then None else publish(entries[name], fields.value)
  }

  lemma DeclaredEstateIgnoresStoredNames(entries: Entries, opening: map<string, Schema>,
                                         land: string -> Option<seq<ShapeRelation>>,
                                         publish: (Declaration, seq<Field>) -> Option<seq<ShapeRelation>>)
    ensures Passes.IgnoresStoredNames(EstateOf(entries, opening, land, publish))
  {
    var estate := EstateOf(entries, opening, land, publish);
    forall name, a, b | LogicalSchemas(a) == LogicalSchemas(b)
      ensures estate.derive(name, a) == estate.derive(name, b)
    {
      if name in entries { DerivationIgnoresStoredNames(entries[name].document, a, b); }
    }
  }

  // ---------------------------------------------------------------- the graph's edges cover the reads

  /** Every read names a contract, and every fixture's schema is one the estate opens with. */
  ghost predicate ReadsStated(document: Document, opening: map<string, Schema>) {
    && (forall i | 0 <= i < |document.sources| ::
          var source := document.sources[i];
          source.source.contract != "" && (source.fixture ==> PublishedName(source.source.contract) in opening))
    && (forall k, i | 0 <= k < |document.steps| && document.steps[k].Enrich? && 0 <= i < |document.steps[k].lookups| ::
          document.steps[k].lookups[i].contract != "")
  }

  lemma {:induction false} StepInputFrom(steps: seq<Step>, read: Read) returns (k: nat, i: nat)
    requires read in StepInputs(steps)
    ensures k < |steps| && steps[k].Enrich? && i < |steps[k].lookups|
    ensures read == Read(steps[k].lookups[i].contract, steps[k].lookups[i].relation)
  {
    var init, last := steps[..|steps| - 1], steps[|steps| - 1];
    if read in StepInputs(init) {
      k, i := StepInputFrom(init, read);
    } else {
      k := |steps| - 1;
      i :| 0 <= i < |last.lookups| && read == Read(last.lookups[i].contract, last.lookups[i].relation);
    }
  }

  /** Every declared read is of an opening schema or becomes an edge. */
  lemma InputIsEdge(relations: map<string, seq<string>>, consumer: string, document: Document,
                    opening: map<string, Schema>, read: Read)
    requires ReadsStated(document, opening) && ReadsResolve(relations, consumer, DeclaredReads(document))
    requires read in InputsOf(document)
    ensures Producer(read) in opening
            || exists e :: IsEdgeOf(relations, consumer, DeclaredReads(document), e)
                           && e.source == Producer(read) && e.target == consumer
  {
    var inputs := DeclaredReads(document);
    if read in StepInputs(document.steps) {
      var k, i := StepInputFrom(document.steps, read);
      var j := StepIsRead(document.steps, k, i);
      j := j + |SourceReads(document.sources)|;
      assert inputs[j].contract == read.contract && EdgeOf(relations, consumer, inputs[j]).Ok?;
      assert IsEdgeOf(relations, consumer, inputs, EdgeOf(relations, consumer, inputs[j]).value);
    } else {
      var i :| 0 <= i < |document.sources| && read == InputsOf(document)[i];
      if !document.sources[i].fixture {
        var j := SourceIsRead(document.sources, i);
        assert inputs[j].contract == read.contract && EdgeOf(relations, consumer, inputs[j]).Ok?;
        assert IsEdgeOf(relations, consumer, inputs, EdgeOf(relations, consumer, inputs[j]).value);
      }
    }
  }

  /** A product of the order reads only what comes before it or what the estate opens with. */
  lemma ReadsComeEarlier(entries: Entries, relations: map<string, seq<string>>, edges: seq<Edge>, order: seq<string>,
                         opening: map<string, Schema>, i: nat, read: Read)
    requires AllResolve(relations, ReadsOf(entries))
    requires forall e :: e in edges <==> IsEdge(relations, ReadsOf(entries), e)
    requires Lists(entries, order) && (forall e | e in edges :: Order.ComesBefore(order, e.source, e.target))
    requires forall name | name in entries :: ReadsStated(entries[name].document, opening)
    requires i < |order| && read in InputsOf(entries[order[i]].document)
    ensures Producer(read) in order[..i] || Producer(read) in opening
  {
    var name := order[i];
    assert name in ReadsOf(entries);
    InputIsEdge(relations, name, entries[name].document, opening, read);
    if Producer(read) !in opening {
      var e :| IsEdgeOf(relations, name, DeclaredReads(entries[name].document), e) && e.source == Producer(read)
        && e.target == name;
      assert IsEdge(relations, ReadsOf(entries), e);
      var a, b :| 0 <= a < b < |order| && order[a] == e.source && order[b] == name;
      assert b == i;
      assert order[..i][a] == e.source;
    }
  }

  /** The order of the built graph is one in which every product's reads come earlier. */
  lemma BuiltOrderIsValid(entries: Entries, relations: map<string, seq<string>>, edges: seq<Edge>, order: seq<string>,
                          opening: map<string, Schema>, land: string -> Option<seq<ShapeRelation>>,
                          publish: (Declaration, seq<Field>) -> Option<seq<ShapeRelation>>)
    requires AllResolve(relations, ReadsOf(entries))
    requires forall e :: e in edges <==> IsEdge(relations, ReadsOf(entries), e)
    requires Lists(entries, order) && (forall e | e in edges :: Order.ComesBefore(order, e.source, e.target))
    requires forall name | name in entries :: ReadsStated(entries[name].document, opening)
    ensures Passes.ValidOrder(EstateOf(entries, opening, land, publish), order)
  {
    var estate := EstateOf(entries, opening, land, publish);
    forall i | 0 <= i < |order|
      ensures Passes.ReadsEarlier(estate, order, i)
    {
      forall producer | producer in Passes.Needed(estate.products[order[i]])
        ensures producer in order[..i] || producer in opening
      {
        var read :| read in InputsOf(entries[order[i]].document) && Producer(read) == producer;
        ReadsComeEarlier(entries, relations, edges, order, opening, i, read);
      }
    }
    forall name
      ensures name in order <==> name in estate.products
    {
      if name in order {
        var i :| 0 <= i < |order| && order[i] == name;
      }
    }
  }

  /**
    Once the product graph is ordered, relation resolution never stops for want of progress and
    returns what deriving the products one by one in the graph's order returns, where landing
    products republish the schemas the estate opens with.
  */
  lemma ResolutionFollowsBuiltGraph(
    entries: Entries, relations: map<string, seq<string>>, edges: seq<Edge>, order: seq<string>,
    opening: map<string, Schema>, land: string -> Option<seq<ShapeRelation>>,
    publish: (Declaration, seq<Field>) -> Option<seq<ShapeRelation>>,
    r: Result<Registry, Passes.ResolutionError>)
    requires AllResolve(relations, ReadsOf(entries))
    requires forall e :: e in edges <==> IsEdge(relations, ReadsOf(entries), e)
    requires Lists(entries, order) && (forall e | e in edges :: Order.ComesBefore(order, e.source, e.target))
    requires forall name | name in entries :: ReadsStated(entries[name].document, opening)
    requires Passes.Republishes(EstateOf(entries, opening, land, publish))
    requires Passes.Resolves(EstateOf(entries, opening, land, publish), r)
    ensures FollowsOrder(EstateOf(entries, opening, land, publish), order, r)
  {
    BuiltOrderIsValid(entries, relations, edges, order, opening, land, publish);
    DeclaredEstateIgnoresStoredNames(entries, opening, land, publish);
    Passes.ResolutionFollowsOrder(EstateOf(entries, opening, land, publish), order, r);
  }

  /** Resolution returns what deriving in the order returns, and fails only where a product does. */
  ghost predicate FollowsOrder(estate: Passes.Estate, order: seq<string>, r: Result<Registry, Passes.ResolutionError>) {
    && (r.Err? ==> r.error.ProductFails?)
    && (forall name | name in order :: name in estate.products)
    && Passes.DeriveInOrder(estate, order) == if r.Ok? then Some(r.value) else None
  }

  /**
    Order an estate's products and resolve its relations: the order is refused exactly where
    the graph's is, and resolution follows it wherever every read states its contract, every
    fixture's schema is supplied and landing products republish what the estate opens with.
  */
  method ResolveEstate(
    entries: Entries, shape: Declaration -> seq<string>, opening: map<string, Schema>,
    land: string -> Option<seq<ShapeRelation>>,
    publish: (Declaration, seq<Field>) -> Option<seq<ShapeRelation>>)
    returns (order: Result<seq<string>, GraphError>, r: Result<Registry, Passes.ResolutionError>)
    ensures var relations := RelationsOf(entries, shape);
            && (order.Ok? <==> AllResolve(relations, ReadsOf(entries)) && !HasCycle(ReadsOf(entries), relations))
            && (order.Ok? ==> Lists(entries, order.value) && InRounds(entries, relations, order.value))
    ensures Passes.Resolves(EstateOf(entries, opening, land, publish), r)
    ensures order.Ok? && (forall name | name in entries :: ReadsStated(entries[name].document, opening))
            && Passes.Republishes(EstateOf(entries, opening, land, publish))
            ==> FollowsOrder(EstateOf(entries, opening, land, publish), order.value, r)
  {
    var relations := RelationsOf(entries, shape);
    var ordered := ResolveOrder(entries, relations);
    r := Passes.ResolveRelationRegistry(EstateOf(entries, opening, land, publish));
    if ordered.Err? { return Err(ordered.error), r; }
    order := Ok(ordered.value.1);
    forall e: Edge
      ensures e in ordered.value.0 <==> IsEdge(relations, ReadsOf(entries), e)
    {
      ReadEdgesExactly(entries, relations, e);
    }
    if (forall name | name in entries :: ReadsStated(entries[name].document, opening))
       && Passes.Republishes(EstateOf(entries, opening, land, publish))
    {
      ResolutionFollowsBuiltGraph(entries, relations, ordered.value.0, ordered.value.1, opening, land, publish, r);
    }
  }
}

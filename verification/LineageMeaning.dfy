/**
  Which lineage records a composition states, and in which order, said of its declared sources
  and steps (ergasterion/framework/graph.py:771-926).
*/
module LineageMeaning {
  import opened Basics
  import opened Text
  import opened Relations
  import opened Composition
  import opened FieldPropagation
  import opened FieldLineage

  // ---------------------------------------------------------------- what each step states

  /** The record's source: a column the expression reads, or the expression where it reads none. */
  predicate ReadBy(published: string, e: Expression, r: Record) {
    && r.sourceProduct == published
    && if e.columns == [] then r.kind == ExpressionKind && r.source == e.text
       else r.kind == FieldKind && r.source in e.columns
  }

  /** Calculated from an expression, or by a rule under its name and version. */
  predicate CalculationStates(published: string, c: Calculation, r: Record) {
    && r.transform == CalculatedFields && r.target == c.name
    && match c
       case ByExpression(_, _, expression) => ReadBy(published, expression, r)
       case ByRule(_, _, rule, version) =>
         && r.kind == RuleKind && r.sourceProduct == published
         && r.source == if version.None? then rule else rule + "@" + Decimal(version.value)
  }

  /** Renamed from a column of the product. */
  predicate RenameStates(published: string, entry: Mapping, r: Record) {
    && r.transform == SchemaTransform && entry.to == Some(r.target)
    && r.kind == FieldKind && r.sourceProduct == published && r.source == entry.from
  }

  /** Brought under its own name from the product the lookup reads. */
  predicate LookupStates(lookup: Enrichment, r: Record) {
    && r.transform == DataEnrichment && r.target in lookup.fields && r.source == r.target
    && r.kind == ContractKind && r.sourceProduct == PublishedName(lookup.contract)
  }

  /** Grouped as it was carried. */
  predicate GroupStates(published: string, names: seq<string>, r: Record) {
    && r.transform == DataAggregation && r.target in names && r.source == r.target
    && r.kind == FieldKind && r.sourceProduct == published
  }

  predicate AggregateStates(published: string, a: Aggregate, r: Record) {
    r.transform == DataAggregation && r.target == a.name && ReadBy(published, a.expression, r)
  }

  ghost predicate StepStates(published: string, step: Step, r: Record) {
    match step
    case Transform(mapping) => exists i | 0 <= i < |mapping| :: RenameStates(published, mapping[i], r)
    case Calculate(calculations) =>
      exists i | 0 <= i < |calculations| :: CalculationStates(published, calculations[i], r)
    case Enrich(lookups) => exists i | 0 <= i < |lookups| :: LookupStates(lookups[i], r)
    case Aggregation(grain, groups, aggregates) =>
      || GroupStates(published, grain, r) || GroupStates(published, groups, r)
      || exists i | 0 <= i < |aggregates| :: AggregateStates(published, aggregates[i], r)
    case _ => false
  }

  /** Renamed as it is read: from the product's own fixture, or from the product the source names. */
  predicate ConformStates(published: string, document: Document, source: DeclaredSource, entry: Conform, r: Record) {
    && r.target == entry.to && r.source == entry.from
    && (if source.fixture then r.kind == FieldKind && r.sourceProduct == published
        else r.kind == ContractKind && r.sourceProduct == PublishedName(source.source.contract))
    && r.transform == if document.combination.Some? then Combining(document.combination.value.combine) else Conforming
  }

  ghost predicate SourceStates(published: string, document: Document, source: DeclaredSource, r: Record) {
    exists i | 0 <= i < |source.source.mapping| ::
      ConformStates(published, document, source, source.source.mapping[i], r)
  }

  /** The record is the product's own, and the source or step it names states it. */
  ghost predicate States(published: string, document: Document, r: Record) {
    var i := r.occurrence.index;
    && r.product == published
    && match r.occurrence.block
       case SourceBlock => i < |document.sources| && SourceStates(published, document, document.sources[i], r)
       case StepBlock => i < |document.steps| && StepStates(published, document.steps[i], r)
  }

  // ---------------------------------------------------------------- records of outputs

  /** The record is of this output, from one of its origins. */
  predicate Tells(published: string, at: Occurrence, output: Output, r: Record) {
    && r.product == published && r.occurrence == at && r.target == output.field && r.transform == output.transform
    && Origin(r.kind, r.sourceProduct, r.source) in output.origins
  }

  lemma OutputTells(published: string, at: Occurrence, output: Output, r: Record)
    ensures r in OutputRecords(published, at, output) <==> Tells(published, at, output, r)
  {
    var records := OutputRecords(published, at, output);
    if Tells(published, at, output, r) {
      var i :| 0 <= i < |output.origins| && output.origins[i] == Origin(r.kind, r.sourceProduct, r.source);
      assert records[i] == r;
    }
  }

  lemma SomeOutputTells(published: string, at: Occurrence, outputs: seq<Output>, r: Record)
    ensures r in RecordsOf(published, at, outputs)
            <==> exists i | 0 <= i < |outputs| :: Tells(published, at, outputs[i], r)
  {
    RecordsExactly(published, at, outputs, r);
    forall i | 0 <= i < |outputs|
      ensures r in OutputRecords(published, at, outputs[i]) <==> Tells(published, at, outputs[i], r)
    {
      OutputTells(published, at, outputs[i], r);
    }
  }

  lemma ExpressionTells(published: string, e: Expression, r: Record)
    ensures Origin(r.kind, r.sourceProduct, r.source) in ExpressionOrigins(published, e) <==> ReadBy(published, e, r)
  {
    var origins := ExpressionOrigins(published, e);
    if e.columns != [] && ReadBy(published, e, r) {
      var i :| 0 <= i < |e.columns| && e.columns[i] == r.source;
      assert origins[i] == Origin(r.kind, r.sourceProduct, r.source);
    }
  }

  lemma CalculationTells(published: string, at: Occurrence, c: Calculation, r: Record)
    ensures Tells(published, at, CalculationOutput(published, c), r)
            <==> r.product == published && r.occurrence == at && CalculationStates(published, c, r)
  {
    if c.ByExpression? { ExpressionTells(published, c.expression, r); }
  }

  lemma LookupsTell(published: string, at: Occurrence, lookups: seq<Enrichment>, r: Record)
    ensures (exists i | 0 <= i < |LookupOutputs(lookups)| :: Tells(published, at, LookupOutputs(lookups)[i], r))
            <==> r.product == published && r.occurrence == at
                 && exists i | 0 <= i < |lookups| :: LookupStates(lookups[i], r)
  {
    var outputs := LookupOutputs(lookups);
    var output := Output(r.target, DataEnrichment, [Origin(r.kind, r.sourceProduct, r.source)]);
    LookupOutputsExactly(lookups, output);
    forall i | 0 <= i < |outputs|
      ensures Tells(published, at, outputs[i], r)
              ==> outputs[i] == output && exists k | 0 <= k < |lookups| :: LookupStates(lookups[k], r)
    {
      assert outputs[i] in outputs;
      LookupOutputsExactly(lookups, outputs[i]);
    }
    if k :| 0 <= k < |lookups| && LookupStates(lookups[k], r) {
      var i :| 0 <= i < |outputs| && outputs[i] == output;
    }
  }

  lemma GroupsTell(published: string, at: Occurrence, names: seq<string>, r: Record)
    ensures (exists i | 0 <= i < |names| :: Tells(published, at, CarriedOutputs(published, names)[i], r))
            <==> r.product == published && r.occurrence == at && GroupStates(published, names, r)
  {
    if GroupStates(published, names, r) && r.product == published && r.occurrence == at {
      var i :| 0 <= i < |names| && names[i] == r.target;
      assert Tells(published, at, CarriedOutputs(published, names)[i], r);
    }
  }

  lemma AggregationTells(published: string, at: Occurrence, grain: seq<string>, groups: seq<string>,
      aggregates: seq<Aggregate>, r: Record)
    ensures (exists i | 0 <= i < |StepOutputs(published, Aggregation(grain, groups, aggregates))| ::
               Tells(published, at, StepOutputs(published, Aggregation(grain, groups, aggregates))[i], r))
            <==> r.product == published && r.occurrence == at
                 && StepStates(published, Aggregation(grain, groups, aggregates), r)
  {
    var carried, computed := CarriedOutputs(published, grain + groups), AggregateOutputs(published, aggregates);
    GroupsTell(published, at, grain + groups, r);
    AggregatesTell(published, at, aggregates, r);
    EitherTells(published, at, carried, computed, r);
    assert StepOutputs(published, Aggregation(grain, groups, aggregates)) == carried + computed;
    assert |carried| == |grain + groups| && |computed| == |aggregates|;
    assert GroupStates(published, grain + groups, r)
           <==> GroupStates(published, grain, r) || GroupStates(published, groups, r);
  }

  lemma AggregatesTell(published: string, at: Occurrence, aggregates: seq<Aggregate>, r: Record)
    ensures (exists i | 0 <= i < |aggregates| :: Tells(published, at, AggregateOutputs(published, aggregates)[i], r))
            <==> r.product == published && r.occurrence == at
                 && exists i | 0 <= i < |aggregates| :: AggregateStates(published, aggregates[i], r)
  {
    forall i | 0 <= i < |aggregates|
      ensures Tells(published, at, AggregateOutputs(published, aggregates)[i], r)
              <==> r.product == published && r.occurrence == at && AggregateStates(published, aggregates[i], r)
    {
      ExpressionTells(published, aggregates[i].expression, r);
    }
  }

  lemma EitherTells(published: string, at: Occurrence, a: seq<Output>, b: seq<Output>, r: Record)
    ensures (exists i | 0 <= i < |a + b| :: Tells(published, at, (a + b)[i], r))
            <==> (exists i | 0 <= i < |a| :: Tells(published, at, a[i], r))
                 || exists i | 0 <= i < |b| :: Tells(published, at, b[i], r)
  {
    var all := a + b;
    assert forall i | 0 <= i < |a| :: all[i] == a[i];
    if j :| 0 <= j < |b| && Tells(published, at, b[j], r) { assert all[|a| + j] == b[j]; }
    assert forall i | |a| <= i < |all| :: all[i] == b[i - |a|];
  }

  /** What is recorded at a step is exactly what the step states. */
  lemma StepRecordsExactly(published: string, at: Occurrence, step: Step, r: Record)
    ensures r in RecordsOf(published, at, StepOutputs(published, step))
            <==> r.product == published && r.occurrence == at && StepStates(published, step, r)
  {
    SomeOutputTells(published, at, StepOutputs(published, step), r);
    match step {
      case Transform(mapping) => TransformRecordsExactly(published, at, mapping, r);
        assert forall i | 0 <= i < |mapping| ::
          RenamedBy(published, at, mapping[i], r)
          <==> r.product == published && r.occurrence == at && RenameStates(published, mapping[i], r);
      case Calculate(calculations) =>
        forall i | 0 <= i < |calculations|
          ensures Tells(published, at, StepOutputs(published, step)[i], r)
                  <==> r.product == published && r.occurrence == at && CalculationStates(published, calculations[i], r)
        {
          CalculationTells(published, at, calculations[i], r);
        }
      case Enrich(lookups) => LookupsTell(published, at, lookups, r);
      case Aggregation(grain, groups, aggregates) => AggregationTells(published, at, grain, groups, aggregates, r);
      case _ =>
    }
  }

  lemma SourceRecordsExactly(published: string, document: Document, at: Occurrence, source: DeclaredSource, r: Record)
    ensures r in RecordsOf(published, at, ConformOutputs(published, source, SourceLabel(document)))
            <==> r.product == published && r.occurrence == at && SourceStates(published, document, source, r)
  {
    var outputs := ConformOutputs(published, source, SourceLabel(document));
    SomeOutputTells(published, at, outputs, r);
    forall i | 0 <= i < |outputs|
      ensures Tells(published, at, outputs[i], r)
              <==> r.product == published && r.occurrence == at
                   && ConformStates(published, document, source, source.source.mapping[i], r)
    {}
  }

  lemma StepsRecordExactly(published: string, steps: seq<Step>, r: Record)
    ensures r in BlockRecords(published, StepBlock, CompositionOutputs(published, steps), |steps|)
            <==> r.product == published && r.occurrence.block == StepBlock && r.occurrence.index < |steps|
                 && StepStates(published, steps[r.occurrence.index], r)
  {
    var outputs, i := CompositionOutputs(published, steps), r.occurrence.index;
    BlockRecordsExactly(published, StepBlock, outputs, |outputs|, r);
    if i < |steps| { StepRecordsExactly(published, Occurrence(StepBlock, i), steps[i], r); }
  }

  lemma SourcesRecordExactly(published: string, document: Document, r: Record)
    ensures r in BlockRecords(published, SourceBlock,
                              SourceOutputs(published, document.sources, SourceLabel(document)), |document.sources|)
            <==> r.product == published && r.occurrence.block == SourceBlock
                 && r.occurrence.index < |document.sources|
                 && SourceStates(published, document, document.sources[r.occurrence.index], r)
  {
    var outputs, i := SourceOutputs(published, document.sources, SourceLabel(document)), r.occurrence.index;
    BlockRecordsExactly(published, SourceBlock, outputs, |outputs|, r);
    if i < |document.sources| {
      SourceRecordsExactly(published, document, Occurrence(SourceBlock, i), document.sources[i], r);
    }
  }

  /** The lineage of a composition holds exactly the records its sources and steps state. */
  lemma LineageExactly(published: string, document: Document, r: Record)
    ensures r in Lineage(published, document) <==> States(published, document, r)
  {
    StepsRecordExactly(published, document.steps, r);
    SourcesRecordExactly(published, document, r);
  }

  // ---------------------------------------------------------------- what is declared

  ghost predicate StepDeclaresField(step: Step, name: string) {
    match step
    case Transform(mapping) => exists i | 0 <= i < |mapping| :: mapping[i].to == Some(name)
    case Calculate(calculations) => exists i | 0 <= i < |calculations| :: calculations[i].name == name
    case Enrich(lookups) => exists i | 0 <= i < |lookups| :: name in lookups[i].fields
    case Aggregation(grain, groups, aggregates) =>
      name in grain || name in groups || exists i | 0 <= i < |aggregates| :: aggregates[i].name == name
    case _ => false
  }

  lemma StatedIsDeclared(published: string, step: Step, at: Occurrence, name: string)
    ensures (exists r: Record :: r.product == published && r.occurrence == at && r.target == name
                                 && StepStates(published, step, r))
            <==> StepDeclaresField(step, name)
  {
    if StepDeclaresField(step, name) { var r := StatedFor(published, step, at, name); }
  }

  lemma StatedFor(published: string, step: Step, at: Occurrence, name: string) returns (r: Record)
    requires StepDeclaresField(step, name)
    ensures r.product == published && r.occurrence == at && r.target == name && StepStates(published, step, r)
  {
    match step {
      case Transform(mapping) =>
        var i :| 0 <= i < |mapping| && mapping[i].to == Some(name);
        r := Record(published, name, FieldKind, published, mapping[i].from, at, SchemaTransform);
        assert RenameStates(published, mapping[i], r);
      case Calculate(calculations) =>
        var i :| 0 <= i < |calculations| && calculations[i].name == name;
        r := CalculationRecord(published, calculations[i], at);
        assert CalculationStates(published, calculations[i], r);
      case Enrich(lookups) =>
        var i :| 0 <= i < |lookups| && name in lookups[i].fields;
        r := Record(published, name, ContractKind, PublishedName(lookups[i].contract), name, at, DataEnrichment);
        assert LookupStates(lookups[i], r);
      case Aggregation(grain, groups, aggregates) =>
        if name in grain || name in groups {
          r := Record(published, name, FieldKind, published, name, at, DataAggregation);
        } else {
          var i :| 0 <= i < |aggregates| && aggregates[i].name == name;
          r := ExpressionRecord(published, name, aggregates[i].expression, at, DataAggregation);
          assert AggregateStates(published, aggregates[i], r);
        }
      case _ =>
    }
  }

  function ExpressionRecord(published: string, name: string, e: Expression, at: Occurrence, how: TransformLabel)
    : Record
  {
    if e.columns == [] then Record(published, name, ExpressionKind, published, e.text, at, how)
    else Record(published, name, FieldKind, published, e.columns[0], at, how)
  }

  function CalculationRecord(published: string, c: Calculation, at: Occurrence): Record {
    match c
    case ByExpression(name, _, expression) => ExpressionRecord(published, name, expression, at, CalculatedFields)
    case ByRule(name, _, rule, version) =>
      Record(published, name, RuleKind, published, RuleName(rule, version), at, CalculatedFields)
  }

  /** The declared fields are exactly those the steps name, each at its step. */
  lemma DeclarationsExactly(published: string, document: Document, d: DeclaredField)
    ensures d in Declarations(published, document)
            <==> d.product == published && d.occurrence.block == StepBlock
                 && d.occurrence.index < |document.steps|
                 && StepDeclaresField(document.steps[d.occurrence.index], d.field)
  {
    var outputs := CompositionOutputs(published, document.steps);
    BlockDeclarationsExactly(published, StepBlock, outputs, |outputs|, d);
    var i := d.occurrence.index;
    if i < |outputs| { StepOutputsDeclare(published, document.steps[i], d.field); }
    forall k | 0 <= k < |outputs|
      ensures d in DeclaredBy(published, Occurrence(StepBlock, k), outputs[k])
              <==> d.product == published && d.occurrence == Occurrence(StepBlock, k) && HasOutput(outputs[k], d.field)
    {
      DeclaredByExactly(published, Occurrence(StepBlock, k), outputs[k], d);
    }
  }

  lemma DeclaredByExactly(published: string, at: Occurrence, outputs: seq<Output>, d: DeclaredField)
    ensures d in DeclaredBy(published, at, outputs)
            <==> d.product == published && d.occurrence == at && HasOutput(outputs, d.field)
  {
    if d.product == published && d.occurrence == at && HasOutput(outputs, d.field) {
      var i :| 0 <= i < |outputs| && outputs[i].field == d.field;
      assert DeclaredBy(published, at, outputs)[i] == d;
    }
  }

  lemma StepOutputsDeclare(published: string, step: Step, name: string)
    ensures HasOutput(StepOutputs(published, step), name) <==> StepDeclaresField(step, name)
  {
    var at := Occurrence(StepBlock, 0);
    OutputsAreFounded(published, step);
    RecordsExplainOutputs(published, at, StepOutputs(published, step), name);
    StatedIsDeclared(published, step, at, name);
    forall r
      ensures r in RecordsOf(published, at, StepOutputs(published, step))
              <==> r.product == published && r.occurrence == at && StepStates(published, step, r)
    {
      StepRecordsExactly(published, at, step, r);
    }
  }

  // ---------------------------------------------------------------- the order of the records

  /** Sources before steps, and each in the order they are declared. */
  predicate NotAfter(a: Occurrence, b: Occurrence) {
    if a.block == b.block then a.index <= b.index else a.block == SourceBlock
  }

  ghost predicate InOrder(records: seq<Record>) {
    forall i, j | 0 <= i < j < |records| :: NotAfter(records[i].occurrence, records[j].occurrence)
  }

  lemma {:induction false} BlockInOrder(published: string, block: Block, outputs: seq<seq<Output>>, n: nat)
    requires n <= |outputs|
    ensures InOrder(BlockRecords(published, block, outputs, n))
  {
    if n > 0 {
      BlockInOrder(published, block, outputs, n - 1);
      var before, last := BlockRecords(published, block, outputs, n - 1),
        RecordsOf(published, Occurrence(block, n - 1), outputs[n - 1]);
      forall i | 0 <= i < |before|
        ensures before[i].occurrence.block == block && before[i].occurrence.index < n - 1
      {
        BlockRecordsExactly(published, block, outputs, n - 1, before[i]);
      }
      forall j | 0 <= j < |last|
        ensures last[j].occurrence == Occurrence(block, n - 1)
      {
        RecordsExactly(published, Occurrence(block, n - 1), outputs[n - 1], last[j]);
      }
    }
  }

  /** Records are listed source after source and then step after step. */
  lemma LineageInOrder(published: string, document: Document)
    ensures InOrder(Lineage(published, document))
  {
    var steps, conforming := CompositionOutputs(published, document.steps),
      SourceOutputs(published, document.sources, SourceLabel(document));
    BlockInOrder(published, SourceBlock, conforming, |conforming|);
    BlockInOrder(published, StepBlock, steps, |steps|);
    var first, second := BlockRecords(published, SourceBlock, conforming, |conforming|),
      BlockRecords(published, StepBlock, steps, |steps|);
    forall i | 0 <= i < |first|
      ensures first[i].occurrence.block == SourceBlock
    {
      BlockRecordsExactly(published, SourceBlock, conforming, |conforming|, first[i]);
    }
    forall j | 0 <= j < |second|
      ensures second[j].occurrence.block == StepBlock
    {
      BlockRecordsExactly(published, StepBlock, steps, |steps|, second[j]);
    }
  }
}

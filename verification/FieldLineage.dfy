/**
  The field-lineage records a composition states, beside the fields it declares as outputs
  (ergasterion/framework/graph.py:771-926), and what they explain of the fields its
  propagation carries (ergasterion/framework/contract.py:1113-1201).
*/
module FieldLineage {
  import opened Basics
  import opened Text
  import opened Relations
  import opened Composition
  import opened CompositionRows
  import opened OpeningComposition
  import opened FieldPropagation

  datatype SourceKind = FieldKind | ContractKind | RuleKind | ExpressionKind

  /** The source or the step of a composition that states something. */
  datatype Block = SourceBlock | StepBlock
  datatype Occurrence = Occurrence(block: Block, index: nat)

  /** What a record says happened to the field: a step's pattern, or how a source was combined. */
  datatype TransformLabel =
    | SchemaTransform | CalculatedFields | DataEnrichment | DataAggregation
    | Combining(combine: CombineMethod) | Conforming

  datatype Record = Record(
    product: string, target: string, kind: SourceKind, sourceProduct: string, source: string, occurrence: Occurrence,
    transform: TransformLabel)

  datatype DeclaredField = DeclaredField(product: string, field: string, occurrence: Occurrence)

  /** Where one declared output comes from. */
  datatype Origin = Origin(kind: SourceKind, product: string, source: string)
  datatype Output = Output(field: string, transform: TransformLabel, origins: seq<Origin>)

  datatype DeclaredSource = DeclaredSource(source: Source, fixture: bool)

  datatype Document = Document(sources: seq<DeclaredSource>, combination: Option<Combination>, steps: seq<Step>)

  // ---------------------------------------------------------------- what each pattern declares

  /** One origin per column, or the expression itself when it reads none. */
  function ExpressionOrigins(published: string, e: Expression): (origins: seq<Origin>)
    ensures origins != []
  {
    if e.columns == [] then [Origin(ExpressionKind, published, e.text)]
    else seq(|e.columns|, i requires 0 <= i < |e.columns| => Origin(FieldKind, published, e.columns[i]))
  }

  function RuleName(rule: string, version: Option<nat>): string {
    if version.None? then rule else rule + "@" + Decimal(version.value)
  }

  function CalculationOutput(published: string, c: Calculation): Output {
    match c
    case ByExpression(name, _, expression) => Output(name, CalculatedFields, ExpressionOrigins(published, expression))
    case ByRule(name, _, rule, version) =>
      Output(name, CalculatedFields, [Origin(RuleKind, published, RuleName(rule, version))])
  }

  /** A drop names no output. */
  function MappingOutputs(published: string, mapping: seq<Mapping>): seq<Output> {
    if mapping == [] then [] else
    var init, last := MappingOutputs(published, mapping[..|mapping| - 1]), mapping[|mapping| - 1];
    if last.to.None? then init
    else init + [Output(last.to.value, SchemaTransform, [Origin(FieldKind, published, last.from)])]
  }

  function LookupOutputs(lookups: seq<Enrichment>): seq<Output> {
    if lookups == [] then [] else
    var init, last := LookupOutputs(lookups[..|lookups| - 1]), lookups[|lookups| - 1];
    init + seq(|last.fields|, i requires 0 <= i < |last.fields| =>
                 Output(last.fields[i], DataEnrichment,
                   [Origin(ContractKind, PublishedName(last.contract), last.fields[i])]))
  }

  function CarriedOutputs(published: string, names: seq<string>): seq<Output> {
    seq(|names|, i requires 0 <= i < |names| =>
      Output(names[i], DataAggregation, [Origin(FieldKind, published, names[i])]))
  }

  function AggregateOutputs(published: string, aggregates: seq<Aggregate>): seq<Output> {
    seq(|aggregates|, i requires 0 <= i < |aggregates| =>
      Output(aggregates[i].name, DataAggregation, ExpressionOrigins(published, aggregates[i].expression)))
  }

  function StepOutputs(published: string, step: Step): seq<Output> {
    match step
    case Transform(mapping) => MappingOutputs(published, mapping)
    case Calculate(calculations) =>
      seq(|calculations|, i requires 0 <= i < |calculations| => CalculationOutput(published, calculations[i]))
    case Enrich(lookups) => LookupOutputs(lookups)
    case Aggregation(grain, groups, aggregates) =>
      CarriedOutputs(published, grain + groups) + AggregateOutputs(published, aggregates)
    case _ => []
  }

  /** A source is conformed for the combination the document declares. */
  function SourceLabel(document: Document): TransformLabel {
    if document.combination.Some? then Combining(document.combination.value.combine) else Conforming
  }

  /** A source's conformance renames at the read itself. */
  function ConformOutputs(published: string, source: DeclaredSource, how: TransformLabel): seq<Output> {
    var mapping := source.source.mapping;
    seq(|mapping|, i requires 0 <= i < |mapping| =>
      Output(mapping[i].to, how, [if source.fixture then Origin(FieldKind, published, mapping[i].from)
                             else Origin(ContractKind, PublishedName(source.source.contract), mapping[i].from)]))
  }

  // ---------------------------------------------------------------- records

  function RecordOf(published: string, at: Occurrence, output: Output, origin: Origin): Record {
    Record(published, output.field, origin.kind, origin.product, origin.source, at, output.transform)
  }

  function OutputRecords(published: string, at: Occurrence, output: Output): seq<Record> {
    seq(|output.origins|, i requires 0 <= i < |output.origins| => RecordOf(published, at, output, output.origins[i]))
  }

  function RecordsOf(published: string, at: Occurrence, outputs: seq<Output>): seq<Record> {
    if outputs == [] then []
    else RecordsOf(published, at, outputs[..|outputs| - 1]) + OutputRecords(published, at, outputs[|outputs| - 1])
  }

  function DeclaredBy(published: string, at: Occurrence, outputs: seq<Output>): seq<DeclaredField> {
    seq(|outputs|, i requires 0 <= i < |outputs| => DeclaredField(published, outputs[i].field, at))
  }

  function SourceOutputs(published: string, sources: seq<DeclaredSource>, how: TransformLabel): seq<seq<Output>> {
    seq(|sources|, i requires 0 <= i < |sources| => ConformOutputs(published, sources[i], how))
  }

  function CompositionOutputs(published: string, steps: seq<Step>): seq<seq<Output>> {
    seq(|steps|, i requires 0 <= i < |steps| => StepOutputs(published, steps[i]))
  }

  /** The records of the first n sources or steps. */
  function BlockRecords(published: string, block: Block, outputs: seq<seq<Output>>, n: nat): seq<Record>
    requires n <= |outputs|
  {
    if n == 0 then []
    else BlockRecords(published, block, outputs, n - 1) + RecordsOf(published, Occurrence(block, n - 1), outputs[n - 1])
  }

  function BlockDeclarations(published: string, block: Block, outputs: seq<seq<Output>>, n: nat): seq<DeclaredField>
    requires n <= |outputs|
  {
    if n == 0 then []
    else
      BlockDeclarations(published, block, outputs, n - 1)
      + DeclaredBy(published, Occurrence(block, n - 1), outputs[n - 1])
  }

  function Lineage(published: string, document: Document): seq<Record> {
    BlockRecords(published, SourceBlock, SourceOutputs(published, document.sources, SourceLabel(document)),
      |document.sources|)
    + BlockRecords(published, StepBlock, CompositionOutputs(published, document.steps), |document.steps|)
  }

  function Declarations(published: string, document: Document): seq<DeclaredField> {
    BlockDeclarations(published, StepBlock, CompositionOutputs(published, document.steps), |document.steps|)
  }

  lemma BlockGrows(published: string, block: Block, outputs: seq<seq<Output>>, i: nat)
    requires i < |outputs|
    ensures BlockRecords(published, block, outputs, i + 1)
            == BlockRecords(published, block, outputs, i) + RecordsOf(published, Occurrence(block, i), outputs[i])
    ensures BlockDeclarations(published, block, outputs, i + 1)
            == BlockDeclarations(published, block, outputs, i) + DeclaredBy(published, Occurrence(block, i), outputs[i])
  {}

  /** Record every origin of every output, in order. */
  method RecordOutputs(published: string, at: Occurrence, outputs: seq<Output>) returns (lineage: seq<Record>)
    ensures lineage == RecordsOf(published, at, outputs)
  {
    lineage := [];
    for i := 0 to |outputs|
      invariant lineage == RecordsOf(published, at, outputs[..i])
    {
      assert outputs[..i + 1][..i] == outputs[..i];
      var origins := outputs[i].origins;
      ghost var earlier := lineage;
      ghost var records := OutputRecords(published, at, outputs[i]);
      for j := 0 to |origins|
        invariant lineage == earlier + records[..j]
      {
        lineage := lineage + [RecordOf(published, at, outputs[i], origins[j])];
      }
      assert records[..|origins|] == records;
    }
    assert outputs[..|outputs|] == outputs;
  }

  /** Every field-lineage record one composition states, and every field it declares. */
  method CompositionFieldsFor(published: string, document: Document)
    returns (lineage: seq<Record>, declared: seq<DeclaredField>)
    ensures lineage == Lineage(published, document)
    ensures declared == Declarations(published, document)
  {
    var conforming := SourceRecordsFor(published, document);
    var recorded: seq<Record>;
    recorded, declared := StepFieldsFor(published, document.steps);
    lineage := conforming + recorded;
  }

  method SourceRecordsFor(published: string, document: Document) returns (lineage: seq<Record>)
    ensures var conforming := SourceOutputs(published, document.sources, SourceLabel(document));
            lineage == BlockRecords(published, SourceBlock, conforming, |document.sources|)
  {
    lineage := [];
    var how := SourceLabel(document);
    ghost var conforming := SourceOutputs(published, document.sources, how);
    for i := 0 to |document.sources|
      invariant lineage == BlockRecords(published, SourceBlock, conforming, i)
    {
      var records := RecordOutputs(published, Occurrence(SourceBlock, i),
        ConformOutputs(published, document.sources[i], how));
      BlockGrows(published, SourceBlock, conforming, i);
      lineage := lineage + records;
    }
  }

  method StepFieldsFor(published: string, steps: seq<Step>) returns (lineage: seq<Record>, declared: seq<DeclaredField>)
    ensures lineage == BlockRecords(published, StepBlock, CompositionOutputs(published, steps), |steps|)
    ensures declared == BlockDeclarations(published, StepBlock, CompositionOutputs(published, steps), |steps|)
  {
    lineage, declared := [], [];
    ghost var all := CompositionOutputs(published, steps);
    for i := 0 to |steps|
      invariant lineage == BlockRecords(published, StepBlock, all, i)
      invariant declared == BlockDeclarations(published, StepBlock, all, i)
    {
      var outputs := StepOutputs(published, steps[i]);
      var records := RecordOutputs(published, Occurrence(StepBlock, i), outputs);
      BlockGrows(published, StepBlock, all, i);
      lineage := lineage + records;
      declared := declared + DeclaredBy(published, Occurrence(StepBlock, i), outputs);
    }
  }

  // ---------------------------------------------------------------- every declared field has a record

  ghost predicate HasOutput(outputs: seq<Output>, name: string) {
    exists i | 0 <= i < |outputs| :: outputs[i].field == name
  }

  ghost predicate AllFounded(outputs: seq<Output>) {
    forall i | 0 <= i < |outputs| :: outputs[i].origins != []
  }

  lemma {:induction false} OutputsAreFounded(published: string, step: Step)
    ensures AllFounded(StepOutputs(published, step))
  {
    match step {
      case Transform(mapping) => MappingIsFounded(published, mapping);
      case Enrich(lookups) => LookupsAreFounded(lookups);
      case _ =>
    }
  }

  lemma {:induction false} MappingIsFounded(published: string, mapping: seq<Mapping>)
    ensures AllFounded(MappingOutputs(published, mapping))
  {
    if mapping != [] { MappingIsFounded(published, mapping[..|mapping| - 1]); }
  }

  lemma {:induction false} LookupsAreFounded(lookups: seq<Enrichment>)
    ensures AllFounded(LookupOutputs(lookups))
  {
    if lookups != [] { LookupsAreFounded(lookups[..|lookups| - 1]); }
  }

  /** The records of a list of outputs are one for each origin of each. */
  lemma {:induction false} RecordsExactly(published: string, at: Occurrence, outputs: seq<Output>, r: Record)
    ensures r in RecordsOf(published, at, outputs)
            <==> exists i | 0 <= i < |outputs| :: r in OutputRecords(published, at, outputs[i])
  {
    if outputs != [] {
      var init := outputs[..|outputs| - 1];
      RecordsExactly(published, at, init, r);
      assert forall i | 0 <= i < |init| :: init[i] == outputs[i];
    }
  }

  /** What a composition records is what each of its sources and steps records. */
  lemma {:induction false} BlockRecordsExactly(published: string, block: Block, outputs: seq<seq<Output>>, n: nat,
      r: Record)
    requires n <= |outputs|
    ensures r in BlockRecords(published, block, outputs, n)
            <==> exists i | 0 <= i < n :: r in RecordsOf(published, Occurrence(block, i), outputs[i])
    ensures r in BlockRecords(published, block, outputs, n) ==>
              r.occurrence.block == block && r.occurrence.index < n
              && r in RecordsOf(published, r.occurrence, outputs[r.occurrence.index])
  {
    if n > 0 {
      BlockRecordsExactly(published, block, outputs, n - 1, r);
      RecordsExactly(published, Occurrence(block, n - 1), outputs[n - 1], r);
    }
  }

  lemma {:induction false} BlockDeclarationsExactly(published: string, block: Block, outputs: seq<seq<Output>>, n: nat,
      d: DeclaredField)
    requires n <= |outputs|
    ensures d in BlockDeclarations(published, block, outputs, n)
            <==> exists i | 0 <= i < n :: d in DeclaredBy(published, Occurrence(block, i), outputs[i])
  {
    if n > 0 { BlockDeclarationsExactly(published, block, outputs, n - 1, d); }
  }

  ghost predicate RecordedAt(lineage: seq<Record>, product: string, name: string, at: Occurrence) {
    exists r | r in lineage :: r.product == product && r.target == name && r.occurrence == at
  }

  lemma RecordsExplainOutputs(published: string, at: Occurrence, outputs: seq<Output>, name: string)
    requires AllFounded(outputs)
    ensures RecordedAt(RecordsOf(published, at, outputs), published, name, at) <==> HasOutput(outputs, name)
    ensures DeclaredField(published, name, at) in DeclaredBy(published, at, outputs) <==> HasOutput(outputs, name)
  {
    var declared := DeclaredBy(published, at, outputs);
    if HasOutput(outputs, name) {
      var i :| 0 <= i < |outputs| && outputs[i].field == name;
      var r := RecordOf(published, at, outputs[i], outputs[i].origins[0]);
      assert OutputRecords(published, at, outputs[i])[0] == r;
      assert declared[i] == DeclaredField(published, name, at);
      RecordsExactly(published, at, outputs, r);
    } else {
      forall r | r in RecordsOf(published, at, outputs)
        ensures r.target != name
      {
        RecordsExactly(published, at, outputs, r);
      }
    }
  }

  /** A block of outputs declares a name at a place exactly when it records it there. */
  lemma BlockExplains(published: string, block: Block, outputs: seq<seq<Output>>, name: string, i: nat)
    requires forall k | 0 <= k < |outputs| :: AllFounded(outputs[k])
    ensures var at := Occurrence(block, i);
            DeclaredField(published, name, at) in BlockDeclarations(published, block, outputs, |outputs|)
            <==> RecordedAt(BlockRecords(published, block, outputs, |outputs|), published, name, at)
    ensures RecordedAt(BlockRecords(published, block, outputs, |outputs|), published, name, Occurrence(block, i))
            <==> i < |outputs| && HasOutput(outputs[i], name)
  {
    var at := Occurrence(block, i);
    var records := BlockRecords(published, block, outputs, |outputs|);
    BlockDeclarationsExactly(published, block, outputs, |outputs|, DeclaredField(published, name, at));
    if i < |outputs| {
      RecordsExplainOutputs(published, at, outputs[i], name);
      if HasOutput(outputs[i], name) {
        var r :| r in RecordsOf(published, at, outputs[i]) && r.product == published && r.target == name
          && r.occurrence == at;
        BlockRecordsExactly(published, block, outputs, |outputs|, r);
      }
    }
    if RecordedAt(records, published, name, at) {
      var r :| r in records && r.product == published && r.target == name && r.occurrence == at;
      BlockRecordsExactly(published, block, outputs, |outputs|, r);
    }
  }

  /** A field is declared at a step exactly when a lineage record of that step explains it. */
  lemma DeclaredExactlyWhenRecorded(published: string, document: Document, name: string, i: nat)
    ensures DeclaredField(published, name, Occurrence(StepBlock, i)) in Declarations(published, document)
            <==> RecordedAt(Lineage(published, document), published, name, Occurrence(StepBlock, i))
  {
    var outputs := CompositionOutputs(published, document.steps);
    forall k | 0 <= k < |outputs|
      ensures AllFounded(outputs[k])
    {
      OutputsAreFounded(published, document.steps[k]);
    }
    BlockExplains(published, StepBlock, outputs, name, i);
    var conforming := SourceOutputs(published, document.sources, SourceLabel(document));
    forall r | r in BlockRecords(published, SourceBlock, conforming, |conforming|)
      ensures r.occurrence.block == SourceBlock
    {
      BlockRecordsExactly(published, SourceBlock, conforming, |conforming|, r);
    }
  }

  /** The record of an entry that renames a column. */
  predicate RenamedBy(published: string, at: Occurrence, entry: Mapping, r: Record) {
    && entry.to == Some(r.target)
    && r == Record(published, r.target, FieldKind, published, entry.from, at, SchemaTransform)
  }

  /** A mapping records each rename it makes, from the name it takes to the name it gives. */
  lemma {:induction false} TransformRecordsExactly(published: string, at: Occurrence, mapping: seq<Mapping>, r: Record)
    ensures r in RecordsOf(published, at, MappingOutputs(published, mapping))
            <==> exists i | 0 <= i < |mapping| :: RenamedBy(published, at, mapping[i], r)
  {
    if mapping != [] {
      var init := mapping[..|mapping| - 1];
      TransformRecordsExactly(published, at, init, r);
      LastMappingRecords(published, at, mapping, r);
      assert forall i | 0 <= i < |init| :: init[i] == mapping[i];
    }
  }

  lemma LastMappingRecords(published: string, at: Occurrence, mapping: seq<Mapping>, r: Record)
    requires mapping != []
    ensures r in RecordsOf(published, at, MappingOutputs(published, mapping))
            <==> r in RecordsOf(published, at, MappingOutputs(published, mapping[..|mapping| - 1]))
                 || RenamedBy(published, at, mapping[|mapping| - 1], r)
  {
    var init, last := mapping[..|mapping| - 1], mapping[|mapping| - 1];
    if last.to.Some? {
      var output := Output(last.to.value, SchemaTransform, [Origin(FieldKind, published, last.from)]);
      LastOutputRecords(published, at, MappingOutputs(published, init), output);
      assert OutputRecords(published, at, output)
             == [Record(published, last.to.value, FieldKind, published, last.from, at, SchemaTransform)];
    }
  }

  lemma LastOutputRecords(published: string, at: Occurrence, init: seq<Output>, output: Output)
    ensures RecordsOf(published, at, init + [output])
            == RecordsOf(published, at, init) + OutputRecords(published, at, output)
  {
    assert (init + [output])[..|init|] == init;
  }

  /** A lookup records each field it brings, from the same field of the product it reads. */
  lemma {:induction false} LookupOutputsExactly(lookups: seq<Enrichment>, output: Output)
    ensures output in LookupOutputs(lookups)
            <==> exists i | 0 <= i < |lookups| ::
                   output.field in lookups[i].fields && output.transform == DataEnrichment
                   && output.origins == [Origin(ContractKind, PublishedName(lookups[i].contract), output.field)]
  {
    if lookups != [] {
      var init, last := lookups[..|lookups| - 1], lookups[|lookups| - 1];
      LookupOutputsExactly(init, output);
      assert forall i | 0 <= i < |init| :: init[i] == lookups[i];
      if output.field in last.fields {
        var k :| 0 <= k < |last.fields| && last.fields[k] == output.field;
        var more := seq(|last.fields|, i requires 0 <= i < |last.fields| =>
          Output(last.fields[i], DataEnrichment, [Origin(ContractKind, PublishedName(last.contract), last.fields[i])]));
        assert LookupOutputs(lookups) == LookupOutputs(init) + more;
        assert more[k].field == output.field && more[k] in more;
      }
    }
  }

  // ---------------------------------------------------------------- every carried field is explained

  lemma OutputAppended(init: seq<Output>, more: seq<Output>, name: string)
    ensures HasOutput(init + more, name) <==> HasOutput(init, name) || HasOutput(more, name)
  {
    var all := init + more;
    if HasOutput(init, name) {
      var i :| 0 <= i < |init| && init[i].field == name;
      assert all[i].field == name;
    } else if HasOutput(more, name) {
      var i :| 0 <= i < |more| && more[i].field == name;
      assert all[|init| + i].field == name;
    }
  }

  /** What a mapping carries it carried before or declares. */
  lemma {:induction false} TransformExplains(published: string, fields: seq<Field>, mapping: seq<Mapping>, name: string)
    requires Present(Transformed(fields, mapping), name)
    ensures Present(fields, name) || HasOutput(MappingOutputs(published, mapping), name)
  {
    if mapping != [] {
      var init, last := mapping[..|mapping| - 1], mapping[|mapping| - 1];
      var before := Transformed(fields, init);
      MappedLooksUp(before, last, name);
      LookupFinds(before, name);
      LookupFinds(Mapped(before, last), name);
      if last.to.Some? {
        var more := [Output(last.to.value, SchemaTransform, [Origin(FieldKind, published, last.from)])];
        OutputAppended(MappingOutputs(published, init), more, name);
        assert more[0].field == last.to.value;
      }
      if !Sets(last, name) { TransformExplains(published, fields, init, name); }
    }
  }

  /** Calculating fields adds exactly the declared names to what was carried. */
  lemma {:induction false} CalculateExplains(fields: seq<Field>, calculations: seq<Calculation>, name: string)
    ensures Present(Calculated(fields, calculations), name)
            <==> (Present(fields, name)
                  || (name != "" && exists i | 0 <= i < |calculations| :: calculations[i].name == name))
  {
    if calculations != [] {
      var init, last := calculations[..|calculations| - 1], calculations[|calculations| - 1];
      CalculateExplains(fields, init, name);
      PresentWith(Calculated(fields, init), NewField(last.name, last.kind), name);
      assert forall i | 0 <= i < |init| :: init[i] == calculations[i];
    }
  }

  lemma {:induction false} BorrowExplains(fields: seq<Field>, available: seq<Field>, names: seq<string>, name: string)
    requires Borrowed(fields, available, names).Ok?
    ensures Present(Borrowed(fields, available, names).value, name) <==> Present(fields, name) || name in names
  {
    if names != [] {
      var init, last := names[..|names| - 1], names[|names| - 1];
      BorrowExplains(fields, available, init, name);
      PresentWith(Borrowed(fields, available, init).value, NewField(last, Lookup(available, last).value.kind), name);
      assert names == init + [last];
    }
  }

  /** Enriching adds exactly the looked-up names to what was carried. */
  lemma {:induction false} EnrichExplains(fields: seq<Field>, lookups: seq<Enrichment>, schemas: map<string, Schema>,
      name: string)
    requires Enriched(fields, lookups, schemas).Ok?
    ensures Present(Enriched(fields, lookups, schemas).value, name)
            <==> Present(fields, name) || HasOutput(LookupOutputs(lookups), name)
  {
    if lookups != [] {
      var init, last := lookups[..|lookups| - 1], lookups[|lookups| - 1];
      EnrichExplains(fields, init, schemas, name);
      BorrowExplains(Enriched(fields, init, schemas).value, schemas[LookupKey(last)].fields, last.fields, name);
      var more := seq(|last.fields|, i requires 0 <= i < |last.fields| =>
        Output(last.fields[i], DataEnrichment, [Origin(ContractKind, PublishedName(last.contract), last.fields[i])]));
      OutputAppended(LookupOutputs(init), more, name);
      if name in last.fields {
        var i :| 0 <= i < |last.fields| && last.fields[i] == name;
        assert more[i].field == name;
      }
    }
  }

  lemma AggregationExplains(published: string, fields: seq<Field>, step: Step, name: string)
    requires step.Aggregation? && StepFields(fields, step, map[]).Ok?
    ensures Present(StepFields(fields, step, map[]).value, name) <==> HasOutput(StepOutputs(published, step), name)
  {
    AggregationLeaves(fields, step.grain, step.groups, step.aggregates, name);
    var names := step.grain + step.groups;
    var carried, computed := CarriedOutputs(published, names), AggregateOutputs(published, step.aggregates);
    OutputAppended(carried, computed, name);
    if name in names {
      var i :| 0 <= i < |names| && names[i] == name;
      assert carried[i].field == name;
    }
    if Named(step.aggregates, name) {
      var i :| 0 <= i < |step.aggregates| && step.aggregates[i].name == name;
      assert computed[i].field == name;
    }
  }

  lemma CalculationNames(published: string, calculations: seq<Calculation>, name: string)
    ensures HasOutput(StepOutputs(published, Calculate(calculations)), name)
            <==> exists i | 0 <= i < |calculations| :: calculations[i].name == name
  {
    var outputs := StepOutputs(published, Calculate(calculations));
    if i :| 0 <= i < |calculations| && calculations[i].name == name {
      assert outputs[i].field == name;
    }
  }

  /**
    A field carried after a step was carried before it or is one the step declares; and every
    step but a mapping carries all it declares.
  */
  lemma StepExplains(published: string, fields: seq<Field>, step: Step, schemas: map<string, Schema>, name: string)
    requires StepFields(fields, step, schemas).Ok?
    ensures Present(StepFields(fields, step, schemas).value, name) ==>
              Present(fields, name) || HasOutput(StepOutputs(published, step), name)
    ensures HasOutput(StepOutputs(published, step), name) && !step.Transform? && name != "" ==>
              Present(StepFields(fields, step, schemas).value, name)
  {
    match step {
      case Transform(mapping) =>
        if Present(Transformed(fields, mapping), name) { TransformExplains(published, fields, mapping, name); }
      case Calculate(calculations) =>
        CalculateExplains(fields, calculations, name);
        CalculationNames(published, calculations, name);
      case Enrich(lookups) => EnrichExplains(fields, lookups, schemas, name);
      case Aggregation(_, _, _) => AggregationExplains(published, fields, step, name);
      case _ =>
    }
  }

  /** What the first i steps carry they were opened with or one of them declares. */
  lemma {:induction false} CarriedIsDeclared(
    published: string, opening: seq<Field>, steps: seq<Step>, schemas: map<string, Schema>, i: nat, name: string)
    requires i <= |steps| && FieldsAfter(opening, steps, i, schemas).Ok?
    requires Present(FieldsAfter(opening, steps, i, schemas).value, name)
    ensures Present(opening, name) || exists k | 0 <= k < i :: HasOutput(StepOutputs(published, steps[k]), name)
  {
    if i == 0 {
      DictHolds(opening);
    } else {
      var before := FieldsAfter(opening, steps, i - 1, schemas).value;
      StepExplains(published, before, steps[i - 1], schemas, name);
      if Present(before, name) { CarriedIsDeclared(published, opening, steps, schemas, i - 1, name); }
    }
  }

  /** A field of the source's relation that its mapping leaves under its own name. */
  ghost predicate ArrivesAs(source: Source, schemas: map<string, Schema>, name: string) {
    && KeyOf(source) in schemas
    && Present(schemas[KeyOf(source)].fields, name)
    && Entry(source.mapping, name).None?
  }

  lemma {:induction false} EntryFound(mapping: seq<Conform>, name: string) returns (k: nat)
    requires Entry(mapping, name).Some?
    ensures k < |mapping| && mapping[k] == Entry(mapping, name).value && mapping[k].from == name
  {
    if mapping[0].from == name {
      k := 0;
    } else {
      k := EntryFound(mapping[1..], name);
      k := k + 1;
    }
  }

  ghost predicate SourceExplains(published: string, source: DeclaredSource, how: TransformLabel,
      schemas: map<string, Schema>, name: string) {
    ArrivesAs(source.source, schemas, name) || HasOutput(ConformOutputs(published, source, how), name)
  }

  lemma ConformedIsExplained(published: string, source: DeclaredSource, how: TransformLabel,
      schemas: map<string, Schema>, name: string)
    requires SourceReady(source.source, schemas)
    requires Present(ConformedSource(source.source, schemas).fields, name)
    ensures SourceExplains(published, source, how, schemas, name)
  {
    var fields, mapping := schemas[KeyOf(source.source)].fields, source.source.mapping;
    var conformed := ConformedFields(fields, mapping);
    var i :| 0 <= i < |conformed| && conformed[i].name == name;
    assert conformed[i] == ConformedField(fields[i], mapping);
    if Entry(mapping, fields[i].name).Some? {
      var k := EntryFound(mapping, fields[i].name);
      assert ConformOutputs(published, source, how)[k].field == name;
    }
  }

  function Plain(sources: seq<DeclaredSource>): seq<Source> {
    seq(|sources|, i requires 0 <= i < |sources| => sources[i].source)
  }

  /** Every field a merge publishes comes from one of its sources. */
  lemma MergedComesFrom(conformed: seq<Conformed>, keys: seq<string>, join: Join, name: string) returns (i: nat)
    requires conformed != [] && Mergeable(conformed, keys) && Present(Merged(conformed, keys, join), name)
    ensures i < |conformed| && Present(conformed[i].fields, name)
  {
    assert forall k | 0 <= k < |keys| :: Lookup(conformed[0].fields, keys[k]).Some? by {
      assert forall k | 0 <= k < |keys| :: KeyAgrees(conformed, keys[k]);
    }
    var keyed, brought := KeyFields(conformed[0].fields, keys), AllBrought(conformed, keys, join);
    PresentInEither(keyed, brought, name);
    if Present(keyed, name) {
      KeyIsPresent(conformed[0].fields, keys, name);
      i := 0;
    } else {
      var k :| 0 <= k < |brought| && brought[k].name == name;
      var j: nat;
      i, j := BroughtFrom(conformed, keys, join, k);
    }
  }

  lemma PresentInEither(a: seq<Field>, b: seq<Field>, name: string)
    requires Present(a + b, name)
    ensures Present(a, name) || Present(b, name)
  {
    var k :| 0 <= k < |a + b| && (a + b)[k].name == name;
    assert (a + b)[k] == if k < |a| then a[k] else b[k - |a|];
  }

  lemma KeyIsPresent(fields: seq<Field>, keys: seq<string>, name: string)
    requires forall i | 0 <= i < |keys| :: Lookup(fields, keys[i]).Some?
    requires Present(KeyFields(fields, keys), name)
    ensures Present(fields, name)
  {
    var k :| 0 <= k < |keys| && KeyFields(fields, keys)[k].name == name;
    LookupFinds(fields, keys[k]);
  }

  lemma OpeningIsExplained(
    published: string, document: Document, schemas: map<string, Schema>, opening: Opening, name: string)
      returns (i: nat)
    requires forall k | 0 <= k < |document.sources| :: SourceReady(document.sources[k].source, schemas)
    requires Opens(Plain(document.sources), schemas, document.combination, opening)
    requires Present(opening.fields, name)
    ensures i < |document.sources|
            && SourceExplains(published, document.sources[i], SourceLabel(document), schemas, name)
  {
    var sources := Plain(document.sources);
    var conformed := ConformedSources(sources, schemas);
    i := 0;
    if opening.combine == Some(Merge) {
      i := MergedComesFrom(conformed, opening.keys, opening.join.value, name);
    }
    assert Present(conformed[i].fields, name);
    ConformedIsExplained(published, document.sources[i], SourceLabel(document), schemas, name);
  }

  lemma RecordedInLineage(published: string, document: Document, name: string)
    ensures forall i | 0 <= i < |document.steps| && HasOutput(StepOutputs(published, document.steps[i]), name) ::
              RecordedAt(Lineage(published, document), published, name, Occurrence(StepBlock, i))
    ensures forall i | 0 <= i < |document.sources|
                       && HasOutput(ConformOutputs(published, document.sources[i], SourceLabel(document)), name) ::
              RecordedAt(Lineage(published, document), published, name, Occurrence(SourceBlock, i))
  {
    var steps, conforming := CompositionOutputs(published, document.steps),
      SourceOutputs(published, document.sources, SourceLabel(document));
    forall k | 0 <= k < |steps|
      ensures AllFounded(steps[k])
    {
      OutputsAreFounded(published, document.steps[k]);
    }
    forall i | 0 <= i < |document.steps| && HasOutput(StepOutputs(published, document.steps[i]), name)
      ensures RecordedAt(Lineage(published, document), published, name, Occurrence(StepBlock, i))
    {
      BlockExplains(published, StepBlock, steps, name, i);
    }
    forall i | 0 <= i < |document.sources|
               && HasOutput(ConformOutputs(published, document.sources[i], SourceLabel(document)), name)
      ensures RecordedAt(Lineage(published, document), published, name, Occurrence(SourceBlock, i))
    {
      BlockExplains(published, SourceBlock, conforming, name, i);
    }
  }

  /** A record that a source, or one of the first i steps, states of a name. */
  ghost predicate RecordedBefore(published: string, document: Document, name: string, i: nat) {
    || (exists k | 0 <= k < |document.sources| ::
          RecordedAt(Lineage(published, document), published, name, Occurrence(SourceBlock, k)))
    || (exists k | 0 <= k < i :: RecordedAt(Lineage(published, document), published, name, Occurrence(StepBlock, k)))
  }

  /**
    Every field a composition carries after its first i steps arrives under its own name from a
    source's relation, or is the target of a record that a source or one of those steps states.
  */
  lemma CarriedFieldIsExplained(
    published: string, document: Document, schemas: map<string, Schema>, opening: Opening, i: nat, name: string)
    requires forall k | 0 <= k < |document.sources| :: SourceReady(document.sources[k].source, schemas)
    requires Opens(Plain(document.sources), schemas, document.combination, opening)
    requires i <= |document.steps| && FieldsAfter(opening.fields, document.steps, i, schemas).Ok?
    requires Present(FieldsAfter(opening.fields, document.steps, i, schemas).value, name)
    ensures (exists k | 0 <= k < |document.sources| :: ArrivesAs(document.sources[k].source, schemas, name))
            || RecordedBefore(published, document, name, i)
  {
    CarriedIsDeclared(published, opening.fields, document.steps, schemas, i, name);
    RecordedInLineage(published, document, name);
    if Present(opening.fields, name) {
      var k := OpeningIsExplained(published, document, schemas, opening, name);
    }
  }
}

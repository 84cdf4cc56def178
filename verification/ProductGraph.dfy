/**
  Building an estate's product graph and the coverage assertion it ends with
  (ergasterion/framework/graph.py:634-722, 972-1157).
*/
module ProductGraph {
  import opened Basics
  import opened SortedNames
  import opened Ordering
  import opened Relations
  import opened FieldPropagation
  import opened FieldLineage
  import opened StoredNames

  /** `stored` holds the names its relations and columns are stored under. */
  datatype Declaration = Declaration(
    domain: string, name: string, landing: bool, checkpoint: bool, stored: StoredBlock, document: Document)

  type Entries = map<string, Declaration>

  datatype EdgeKind = SourceEdge | LookupEdge | AuxiliaryEdge

  datatype Edge = Edge(source: string, target: string, kind: EdgeKind, contract: string, relation: string)

  datatype Generation = Landing | First | Later | Consolidating

  /** `table` is the materialisation intent; without it none is declared. */
  datatype Node = Node(name: string, generation: Generation, relations: seq<string>, table: bool, checkpoint: bool)

  /** One rule of a validation step; a reconciliation carries the contracts it reconciles to. */
  datatype Validation = Validation(
    product: string, step: nat, stage: string, subject: string, references: Option<seq<string>>)

  /** A relation a translator renders for itself under a product's name, or for the estate. */
  datatype Auxiliary = Auxiliary(product: string, relation: string, translator: string, purpose: string)

  datatype Graph = Graph(
    nodes: seq<Node>, edges: seq<Edge>, lineage: seq<Record>, validations: seq<Validation>,
    declared: seq<DeclaredField>, storedRelations: seq<StoredRelation>, storedFields: seq<StoredField>)

  datatype GraphError =
    | KeyMismatch(key: string)
    | MissingUpstream(consumer: string, contract: string)
    | RelationFails(consumer: string, error: ReadError)
    | Cycle(products: seq<string>)
    | Unclassified(product: string)
    | Unreconciled(product: string, contract: string)
    | UnknownStored(product: string, relation: Option<string>)
    | AuxiliaryMisplaced(product: string, name: string)
    | Uncovered

  function NameOf(d: Declaration): string { d.domain + "." + d.name }

  // ---------------------------------------------------------------- edges

  datatype GraphRead = GraphRead(kind: EdgeKind, contract: string, relation: Option<string>)

  /** Fixture-bound sources are entry points, not edges. */
  function SourceReads(sources: seq<DeclaredSource>): seq<GraphRead> {
    if sources == [] then [] else
    var init, last := SourceReads(sources[..|sources| - 1]), sources[|sources| - 1];
    if last.fixture || last.source.contract == "" then init
    else init + [GraphRead(SourceEdge, last.source.contract, last.source.relation)]
  }

  function LookupReads(lookups: seq<Enrichment>): seq<GraphRead> {
    if lookups == [] then [] else
    var init, last := LookupReads(lookups[..|lookups| - 1]), lookups[|lookups| - 1];
    if last.contract == "" then init else init + [GraphRead(LookupEdge, last.contract, last.relation)]
  }

  function StepReads(steps: seq<Step>): seq<GraphRead> {
    if steps == [] then [] else
    var init, last := StepReads(steps[..|steps| - 1]), steps[|steps| - 1];
    if last.Enrich? then init + LookupReads(last.lookups) else init
  }

  function DeclaredReads(document: Document): seq<GraphRead> {
    SourceReads(document.sources) + StepReads(document.steps)
  }

  /** A source of another product, or a lookup, that the document declares. */
  ghost predicate Declares(document: Document, read: GraphRead) {
    || (exists i | 0 <= i < |document.sources| :: SourceDeclares(document.sources[i], read))
    || (exists k | 0 <= k < |document.steps| :: StepDeclares(document.steps[k], read))
  }

  predicate SourceDeclares(source: DeclaredSource, read: GraphRead) {
    !source.fixture && read.contract != ""
      && read == GraphRead(SourceEdge, source.source.contract, source.source.relation)
  }

  predicate StepDeclares(step: Step, read: GraphRead) {
    step.Enrich? && exists i | 0 <= i < |step.lookups| :: LookupDeclares(step.lookups[i], read)
  }

  predicate LookupDeclares(lookup: Enrichment, read: GraphRead) {
    read.contract != "" && read == GraphRead(LookupEdge, lookup.contract, lookup.relation)
  }

  lemma {:induction false} SourceReadsExactly(sources: seq<DeclaredSource>, read: GraphRead)
    ensures read in SourceReads(sources) <==> exists i | 0 <= i < |sources| :: SourceDeclares(sources[i], read)
  {
    if sources != [] {
      var init := sources[..|sources| - 1];
      SourceReadsExactly(init, read);
      assert forall i | 0 <= i < |init| :: init[i] == sources[i];
    }
  }

  lemma {:induction false} LookupReadsExactly(lookups: seq<Enrichment>, read: GraphRead)
    ensures read in LookupReads(lookups) <==> exists i | 0 <= i < |lookups| :: LookupDeclares(lookups[i], read)
  {
    if lookups != [] {
      var init := lookups[..|lookups| - 1];
      LookupReadsExactly(init, read);
      assert forall i | 0 <= i < |init| :: init[i] == lookups[i];
    }
  }

  lemma {:induction false} StepReadsExactly(steps: seq<Step>, read: GraphRead)
    ensures read in StepReads(steps) <==> exists k | 0 <= k < |steps| :: StepDeclares(steps[k], read)
  {
    if steps != [] {
      var init, last := steps[..|steps| - 1], steps[|steps| - 1];
      StepReadsExactly(init, read);
      OneStepReads(last, read);
      assert forall k | 0 <= k < |init| :: init[k] == steps[k];
      assert read in StepReads(steps) <==> read in StepReads(init) || StepDeclares(last, read);
    }
  }

  lemma OneStepReads(step: Step, read: GraphRead)
    ensures StepDeclares(step, read) <==> step.Enrich? && read in LookupReads(step.lookups)
  {
    if step.Enrich? { LookupReadsExactly(step.lookups, read); }
  }

  /** The reads that become edges are every declared source but fixtures, and every lookup. */
  lemma ReadsExactly(document: Document, read: GraphRead)
    ensures read in DeclaredReads(document) <==> Declares(document, read)
  {
    SourceReadsExactly(document.sources, read);
    StepReadsExactly(document.steps, read);
  }

  /** The edge of one read, or why it has none. */
  function EdgeOf(relations: map<string, seq<string>>, consumer: string, read: GraphRead): Result<Edge, GraphError> {
    var upstream := PublishedName(read.contract);
    if upstream !in relations then Err(MissingUpstream(consumer, read.contract)) else
    var relation := ResolveRelationName(relations[upstream], upstream, read.relation);
    if relation.Err? then Err(RelationFails(consumer, relation.error))
    else Ok(Edge(upstream, consumer, read.kind, read.contract, relation.value))
  }

  ghost predicate ReadsResolve(relations: map<string, seq<string>>, consumer: string, inputs: seq<GraphRead>) {
    forall i | 0 <= i < |inputs| :: EdgeOf(relations, consumer, inputs[i]).Ok?
  }

  /** The first read, in the order they are declared, that has no edge. */
  ghost predicate FirstReadFails(relations: map<string, seq<string>>, consumer: string, inputs: seq<GraphRead>,
      e: GraphError) {
    exists i | 0 <= i < |inputs| :: EdgeOf(relations, consumer, inputs[i]) == Err(e)
                                    && forall k | 0 <= k < i :: EdgeOf(relations, consumer, inputs[k]).Ok?
  }

  ghost predicate IsEdgeOf(relations: map<string, seq<string>>, consumer: string, inputs: seq<GraphRead>, e: Edge) {
    exists i | 0 <= i < |inputs| :: EdgeOf(relations, consumer, inputs[i]) == Ok(e)
  }

  /** The edges of one consumer's reads, in the order they are declared. */
  function EdgesOf(relations: map<string, seq<string>>, consumer: string, inputs: seq<GraphRead>): seq<Edge> {
    if inputs == [] then [] else
    var init, last := EdgesOf(relations, consumer, inputs[..|inputs| - 1]),
      EdgeOf(relations, consumer, inputs[|inputs| - 1]);
    if last.Ok? then init + [last.value] else init
  }

  lemma {:induction false} EdgesOfExactly(relations: map<string, seq<string>>, consumer: string,
      inputs: seq<GraphRead>, e: Edge)
    ensures e in EdgesOf(relations, consumer, inputs) <==> IsEdgeOf(relations, consumer, inputs, e)
  {
    if inputs != [] {
      var init := inputs[..|inputs| - 1];
      EdgesOfExactly(relations, consumer, init, e);
      assert forall i | 0 <= i < |init| :: init[i] == inputs[i];
    }
  }

  method ConsumerEdges(relations: map<string, seq<string>>, consumer: string, inputs: seq<GraphRead>)
    returns (r: Result<seq<Edge>, GraphError>)
    ensures r.Ok? <==> ReadsResolve(relations, consumer, inputs)
    ensures r.Ok? ==> r.value == EdgesOf(relations, consumer, inputs)
    ensures r.Err? ==> FirstReadFails(relations, consumer, inputs, r.error)
  {
    var edges: seq<Edge> := [];
    for i := 0 to |inputs|
      invariant forall k | 0 <= k < i :: EdgeOf(relations, consumer, inputs[k]).Ok?
      invariant edges == EdgesOf(relations, consumer, inputs[..i])
    {
      assert inputs[..i + 1][..i] == inputs[..i];
      var edge := EdgeOf(relations, consumer, inputs[i]);
      if edge.Err? { return Err(edge.error); }
      edges := edges + [edge.value];
    }
    assert inputs[..|inputs|] == inputs;
    return Ok(edges);
  }

  ghost predicate AllResolve(relations: map<string, seq<string>>, inputs: map<string, seq<GraphRead>>) {
    forall consumer | consumer in inputs :: ReadsResolve(relations, consumer, inputs[consumer])
  }

  ghost predicate IsEdge(relations: map<string, seq<string>>, inputs: map<string, seq<GraphRead>>, e: Edge) {
    e.target in inputs && IsEdgeOf(relations, e.target, inputs[e.target], e)
  }

  function EdgeLists(relations: map<string, seq<string>>, inputs: map<string, seq<GraphRead>>,
      consumers: seq<string>): seq<seq<Edge>> {
    seq(|consumers|, i requires 0 <= i < |consumers| =>
      if consumers[i] in inputs then EdgesOf(relations, consumers[i], inputs[consumers[i]]) else [])
  }

  function KindText(kind: EdgeKind): string {
    match kind
    case SourceEdge => "source"
    case LookupEdge => "lookup"
    case AuxiliaryEdge => "auxiliary"
  }

  /** The key edges are listed by: their ends, kind and contract, and the relation they carry. */
  function EdgeKey(e: Edge): seq<string> { [e.source, e.target, KindText(e.kind), e.contract, e.relation] }

  function EdgeKeyWithoutRelation(e: Edge): seq<string> { [e.source, e.target, KindText(e.kind), e.contract] }

  lemma EdgeKeyIdentifies(a: Edge, b: Edge)
    requires EdgeKey(a) == EdgeKey(b)
    ensures a == b
  {
    var k, l := EdgeKey(a), EdgeKey(b);
    assert k[0] == l[0] && k[1] == l[1] && k[2] == l[2] && k[3] == l[3] && k[4] == l[4];
    assert "source"[0] == 's' && "lookup"[0] == 'l' && "auxiliary"[0] == 'a';
  }

  /** The edges of every declared read, consumer after consumer in name order. */
  ghost function DeclaredEdges(relations: map<string, seq<string>>, inputs: map<string, seq<GraphRead>>): seq<Edge> {
    var consumers := SortedList(inputs.Keys);
    Concatenated(EdgeLists(relations, inputs, consumers), |consumers|)
  }

  ghost predicate ConsumerResolves(relations: map<string, seq<string>>, inputs: map<string, seq<GraphRead>>,
      consumer: string) {
    consumer in inputs ==> ReadsResolve(relations, consumer, inputs[consumer])
  }

  /** The first consumer, in the order given, one of whose reads has no edge, and the first such read. */
  ghost predicate FirstUnresolved(relations: map<string, seq<string>>, inputs: map<string, seq<GraphRead>>,
      consumers: seq<string>, e: GraphError) {
    exists i | 0 <= i < |consumers| ::
      && consumers[i] in inputs && FirstReadFails(relations, consumers[i], inputs[consumers[i]], e)
      && forall k | 0 <= k < i :: ConsumerResolves(relations, inputs, consumers[k])
  }

  /** One consumer's edges; a name that consumes nothing has none. */
  method EdgesInto(relations: map<string, seq<string>>, inputs: map<string, seq<GraphRead>>, consumer: string)
    returns (r: Result<seq<Edge>, GraphError>)
    ensures r.Ok? <==> ConsumerResolves(relations, inputs, consumer)
    ensures r.Ok? ==> r.value == if consumer in inputs then EdgesOf(relations, consumer, inputs[consumer]) else []
    ensures r.Err? ==> consumer in inputs && FirstReadFails(relations, consumer, inputs[consumer], r.error)
  {
    if consumer in inputs { r := ConsumerEdges(relations, consumer, inputs[consumer]); } else { r := Ok([]); }
  }

  /** Consumer after consumer, the edges of its reads, or the first read that has none. */
  method CollectEdges(relations: map<string, seq<string>>, inputs: map<string, seq<GraphRead>>, consumers: seq<string>)
    returns (r: Result<seq<Edge>, GraphError>)
    ensures r.Ok? <==> forall i | 0 <= i < |consumers| :: ConsumerResolves(relations, inputs, consumers[i])
    ensures r.Ok? ==> r.value == Concatenated(EdgeLists(relations, inputs, consumers), |consumers|)
    ensures r.Err? ==> FirstUnresolved(relations, inputs, consumers, r.error)
  {
    ghost var parts := EdgeLists(relations, inputs, consumers);
    var edges: seq<Edge> := [];
    for i := 0 to |consumers|
      invariant forall k | 0 <= k < i :: ConsumerResolves(relations, inputs, consumers[k])
      invariant edges == Concatenated(parts, i)
    {
      var more := EdgesInto(relations, inputs, consumers[i]);
      if more.Err? { return Err(more.error); }
      assert more.value == parts[i];
      edges := edges + more.value;
    }
    return Ok(edges);
  }

  lemma EveryConsumer(relations: map<string, seq<string>>, inputs: map<string, seq<GraphRead>>, consumers: seq<string>)
    requires forall name :: name in consumers <==> name in inputs.Keys
    ensures AllResolve(relations, inputs)
            <==> forall i | 0 <= i < |consumers| :: ConsumerResolves(relations, inputs, consumers[i])
  {
    forall name | name in inputs
      ensures exists i :: 0 <= i < |consumers| && consumers[i] == name
    {
      assert name in consumers;
    }
  }

  /** The edges of the declared reads, or why the first read, by its consumer's name, has none. */
  method EdgesFor(relations: map<string, seq<string>>, inputs: map<string, seq<GraphRead>>)
    returns (r: Result<seq<Edge>, GraphError>)
    ensures r.Ok? <==> AllResolve(relations, inputs)
    ensures r.Ok? ==> r.value == SortByTuple(DeclaredEdges(relations, inputs), EdgeKeyWithoutRelation)
    ensures r.Err? ==> FirstUnresolved(relations, inputs, SortedList(inputs.Keys), r.error)
    ensures r.Err? ==> r.error.MissingUpstream? || r.error.RelationFails?
  {
    var consumers := SortNames(inputs.Keys);
    SortedListUnique(consumers, SortedList(inputs.Keys), inputs.Keys);
    EveryConsumer(relations, inputs, consumers);
    r := CollectEdges(relations, inputs, consumers);
    if r.Ok? { r := Ok(SortByTuple(r.value, EdgeKeyWithoutRelation)); }
  }

  /** Exactly the edges of the declared reads. */
  lemma EdgesExactly(relations: map<string, seq<string>>, inputs: map<string, seq<GraphRead>>, e: Edge)
    ensures e in DeclaredEdges(relations, inputs) <==> IsEdge(relations, inputs, e)
  {
    var consumers := SortedList(inputs.Keys);
    var parts := EdgeLists(relations, inputs, consumers);
    InConcatenated(parts, |consumers|, e);
    forall k | 0 <= k < |consumers|
      ensures e in parts[k] <==> e.target == consumers[k] && IsEdge(relations, inputs, e)
    {
      assert consumers[k] in inputs.Keys;
      PartExactly(relations, inputs, consumers[k], e);
    }
    if e.target in inputs.Keys {
      var k :| 0 <= k < |consumers| && consumers[k] == e.target;
    }
  }

  lemma PartExactly(relations: map<string, seq<string>>, inputs: map<string, seq<GraphRead>>, consumer: string, e: Edge)
    requires consumer in inputs
    ensures e in EdgesOf(relations, consumer, inputs[consumer])
            <==> e.target == consumer && IsEdge(relations, inputs, e)
  {
    EdgesOfExactly(relations, consumer, inputs[consumer], e);
    if IsEdgeOf(relations, consumer, inputs[consumer], e) {
      var i :| 0 <= i < |inputs[consumer]| && EdgeOf(relations, consumer, inputs[consumer][i]) == Ok(e);
    }
  }

  /** The edge carries the kind and contract of the read, its producer, and the relation the read picks. */
  predicate CarriesRead(relations: map<string, seq<string>>, read: GraphRead, e: Edge) {
    && e.kind == read.kind && e.contract == read.contract && e.source == PublishedName(read.contract)
    && e.source in relations && Picks(relations[e.source], e.source, read.relation, e.relation)
  }

  /** One read becomes one edge, every field of which is the read's own. */
  lemma EdgeOfExactly(relations: map<string, seq<string>>, consumer: string, read: GraphRead, e: Edge)
    ensures EdgeOf(relations, consumer, read) == Ok(e) <==> e.target == consumer && CarriesRead(relations, read, e)
  {
    var upstream := PublishedName(read.contract);
    if upstream in relations { PicksExactly(relations[upstream], upstream, read.relation, e.relation); }
  }

  /** Which read has no edge, and why. */
  lemma EdgeRefusedExactly(relations: map<string, seq<string>>, consumer: string, read: GraphRead)
    ensures var r, upstream := EdgeOf(relations, consumer, read), PublishedName(read.contract);
            && (r == Err(MissingUpstream(consumer, read.contract)) <==> upstream !in relations)
            && (r == Err(RelationFails(consumer, AmbiguousRelation))
                <==> upstream in relations && read.relation.None? && |relations[upstream]| != 1)
            && (r == Err(RelationFails(consumer, UnknownRelation))
                <==> upstream in relations && read.relation.Some?
                     && upstream + "__" + read.relation.value !in relations[upstream])
  {
    var upstream := PublishedName(read.contract);
    if upstream in relations { ResolvedNameExactly(relations[upstream], upstream, read.relation); }
  }

  lemma EdgeEndsAreProducts(relations: map<string, seq<string>>, inputs: map<string, seq<GraphRead>>, e: Edge)
    requires relations.Keys == inputs.Keys && IsEdge(relations, inputs, e)
    ensures e.source in relations && e.target in relations
    ensures e.relation in relations[e.source]
  {
    var i :| 0 <= i < |inputs[e.target]| && EdgeOf(relations, e.target, inputs[e.target][i]) == Ok(e);
    assert e.source in relations.Keys && e.target in inputs.Keys;
    var read := inputs[e.target][i];
    if read.relation.Some? { ChosenIsPublished(relations[e.source], e.source, read.relation.value); }
  }

  // ---------------------------------------------------------------- validations, auxiliary relations

  /** The contracts a reconciliation may name: those of sources that are no fixture. */
  function SourceContracts(document: Document): set<string> {
    set i | 0 <= i < |document.sources| && !document.sources[i].fixture && document.sources[i].source.contract != "" ::
      document.sources[i].source.contract
  }

  function RuleValidation(published: string, step: nat, stage: string, rule: ValidationRule): Validation {
    match rule
    case OnField(field, _, _) => Validation(published, step, stage, field, None)
    case Reconcile(metric, contracts) => Validation(published, step, stage, metric, Some(contracts))
  }

  function StepValidations(published: string, index: nat, step: Step): seq<Validation> {
    if step.Validate?
    then seq(|step.rules|,
      i requires 0 <= i < |step.rules| => RuleValidation(published, index, step.stage, step.rules[i]))
    else []
  }

  function Validations(published: string, steps: seq<Step>, n: nat): seq<Validation>
    requires n <= |steps|
  {
    if n == 0 then [] else Validations(published, steps, n - 1) + StepValidations(published, n - 1, steps[n - 1])
  }

  predicate RuleReconciles(contracts: set<string>, rule: ValidationRule) {
    rule.Reconcile? ==> forall i | 0 <= i < |rule.contracts| :: rule.contracts[i] in contracts
  }

  predicate StepReconciles(contracts: set<string>, step: Step) {
    step.Validate? ==> forall i | 0 <= i < |step.rules| :: RuleReconciles(contracts, step.rules[i])
  }

  /** No rule reconciles to a contract the product does not consume. */
  predicate Reconciles(document: Document) {
    forall i | 0 <= i < |document.steps| :: StepReconciles(SourceContracts(document), document.steps[i])
  }

  predicate RuleNames(rule: ValidationRule, contract: string) {
    rule.Reconcile? && contract in rule.contracts
  }

  predicate StepNames(step: Step, contract: string) {
    step.Validate? && exists i | 0 <= i < |step.rules| :: RuleNames(step.rules[i], contract)
  }

  /** Some rule reconciles to a contract the product does not consume. */
  predicate ReconcilesUnread(document: Document, contract: string) {
    && contract !in SourceContracts(document)
    && exists i | 0 <= i < |document.steps| :: StepNames(document.steps[i], contract)
  }

  method StepValidationsFor(published: string, contracts: set<string>, index: nat, step: Step)
    returns (r: Result<seq<Validation>, GraphError>)
    ensures r.Ok? <==> StepReconciles(contracts, step)
    ensures r.Ok? ==> r.value == StepValidations(published, index, step)
    ensures r.Err? ==> r.error.Unreconciled? && r.error.product == published
                       && StepNames(step, r.error.contract) && r.error.contract !in contracts
  {
    if !step.Validate? { return Ok([]); }
    var records: seq<Validation> := [];
    for j := 0 to |step.rules|
      invariant forall k | 0 <= k < j :: RuleReconciles(contracts, step.rules[k])
      invariant |records| == j && forall k | 0 <= k < j ::
                records[k] == RuleValidation(published, index, step.stage, step.rules[k])
    {
      var rule := step.rules[j];
      if rule.Reconcile? {
        for l := 0 to |rule.contracts|
          invariant forall k | 0 <= k < l :: rule.contracts[k] in contracts
        {
          if rule.contracts[l] !in contracts {
            assert !RuleReconciles(contracts, rule) && RuleNames(rule, rule.contracts[l]);
            return Err(Unreconciled(published, rule.contracts[l]));
          }
        }
      }
      records := records + [RuleValidation(published, index, step.stage, rule)];
    }
    return Ok(records);
  }

  /** One record per rule of every validation step, refused at a reconciliation of anything else. */
  method ValidationsFor(published: string, document: Document) returns (r: Result<seq<Validation>, GraphError>)
    ensures r.Ok? <==> Reconciles(document)
    ensures r.Ok? ==> r.value == Validations(published, document.steps, |document.steps|)
    ensures r.Err? ==> r.error.Unreconciled? && r.error.product == published
                       && ReconcilesUnread(document, r.error.contract)
  {
    var contracts := SourceContracts(document);
    var records: seq<Validation> := [];
    for i := 0 to |document.steps|
      invariant forall k | 0 <= k < i :: StepReconciles(contracts, document.steps[k])
      invariant records == Validations(published, document.steps, i)
    {
      var more := StepValidationsFor(published, contracts, i, document.steps[i]);
      if more.Err? { return more; }
      records := records + more.value;
    }
    return Ok(records);
  }

  lemma {:induction false} ValidationsOfProduct(published: string, steps: seq<Step>, n: nat)
    requires n <= |steps|
    ensures forall v | v in Validations(published, steps, n) :: v.product == published
  {
    if n > 0 { ValidationsOfProduct(published, steps, n - 1); }
  }

  const ESTATE_SCOPE: string := "estate"

  /** The edges of the registrations that belong to a product. */
  function AuxiliaryEdges(registrations: seq<Auxiliary>): seq<Edge> {
    if registrations == [] then [] else
    var init, last := AuxiliaryEdges(registrations[..|registrations| - 1]), registrations[|registrations| - 1];
    if last.product == ESTATE_SCOPE then init
    else init + [Edge(last.product, last.product, AuxiliaryEdge, last.purpose, last.relation)]
  }

  predicate IsAuxiliaryEdge(a: Auxiliary, e: Edge) {
    a.product != ESTATE_SCOPE && e == Edge(a.product, a.product, AuxiliaryEdge, a.purpose, a.relation)
  }

  lemma {:induction false} AuxiliaryEdgesExactly(registrations: seq<Auxiliary>, e: Edge)
    ensures e in AuxiliaryEdges(registrations)
            <==> exists i | 0 <= i < |registrations| :: IsAuxiliaryEdge(registrations[i], e)
  {
    if registrations != [] {
      var init := registrations[..|registrations| - 1];
      AuxiliaryEdgesExactly(init, e);
      assert forall i | 0 <= i < |init| :: init[i] == registrations[i];
    }
  }

  // ---------------------------------------------------------------- generation

  function UpstreamSources(entries: Entries, sources: seq<DeclaredSource>): seq<string> {
    if sources == [] then [] else
    var init, last := UpstreamSources(entries, sources[..|sources| - 1]), sources[|sources| - 1];
    var upstream := PublishedName(last.source.contract);
    if last.source.contract == "" || last.fixture || (upstream in entries && entries[upstream].landing) then init
    else init + [upstream]
  }

  predicate Classified(d: Declaration) {
    d.landing || exists i | 0 <= i < |d.document.sources| :: d.document.sources[i].source.contract != ""
  }

  function GenerationOf(entries: Entries, d: Declaration): Option<Generation> {
    if d.landing then Some(Landing)
    else if !Classified(d) then None
    else
      var upstream := UpstreamSources(entries, d.document.sources);
      if |upstream| >= 2 then Some(Consolidating) else if |upstream| == 1 then Some(Later) else Some(First)
  }

  /** A source whose upstream product is not a landing product. */
  predicate Lifts(entries: Entries, source: DeclaredSource) {
    var upstream := PublishedName(source.source.contract);
    !source.fixture && source.source.contract != "" && (upstream in entries ==> !entries[upstream].landing)
  }

  lemma {:induction false} UpstreamCount(entries: Entries, sources: seq<DeclaredSource>)
    ensures UpstreamSources(entries, sources) == [] <==> forall i | 0 <= i < |sources| :: !Lifts(entries, sources[i])
    ensures |UpstreamSources(entries, sources)| >= 2
            <==> exists i, j :: 0 <= i < j < |sources| && Lifts(entries, sources[i]) && Lifts(entries, sources[j])
  {
    if sources != [] {
      var init, n := sources[..|sources| - 1], |sources| - 1;
      UpstreamCount(entries, init);
      assert forall i | 0 <= i < n :: init[i] == sources[i];
      assert |UpstreamSources(entries, sources)|
             == |UpstreamSources(entries, init)| + if Lifts(entries, sources[n]) then 1 else 0;
      if Lifts(entries, sources[n]) && UpstreamSources(entries, init) != [] {
        var i :| 0 <= i < n && Lifts(entries, init[i]);
        assert Lifts(entries, sources[i]);
      }
    }
  }

  /**
    A product is of the first generation exactly when it reads landing products and fixtures
    alone, and consolidating exactly when two of its sources read other products.
  */
  lemma GenerationExactly(entries: Entries, d: Declaration)
    ensures var g, sources := GenerationOf(entries, d), d.document.sources;
            && (g == Some(Landing) <==> d.landing)
            && (g == Some(First)
               <==> !d.landing && Classified(d) && forall i | 0 <= i < |sources| :: !Lifts(entries, sources[i]))
            && (g == Some(Consolidating) <==>
                  !d.landing && exists i, j ::
                    0 <= i < j < |sources| && Lifts(entries, sources[i]) && Lifts(entries, sources[j]))
            && (g == None <==> !d.landing && !Classified(d))
  {
    UpstreamCount(entries, d.document.sources);
  }

  // ---------------------------------------------------------------- coverage

  predicate NodeCovered(node: Node) {
    node.relations != [] && (forall i | 0 <= i < |node.relations| :: node.relations[i] != "")
      && (node.checkpoint ==> node.table)
  }

  predicate RecordCovered(ids: set<string>, r: Record) {
    r.product in ids && (r.kind == ContractKind ==> r.sourceProduct in ids) && r.target != "" && r.source != ""
  }

  predicate Explained(lineage: seq<Record>, d: DeclaredField) {
    exists i | 0 <= i < |lineage| :: lineage[i].product == d.product && lineage[i].target == d.field
  }

  function Ids(nodes: seq<Node>): set<string> {
    set i | 0 <= i < |nodes| :: nodes[i].name
  }

  ghost predicate NodesCovered(nodes: seq<Node>) {
    && (forall i, j | 0 <= i < j < |nodes| :: nodes[i].name != nodes[j].name)
    && (forall i | 0 <= i < |nodes| :: NodeCovered(nodes[i]))
  }

  ghost predicate EdgesCovered(ids: set<string>, edges: seq<Edge>) {
    forall e | e in edges :: e.source in ids && e.target in ids && e.relation != ""
  }

  ghost predicate RecordsCovered(ids: set<string>, records: seq<Record>) {
    forall r | r in records :: RecordCovered(ids, r)
  }

  ghost predicate DeclaredCovered(ids: set<string>, lineage: seq<Record>, declared: seq<DeclaredField>) {
    forall d | d in declared :: d.product in ids && Explained(lineage, d)
  }

  /** What the finished graph is asserted to satisfy. */
  ghost predicate Covered(g: Graph) {
    && NodesCovered(g.nodes)
    && EdgesCovered(Ids(g.nodes), g.edges)
    && RecordsCovered(Ids(g.nodes), g.lineage)
    && DeclaredCovered(Ids(g.nodes), g.lineage, g.declared)
    && (forall v | v in g.validations :: v.product in Ids(g.nodes))
  }

  method AssertCoverage(g: Graph) returns (covered: bool)
    ensures covered <==> Covered(g)
  {
    var ids: set<string> := {};
    for i := 0 to |g.nodes|
      invariant ids == Ids(g.nodes[..i])
      invariant forall j, k | 0 <= j < k < i :: g.nodes[j].name != g.nodes[k].name
    {
      assert g.nodes[..i + 1][..i] == g.nodes[..i];
      if g.nodes[i].name in ids { return false; }
      ids := ids + {g.nodes[i].name};
    }
    assert g.nodes[..|g.nodes|] == g.nodes;
    for i := 0 to |g.nodes|
      invariant forall k | 0 <= k < i :: NodeCovered(g.nodes[k])
    {
      if !NodeCovered(g.nodes[i]) { return false; }
    }
    for i := 0 to |g.edges|
      invariant forall k | 0 <= k < i ::
                g.edges[k].source in ids && g.edges[k].target in ids && g.edges[k].relation != ""
    {
      if g.edges[i].source !in ids || g.edges[i].target !in ids || g.edges[i].relation == "" { return false; }
    }
    for i := 0 to |g.lineage|
      invariant forall k | 0 <= k < i :: RecordCovered(ids, g.lineage[k])
    {
      if !RecordCovered(ids, g.lineage[i]) { return false; }
    }
    for i := 0 to |g.declared|
      invariant forall k | 0 <= k < i :: g.declared[k].product in ids && Explained(g.lineage, g.declared[k])
    {
      if g.declared[i].product !in ids || !Explained(g.lineage, g.declared[i]) { return false; }
    }
    for i := 0 to |g.validations|
      invariant forall k | 0 <= k < i :: g.validations[k].product in ids
    {
      if g.validations[i].product !in ids { return false; }
    }
    return true;
  }

  // ---------------------------------------------------------------- names a declaration must state

  /** What an expression records is named. */
  predicate ReadsNamed(e: Expression) {
    if e.columns == [] then e.text != "" else forall i | 0 <= i < |e.columns| :: e.columns[i] != ""
  }

  predicate AllNamed(names: seq<string>) {
    forall i | 0 <= i < |names| :: names[i] != ""
  }

  predicate CalculationNamed(c: Calculation) {
    c.name != "" && match c
                    case ByExpression(_, _, expression) => ReadsNamed(expression)
                    case ByRule(_, _, rule, version) => rule != "" || version.Some?
  }

  predicate StepNamed(step: Step) {
    match step
    case Transform(mapping) =>
      forall i | 0 <= i < |mapping| :: mapping[i].to.Some? ==> mapping[i].to.value != "" && mapping[i].from != ""
    case Calculate(calculations) => forall i | 0 <= i < |calculations| :: CalculationNamed(calculations[i])
    case Enrich(lookups) =>
      forall i | 0 <= i < |lookups| && lookups[i].fields != [] ::
        lookups[i].contract != "" && AllNamed(lookups[i].fields)
    case Aggregation(grain, groups, aggregates) =>
      && AllNamed(grain + groups)
      && forall i | 0 <= i < |aggregates| :: aggregates[i].name != "" && ReadsNamed(aggregates[i].expression)
    case _ => true
  }

  predicate SourceNamed(source: DeclaredSource) {
    source.source.mapping == []
    || ((source.fixture || source.source.contract != "")
        && forall i | 0 <= i < |source.source.mapping| ::
           source.source.mapping[i].to != "" && source.source.mapping[i].from != "")
  }

  /** Nothing a declaration's lineage records is left unnamed. */
  predicate DocumentNamed(document: Document) {
    && (forall i | 0 <= i < |document.sources| :: SourceNamed(document.sources[i]))
    && (forall i | 0 <= i < |document.steps| :: StepNamed(document.steps[i]))
  }

  // ---------------------------------------------------------------- the same, of what is recorded

  predicate OriginSound(ids: set<string>, origin: Origin) {
    origin.source != "" && (origin.kind == ContractKind ==> origin.product in ids)
  }

  predicate OutputSound(ids: set<string>, output: Output) {
    output.field != "" && forall i | 0 <= i < |output.origins| :: OriginSound(ids, output.origins[i])
  }

  ghost predicate OutputsSound(ids: set<string>, outputs: seq<Output>) {
    forall i | 0 <= i < |outputs| :: OutputSound(ids, outputs[i])
  }

  ghost predicate LookupsKnown(ids: set<string>, lookups: seq<Enrichment>) {
    "" !in ids && forall i | 0 <= i < |lookups| ::
      lookups[i].contract != "" ==> PublishedName(lookups[i].contract) in ids
  }

  lemma ExpressionSound(ids: set<string>, published: string, name: string, transform: TransformLabel, e: Expression)
    ensures OutputSound(ids, Output(name, transform, ExpressionOrigins(published, e))) <==> name != "" && ReadsNamed(e)
  {
    var origins := ExpressionOrigins(published, e);
    if e.columns == [] {
      assert origins[0] == Origin(ExpressionKind, published, e.text);
    } else {
      assert forall i | 0 <= i < |e.columns| :: origins[i] == Origin(FieldKind, published, e.columns[i]);
    }
  }

  lemma SoundAppended(ids: set<string>, a: seq<Output>, b: seq<Output>)
    ensures OutputsSound(ids, a + b) <==> OutputsSound(ids, a) && OutputsSound(ids, b)
  {
    var all := a + b;
    if OutputsSound(ids, all) {
      assert forall i | 0 <= i < |a| :: a[i] == all[i];
      assert forall i | 0 <= i < |b| :: b[i] == all[|a| + i];
    }
  }

  lemma {:induction false} MappingSound(ids: set<string>, published: string, mapping: seq<Mapping>)
    ensures OutputsSound(ids, MappingOutputs(published, mapping)) <==> StepNamed(Transform(mapping))
  {
    if mapping != [] {
      var init, last := mapping[..|mapping| - 1], mapping[|mapping| - 1];
      MappingSound(ids, published, init);
      assert forall i | 0 <= i < |init| :: init[i] == mapping[i];
      if last.to.Some? {
        var output := Output(last.to.value, SchemaTransform, [Origin(FieldKind, published, last.from)]);
        SoundAppended(ids, MappingOutputs(published, init), [output]);
        assert [output][0] == output;
        assert OutputSound(ids, output) <==> last.to.value != "" && OriginSound(ids, output.origins[0]);
      }
    }
  }

  function Borrowings(lookup: Enrichment): seq<Output> {
    seq(|lookup.fields|, i requires 0 <= i < |lookup.fields| =>
      Output(lookup.fields[i], DataEnrichment,
        [Origin(ContractKind, PublishedName(lookup.contract), lookup.fields[i])]))
  }

  lemma LookupSound(ids: set<string>, lookup: Enrichment)
    requires LookupsKnown(ids, [lookup])
    ensures OutputsSound(ids, Borrowings(lookup)) <==> StepNamed(Enrich([lookup]))
  {
    var outputs := Borrowings(lookup);
    assert [lookup][0] == lookup;
    assert lookup.contract == "" ==> PublishedName(lookup.contract) == "";
    forall i | 0 <= i < |outputs|
      ensures OutputSound(ids, outputs[i]) <==> lookup.fields[i] != "" && lookup.contract != ""
    {
      assert outputs[i].origins[0] == Origin(ContractKind, PublishedName(lookup.contract), lookup.fields[i]);
    }
    if lookup.fields != [] && OutputsSound(ids, outputs) {
      assert OutputSound(ids, outputs[0]);
      assert forall i | 0 <= i < |outputs| :: OutputSound(ids, outputs[i]);
    }
  }

  lemma {:induction false} LookupsSound(ids: set<string>, lookups: seq<Enrichment>)
    requires LookupsKnown(ids, lookups)
    ensures OutputsSound(ids, LookupOutputs(lookups)) <==> StepNamed(Enrich(lookups))
  {
    if lookups != [] {
      var init, last := lookups[..|lookups| - 1], lookups[|lookups| - 1];
      LookupsSound(ids, init);
      LookupSound(ids, last);
      SoundAppended(ids, LookupOutputs(init), Borrowings(last));
      assert forall i | 0 <= i < |init| :: init[i] == lookups[i];
      assert [last][0] == last;
    }
  }

  lemma CalculationsSound(ids: set<string>, published: string, calculations: seq<Calculation>)
    ensures OutputsSound(ids, StepOutputs(published, Calculate(calculations))) <==> StepNamed(Calculate(calculations))
  {
    var outputs := StepOutputs(published, Calculate(calculations));
    forall i | 0 <= i < |calculations|
      ensures OutputSound(ids, outputs[i]) <==> CalculationNamed(calculations[i])
    {
      match calculations[i] {
        case ByExpression(name, _, expression) => ExpressionSound(ids, published, name, CalculatedFields, expression);
        case ByRule(name, _, rule, version) =>
          assert outputs[i].origins[0].source == RuleName(rule, version);
      }
    }
  }

  lemma AggregationSound(ids: set<string>, published: string, grain: seq<string>, groups: seq<string>,
      aggregates: seq<Aggregate>)
    ensures OutputsSound(ids, StepOutputs(published, Aggregation(grain, groups, aggregates)))
            <==> StepNamed(Aggregation(grain, groups, aggregates))
  {
    var names := grain + groups;
    var carried, computed := CarriedOutputs(published, names), AggregateOutputs(published, aggregates);
    SoundAppended(ids, carried, computed);
    forall i | 0 <= i < |names|
      ensures OutputSound(ids, carried[i]) <==> names[i] != ""
    {
      assert carried[i].origins[0] == Origin(FieldKind, published, names[i]);
    }
    forall i | 0 <= i < |aggregates|
      ensures OutputSound(ids, computed[i]) <==> aggregates[i].name != "" && ReadsNamed(aggregates[i].expression)
    {
      ExpressionSound(ids, published, aggregates[i].name, DataAggregation, aggregates[i].expression);
    }
  }

  /** A step's records are sound exactly when the step names what it must. */
  lemma StepSound(ids: set<string>, published: string, step: Step)
    requires step.Enrich? ==> LookupsKnown(ids, step.lookups)
    ensures OutputsSound(ids, StepOutputs(published, step)) <==> StepNamed(step)
  {
    match step {
      case Transform(mapping) => MappingSound(ids, published, mapping);
      case Calculate(calculations) => CalculationsSound(ids, published, calculations);
      case Enrich(lookups) => LookupsSound(ids, lookups);
      case Aggregation(grain, groups, aggregates) => AggregationSound(ids, published, grain, groups, aggregates);
      case _ =>
    }
  }

  ghost predicate SourceKnown(ids: set<string>, source: DeclaredSource) {
    "" !in ids && (!source.fixture && source.source.contract != "" ==> PublishedName(source.source.contract) in ids)
  }

  lemma SourceSound(ids: set<string>, published: string, source: DeclaredSource, how: TransformLabel)
    requires SourceKnown(ids, source)
    ensures OutputsSound(ids, ConformOutputs(published, source, how)) <==> SourceNamed(source)
  {
    var outputs, mapping := ConformOutputs(published, source, how), source.source.mapping;
    assert source.source.contract == "" ==> PublishedName(source.source.contract) == "";
    forall i | 0 <= i < |mapping|
      ensures OutputSound(ids, outputs[i])
              <==> mapping[i].to != "" && mapping[i].from != "" && (source.fixture || source.source.contract != "")
    {
      assert |outputs[i].origins| == 1 && outputs[i].origins[0].source == mapping[i].from;
    }
    if mapping != [] && OutputsSound(ids, outputs) {
      assert OutputSound(ids, outputs[0]);
    }
  }
}

/**
  The whole graph of an estate, and exactly when its final coverage assertion fails
  (ergasterion/framework/graph.py:972-1157).
*/
module EstateGraph {
  import opened Basics
  import opened SortedNames
  import opened Ordering
  import opened Relations
  import opened FieldPropagation
  import opened FieldLineage
  import opened StoredNames
  import opened ProductGraph
  import Order = ProductOrder

  // ---------------------------------------------------------------- what resolved reads say

  lemma {:induction false} SourceIsRead(sources: seq<DeclaredSource>, i: nat) returns (j: nat)
    requires i < |sources| && !sources[i].fixture && sources[i].source.contract != ""
    ensures j < |SourceReads(sources)| && SourceReads(sources)[j].contract == sources[i].source.contract
  {
    if i < |sources| - 1 {
      j := SourceIsRead(sources[..|sources| - 1], i);
    } else {
      j := |SourceReads(sources[..|sources| - 1])|;
    }
  }

  lemma {:induction false} LookupIsRead(lookups: seq<Enrichment>, i: nat) returns (j: nat)
    requires i < |lookups| && lookups[i].contract != ""
    ensures j < |LookupReads(lookups)| && LookupReads(lookups)[j].contract == lookups[i].contract
  {
    if i < |lookups| - 1 {
      j := LookupIsRead(lookups[..|lookups| - 1], i);
    } else {
      j := |LookupReads(lookups[..|lookups| - 1])|;
    }
  }

  lemma {:induction false} StepIsRead(steps: seq<Step>, k: nat, i: nat) returns (j: nat)
    requires k < |steps| && steps[k].Enrich? && i < |steps[k].lookups| && steps[k].lookups[i].contract != ""
    ensures j < |StepReads(steps)| && StepReads(steps)[j].contract == steps[k].lookups[i].contract
  {
    var init := steps[..|steps| - 1];
    if k < |init| {
      j := StepIsRead(init, k, i);
    } else {
      j := LookupIsRead(steps[k].lookups, i);
      j := j + |StepReads(init)|;
    }
  }

  /** Once every read has its edge, every upstream a record names is a product. */
  lemma UpstreamsKnown(relations: map<string, seq<string>>, consumer: string, document: Document)
    requires ReadsResolve(relations, consumer, DeclaredReads(document)) && "" !in relations
    ensures forall i | 0 <= i < |document.sources| :: SourceKnown(relations.Keys, document.sources[i])
    ensures forall k | 0 <= k < |document.steps| && document.steps[k].Enrich? ::
              LookupsKnown(relations.Keys, document.steps[k].lookups)
  {
    var inputs := DeclaredReads(document);
    forall i | 0 <= i < |document.sources| && !document.sources[i].fixture && document.sources[i].source.contract != ""
      ensures PublishedName(document.sources[i].source.contract) in relations.Keys
    {
      var j := SourceIsRead(document.sources, i);
      assert EdgeOf(relations, consumer, inputs[j]).Ok?;
    }
    forall k, i | 0 <= k < |document.steps| && document.steps[k].Enrich? && 0 <= i < |document.steps[k].lookups|
                  && document.steps[k].lookups[i].contract != ""
      ensures PublishedName(document.steps[k].lookups[i].contract) in relations.Keys
    {
      var j := StepIsRead(document.steps, k, i);
      assert inputs[|SourceReads(document.sources)| + j] == StepReads(document.steps)[j];
      assert EdgeOf(relations, consumer, inputs[|SourceReads(document.sources)| + j]).Ok?;
    }
  }

  // ---------------------------------------------------------------- one document's records

  lemma OutputsRecordSoundly(ids: set<string>, published: string, at: Occurrence, outputs: seq<Output>)
    requires published in ids && AllFounded(outputs)
    ensures RecordsCovered(ids, RecordsOf(published, at, outputs)) <==> OutputsSound(ids, outputs)
  {
    var records := RecordsOf(published, at, outputs);
    if OutputsSound(ids, outputs) {
      forall r | r in records
        ensures RecordCovered(ids, r)
      {
        RecordsExactly(published, at, outputs, r);
        var i :| 0 <= i < |outputs| && r in OutputRecords(published, at, outputs[i]);
        var k :| 0 <= k < |outputs[i].origins| && r == RecordOf(published, at, outputs[i], outputs[i].origins[k]);
        assert OutputSound(ids, outputs[i]) && OriginSound(ids, outputs[i].origins[k]);
      }
    } else {
      var i :| 0 <= i < |outputs| && !OutputSound(ids, outputs[i]);
      assert outputs[i].origins != [];
      var k :| 0 <= k < |outputs[i].origins| && (outputs[i].field == "" || !OriginSound(ids, outputs[i].origins[k]));
      var r := RecordOf(published, at, outputs[i], outputs[i].origins[k]);
      assert OutputRecords(published, at, outputs[i])[k] == r;
      RecordsExactly(published, at, outputs, r);
      assert !RecordCovered(ids, r);
    }
  }

  lemma BlockRecordsSoundly(ids: set<string>, published: string, block: Block, outputs: seq<seq<Output>>)
    requires published in ids && forall i | 0 <= i < |outputs| :: AllFounded(outputs[i])
    ensures RecordsCovered(ids, BlockRecords(published, block, outputs, |outputs|))
            <==> forall i | 0 <= i < |outputs| :: OutputsSound(ids, outputs[i])
  {
    var records := BlockRecords(published, block, outputs, |outputs|);
    forall r: Record
      ensures r in records <==> exists i | 0 <= i < |outputs| ::
              r in RecordsOf(published, Occurrence(block, i), outputs[i])
    {
      BlockRecordsExactly(published, block, outputs, |outputs|, r);
    }
    forall i | 0 <= i < |outputs|
      ensures RecordsCovered(ids, RecordsOf(published, Occurrence(block, i), outputs[i]))
              <==> OutputsSound(ids, outputs[i])
    {
      OutputsRecordSoundly(ids, published, Occurrence(block, i), outputs[i]);
    }
  }

  /** A document's lineage is sound exactly when the document names what it must. */
  lemma LineageSound(ids: set<string>, published: string, document: Document)
    requires published in ids
    requires forall i | 0 <= i < |document.sources| :: SourceKnown(ids, document.sources[i])
    requires forall k | 0 <= k < |document.steps| && document.steps[k].Enrich? ::
             LookupsKnown(ids, document.steps[k].lookups)
    ensures RecordsCovered(ids, Lineage(published, document)) <==> DocumentNamed(document)
  {
    var steps, conforming := CompositionOutputs(published, document.steps),
      SourceOutputs(published, document.sources, SourceLabel(document));
    forall k | 0 <= k < |steps|
      ensures AllFounded(steps[k]) && (OutputsSound(ids, steps[k]) <==> StepNamed(document.steps[k]))
    {
      OutputsAreFounded(published, document.steps[k]);
      StepSound(ids, published, document.steps[k]);
    }
    forall k | 0 <= k < |conforming|
      ensures AllFounded(conforming[k]) && (OutputsSound(ids, conforming[k]) <==> SourceNamed(document.sources[k]))
    {
      SourceSound(ids, published, document.sources[k], SourceLabel(document));
    }
    BlockRecordsSoundly(ids, published, StepBlock, steps);
    BlockRecordsSoundly(ids, published, SourceBlock, conforming);
  }

  // ---------------------------------------------------------------- the estate

  function RelationsOf(entries: Entries, shape: Declaration -> seq<string>): map<string, seq<string>> {
    map name | name in entries :: shape(entries[name])
  }

  function ReadsOf(entries: Entries): map<string, seq<GraphRead>> {
    map consumer | consumer in entries :: DeclaredReads(entries[consumer].document)
  }

  ghost predicate KeysMatch(entries: Entries) {
    forall key | key in entries :: key == NameOf(entries[key])
  }

  predicate RelationsNamed(names: seq<string>) {
    names != [] && AllNamed(names)
  }

  /** The node of a product with a generation; nothing else has one. */
  function NodeOf(entries: Entries, relations: map<string, seq<string>>, name: string): Option<Node> {
    if name !in entries || name !in relations then None else
    var d := entries[name];
    var generation := GenerationOf(entries, d);
    if generation.None? then None else Some(Node(name, generation.value, relations[name], d.checkpoint, d.checkpoint))
  }

  /** The records of a product; a name that is no product has none. */
  function LineageOf(entries: Entries, name: string): seq<Record> {
    if name in entries then Lineage(name, entries[name].document) else []
  }

  function DeclaredOf(entries: Entries, name: string): seq<DeclaredField> {
    if name in entries then Declarations(name, entries[name].document) else []
  }

  function Lineages(entries: Entries, order: seq<string>): seq<seq<Record>> {
    seq(|order|, i requires 0 <= i < |order| => LineageOf(entries, order[i]))
  }

  function DeclaredFields(entries: Entries, order: seq<string>): seq<seq<DeclaredField>> {
    seq(|order|, i requires 0 <= i < |order| => DeclaredOf(entries, order[i]))
  }

  /** A duplicate-free list of the products. */
  ghost predicate Lists(entries: Entries, order: seq<string>) {
    && Distinct(order) && (forall i | 0 <= i < |order| :: order[i] in entries)
    && forall name | name in entries :: name in order
  }

  function NodesOf(entries: Entries, relations: map<string, seq<string>>, order: seq<string>): seq<Option<Node>> {
    seq(|order|, i requires 0 <= i < |order| => NodeOf(entries, relations, order[i]))
  }

  ghost predicate NodesUpTo(wanted: seq<Option<Node>>, n: nat, nodes: seq<Node>)
    requires n <= |wanted|
  {
    |nodes| == n && forall k | 0 <= k < n :: wanted[k] == Some(nodes[k])
  }

  ghost predicate NodesFollow(entries: Entries, relations: map<string, seq<string>>, order: seq<string>,
      nodes: seq<Node>) {
    NodesUpTo(NodesOf(entries, relations, order), |order|, nodes)
  }

  /** The validation records of a product; a name that is no product has none. */
  function ValidationsOf(entries: Entries, name: string): seq<Validation> {
    if name in entries then Validations(name, entries[name].document.steps, |entries[name].document.steps|) else []
  }

  function ValidationLists(entries: Entries, order: seq<string>): seq<seq<Validation>> {
    seq(|order|, i requires 0 <= i < |order| => ValidationsOf(entries, order[i]))
  }

  /** The stored names of a product; a name that is no product has none. */
  function StoredRelationsOf(entries: Entries, name: string): seq<StoredRelation> {
    if name in entries then StoredRelations(name, entries[name].stored) else []
  }

  function StoredFieldsOf(entries: Entries, name: string): seq<StoredField> {
    if name in entries then StoredFields(name, entries[name].stored) else []
  }

  function StoredRelationLists(entries: Entries, order: seq<string>): seq<seq<StoredRelation>> {
    seq(|order|, i requires 0 <= i < |order| => StoredRelationsOf(entries, order[i]))
  }

  function StoredFieldLists(entries: Entries, order: seq<string>): seq<seq<StoredField>> {
    seq(|order|, i requires 0 <= i < |order| => StoredFieldsOf(entries, order[i]))
  }

  /** The edges of the declared reads, listed as the edge resolution lists them. */
  ghost function ReadEdges(entries: Entries, relations: map<string, seq<string>>): seq<Edge> {
    SortByTuple(DeclaredEdges(relations, ReadsOf(entries)), EdgeKeyWithoutRelation)
  }

  lemma ReadEdgesExactly(entries: Entries, relations: map<string, seq<string>>, e: Edge)
    ensures e in ReadEdges(entries, relations) <==> IsEdge(relations, ReadsOf(entries), e)
  {
    SortByTupleKeeps(DeclaredEdges(relations, ReadsOf(entries)), EdgeKeyWithoutRelation);
    EdgesExactly(relations, ReadsOf(entries), e);
  }

  /** The edges are those of the declared sources and lookups, each with all its read says. */
  lemma EdgesAreDeclaredReads(entries: Entries, relations: map<string, seq<string>>, e: Edge)
    ensures IsEdge(relations, ReadsOf(entries), e)
            <==> e.target in entries
                 && exists read :: Declares(entries[e.target].document, read) && CarriesRead(relations, read, e)
  {
    if e.target in entries {
      var document := entries[e.target].document;
      forall read
        ensures read in DeclaredReads(document) <==> Declares(document, read)
        ensures EdgeOf(relations, e.target, read) == Ok(e) <==> CarriesRead(relations, read, e)
      {
        ReadsExactly(document, read);
        EdgeOfExactly(relations, e.target, read, e);
      }
      SomeReadCarries(relations, e.target, DeclaredReads(document), e);
    }
  }

  lemma SomeReadCarries(relations: map<string, seq<string>>, consumer: string, inputs: seq<GraphRead>, e: Edge)
    ensures IsEdgeOf(relations, consumer, inputs, e)
            <==> exists read :: read in inputs && EdgeOf(relations, consumer, read) == Ok(e)
  {
    if IsEdgeOf(relations, consumer, inputs, e) {
      var i :| 0 <= i < |inputs| && EdgeOf(relations, consumer, inputs[i]) == Ok(e);
      assert inputs[i] in inputs;
    }
  }

  /** The graph holds the records of the first `n` products, in order. */
  ghost predicate Gathers(entries: Entries, order: seq<string>, n: nat, g: Graph)
    requires n <= |order|
  {
    && g.lineage == Concatenated(Lineages(entries, order), n)
    && g.declared == Concatenated(DeclaredFields(entries, order), n)
    && g.validations == Concatenated(ValidationLists(entries, order), n)
    && g.storedRelations == Concatenated(StoredRelationLists(entries, order), n)
    && g.storedFields == Concatenated(StoredFieldLists(entries, order), n)
  }

  /** The graph built from the products in order, with its edges listed by their whole key. */
  ghost predicate Assembles(entries: Entries, relations: map<string, seq<string>>, registrations: seq<Auxiliary>,
                            order: seq<string>, g: Graph)
    requires relations.Keys == entries.Keys
  {
    && Lists(entries, order)
    && NodesFollow(entries, relations, order, g.nodes)
    && g.edges == SortByTuple(ReadEdges(entries, relations) + AuxiliaryEdges(registrations), EdgeKey)
    && Gathers(entries, order, |order|, g)
  }

  /** An edge of the finished graph is a declared read or a registration of a product. */
  lemma GraphEdgesExactly(entries: Entries, relations: map<string, seq<string>>, registrations: seq<Auxiliary>, e: Edge)
    ensures e in SortByTuple(ReadEdges(entries, relations) + AuxiliaryEdges(registrations), EdgeKey)
            <==> IsEdge(relations, ReadsOf(entries), e) || e in AuxiliaryEdges(registrations)
  {
    SortByTupleKeeps(ReadEdges(entries, relations) + AuxiliaryEdges(registrations), EdgeKey);
    ReadEdgesExactly(entries, relations, e);
  }

  /** The listing of edges depends on which edges there are and on nothing else. */
  lemma EdgeListingIsUnique(a: seq<Edge>, b: seq<Edge>)
    ensures SortByTuple(a, EdgeKey) == SortByTuple(b, EdgeKey) <==> multiset(a) == multiset(b)
  {
    SortByTupleKeeps(a, EdgeKey);
    SortByTupleKeeps(b, EdgeKey);
    if multiset(a) == multiset(b) {
      var listed := SortByTuple(a, EdgeKey);
      forall x, y | x in listed && y in listed && EdgeKey(x) == EdgeKey(y)
        ensures x == y
      {
        EdgeKeyIdentifies(x, y);
      }
      SortedByTupleSame(listed, SortByTuple(b, EdgeKey), EdgeKey);
    }
  }

  // ---------------------------------------------------------------- the coverage assertion

  ghost predicate AllRelationsNamed(relations: map<string, seq<string>>) {
    forall name | name in relations :: RelationsNamed(relations[name])
  }

  ghost predicate AllDocumentsNamed(entries: Entries) {
    forall name | name in entries :: DocumentNamed(entries[name].document)
  }

  lemma EveryProduct(entries: Entries, order: seq<string>, holds: string -> bool)
    requires Lists(entries, order)
    ensures (forall i | 0 <= i < |order| :: holds(order[i])) <==> forall name | name in entries :: holds(name)
  {
    if forall i | 0 <= i < |order| :: holds(order[i]) {
      forall name | name in entries
        ensures holds(name)
      {
        var i :| 0 <= i < |order| && order[i] == name;
      }
    }
  }

  lemma NodeFollows(entries: Entries, relations: map<string, seq<string>>, order: seq<string>, nodes: seq<Node>, i: nat)
    requires relations.Keys == entries.Keys && NodesFollow(entries, relations, order, nodes) && i < |order|
    ensures order[i] in relations && nodes[i].name == order[i]
    ensures NodeCovered(nodes[i]) <==> RelationsNamed(relations[order[i]])
  {}

  lemma NodeIdsAreProducts(entries: Entries, order: seq<string>, nodes: seq<Node>)
    requires Lists(entries, order) && |nodes| == |order|
    requires forall i | 0 <= i < |order| :: nodes[i].name == order[i]
    ensures Ids(nodes) == entries.Keys
  {
    var ids, products := Ids(nodes), entries.Keys;
    forall name | name in products
      ensures name in ids
    {
      var i :| 0 <= i < |order| && order[i] == name;
      assert nodes[i].name == name;
    }
    forall name | name in ids
      ensures name in products
    {
      var i :| 0 <= i < |nodes| && nodes[i].name == name;
      assert order[i] == name;
    }
  }

  lemma NodesAreProducts(entries: Entries, relations: map<string, seq<string>>, order: seq<string>, nodes: seq<Node>)
    requires relations.Keys == entries.Keys && Lists(entries, order) && |nodes| == |order|
    requires forall i | 0 <= i < |order| ::
               order[i] in relations && nodes[i].name == order[i]
                 && (NodeCovered(nodes[i]) <==> RelationsNamed(relations[order[i]]))
    ensures Ids(nodes) == entries.Keys
    ensures NodesCovered(nodes) <==> AllRelationsNamed(relations)
  {
    NodeIdsAreProducts(entries, order, nodes);
    EveryProduct(entries, order, name => name in relations && RelationsNamed(relations[name]));
    assert forall name | name in relations :: name in entries.Keys;
    assert forall name | name in entries :: name in relations.Keys;
  }

  /** A registration names its relation. */
  predicate RegistrationsNamed(registrations: seq<Auxiliary>) {
    forall i | 0 <= i < |registrations| :: registrations[i].product != ESTATE_SCOPE ==> registrations[i].relation != ""
  }

  ghost predicate Published(relations: map<string, seq<string>>, relation: string) {
    exists product :: product in relations && relation in relations[product]
  }

  /** A registration belongs to the estate or to a product, and claims no published relation. */
  ghost predicate AuxiliaryPlaced(relations: map<string, seq<string>>, registrations: seq<Auxiliary>) {
    forall i | 0 <= i < |registrations| ::
      && (registrations[i].product == ESTATE_SCOPE || registrations[i].product in relations)
      && !Published(relations, registrations[i].relation)
  }

  lemma ReadEdgeIsCovered(entries: Entries, relations: map<string, seq<string>>, e: Edge)
    requires relations.Keys == entries.Keys && AllRelationsNamed(relations) && IsEdge(relations, ReadsOf(entries), e)
    ensures e.source in entries.Keys && e.target in entries.Keys && e.relation != ""
  {
    EdgeEndsAreProducts(relations, ReadsOf(entries), e);
    assert e.source in relations.Keys && e.target in relations.Keys;
    assert RelationsNamed(relations[e.source]);
  }

  lemma EdgesAreCovered(entries: Entries, relations: map<string, seq<string>>, registrations: seq<Auxiliary>)
    requires relations.Keys == entries.Keys && AllRelationsNamed(relations) && AuxiliaryPlaced(relations, registrations)
    ensures EdgesCovered(entries.Keys,
            SortByTuple(ReadEdges(entries, relations) + AuxiliaryEdges(registrations), EdgeKey))
            <==> RegistrationsNamed(registrations)
  {
    var edges := SortByTuple(ReadEdges(entries, relations) + AuxiliaryEdges(registrations), EdgeKey);
    forall e: Edge
      ensures e in edges <==> IsEdge(relations, ReadsOf(entries), e) || e in AuxiliaryEdges(registrations)
    {
      GraphEdgesExactly(entries, relations, registrations, e);
    }
    if RegistrationsNamed(registrations) {
      forall e | e in edges
        ensures e.source in entries.Keys && e.target in entries.Keys && e.relation != ""
      {
        AuxiliaryEdgesExactly(registrations, e);
        if IsEdge(relations, ReadsOf(entries), e) {
          ReadEdgeIsCovered(entries, relations, e);
        } else {
          assert e.source in relations.Keys;
        }
      }
    } else {
      var i :| 0 <= i < |registrations| && registrations[i].product != ESTATE_SCOPE && registrations[i].relation == "";
      var a := registrations[i];
      var e := Edge(a.product, a.product, AuxiliaryEdge, a.purpose, a.relation);
      AuxiliaryEdgesExactly(registrations, e);
      assert e in edges;
    }
  }

  lemma EstateValidationsCovered(entries: Entries, order: seq<string>)
    requires Lists(entries, order)
    ensures forall v | v in Concatenated(ValidationLists(entries, order), |order|) :: v.product in entries.Keys
  {
    forall v | v in Concatenated(ValidationLists(entries, order), |order|)
      ensures v.product in entries.Keys
    {
      InConcatenated(ValidationLists(entries, order), |order|, v);
      var i :| 0 <= i < |order| && v in ValidationLists(entries, order)[i];
      ValidationsOfProduct(order[i], entries[order[i]].document.steps, |entries[order[i]].document.steps|);
    }
  }

  lemma EmptyIsNoProduct(entries: Entries)
    requires KeysMatch(entries)
    ensures "" !in entries
  {
    assert forall key | key in entries :: |NameOf(entries[key])| > 0;
  }

  lemma ProductLineageSound(entries: Entries, relations: map<string, seq<string>>, name: string)
    requires relations.Keys == entries.Keys && KeysMatch(entries) && name in entries
    requires AllResolve(relations, ReadsOf(entries))
    ensures RecordsCovered(entries.Keys, Lineage(name, entries[name].document))
            <==> DocumentNamed(entries[name].document)
  {
    EmptyIsNoProduct(entries);
    assert "" !in entries.Keys;
    assert name in ReadsOf(entries);
    UpstreamsKnown(relations, name, entries[name].document);
    LineageSound(entries.Keys, name, entries[name].document);
  }

  lemma EstateLineageSound(entries: Entries, relations: map<string, seq<string>>, order: seq<string>)
    requires relations.Keys == entries.Keys && Lists(entries, order) && KeysMatch(entries)
    requires AllResolve(relations, ReadsOf(entries))
    ensures RecordsCovered(entries.Keys, Concatenated(Lineages(entries, order), |order|))
            <==> AllDocumentsNamed(entries)
  {
    var parts := Lineages(entries, order);
    forall i | 0 <= i < |order|
      ensures RecordsCovered(entries.Keys, parts[i]) <==> DocumentNamed(entries[order[i]].document)
    {
      ProductLineageSound(entries, relations, order[i]);
    }
    PartsSound(entries.Keys, parts);
    EveryProduct(entries, order, name => name in entries && DocumentNamed(entries[name].document));
  }

  lemma PartsSound(ids: set<string>, parts: seq<seq<Record>>)
    ensures RecordsCovered(ids, Concatenated(parts, |parts|))
            <==> forall i | 0 <= i < |parts| :: RecordsCovered(ids, parts[i])
  {
    forall r: Record
      ensures r in Concatenated(parts, |parts|) <==> exists i | 0 <= i < |parts| :: r in parts[i]
    {
      InConcatenated(parts, |parts|, r);
    }
  }

  /** Every declared field of the graph has a record that explains it. */
  lemma DeclaredIsExplained(entries: Entries, order: seq<string>, d: DeclaredField)
    requires Lists(entries, order) && d in Concatenated(DeclaredFields(entries, order), |order|)
    ensures d.product in entries && Explained(Concatenated(Lineages(entries, order), |order|), d)
  {
    var declared, parts := DeclaredFields(entries, order), Lineages(entries, order);
    InConcatenated(declared, |order|, d);
    var i :| 0 <= i < |order| && d in declared[i];
    var document := entries[order[i]].document;
    DeclaredPlace(order[i], document, d);
    DeclaredExactlyWhenRecorded(order[i], document, d.field, d.occurrence.index);
    var r: Record :| r in parts[i] && r.product == order[i] && r.target == d.field;
    InConcatenated(parts, |order|, r);
  }

  lemma EstateDeclaredCovered(entries: Entries, order: seq<string>)
    requires Lists(entries, order)
    ensures DeclaredCovered(entries.Keys, Concatenated(Lineages(entries, order), |order|),
                            Concatenated(DeclaredFields(entries, order), |order|))
  {
    forall d | d in Concatenated(DeclaredFields(entries, order), |order|)
      ensures d.product in entries.Keys && Explained(Concatenated(Lineages(entries, order), |order|), d)
    {
      DeclaredIsExplained(entries, order, d);
    }
  }

  lemma DeclaredPlace(published: string, document: Document, d: DeclaredField)
    requires d in Declarations(published, document)
    ensures d.product == published && d.occurrence.block == StepBlock
  {
    var outputs := CompositionOutputs(published, document.steps);
    BlockDeclarationsExactly(published, StepBlock, outputs, |outputs|, d);
  }

  /**
    Every shape publishes a relation, none unnamed, every declaration names what it records,
    and every registration of a product names its relation.
  */
  ghost predicate EstateNamed(entries: Entries, relations: map<string, seq<string>>, registrations: seq<Auxiliary>) {
    AllRelationsNamed(relations) && AllDocumentsNamed(entries) && RegistrationsNamed(registrations)
  }

  /**
    The coverage of an assembled graph fails exactly when a shape publishes no relation or an
    unnamed one, a declaration leaves something its lineage records unnamed, or a registration
    names no relation.
  */
  lemma CoverageExactly(entries: Entries, relations: map<string, seq<string>>, registrations: seq<Auxiliary>,
                        order: seq<string>, g: Graph)
    requires relations.Keys == entries.Keys && KeysMatch(entries) && AllResolve(relations, ReadsOf(entries))
    requires AuxiliaryPlaced(relations, registrations) && Assembles(entries, relations, registrations, order, g)
    ensures Covered(g) <==> EstateNamed(entries, relations, registrations)
  {
    forall i | 0 <= i < |order|
      ensures order[i] in relations && g.nodes[i].name == order[i]
      ensures NodeCovered(g.nodes[i]) <==> RelationsNamed(relations[order[i]])
    {
      NodeFollows(entries, relations, order, g.nodes, i);
    }
    NodesAreProducts(entries, relations, order, g.nodes);
    EstateLineageSound(entries, relations, order);
    EstateDeclaredCovered(entries, order);
    EstateValidationsCovered(entries, order);
    if AllRelationsNamed(relations) { EdgesAreCovered(entries, relations, registrations); }
  }

  // ---------------------------------------------------------------- stored names

  lemma StoredAt(entries: Entries, order: seq<string>, n: nat, r: StoredRelation)
    requires n <= |order| && r in Concatenated(StoredRelationLists(entries, order), n)
    ensures r.product in order[..n] && r.product in entries && r in StoredRelationsOf(entries, r.product)
  {
    InConcatenated(StoredRelationLists(entries, order), n, r);
    var i :| 0 <= i < n && r in StoredRelationLists(entries, order)[i];
    StoredRelationsExactly(order[i], entries[order[i]].stored, r);
    assert order[..n][i] == order[i];
  }

  lemma {:induction false} EstateStoredOnce(entries: Entries, order: seq<string>, n: nat)
    requires Distinct(order) && n <= |order|
    ensures OneRecordEach(Concatenated(StoredRelationLists(entries, order), n))
  {
    if n > 0 {
      EstateStoredOnce(entries, order, n - 1);
      var before, last := Concatenated(StoredRelationLists(entries, order), n - 1),
        StoredRelationLists(entries, order)[n - 1];
      if order[n - 1] in entries { StoredOnce(order[n - 1], entries[order[n - 1]].stored); }
      forall i | 0 <= i < |before|
        ensures before[i].product != order[n - 1]
      {
        StoredAt(entries, order, n - 1, before[i]);
      }
      forall j | 0 <= j < |last|
        ensures last[j].product == order[n - 1]
      {
        StoredRelationsExactly(order[n - 1], entries[order[n - 1]].stored, last[j]);
      }
      OneRecordEachJoined(before, last, order[n - 1]);
    }
  }

  lemma OneRecordEachJoined(before: seq<StoredRelation>, last: seq<StoredRelation>, product: string)
    requires OneRecordEach(before) && OneRecordEach(last)
    requires forall i | 0 <= i < |before| :: before[i].product != product
    requires forall j | 0 <= j < |last| :: last[j].product == product
    ensures OneRecordEach(before + last)
  {}

  /** The graph records a stored name once, and only for a relation its product publishes. */
  lemma StoredNamesAreSound(entries: Entries, relations: map<string, seq<string>>, order: seq<string>, g: Graph)
    requires Lists(entries, order) && Gathers(entries, order, |order|, g) && AllStoredKnown(entries, relations)
    ensures OneRecordEach(g.storedRelations)
    ensures forall r | r in g.storedRelations :: r.product in relations && r.relation in relations[r.product]
    ensures forall f | f in g.storedFields :: f.product in relations && f.relation in relations[f.product]
  {
    EstateStoredOnce(entries, order, |order|);
    forall r | r in g.storedRelations
      ensures r.product in relations && r.relation in relations[r.product]
    {
      StoredAt(entries, order, |order|, r);
      StoredArePublished(r.product, relations[r.product], entries[r.product].stored);
    }
    forall f | f in g.storedFields
      ensures f.product in relations && f.relation in relations[f.product]
    {
      InConcatenated(StoredFieldLists(entries, order), |order|, f);
      var i :| 0 <= i < |order| && f in StoredFieldLists(entries, order)[i];
      StoredArePublished(order[i], relations[order[i]], entries[order[i]].stored);
    }
  }

  // ---------------------------------------------------------------- building the graph

  ghost predicate Resolved(inputs: map<string, seq<GraphRead>>, relations: map<string, seq<string>>, consumer: string,
      i: nat) {
    consumer in inputs && i < |inputs[consumer]| && EdgeOf(relations, consumer, inputs[consumer][i]).Ok?
  }

  ghost function Dependency(inputs: map<string, seq<GraphRead>>, relations: map<string, seq<string>>, consumer: string,
      i: nat): Order.Edge
    requires Resolved(inputs, relations, consumer, i)
  {
    Order.Edge(EdgeOf(relations, consumer, inputs[consumer][i]).value.source, consumer)
  }

  /** Who consumes whom, as the declared reads resolve. */
  ghost predicate DependsOn(inputs: map<string, seq<GraphRead>>, relations: map<string, seq<string>>, d: Order.Edge) {
    exists i: nat :: Resolved(inputs, relations, d.target, i) && Dependency(inputs, relations, d.target, i) == d
  }

  ghost predicate AreDependencies(inputs: map<string, seq<GraphRead>>, relations: map<string, seq<string>>,
      edges: set<Order.Edge>) {
    forall d :: d in edges <==> DependsOn(inputs, relations, d)
  }

  ghost predicate AllClassified(entries: Entries) {
    forall name | name in entries :: Classified(entries[name])
  }

  function Ends(edges: seq<Edge>): seq<Order.Edge> {
    seq(|edges|, i requires 0 <= i < |edges| => Order.Edge(edges[i].source, edges[i].target))
  }

  lemma EndsAreDependencies(entries: Entries, relations: map<string, seq<string>>, edges: seq<Edge>)
    requires relations.Keys == entries.Keys
    requires forall e :: e in edges <==> IsEdge(relations, ReadsOf(entries), e)
    ensures AreDependencies(ReadsOf(entries), relations, Order.EdgeSet(Ends(edges)))
    ensures Order.WithinProducts(entries.Keys, Order.EdgeSet(Ends(edges)))
  {
    var inputs, ends := ReadsOf(entries), Ends(edges);
    forall d | d in Order.EdgeSet(ends)
      ensures DependsOn(inputs, relations, d) && d.source in entries.Keys && d.target in entries.Keys
    {
      var k :| 0 <= k < |ends| && ends[k] == d;
      assert edges[k] in edges;
      EdgeIsDependency(inputs, relations, edges[k]);
    }
    forall d | DependsOn(inputs, relations, d)
      ensures d in Order.EdgeSet(ends)
    {
      var e := DependencyIsEdge(inputs, relations, d);
      var k :| 0 <= k < |edges| && edges[k] == e;
      assert ends[k] == d;
    }
  }

  lemma EdgeIsDependency(inputs: map<string, seq<GraphRead>>, relations: map<string, seq<string>>, e: Edge)
    requires relations.Keys == inputs.Keys && IsEdge(relations, inputs, e)
    ensures DependsOn(inputs, relations, Order.Edge(e.source, e.target))
    ensures e.source in inputs.Keys && e.target in inputs.Keys
  {
    EdgeEndsAreProducts(relations, inputs, e);
    var i :| 0 <= i < |inputs[e.target]| && EdgeOf(relations, e.target, inputs[e.target][i]) == Ok(e);
    assert Resolved(inputs, relations, e.target, i);
    assert Dependency(inputs, relations, e.target, i) == Order.Edge(e.source, e.target);
    assert e.source in relations.Keys && e.target in relations.Keys;
  }

  lemma DependencyIsEdge(inputs: map<string, seq<GraphRead>>, relations: map<string, seq<string>>, d: Order.Edge)
      returns (e: Edge)
    requires DependsOn(inputs, relations, d)
    ensures IsEdge(relations, inputs, e) && Order.Edge(e.source, e.target) == d
  {
    var i: nat :| Resolved(inputs, relations, d.target, i) && Dependency(inputs, relations, d.target, i) == d;
    e := EdgeOf(relations, d.target, inputs[d.target][i]).value;
  }

  ghost predicate HasCycle(inputs: map<string, seq<GraphRead>>, relations: map<string, seq<string>>) {
    exists edges, path :: AreDependencies(inputs, relations, edges) && Order.IsCycle(edges, path)
  }

  /** The order is the one of the rounds over the dependencies, and of nothing else. */
  ghost predicate InRounds(entries: Entries, relations: map<string, seq<string>>, order: seq<string>) {
    exists edges ::
      AreDependencies(ReadsOf(entries), relations, edges) && Order.Rounds(edges, entries.Keys, {}) == Ok(order)
  }

  /** Why an estate's graph is refused before its coverage is asserted, or the ordered products. */
  method ResolveOrder(entries: Entries, relations: map<string, seq<string>>)
    returns (r: Result<(seq<Edge>, seq<string>), GraphError>)
    requires relations.Keys == entries.Keys
    ensures r.Ok? <==> AllResolve(relations, ReadsOf(entries)) && !HasCycle(ReadsOf(entries), relations)
    ensures r.Ok? ==> r.value.0 == ReadEdges(entries, relations)
    ensures r.Ok? ==> Lists(entries, r.value.1) && InRounds(entries, relations, r.value.1)
    ensures r.Ok? ==> forall e | e in r.value.0 :: Order.ComesBefore(r.value.1, e.source, e.target)
    ensures r.Err? && !AllResolve(relations, ReadsOf(entries))
            ==> FirstUnresolved(relations, ReadsOf(entries), SortedList(entries.Keys), r.error)
    ensures r.Err? && r.error.Cycle?
            <==> AllResolve(relations, ReadsOf(entries)) && HasCycle(ReadsOf(entries), relations)
  {
    ghost var inputs := ReadsOf(entries);
    var edges := EdgesFor(relations, ReadsOf(entries));
    assert inputs.Keys == entries.Keys;
    if edges.Err? { return Err(edges.error); }
    forall e: Edge
      ensures e in edges.value <==> IsEdge(relations, inputs, e)
    {
      ReadEdgesExactly(entries, relations, e);
    }
    EndsAreDependencies(entries, relations, edges.value);
    var ends := Ends(edges.value);
    ghost var all := Order.EdgeSet(ends);
    var order := Order.TopologicalOrder(entries.Keys, ends);
    Order.RefusalIsCycles(entries.Keys, all);
    CycleOfDependencies(inputs, relations, all);
    if order.Err? { return Err(Cycle(order.error)); }
    Order.OrderRespectsEdges(entries.Keys, all);
    OrderLists(entries, order.value);
    EndsInOrder(edges.value, order.value);
    return Ok((edges.value, order.value));
  }

  lemma CycleOfDependencies(inputs: map<string, seq<GraphRead>>, relations: map<string, seq<string>>,
      all: set<Order.Edge>)
    requires AreDependencies(inputs, relations, all)
    ensures HasCycle(inputs, relations) <==> exists path :: Order.IsCycle(all, path)
  {
    if HasCycle(inputs, relations) {
      var other, path :| AreDependencies(inputs, relations, other) && Order.IsCycle(other, path);
      assert other == all;
    }
  }

  lemma EndsInOrder(edges: seq<Edge>, order: seq<string>)
    requires forall d | d in Order.EdgeSet(Ends(edges)) :: Order.ComesBefore(order, d.source, d.target)
    ensures forall e | e in edges :: Order.ComesBefore(order, e.source, e.target)
  {
    forall e | e in edges
      ensures Order.ComesBefore(order, e.source, e.target)
    {
      var k :| 0 <= k < |edges| && edges[k] == e;
      assert Ends(edges)[k] == Order.Edge(e.source, e.target);
      assert Ends(edges)[k] in Order.EdgeSet(Ends(edges));
    }
  }

  lemma OrderLists(entries: Entries, order: seq<string>)
    requires Distinct(order) && forall name :: name in order <==> name in entries.Keys
    ensures Lists(entries, order)
  {
    forall i | 0 <= i < |order|
      ensures order[i] in entries
    {
      assert order[i] in order;
    }
  }

  // ---------------------------------------------------------------- the records of the products

  ghost predicate AllReconcile(entries: Entries) {
    forall name | name in entries :: Reconciles(entries[name].document)
  }

  ghost predicate AllStoredKnown(entries: Entries, relations: map<string, seq<string>>) {
    forall name | name in entries :: name in relations && StoredKnown(name, relations[name], entries[name].stored)
  }

  /** The product has a generation, reconciles to what it reads, and renames what it publishes. */
  predicate Recordable(entries: Entries, relations: map<string, seq<string>>, name: string) {
    && name in entries && name in relations && Classified(entries[name]) && Reconciles(entries[name].document)
    && StoredKnown(name, relations[name], entries[name].stored)
  }

  ghost predicate AllRecordable(entries: Entries, relations: map<string, seq<string>>, order: seq<string>, n: nat)
    requires n <= |order|
  {
    forall i | 0 <= i < n :: Recordable(entries, relations, order[i])
  }

  lemma OneMoreRecordable(entries: Entries, relations: map<string, seq<string>>, order: seq<string>, n: nat)
    requires n < |order| && AllRecordable(entries, relations, order, n) && Recordable(entries, relations, order[n])
    ensures AllRecordable(entries, relations, order, n + 1)
  {}

  lemma EveryProductRecordable(entries: Entries, relations: map<string, seq<string>>, order: seq<string>)
    requires relations.Keys == entries.Keys && Lists(entries, order)
    ensures AllRecordable(entries, relations, order, |order|)
            <==> AllClassified(entries) && AllReconcile(entries) && AllStoredKnown(entries, relations)
  {
    EveryProduct(entries, order, name => Recordable(entries, relations, name));
    forall name | name in entries
      ensures name in relations
    {
      assert name in entries.Keys;
    }
    assert (forall name | name in entries :: Recordable(entries, relations, name)) ==>
        AllClassified(entries) && AllReconcile(entries) && AllStoredKnown(entries, relations);
  }

  /** Why a product's records are refused: its generation first, then its rules, then its names. */
  ghost predicate Refuses(entries: Entries, relations: map<string, seq<string>>, name: string, e: GraphError) {
    && name in entries && name in relations
    && if !Classified(entries[name]) then e == Unclassified(name)
       else if !Reconciles(entries[name].document)
       then e.Unreconciled? && e.product == name && ReconcilesUnread(entries[name].document, e.contract)
       else e.UnknownStored? && e.product == name
            && FirstUnknown(name, relations[name], entries[name].stored, e.relation)
  }

  /** The records one product adds to the graph. */
  datatype Part = Part(
    node: Node, lineage: seq<Record>, declared: seq<DeclaredField>, validations: seq<Validation>,
    storedRelations: seq<StoredRelation>, storedFields: seq<StoredField>)

  ghost predicate IsPart(entries: Entries, relations: map<string, seq<string>>, name: string, part: Part) {
    && name in entries && name in relations && NodeOf(entries, relations, name) == Some(part.node)
    && part.lineage == LineageOf(entries, name) && part.declared == DeclaredOf(entries, name)
    && part.validations == ValidationsOf(entries, name)
    && part.storedRelations == StoredRelationsOf(entries, name) && part.storedFields == StoredFieldsOf(entries, name)
  }

  /** The records of one product, or why there are none. */
  method RecordProduct(entries: Entries, relations: map<string, seq<string>>, name: string)
    returns (r: Result<Part, GraphError>)
    requires name in entries && name in relations
    ensures r.Ok? <==> Recordable(entries, relations, name)
    ensures r.Ok? ==> IsPart(entries, relations, name, r.value)
    ensures r.Err? ==> Refuses(entries, relations, name, r.error)
  {
    var node := NodeOf(entries, relations, name);
    if node.None? { return Err(Unclassified(name)); }
    var lineage, declared := CompositionFieldsFor(name, entries[name].document);
    var validations := ValidationsFor(name, entries[name].document);
    if validations.Err? { return Err(validations.error); }
    var stored := StoredNamesFor(name, entries[name].stored, relations[name]);
    if stored.Err? { return Err(UnknownStored(name, stored.error)); }
    return Ok(Part(node.value, lineage, declared, validations.value, stored.value.0, stored.value.1));
  }

  function Extended(g: Graph, part: Part): Graph {
    g.(nodes := g.nodes + [part.node], lineage := g.lineage + part.lineage, declared := g.declared + part.declared,
       validations := g.validations + part.validations, storedRelations := g.storedRelations + part.storedRelations,
       storedFields := g.storedFields + part.storedFields)
  }

  lemma NodesOneMore(wanted: seq<Option<Node>>, n: nat, nodes: seq<Node>, node: Node)
    requires n < |wanted| && NodesUpTo(wanted, n, nodes) && wanted[n] == Some(node)
    ensures NodesUpTo(wanted, n + 1, nodes + [node])
  {}

  /** The graph holds what the first `n` products record, and none of them is refused. */
  ghost predicate Recorded(entries: Entries, relations: map<string, seq<string>>, order: seq<string>, n: nat, g: Graph)
    requires n <= |order|
  {
    && NodesUpTo(NodesOf(entries, relations, order), n, g.nodes)
    && AllRecordable(entries, relations, order, n)
    && Gathers(entries, order, n, g)
  }

  lemma GathersOneMore(entries: Entries, relations: map<string, seq<string>>, order: seq<string>, n: nat, g: Graph,
      part: Part)
    requires n < |order| && Gathers(entries, order, n, g) && IsPart(entries, relations, order[n], part)
    ensures Gathers(entries, order, n + 1, Extended(g, part))
  {
    assert Lineages(entries, order)[n] == part.lineage && DeclaredFields(entries, order)[n] == part.declared;
    assert ValidationLists(entries, order)[n] == part.validations;
    assert StoredRelationLists(entries, order)[n] == part.storedRelations;
    assert StoredFieldLists(entries, order)[n] == part.storedFields;
  }

  lemma RecordsOneMore(entries: Entries, relations: map<string, seq<string>>, order: seq<string>, n: nat, g: Graph,
      part: Part)
    requires n < |order| && Recorded(entries, relations, order, n, g)
    requires Recordable(entries, relations, order[n]) && IsPart(entries, relations, order[n], part)
    ensures Recorded(entries, relations, order, n + 1, Extended(g, part))
  {
    OneMoreRecordable(entries, relations, order, n);
    NodesOneMore(NodesOf(entries, relations, order), n, g.nodes, part.node);
    GathersOneMore(entries, relations, order, n, g, part);
  }

  /** The first product, in order, whose records are refused. */
  ghost predicate FirstRefused(entries: Entries, relations: map<string, seq<string>>, order: seq<string>,
                               e: GraphError) {
    exists i | 0 <= i < |order| ::
      Refuses(entries, relations, order[i], e) && AllRecordable(entries, relations, order, i)
  }

  /** Gather the records of the products in order, or refuse at the first that has none. */
  method RecordProducts(entries: Entries, relations: map<string, seq<string>>, order: seq<string>)
    returns (r: Result<Graph, GraphError>)
    requires relations.Keys == entries.Keys && Lists(entries, order)
    ensures r.Ok? <==> AllRecordable(entries, relations, order, |order|)
    ensures r.Ok? ==> NodesFollow(entries, relations, order, r.value.nodes)
    ensures r.Ok? ==> Gathers(entries, order, |order|, r.value)
    ensures r.Err? ==> FirstRefused(entries, relations, order, r.error)
  {
    var g := Graph([], [], [], [], [], [], []);
    for i := 0 to |order|
      invariant Recorded(entries, relations, order, i, g)
    {
      assert order[i] in entries.Keys;
      var part := RecordProduct(entries, relations, order[i]);
      if part.Err? { return Err(part.error); }
      RecordsOneMore(entries, relations, order, i, g, part.value);
      g := Extended(g, part.value);
    }
    return Ok(g);
  }

  /** The first registration, in order, that cannot be placed. */
  ghost predicate FirstMisplaced(relations: map<string, seq<string>>, registrations: seq<Auxiliary>, e: GraphError) {
    exists i | 0 <= i < |registrations| ::
      && e == AuxiliaryMisplaced(registrations[i].product, registrations[i].relation)
      && AuxiliaryPlaced(relations, registrations[..i]) && !AuxiliaryPlaced(relations, registrations[..i + 1])
  }

  /** Place every registration, in order, or refuse the first that cannot be placed. */
  method PlaceAuxiliary(relations: map<string, seq<string>>, registrations: seq<Auxiliary>, edges: seq<Edge>)
    returns (r: Result<seq<Edge>, GraphError>)
    ensures r.Ok? <==> AuxiliaryPlaced(relations, registrations)
    ensures r.Ok? ==> r.value == edges + AuxiliaryEdges(registrations)
    ensures r.Err? ==> FirstMisplaced(relations, registrations, r.error)
  {
    var published := set product, i | product in relations && 0 <= i < |relations[product]| :: relations[product][i];
    assert forall relation :: relation in published <==> Published(relations, relation);
    var placed := edges;
    for i := 0 to |registrations|
      invariant AuxiliaryPlaced(relations, registrations[..i])
      invariant placed == edges + AuxiliaryEdges(registrations[..i])
    {
      var entry := registrations[i];
      assert registrations[..i + 1][..i] == registrations[..i] && registrations[..i + 1][i] == entry;
      if entry.product != ESTATE_SCOPE && entry.product !in relations {
        return Err(AuxiliaryMisplaced(entry.product, entry.relation));
      }
      if entry.relation in published { return Err(AuxiliaryMisplaced(entry.product, entry.relation)); }
      if entry.product != ESTATE_SCOPE {
        placed := placed + [Edge(entry.product, entry.product, AuxiliaryEdge, entry.purpose, entry.relation)];
      }
    }
    assert registrations[..|registrations|] == registrations;
    return Ok(placed);
  }

  /** Everything the build refuses before it asserts coverage. */
  ghost predicate Buildable(entries: Entries, relations: map<string, seq<string>>, registrations: seq<Auxiliary>) {
    && KeysMatch(entries) && AllResolve(relations, ReadsOf(entries)) && !HasCycle(ReadsOf(entries), relations)
    && Assemblable(entries, relations, registrations)
  }

  ghost predicate Assemblable(entries: Entries, relations: map<string, seq<string>>, registrations: seq<Auxiliary>) {
    && AllClassified(entries) && AllReconcile(entries) && AllStoredKnown(entries, relations)
    && AuxiliaryPlaced(relations, registrations)
  }

  /** Why a graph is refused once its products are ordered: the first product, then the first registration. */
  ghost predicate RefusedInOrder(entries: Entries, relations: map<string, seq<string>>, registrations: seq<Auxiliary>,
                                 order: seq<string>, e: GraphError) {
    || FirstRefused(entries, relations, order, e)
    || (AllRecordable(entries, relations, order, |order|) && FirstMisplaced(relations, registrations, e))
  }

  /** The nodes, records and edges of the ordered products, or the first refusal. */
  method AssembleGraph(entries: Entries, relations: map<string, seq<string>>, registrations: seq<Auxiliary>,
                       edges: seq<Edge>, order: seq<string>) returns (r: Result<Graph, GraphError>)
    requires relations.Keys == entries.Keys && Lists(entries, order) && edges == ReadEdges(entries, relations)
    ensures r.Ok? <==> Assemblable(entries, relations, registrations)
    ensures r.Ok? ==> Assembles(entries, relations, registrations, order, r.value)
    ensures r.Err? ==> RefusedInOrder(entries, relations, registrations, order, r.error)
  {
    EveryProductRecordable(entries, relations, order);
    var recorded := RecordProducts(entries, relations, order);
    if recorded.Err? { return recorded; }
    var placed := PlaceAuxiliary(relations, registrations, edges);
    if placed.Err? { return Err(placed.error); }
    return Ok(recorded.value.(edges := SortByTuple(placed.value, EdgeKey)));
  }

  /** The graph assembled in the one order the rounds over its reads give. */
  ghost predicate Built(entries: Entries, relations: map<string, seq<string>>, registrations: seq<Auxiliary>, g: Graph)
    requires relations.Keys == entries.Keys
  {
    exists order :: Assembles(entries, relations, registrations, order, g) && InRounds(entries, relations, order)
  }

  ghost predicate RefusedInRounds(entries: Entries, relations: map<string, seq<string>>,
                                  registrations: seq<Auxiliary>, e: GraphError) {
    exists order :: InRounds(entries, relations, order)
                    && RefusedInOrder(entries, relations, registrations, order, e)
  }

  /** Which refusal is reported: the first failing of keys, reads, order, records, coverage. */
  ghost predicate RefusedFor(entries: Entries, relations: map<string, seq<string>>, registrations: seq<Auxiliary>,
                             e: GraphError) {
    if !KeysMatch(entries) then e.KeyMismatch? && e.key in entries && e.key != NameOf(entries[e.key])
    else if !AllResolve(relations, ReadsOf(entries))
    then FirstUnresolved(relations, ReadsOf(entries), SortedList(entries.Keys), e)
    else if HasCycle(ReadsOf(entries), relations) then e.Cycle?
    else if !Assemblable(entries, relations, registrations)
    then RefusedInRounds(entries, relations, registrations, e)
    else !EstateNamed(entries, relations, registrations) && e == Uncovered
  }

  lemma UncoveredIsLast(entries: Entries, relations: map<string, seq<string>>, registrations: seq<Auxiliary>)
    requires RefusedFor(entries, relations, registrations, Uncovered)
    ensures Buildable(entries, relations, registrations) && !EstateNamed(entries, relations, registrations)
  {}

  /** The graph once the keys match. */
  method BuildMatching(entries: Entries, relations: map<string, seq<string>>, registrations: seq<Auxiliary>)
    returns (r: Result<Graph, GraphError>)
    requires relations.Keys == entries.Keys && KeysMatch(entries)
    ensures r.Ok? <==> Buildable(entries, relations, registrations) && EstateNamed(entries, relations, registrations)
    ensures r.Ok? ==> Covered(r.value) && Built(entries, relations, registrations, r.value)
    ensures r.Err? ==> RefusedFor(entries, relations, registrations, r.error)
  {
    var resolution := ResolveOrder(entries, relations);
    if resolution.Err? { return Err(resolution.error); }
    var (edges, order) := resolution.value;
    r := AssembleGraph(entries, relations, registrations, edges, order);
    if r.Err? { return r; }
    CoverageExactly(entries, relations, registrations, order, r.value);
    var covered := AssertCoverage(r.value);
    if !covered { return Err(Uncovered); }
  }

  /**
    An estate's product graph. Once every key, read, order, generation, reconciliation, stored
    name and registration resolves, the final coverage assertion refuses it exactly when the
    shapes, the declarations or the registrations leave a name out.
  */
  method BuildProductGraph(entries: Entries, shape: Declaration -> seq<string>, registrations: seq<Auxiliary>)
    returns (r: Result<Graph, GraphError>)
    ensures var relations := RelationsOf(entries, shape);
            && (r.Ok? <==>
                  Buildable(entries, relations, registrations) && EstateNamed(entries, relations, registrations))
            && (r == Err(Uncovered) <==>
                  Buildable(entries, relations, registrations) && !EstateNamed(entries, relations, registrations))
            && (r.Ok? ==> Covered(r.value) && Built(entries, relations, registrations, r.value))
            && (r.Err? ==> RefusedFor(entries, relations, registrations, r.error))
  {
    var relations := RelationsOf(entries, shape);
    var mismatched := set key | key in entries.Keys && key != NameOf(entries[key]);
    if mismatched != {} {
      var key :| key in mismatched;
      return Err(KeyMismatch(key));
    }
    assert forall key | key in entries :: key !in mismatched;
    r := BuildMatching(entries, relations, registrations);
    if r == Err(Uncovered) { UncoveredIsLast(entries, relations, registrations); }
  }
}

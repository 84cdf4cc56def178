/**
  What a built product graph holds, record by record, said of the declarations it is built from
  (ergasterion/framework/graph.py:564-721, 929-1075).
*/
module GraphMeaning {
  import opened Basics
  import opened Ordering
  import opened FieldPropagation
  import opened FieldLineage
  import opened LineageMeaning
  import opened StoredNames
  import opened ProductGraph
  import opened EstateGraph

  // ---------------------------------------------------------------- validations

  /** A rule on a field, or a metric reconciled with contracts. */
  predicate RuleSays(rule: ValidationRule, v: Validation) {
    match rule
    case OnField(field, _, _) => v.subject == field && v.references == None
    case Reconcile(metric, contracts) => v.subject == metric && v.references == Some(contracts)
  }

  /** The record is of a rule of the product's step, under the step's stage. */
  ghost predicate ValidationStated(published: string, steps: seq<Step>, v: Validation) {
    && v.product == published && v.step < |steps| && steps[v.step].Validate? && v.stage == steps[v.step].stage
    && exists i | 0 <= i < |steps[v.step].rules| :: RuleSays(steps[v.step].rules[i], v)
  }

  lemma OneStepValidations(published: string, index: nat, step: Step, v: Validation)
    ensures v in StepValidations(published, index, step)
            <==> v.product == published && v.step == index && step.Validate? && v.stage == step.stage
                 && exists i | 0 <= i < |step.rules| :: RuleSays(step.rules[i], v)
  {
    if step.Validate? {
      var listed := StepValidations(published, index, step);
      forall i | 0 <= i < |step.rules|
        ensures listed[i] == v
                <==> v.product == published && v.step == index && v.stage == step.stage && RuleSays(step.rules[i], v)
      {}
    }
  }

  /** A composition records exactly the rules its validation steps state. */
  lemma {:induction false} ValidationsExactly(published: string, steps: seq<Step>, n: nat, v: Validation)
    requires n <= |steps|
    ensures v in Validations(published, steps, n) <==> v.step < n && ValidationStated(published, steps, v)
  {
    if n > 0 {
      ValidationsExactly(published, steps, n - 1, v);
      OneStepValidations(published, n - 1, steps[n - 1], v);
    }
  }

  /** Rule after rule and step after step. */
  lemma {:induction false} ValidationsInOrder(published: string, steps: seq<Step>, n: nat)
    requires n <= |steps|
    ensures forall i, j | 0 <= i < j < |Validations(published, steps, n)| ::
              Validations(published, steps, n)[i].step <= Validations(published, steps, n)[j].step
  {
    if n > 0 {
      ValidationsInOrder(published, steps, n - 1);
      var before, last := Validations(published, steps, n - 1), StepValidations(published, n - 1, steps[n - 1]);
      forall i | 0 <= i < |before|
        ensures before[i].step < n
      {
        ValidationsExactly(published, steps, n - 1, before[i]);
      }
      forall j | 0 <= j < |last|
        ensures last[j].step == n - 1
      {
        OneStepValidations(published, n - 1, steps[n - 1], last[j]);
      }
    }
  }

  // ---------------------------------------------------------------- nodes

  /** The generation the declared sources give a product. */
  ghost predicate InGeneration(entries: Entries, d: Declaration, g: Generation) {
    var sources := d.document.sources;
    if d.landing then g == Landing
    else
      && (exists i | 0 <= i < |sources| :: sources[i].source.contract != "")
      && (g == First <==> forall i | 0 <= i < |sources| :: !Lifts(entries, sources[i]))
      && (g == Consolidating
          <==> exists i, j :: 0 <= i < j < |sources| && Lifts(entries, sources[i]) && Lifts(entries, sources[j]))
      && g != Landing
  }

  /** A node has its product's name, relations and generation, and a table exactly where it checkpoints. */
  lemma NodeExactly(entries: Entries, relations: map<string, seq<string>>, name: string, node: Node)
    ensures NodeOf(entries, relations, name) == Some(node)
            <==> name in entries && name in relations && node.name == name && node.relations == relations[name]
                 && InGeneration(entries, entries[name], node.generation)
                 && node.checkpoint == entries[name].checkpoint && node.table == node.checkpoint
  {
    if name in entries { GenerationExactly(entries, entries[name]); }
  }

  // ---------------------------------------------------------------- the order of edges

  /** By source, then target, kind, contract and relation. */
  ghost predicate EdgeNotAfter(a: Edge, b: Edge) {
    && LexLe(a.source, b.source)
    && (a.source == b.source ==>
          && LexLe(a.target, b.target)
          && (a.target == b.target ==>
                && LexLe(KindName(a.kind), KindName(b.kind))
                && (a.kind == b.kind ==>
                      && LexLe(a.contract, b.contract)
                      && (a.contract == b.contract ==> LexLe(a.relation, b.relation)))))
  }

  function KindName(kind: EdgeKind): string {
    if kind.SourceEdge? then "source" else if kind.LookupEdge? then "lookup" else "auxiliary"
  }

  lemma KeyOrder(a: Edge, b: Edge)
    requires TupleLe(EdgeKey(a), EdgeKey(b))
    ensures EdgeNotAfter(a, b)
  {
    var k, l := EdgeKey(a), EdgeKey(b);
    LexTotal(a.source, a.source);
    LexTotal(a.target, a.target);
    LexTotal(KindName(a.kind), KindName(a.kind));
    LexTotal(a.contract, a.contract);
    TupleTail(k, l);
    TupleTail(k[1..], l[1..]);
    TupleTail(k[2..], l[2..]);
    TupleTail(k[3..], l[3..]);
    TupleTail(k[4..], l[4..]);
    LexTotal(a.relation, a.relation);
  }

  lemma TupleTail(k: seq<string>, l: seq<string>)
    requires k != [] && l != []
    ensures TupleLe(k, l) <==> if k[0] == l[0] then TupleLe(k[1..], l[1..]) else LexLe(k[0], l[0])
  {}

  ghost predicate EdgesInOrder(edges: seq<Edge>) {
    forall i, j | 0 <= i < j < |edges| :: EdgeNotAfter(edges[i], edges[j])
  }

  /** The edges of a listing ascend. */
  lemma EdgesAscend(edges: seq<Edge>)
    ensures EdgesInOrder(SortByTuple(edges, EdgeKey))
  {
    var listed := SortByTuple(edges, EdgeKey);
    SortByTupleKeeps(edges, EdgeKey);
    forall i, j | 0 <= i < j < |listed|
      ensures EdgeNotAfter(listed[i], listed[j])
    {
      KeyOrder(listed[i], listed[j]);
    }
  }

  // ---------------------------------------------------------------- the whole graph

  /** A declared read as an edge, or a registration of a product. */
  ghost predicate EdgeStated(entries: Entries, relations: map<string, seq<string>>, registrations: seq<Auxiliary>,
                             e: Edge) {
    || (e.target in entries
        && exists read :: Declares(entries[e.target].document, read) && CarriesRead(relations, read, e))
    || exists i | 0 <= i < |registrations| :: IsAuxiliaryEdge(registrations[i], e)
  }

  /** The graph holds what the declarations and registrations state, and nothing else. */
  ghost predicate HoldsStated(entries: Entries, relations: map<string, seq<string>>, registrations: seq<Auxiliary>,
                              g: Graph) {
    && (forall node :: node in g.nodes <==> NodeStated(entries, relations, node))
    && (forall e :: e in g.edges <==> EdgeStated(entries, relations, registrations, e))
    && (forall r :: r in g.lineage <==> r.product in entries && States(r.product, entries[r.product].document, r))
    && (forall v :: v in g.validations
                    <==> v.product in entries && ValidationStated(v.product, entries[v.product].document.steps, v))
    && (forall d :: d in g.declared <==> FieldStated(entries, d))
    && (forall r :: r in g.storedRelations
                    <==> r.product in entries && RelationNameStated(r.product, entries[r.product].stored, r))
    && (forall f :: f in g.storedFields
                    <==> f.product in entries && ColumnNameStated(f.product, entries[f.product].stored, f))
  }

  ghost predicate RelationNameStated(published: string, block: seq<StoredEntry>, r: StoredRelation) {
    exists i | 0 <= i < |block| ::
      && (block[i].name.Some? || block[i].schema.Some?) && r.product == published
      && r.relation == Address(published, block[i].key) && r.schema == block[i].schema && r.name == block[i].name
  }

  ghost predicate ColumnNameStated(published: string, block: seq<StoredEntry>, f: StoredField) {
    exists i | 0 <= i < |block| :: ColumnStated(published, block[i], f)
  }

  ghost predicate NodeStated(entries: Entries, relations: map<string, seq<string>>, node: Node) {
    NodeOf(entries, relations, node.name) == Some(node)
  }

  ghost predicate FieldStated(entries: Entries, d: DeclaredField) {
    && d.product in entries && d.occurrence.block == StepBlock
    && d.occurrence.index < |entries[d.product].document.steps|
    && StepDeclaresField(entries[d.product].document.steps[d.occurrence.index], d.field)
  }

  lemma NodesStated(entries: Entries, relations: map<string, seq<string>>, order: seq<string>, nodes: seq<Node>,
      node: Node)
    requires relations.Keys == entries.Keys && Lists(entries, order) && NodesFollow(entries, relations, order, nodes)
    ensures node in nodes <==> NodeStated(entries, relations, node)
  {
    if node in nodes {
      var i :| 0 <= i < |nodes| && nodes[i] == node;
      assert NodesOf(entries, relations, order)[i] == Some(nodes[i]);
      NodeExactly(entries, relations, order[i], node);
    }
    if NodeStated(entries, relations, node) {
      assert node.name in order;
      var i :| 0 <= i < |order| && order[i] == node.name;
      assert NodesOf(entries, relations, order)[i] == Some(nodes[i]);
    }
  }

  lemma EdgesStated(entries: Entries, relations: map<string, seq<string>>, registrations: seq<Auxiliary>, e: Edge)
    ensures e in SortByTuple(ReadEdges(entries, relations) + AuxiliaryEdges(registrations), EdgeKey)
            <==> EdgeStated(entries, relations, registrations, e)
  {
    GraphEdgesExactly(entries, relations, registrations, e);
    EdgesAreDeclaredReads(entries, relations, e);
    AuxiliaryEdgesExactly(registrations, e);
  }

  /** A product is in the order exactly when it is declared. */
  lemma OrderedIsDeclared(entries: Entries, order: seq<string>, name: string)
    requires Lists(entries, order)
    ensures name in entries <==> exists i | 0 <= i < |order| :: order[i] == name
  {
    if name in entries { assert name in order; }
  }

  lemma LineageStated(entries: Entries, order: seq<string>, r: Record)
    requires Lists(entries, order)
    ensures r in Concatenated(Lineages(entries, order), |order|)
            <==> r.product in entries && States(r.product, entries[r.product].document, r)
  {
    InConcatenated(Lineages(entries, order), |order|, r);
    OrderedIsDeclared(entries, order, r.product);
    forall i | 0 <= i < |order|
      ensures r in Lineages(entries, order)[i]
              <==> r.product == order[i] && States(order[i], entries[order[i]].document, r)
    {
      LineageExactly(order[i], entries[order[i]].document, r);
    }
  }

  lemma ValidationsStated(entries: Entries, order: seq<string>, v: Validation)
    requires Lists(entries, order)
    ensures v in Concatenated(ValidationLists(entries, order), |order|)
            <==> v.product in entries && ValidationStated(v.product, entries[v.product].document.steps, v)
  {
    InConcatenated(ValidationLists(entries, order), |order|, v);
    OrderedIsDeclared(entries, order, v.product);
    forall i | 0 <= i < |order|
      ensures v in ValidationLists(entries, order)[i]
              <==> v.product == order[i] && ValidationStated(order[i], entries[order[i]].document.steps, v)
    {
      var steps := entries[order[i]].document.steps;
      ValidationsExactly(order[i], steps, |steps|, v);
    }
  }

  lemma DeclaredStated(entries: Entries, order: seq<string>, d: DeclaredField)
    requires Lists(entries, order)
    ensures d in Concatenated(DeclaredFields(entries, order), |order|) <==> FieldStated(entries, d)
  {
    InConcatenated(DeclaredFields(entries, order), |order|, d);
    OrderedIsDeclared(entries, order, d.product);
    forall i | 0 <= i < |order|
      ensures d in DeclaredFields(entries, order)[i] <==> d.product == order[i] && FieldStated(entries, d)
    {
      DeclarationsExactly(order[i], entries[order[i]].document, d);
    }
  }

  lemma StoredRelationStated(entries: Entries, order: seq<string>, r: StoredRelation)
    requires Lists(entries, order)
    ensures r in Concatenated(StoredRelationLists(entries, order), |order|)
            <==> r.product in entries && RelationNameStated(r.product, entries[r.product].stored, r)
  {
    InConcatenated(StoredRelationLists(entries, order), |order|, r);
    OrderedIsDeclared(entries, order, r.product);
    forall i | 0 <= i < |order|
      ensures r in StoredRelationLists(entries, order)[i]
              <==> r.product == order[i] && RelationNameStated(order[i], entries[order[i]].stored, r)
    {
      StoredRelationsExactly(order[i], entries[order[i]].stored, r);
    }
  }

  lemma StoredFieldStated(entries: Entries, order: seq<string>, f: StoredField)
    requires Lists(entries, order)
    ensures f in Concatenated(StoredFieldLists(entries, order), |order|)
            <==> f.product in entries && ColumnNameStated(f.product, entries[f.product].stored, f)
  {
    InConcatenated(StoredFieldLists(entries, order), |order|, f);
    OrderedIsDeclared(entries, order, f.product);
    forall i | 0 <= i < |order|
      ensures f in StoredFieldLists(entries, order)[i]
              <==> f.product == order[i] && ColumnNameStated(order[i], entries[order[i]].stored, f)
    {
      StoredFieldsExactly(order[i], entries[order[i]].stored, f);
    }
  }

  /** A built graph holds exactly what its declarations and registrations state, and its edges ascend. */
  lemma GraphExactly(entries: Entries, relations: map<string, seq<string>>, registrations: seq<Auxiliary>, g: Graph)
    requires relations.Keys == entries.Keys && Built(entries, relations, registrations, g)
    ensures HoldsStated(entries, relations, registrations, g) && EdgesInOrder(g.edges)
  {
    var order :| Assembles(entries, relations, registrations, order, g) && InRounds(entries, relations, order);
    forall node
      ensures node in g.nodes <==> NodeStated(entries, relations, node)
    {
      NodesStated(entries, relations, order, g.nodes, node);
    }
    forall e
      ensures e in g.edges <==> EdgeStated(entries, relations, registrations, e)
    {
      EdgesStated(entries, relations, registrations, e);
    }
    EdgesAscend(ReadEdges(entries, relations) + AuxiliaryEdges(registrations));
    forall r
      ensures r in g.lineage <==> r.product in entries && States(r.product, entries[r.product].document, r)
    {
      LineageStated(entries, order, r);
    }
    forall v
      ensures v in g.validations
              <==> v.product in entries && ValidationStated(v.product, entries[v.product].document.steps, v)
    {
      ValidationsStated(entries, order, v);
    }
    forall d
      ensures d in g.declared <==> FieldStated(entries, d)
    {
      DeclaredStated(entries, order, d);
    }
    forall r
      ensures r in g.storedRelations
              <==> r.product in entries && RelationNameStated(r.product, entries[r.product].stored, r)
    {
      StoredRelationStated(entries, order, r);
    }
    forall f
      ensures f in g.storedFields
              <==> f.product in entries && ColumnNameStated(f.product, entries[f.product].stored, f)
    {
      StoredFieldStated(entries, order, f);
    }
  }

  // ---------------------------------------------------------------- what the build asserts

  ghost predicate HasNode(g: Graph, name: string) {
    exists n :: n in g.nodes && n.name == name
  }

  /** Every part of the graph speaks of its nodes, names what it speaks of, and declared fields have records. */
  ghost predicate Coherent(g: Graph) {
    && (forall i, j | 0 <= i < j < |g.nodes| :: g.nodes[i].name != g.nodes[j].name)
    && (forall n | n in g.nodes :: NodeCoherent(n))
    && (forall e | e in g.edges :: HasNode(g, e.source) && HasNode(g, e.target) && e.relation != "")
    && (forall r | r in g.lineage ::
          HasNode(g, r.product) && r.target != "" && r.source != ""
          && (r.kind == ContractKind ==> HasNode(g, r.sourceProduct)))
    && (forall d | d in g.declared :: HasNode(g, d.product) && HasRecord(g, d.product, d.field))
    && (forall v | v in g.validations :: HasNode(g, v.product))
  }

  predicate NodeCoherent(n: Node) {
    n.relations != [] && "" !in n.relations && (n.checkpoint ==> n.table)
  }

  ghost predicate HasRecord(g: Graph, name: string, field: string) {
    exists r :: r in g.lineage && r.product == name && r.target == field
  }

  lemma ExplainedExactly(g: Graph, d: DeclaredField)
    ensures Explained(g.lineage, d) <==> HasRecord(g, d.product, d.field)
  {}

  lemma NodeCoherentExactly(n: Node)
    ensures NodeCovered(n) <==> NodeCoherent(n)
  {}

  /** A graph passes the assertion exactly when it is coherent. */
  lemma CoveredExactly(g: Graph)
    ensures Covered(g) <==> Coherent(g)
  {
    forall name
      ensures name in Ids(g.nodes) <==> HasNode(g, name)
    {}
    forall n
      ensures NodeCovered(n) <==> NodeCoherent(n)
    {
      NodeCoherentExactly(n);
    }
    assert (forall n | n in g.nodes :: NodeCoherent(n)) ==> forall i | 0 <= i < |g.nodes| :: NodeCovered(g.nodes[i]);
    forall d
      ensures Explained(g.lineage, d) <==> HasRecord(g, d.product, d.field)
    {
      ExplainedExactly(g, d);
    }
  }

  // ---------------------------------------------------------------- reconciliations

  /** A source that is no fixture consumes the contract. */
  predicate Consumes(document: Document, contract: string) {
    contract != "" && exists i | 0 <= i < |document.sources| ::
      document.sources[i].source.contract == contract && !document.sources[i].fixture
  }

  /** A rule of one of the validation steps reconciles its metric to the contract. */
  predicate ReconciledTo(document: Document, contract: string) {
    exists i, k | 0 <= i < |document.steps| && document.steps[i].Validate? && 0 <= k < |document.steps[i].rules| ::
      var rule := document.steps[i].rules[k];
      rule.Reconcile? && contract in rule.contracts
  }

  /** Reconciliations are accepted exactly when each is to a contract that is consumed. */
  lemma ReconcilesExactly(document: Document)
    ensures Reconciles(document) <==> forall contract | ReconciledTo(document, contract) :: Consumes(document, contract)
    ensures forall contract ::
      ReconcilesUnread(document, contract) <==> ReconciledTo(document, contract) && !Consumes(document, contract)
  {
    forall contract
      ensures contract in SourceContracts(document) <==> Consumes(document, contract)
    {}
    if !Reconciles(document) {
      var i :| 0 <= i < |document.steps| && !StepReconciles(SourceContracts(document), document.steps[i]);
      var rules := document.steps[i].rules;
      var k :| 0 <= k < |rules| && !RuleReconciles(SourceContracts(document), rules[k]);
      var j :| 0 <= j < |rules[k].contracts| && rules[k].contracts[j] !in SourceContracts(document);
      assert ReconciledTo(document, rules[k].contracts[j]);
    }
  }
}

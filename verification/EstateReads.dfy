/**
  What a product's composition reads and derives in its estate: under every key the schema its
  declared read resolves to, and every field marked as its rules ask
  (ergasterion/framework/contract.py:718-744, 1133-1167, 1204-1240, 1481-1544).
*/
module EstateReads {
  import opened Basics
  import opened Relations
  import opened Composition
  import opened OpeningComposition
  import opened FieldPropagation
  import opened FieldLineage
  import opened EstateRelations

  // ---------------------------------------------------------------- the declared reads

  /** A source or a lookup of the document declares the read. */
  ghost predicate ReadsAs(document: Document, read: Read) {
    || (exists i | 0 <= i < |document.sources| ::
          document.sources[i].source.contract == read.contract && document.sources[i].source.relation == read.relation)
    || (exists k, i | 0 <= k < |document.steps| && document.steps[k].Enrich?
                      && 0 <= i < |document.steps[k].lookups| ::
          document.steps[k].lookups[i].contract == read.contract
          && document.steps[k].lookups[i].relation == read.relation)
  }

  lemma {:induction false} StepInputsExactly(steps: seq<Step>, read: Read)
    ensures read in StepInputs(steps)
            <==> exists k, i | 0 <= k < |steps| && steps[k].Enrich? && 0 <= i < |steps[k].lookups| ::
                   steps[k].lookups[i].contract == read.contract && steps[k].lookups[i].relation == read.relation
  {
    if read in StepInputs(steps) { var k, i := StepInputFrom(steps, read); }
    if k, i :| 0 <= k < |steps| && steps[k].Enrich? && 0 <= i < |steps[k].lookups|
               && steps[k].lookups[i].contract == read.contract && steps[k].lookups[i].relation == read.relation
    {
      LookupIsInput(steps, k, i);
    }
  }

  lemma {:induction false} LookupIsInput(steps: seq<Step>, k: nat, i: nat)
    requires k < |steps| && steps[k].Enrich? && i < |steps[k].lookups|
    ensures Read(steps[k].lookups[i].contract, steps[k].lookups[i].relation) in StepInputs(steps)
  {
    var init, last := steps[..|steps| - 1], steps[|steps| - 1];
    if k < |init| {
      LookupIsInput(init, k, i);
    } else {
      var more := seq(|last.lookups|,
        n requires 0 <= n < |last.lookups| => Read(last.lookups[n].contract, last.lookups[n].relation));
      assert StepInputs(steps) == StepInputs(init) + more && more[i] in more;
    }
  }

  /** What a product reads is exactly what its sources and lookups declare. */
  lemma InputsExactly(document: Document, read: Read)
    ensures read in InputsOf(document) <==> ReadsAs(document, read)
  {
    StepInputsExactly(document.steps, read);
    var sources := seq(|document.sources|, i requires 0 <= i < |document.sources| =>
      Read(document.sources[i].source.contract, document.sources[i].source.relation));
    forall i | 0 <= i < |document.sources|
      ensures sources[i] == read <==> document.sources[i].source.contract == read.contract
                                      && document.sources[i].source.relation == read.relation
    {}
    assert InputsOf(document) == sources + StepInputs(document.steps);
  }

  // ---------------------------------------------------------------- the schema under each key

  lemma SameKeySameSchema(a: Read, b: Read, resolved: Registry, opening: map<string, Schema>)
    requires '#' !in Producer(a) && '#' !in Producer(b) && ReadKey(a) == ReadKey(b)
    ensures ResolveRead(a, resolved, opening) == ResolveRead(b, resolved, opening)
  {
    KeysNeverCollide(a, b);
  }

  /** Whatever else is read, the key of a declared read holds the schema the read resolves to. */
  lemma ReadIsHeld(inputs: seq<Read>, resolved: Registry, opening: map<string, Schema>, read: Read)
    requires read in inputs && forall r | r in inputs :: '#' !in Producer(r)
    requires SourceSchemas(inputs, resolved, opening).Ok?
    ensures var schemas := SourceSchemas(inputs, resolved, opening).value;
            ReadKey(read) in schemas && ResolveRead(read, resolved, opening) == Ok(schemas[ReadKey(read)])
  {
    var schemas, key := SourceSchemas(inputs, resolved, opening).value, ReadKey(read);
    SourceSchemasHold(inputs, resolved, opening, key);
    var n :| 0 <= n < |inputs| && inputs[n] == read;
    assert !NoReadUnder(inputs, key);
    var i: nat :| LastRead(inputs, resolved, opening, key, schemas[key], i);
    assert inputs[i] in inputs;
    SameKeySameSchema(inputs[i], read, resolved, opening);
  }

  /** No contract a document names holds the character that parts a key. */
  ghost predicate PlainProducers(document: Document) {
    forall read | ReadsAs(document, read) :: '#' !in Producer(read)
  }

  /**
    Every source opens on the schema of the relation it declares, and every lookup borrows from
    that of the relation it declares.
  */
  lemma DeclaredReadsAreHeld(document: Document, resolved: Registry, opening: map<string, Schema>)
    requires PlainProducers(document) && SourceSchemas(InputsOf(document), resolved, opening).Ok?
    ensures var schemas := SourceSchemas(InputsOf(document), resolved, opening).value;
            && (forall i | 0 <= i < |document.sources| ::
                  var source := document.sources[i].source;
                  && KeyOf(source) in schemas
                  && ResolveRead(Read(source.contract, source.relation), resolved, opening)
                     == Ok(schemas[KeyOf(source)]))
            && (forall k, i | 0 <= k < |document.steps| && document.steps[k].Enrich?
                              && 0 <= i < |document.steps[k].lookups| ::
                  var lookup := document.steps[k].lookups[i];
                  && LookupKey(lookup) in schemas
                  && ResolveRead(Read(lookup.contract, lookup.relation), resolved, opening)
                     == Ok(schemas[LookupKey(lookup)]))
  {
    var inputs := InputsOf(document);
    forall read | ReadsAs(document, read)
      ensures read in inputs
    {
      InputsExactly(document, read);
    }
    forall read | read in inputs
      ensures '#' !in Producer(read)
    {
      InputsExactly(document, read);
    }
    forall read | ReadsAs(document, read)
      ensures ReadKey(read) in SourceSchemas(inputs, resolved, opening).value
      ensures ResolveRead(read, resolved, opening)
              == Ok(SourceSchemas(inputs, resolved, opening).value[ReadKey(read)])
    {
      ReadIsHeld(inputs, resolved, opening, read);
    }
    forall i | 0 <= i < |document.sources|
      ensures ReadsAs(document, Read(document.sources[i].source.contract, document.sources[i].source.relation))
    {}
    forall k, i | 0 <= k < |document.steps| && document.steps[k].Enrich? && 0 <= i < |document.steps[k].lookups|
      ensures ReadsAs(document, Read(document.steps[k].lookups[i].contract, document.steps[k].lookups[i].relation))
    {}
  }

  // ---------------------------------------------------------------- the fields that are derived

  /** A rule of some validation step forbids the field to be null, or wants it complete. */
  ghost predicate RequiredByRule(steps: seq<Step>, name: string) {
    exists k, i | 0 <= k < |steps| && steps[k].Validate? && 0 <= i < |steps[k].rules| ::
      var rule := steps[k].rules[i];
      rule.OnField? && rule.field == name && (rule.notNull || rule.completeness == Some(1.0))
  }

  lemma RequiresExactly(steps: seq<Step>, name: string)
    ensures Requires(steps, name) <==> RequiredByRule(steps, name)
  {
    if Requires(steps, name) {
      var k :| 0 <= k < |steps| && StepRequires(steps[k], name);
      var i :| 0 <= i < |steps[k].rules| && RuleRequires(steps[k].rules[i], name);
    }
    if RequiredByRule(steps, name) {
      var k, i :| 0 <= k < |steps| && steps[k].Validate? && 0 <= i < |steps[k].rules|
        && steps[k].rules[i].OnField? && steps[k].rules[i].field == name
        && (steps[k].rules[i].notNull || steps[k].rules[i].completeness == Some(1.0));
      assert RuleRequires(steps[k].rules[i], name);
      assert StepRequires(steps[k], name);
    }
  }

  /** The field keeps its name and type, and is required if it was or a rule says so. */
  ghost predicate DerivedAs(steps: seq<Step>, carried: Field, derived: Field) {
    && derived.name == carried.name && derived.kind == carried.kind
    && derived.description == None && derived.physicalName == None
    && (derived.required <==> carried.required || RequiredByRule(steps, carried.name))
  }

  /** What is derived is, field by field, what the last step carries, or the opening without steps. */
  lemma DerivedExactly(document: Document, schemas: map<string, Schema>)
    ensures var derived, opening := DerivedFields(document, schemas),
              OpenedFields(Plain(document.sources), schemas, document.combination);
            && (derived.Some? <==> opening.Some?
                                   && FieldsAfter(opening.value, document.steps, |document.steps|, schemas).Ok?)
            && (derived.Some? ==>
                  var carried := FieldsAfter(opening.value, document.steps, |document.steps|, schemas).value;
                  && |derived.value| == |carried|
                  && forall i | 0 <= i < |carried| :: DerivedAs(document.steps, carried[i], derived.value[i]))
  {
    var derived := DerivedFields(document, schemas);
    if derived.Some? {
      forall i | 0 <= i < |derived.value|
        ensures Requires(document.steps, derived.value[i].name)
                <==> RequiredByRule(document.steps, derived.value[i].name)
      {
        RequiresExactly(document.steps, derived.value[i].name);
      }
    }
  }
}

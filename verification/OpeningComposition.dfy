/**
  Resolving the relation a composition opens with, from its declared sources to the fields
  it publishes and each source's columns (ergasterion/framework/contract.py:1016-1110).
*/
module OpeningComposition {
  import opened Basics
  import opened Relations
  import opened Composition
  import opened CompositionRows

  function KeyOf(source: Source): string {
    ReadKey(Read(source.contract, source.relation))
  }

  /** A source whose relation is supplied, carries what is expected of it and conforms. */
  predicate SourceReady(source: Source, schemas: map<string, Schema>) {
    && KeyOf(source) in schemas
    && (forall i | 0 <= i < |source.expected| :: Present(schemas[KeyOf(source)].fields, source.expected[i]))
    && Conformable(schemas[KeyOf(source)].fields, source.mapping)
  }

  ghost predicate Carries(schema: Schema, name: string) {
    exists j | 0 <= j < |schema.fields| :: schema.fields[j].name == name
  }

  /** A source is ready exactly where it reads a supplied relation, conforms, and finds every expected field. */
  lemma SourceReadyExactly(source: Source, schemas: map<string, Schema>)
    ensures SourceReady(source, schemas)
            <==> exists key :: key == ReadKey(Read(source.contract, source.relation)) && key in schemas
                               && (forall name | name in source.expected :: Carries(schemas[key], name))
                               && Conformable(schemas[key].fields, source.mapping)
  {
    var key := KeyOf(source);
    if key in schemas && forall name | name in source.expected :: Carries(schemas[key], name) {
      forall i | 0 <= i < |source.expected|
        ensures Present(schemas[key].fields, source.expected[i])
      {
        assert source.expected[i] in source.expected && Carries(schemas[key], source.expected[i]);
      }
    }
  }

  function ConformedSource(source: Source, schemas: map<string, Schema>): Conformed
    requires SourceReady(source, schemas)
  {
    Conformed(source.contract, ConformedFields(schemas[KeyOf(source)].fields, source.mapping))
  }

  function ConformedSources(sources: seq<Source>, schemas: map<string, Schema>): seq<Conformed>
    requires forall i | 0 <= i < |sources| :: SourceReady(sources[i], schemas)
  {
    seq(|sources|, i requires 0 <= i < |sources| => ConformedSource(sources[i], schemas))
  }

  function SourceColumns(source: Source, schemas: map<string, Schema>): seq<Column>
    requires SourceReady(source, schemas)
  {
    ConformedColumns(schemas[KeyOf(source)].fields, source.mapping)
  }

  /** A combination the resolved sources can carry out. */
  predicate Combines(conformed: seq<Conformed>, combination: Option<Combination>)
    requires conformed != []
  {
    && combination.Some?
    && match combination.value.combine
       case Union => forall i | 1 <= i < |conformed| :: SameShape(conformed[0].fields, conformed[i].fields)
       case Merge => combination.value.join.Some? && Mergeable(conformed, combination.value.keys)
       case OtherMethod => false
  }

  /** The fields the sources open with, or nothing where they are not ready or do not combine. */
  function OpenedFields(sources: seq<Source>, schemas: map<string, Schema>,
      combination: Option<Combination>): Option<seq<Field>> {
    if !(forall i | 0 <= i < |sources| :: SourceReady(sources[i], schemas)) then None
    else if sources == [] then Some([])
    else
      var conformed := ConformedSources(sources, schemas);
      if |sources| == 1 then Some(conformed[0].fields)
      else if !Combines(conformed, combination) then None
      else if combination.value.combine.Merge?
      then Some(Merged(conformed, combination.value.keys, combination.value.join.value))
      else Some(conformed[0].fields)
  }

  /** What an opening composition says of its sources. */
  ghost predicate Opens(sources: seq<Source>, schemas: map<string, Schema>, combination: Option<Combination>,
      r: Opening)
    requires forall i | 0 <= i < |sources| :: SourceReady(sources[i], schemas)
  {
    && OpenedFields(sources, schemas, combination) == Some(r.fields)
    && |r.sources| == |sources|
    && (forall i | 0 <= i < |sources| ::
          && r.sources[i].key == KeyOf(sources[i]) && r.sources[i].contract == sources[i].contract
          && r.sources[i].columns
             == if r.combine == Some(Union) then SortColumns(SourceColumns(sources[i], schemas), r.fields)
                else SourceColumns(sources[i], schemas))
    && if |sources| <= 1 then r.combine == None && r.keys == [] && r.join == None
       else
         && r.combine == Some(combination.value.combine) && r.keys == combination.value.keys
         && r.join == if r.combine == Some(Merge) then combination.value.join else None
  }

  /** Why one source is not ready, by the check it fails first. */
  ghost predicate SourceFails(source: Source, schemas: map<string, Schema>, e: CompositionError) {
    if KeyOf(source) !in schemas then e == CompositionError.UnresolvedSource(source.contract)
    else if exists i | 0 <= i < |source.expected| :: !Present(schemas[KeyOf(source)].fields, source.expected[i])
    then e.MissingExpectedField?
         && e.field in source.expected && !Present(schemas[KeyOf(source)].fields, e.field)
    else !Conformable(schemas[KeyOf(source)].fields, source.mapping) && e.Unconformable?
  }

  ghost predicate FirstSourceFails(sources: seq<Source>, schemas: map<string, Schema>, e: CompositionError) {
    exists i | 0 <= i < |sources| ::
      SourceFails(sources[i], schemas, e) && forall k | 0 <= k < i :: SourceReady(sources[k], schemas)
  }

  /** Why sources that are ready do not combine. */
  predicate CombinationFails(combination: Option<Combination>, e: CompositionError) {
    if combination.None? || combination.value.combine.OtherMethod? then e == UndeclaredComposition
    else if combination.value.combine.Union? then e.Unconformable?
    else if combination.value.join.None? then e == UndeclaredMergeJoin
    else e.Unmergeable?
  }

  method ResolveSources(sources: seq<Source>, schemas: map<string, Schema>)
    returns (r: Result<(seq<Conformed>, seq<SourceComposition>), CompositionError>)
    ensures r.Ok? <==> forall i | 0 <= i < |sources| :: SourceReady(sources[i], schemas)
    ensures r.Ok? ==> r.value.0 == ConformedSources(sources, schemas) && |r.value.1| == |sources|
    ensures r.Ok? ==> forall i | 0 <= i < |sources| ::
              r.value.1[i] == SourceComposition(KeyOf(sources[i]), sources[i].contract,
                SourceColumns(sources[i], schemas))
    ensures r.Err? ==> FirstSourceFails(sources, schemas, r.error)
  {
    var resolved: seq<Conformed> := [];
    var compositions: seq<SourceComposition> := [];
    for i := 0 to |sources|
      invariant forall k | 0 <= k < i :: SourceReady(sources[k], schemas)
      invariant |resolved| == |compositions| == i
      invariant forall k | 0 <= k < i :: resolved[k] == ConformedSource(sources[k], schemas)
      invariant forall k | 0 <= k < i ::
                  compositions[k]
                    == SourceComposition(KeyOf(sources[k]), sources[k].contract, SourceColumns(sources[k], schemas))
    {
      var source := sources[i];
      var conformed := ResolveSource(source, schemas);
      if conformed.Err? { return Err(conformed.error); }
      resolved := resolved + [Conformed(source.contract, conformed.value.0)];
      compositions := compositions + [SourceComposition(KeyOf(source), source.contract, conformed.value.1)];
    }
    return Ok((resolved, compositions));
  }

  /** One source's fields and columns, once it is supplied and carries what is expected. */
  method ResolveSource(source: Source, schemas: map<string, Schema>)
    returns (r: Result<(seq<Field>, seq<Column>), CompositionError>)
    ensures r.Ok? <==> SourceReady(source, schemas)
    ensures r.Ok? ==> r.value == (ConformedSource(source, schemas).fields, SourceColumns(source, schemas))
    ensures r.Err? ==> SourceFails(source, schemas, r.error)
  {
    var key := KeyOf(source);
    if key !in schemas { return Err(CompositionError.UnresolvedSource(source.contract)); }
    for j := 0 to |source.expected|
      invariant forall k | 0 <= k < j :: Present(schemas[key].fields, source.expected[k])
    {
      if !Present(schemas[key].fields, source.expected[j]) { return Err(MissingExpectedField(source.expected[j])); }
    }
    r := ConformSource(source, schemas[key]);
  }

  method ResolveOpeningComposition(sources: seq<Source>, schemas: map<string, Schema>, combination: Option<Combination>)
    returns (r: Result<Opening, CompositionError>)
    ensures r.Ok? <==> (&& (forall i | 0 <= i < |sources| :: SourceReady(sources[i], schemas))
                        && (|sources| <= 1 || Combines(ConformedSources(sources, schemas), combination)))
    ensures r.Ok? ==> Opens(sources, schemas, combination, r.value)
    ensures r.Err? ==> if forall i | 0 <= i < |sources| :: SourceReady(sources[i], schemas)
                       then CombinationFails(combination, r.error) else FirstSourceFails(sources, schemas, r.error)
  {
    var resolution := ResolveSources(sources, schemas);
    if resolution.Err? { return Err(resolution.error); }
    var (resolved, compositions) := resolution.value;
    if sources == [] { return Ok(Opening(None, [], [], [], None)); }
    if |sources| == 1 { return Ok(Opening(None, [], resolved[0].fields, compositions, None)); }
    if combination.None? || combination.value.combine.OtherMethod? { return Err(UndeclaredComposition); }
    var keys := combination.value.keys;
    if combination.value.combine.Union? {
      assert SourceReady(sources[0], schemas);
      var fields := UnionFields(resolved);
      if fields.Err? { return Err(fields.error); }
      var sorted := seq(|compositions|, i requires 0 <= i < |compositions| =>
        compositions[i].(columns := SortColumns(compositions[i].columns, fields.value)));
      return Ok(Opening(Some(Union), keys, fields.value, sorted, None));
    }
    if combination.value.join.None? { return Err(UndeclaredMergeJoin); }
    var fields := MergedFields(resolved, keys, combination.value.join.value);
    if fields.Err? { return Err(fields.error); }
    return Ok(Opening(Some(Merge), keys, fields.value, compositions, combination.value.join));
  }

  /** `conformed` is a row of a source's relation, renamed and cast by that source's columns. */
  ghost predicate Conforms(cast: Cast, columns: seq<Column>, fields: seq<Field>, row: Row, conformed: Row) {
    && Satisfies(row, fields) && (forall k | 0 <= k < |columns| :: columns[k].sourceName in row)
    && conformed == ConformRow(cast, columns, row)
  }

  /** Each side of a joined row is a conformed row of its source's relation, or missing. */
  ghost predicate SidesConform(
    cast: Cast, sources: seq<Source>, schemas: map<string, Schema>, opening: Opening, rows: seq<Option<Row>>,
      tuple: seq<Option<Row>>)
    requires |opening.sources| == |sources| && forall i | 0 <= i < |sources| :: SourceReady(sources[i], schemas)
  {
    && |rows| == |tuple| == |sources|
    && forall i | 0 <= i < |sources| ::
         SourceReady(sources[i], schemas) &&
         if tuple[i].None? then rows[i].None?
         else rows[i].Some?
              && Conforms(cast, opening.sources[i].columns, schemas[KeyOf(sources[i])].fields, rows[i].value,
                 tuple[i].value)
  }

  lemma SidesConformSatisfy(
    cast: Cast, sources: seq<Source>, schemas: map<string, Schema>, combination: Option<Combination>, opening: Opening,
    rows: seq<Option<Row>>, tuple: seq<Option<Row>>)
    requires forall i | 0 <= i < |sources| :: SourceReady(sources[i], schemas)
    requires Opens(sources, schemas, combination, opening) && opening.combine != Some(Union)
    requires SidesConform(cast, sources, schemas, opening, rows, tuple)
    ensures SidesSatisfy(ConformedSources(sources, schemas), tuple)
  {
    forall i | 0 <= i < |tuple| && tuple[i].Some?
      ensures Satisfies(tuple[i].value, ConformedSources(sources, schemas)[i].fields)
    {
      assert SourceReady(sources[i], schemas);
      ConformKeepsMarks(cast, sources[i].mapping, schemas[KeyOf(sources[i])].fields, rows[i].value);
    }
  }

  /**
    The rows an opening merge joins from rows its sources' relations allow satisfy the
    published fields, where the join is inner or the keys are as required as the first source
    says.
  */
  lemma OpenedMergeRowsSatisfy(
    cast: Cast, sources: seq<Source>, schemas: map<string, Schema>, combination: Option<Combination>, opening: Opening,
    rows: seq<Option<Row>>, tuple: seq<Option<Row>>)
    requires |sources| >= 2 && forall i | 0 <= i < |sources| :: SourceReady(sources[i], schemas)
    requires Opens(sources, schemas, combination, opening) && opening.combine == Some(Merge)
    requires SidesConform(cast, sources, schemas, opening, rows, tuple)
    requires Joined(opening.join.value, opening.keys, tuple)
    requires opening.join == Some(Inner) || KeysAsRequired(ConformedSources(sources, schemas), opening.keys)
    ensures Satisfies(MergedRow(ConformedSources(sources, schemas), opening.keys, tuple), opening.fields)
  {
    SidesConformSatisfy(cast, sources, schemas, combination, opening, rows, tuple);
    MergeMarksHold(ConformedSources(sources, schemas), opening.keys, opening.join.value, tuple);
  }

  /**
    The rows an opening union stacks: a row of any source, read through that source's sorted
    columns, is by position the row its names give, and it satisfies the published marks
    whenever its source is at least as required as the first.
  */
  lemma OpenedUnionRowsSatisfy(cast: Cast, sources: seq<Source>, schemas: map<string, Schema>,
      combination: Option<Combination>, opening: Opening, i: nat, row: Row)
    requires |sources| >= 2 && (forall k | 0 <= k < |sources| :: SourceReady(sources[k], schemas))
    requires Opens(sources, schemas, combination, opening) && opening.combine == Some(Union)
    requires i < |sources| && Satisfies(row, schemas[KeyOf(sources[i])].fields)
    requires AtLeastAsRequired(ConformedSource(sources[i], schemas).fields, opening.fields)
    ensures exists named :: Satisfies(named, opening.fields)
                            && StacksAs(cast, opening.sources[i].columns, row, opening.fields, named)
  {
    assert SourceReady(sources[0], schemas) && SourceReady(sources[i], schemas);
    UnionShapes(sources, schemas, combination, opening, i);
    UnionArm(cast, sources[i].mapping, schemas[KeyOf(sources[i])].fields, opening.fields, row);
  }

  lemma UnionShapes(sources: seq<Source>, schemas: map<string, Schema>, combination: Option<Combination>,
      opening: Opening, i: nat)
    requires |sources| >= 2 && i < |sources| && (forall k | 0 <= k < |sources| :: SourceReady(sources[k], schemas))
    requires Opens(sources, schemas, combination, opening) && opening.combine == Some(Union)
    ensures ConformsTo(sources[i].mapping, schemas[KeyOf(sources[i])].fields, opening.fields)
  {
    var conformed := ConformedSources(sources, schemas);
    assert SourceReady(sources[0], schemas) && SourceReady(sources[i], schemas);
    if i == 0 {
      ShapeReflexive(conformed[0].fields);
    } else {
      assert SameShape(conformed[0].fields, conformed[i].fields);
    }
  }

  lemma ShapeReflexive(fields: seq<Field>)
    requires DistinctNames(fields)
    ensures SameShape(fields, fields)
  {
    forall i | 0 <= i < |fields|
      ensures Lookup(fields, fields[i].name) == Some(fields[i])
    {
      LookupFinds(fields, fields[i].name);
    }
  }
}

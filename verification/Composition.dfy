/**
  How a product's sources combine into the relation its composition opens with
  (ergasterion/framework/contract.py:810-1110).
*/
module Composition {
  import opened Basics
  import opened Relations

  /** One conformance entry: a rename with the type the column is cast to. */
  datatype Conform = Conform(from: string, to: string, kind: NeutralType)

  datatype Source = Source(contract: string, relation: Option<string>, expected: seq<string>, mapping: seq<Conform>)

  datatype CombineMethod = Union | Merge | OtherMethod
  datatype Join = Inner | Outer
  datatype Combination = Combination(combine: CombineMethod, keys: seq<string>, join: Option<Join>)

  datatype Column = Column(
    sourceName: string, name: string, castKind: Option<NeutralType>, physicalSourceName: Option<string>)

  datatype SourceComposition = SourceComposition(key: string, contract: string, columns: seq<Column>)

  datatype Opening = Opening(
    combine: Option<CombineMethod>, keys: seq<string>, fields: seq<Field>,
    sources: seq<SourceComposition>, join: Option<Join>)

  datatype CompositionError =
    | UnresolvedSource(contract: string)
    | MissingExpectedField(field: string)
    | UndeclaredComposition
    | UndeclaredMergeJoin
    | Unconformable(contract: string, field: string)
    | Unmergeable(contract: string, field: string)

  // ---------------------------------------------------------------- conforming one source

  /** Names distinguish the fields. */
  predicate DistinctNames(fields: seq<Field>) {
    forall i, j | 0 <= i < j < |fields| :: fields[i].name != fields[j].name
  }

  predicate Present(fields: seq<Field>, name: string) {
    exists i | 0 <= i < |fields| :: fields[i].name == name
  }

  /** The entry that renames a column, or nothing. */
  function Entry(mapping: seq<Conform>, name: string): Option<Conform> {
    if mapping == [] then None
    else if mapping[0].from == name then Some(mapping[0])
    else Entry(mapping[1..], name)
  }

  predicate RenamesOnce(mapping: seq<Conform>) {
    forall i, j | 0 <= i < j < |mapping| :: mapping[i].from != mapping[j].from
  }

  /** A mapped column is renamed, retyped and optional; any other keeps all but its stored name. */
  function ConformedField(field: Field, mapping: seq<Conform>): Field {
    match Entry(mapping, field.name)
    case None => field.(physicalName := None)
    case Some(entry) => Field(entry.to, entry.kind, false, None, None)
  }

  function ConformedColumn(field: Field, mapping: seq<Conform>): Column {
    match Entry(mapping, field.name)
    case None => Column(field.name, field.name, None, field.physicalName)
    case Some(entry) => Column(field.name, entry.to, Some(entry.kind), field.physicalName)
  }

  function ConformedFields(fields: seq<Field>, mapping: seq<Conform>): seq<Field> {
    seq(|fields|, i requires 0 <= i < |fields| => ConformedField(fields[i], mapping))
  }

  function ConformedColumns(fields: seq<Field>, mapping: seq<Conform>): seq<Column> {
    seq(|fields|, i requires 0 <= i < |fields| => ConformedColumn(fields[i], mapping))
  }

  /** A mapping a source's relation can carry out. */
  predicate Conformable(fields: seq<Field>, mapping: seq<Conform>) {
    && RenamesOnce(mapping)
    && (forall i | 0 <= i < |mapping| :: Present(fields, mapping[i].from))
    && DistinctNames(ConformedFields(fields, mapping))
  }

  /** One source's fields and columns after its own mapping, or the field that does not conform. */
  method ConformSource(source: Source, schema: Schema) returns (r: Result<(seq<Field>, seq<Column>), CompositionError>)
    ensures r.Ok? <==> Conformable(schema.fields, source.mapping)
    ensures r.Ok? ==> r.value.0 == ConformedFields(schema.fields, source.mapping)
                      && r.value.1 == ConformedColumns(schema.fields, source.mapping)
    ensures r.Err? ==> r.error.Unconformable?
  {
    var twice := RenamedTwice(source.mapping);
    if twice.Some? { return Err(Unconformable(source.contract, twice.value)); }
    for i := 0 to |source.mapping|
      invariant forall k | 0 <= k < i :: Present(schema.fields, source.mapping[k].from)
    {
      if !Present(schema.fields, source.mapping[i].from) {
        return Err(Unconformable(source.contract, source.mapping[i].from));
      }
    }
    var fields: seq<Field>, columns: seq<Column> := [], [];
    for i := 0 to |schema.fields|
      invariant |fields| == |columns| == i
      invariant forall k | 0 <= k < i :: fields[k] == ConformedField(schema.fields[k], source.mapping)
      invariant forall k | 0 <= k < i :: columns[k] == ConformedColumn(schema.fields[k], source.mapping)
    {
      fields := fields + [ConformedField(schema.fields[i], source.mapping)];
      columns := columns + [ConformedColumn(schema.fields[i], source.mapping)];
    }
    assert fields == ConformedFields(schema.fields, source.mapping);
    assert columns == ConformedColumns(schema.fields, source.mapping);
    var repeated := RepeatedName(fields);
    if repeated.Some? { return Err(Unconformable(source.contract, repeated.value)); }
    return Ok((fields, columns));
  }

  /** The first column a mapping renames a second time. */
  method RenamedTwice(mapping: seq<Conform>) returns (name: Option<string>)
    ensures name.None? <==> RenamesOnce(mapping)
  {
    var renamed: set<string> := {};
    for i := 0 to |mapping|
      invariant RenamesOnce(mapping[..i])
      invariant forall n :: n in renamed <==> exists k | 0 <= k < i :: mapping[k].from == n
    {
      if mapping[i].from in renamed { return Some(mapping[i].from); }
      renamed := renamed + {mapping[i].from};
    }
    assert mapping[..|mapping|] == mapping;
    return None;
  }

  /** The first name two fields share. */
  method RepeatedName(fields: seq<Field>) returns (name: Option<string>)
    ensures name.None? <==> DistinctNames(fields)
  {
    var seen: set<string> := {};
    for i := 0 to |fields|
      invariant DistinctNames(fields[..i])
      invariant forall n :: n in seen <==> exists k | 0 <= k < i :: fields[k].name == n
    {
      if fields[i].name in seen { return Some(fields[i].name); }
      seen := seen + {fields[i].name};
    }
    assert fields[..|fields|] == fields;
    return None;
  }

  // ---------------------------------------------------------------- union and merge

  /** One source's conformed fields, under the contract it was read from. */
  datatype Conformed = Conformed(contract: string, fields: seq<Field>)

  /** The field of a name, with the last of two equal names winning as in a dictionary. */
  function Lookup(fields: seq<Field>, name: string): Option<Field> {
    if fields == [] then None
    else if fields[|fields| - 1].name == name then Some(fields[|fields| - 1])
    else Lookup(fields[..|fields| - 1], name)
  }

  lemma {:induction false} LookupFinds(fields: seq<Field>, name: string)
    ensures Lookup(fields, name).Some? <==> Present(fields, name)
    ensures Lookup(fields, name).Some?
            ==> Lookup(fields, name).value in fields && Lookup(fields, name).value.name == name
    ensures DistinctNames(fields) ==>
              forall i | 0 <= i < |fields| && fields[i].name == name :: Lookup(fields, name) == Some(fields[i])
  {
    if fields != [] {
      var init := fields[..|fields| - 1];
      LookupFinds(init, name);
      assert forall i | 0 <= i < |init| :: init[i] == fields[i];
    }
  }

  /** The same names with the same types, whatever the order and the required marks. */
  predicate SameShape(a: seq<Field>, b: seq<Field>) {
    && (forall i | 0 <= i < |a| ::
          Lookup(b, a[i].name).Some? && Lookup(b, a[i].name).value.kind == a[i].kind)
    && (forall i | 0 <= i < |b| :: Present(a, b[i].name))
  }

  method UnionFields(conformed: seq<Conformed>) returns (r: Result<seq<Field>, CompositionError>)
    requires conformed != [] && DistinctNames(conformed[0].fields)
    ensures r.Ok? <==> forall i | 1 <= i < |conformed| :: SameShape(conformed[0].fields, conformed[i].fields)
    ensures r.Ok? ==> r.value == conformed[0].fields
    ensures r.Err? ==> r.error.Unconformable?
  {
    var opening := conformed[0].fields;
    for i := 1 to |conformed|
      invariant forall k | 1 <= k < i :: SameShape(opening, conformed[k].fields)
    {
      var fields := conformed[i].fields;
      for j := 0 to |opening|
        invariant forall k | 0 <= k < j ::
                    Lookup(fields, opening[k].name).Some?
                      && Lookup(fields, opening[k].name).value.kind == opening[k].kind
      {
        var candidate := Lookup(fields, opening[j].name);
        if candidate.None? || candidate.value.kind != opening[j].kind {
          assert !SameShape(opening, fields);
          return Err(Unconformable(conformed[i].contract, opening[j].name));
        }
      }
      for j := 0 to |fields|
        invariant forall k | 0 <= k < j :: Present(opening, fields[k].name)
      {
        if !Present(opening, fields[j].name) {
          assert !SameShape(opening, fields);
          return Err(Unconformable(conformed[i].contract, fields[j].name));
        }
      }
    }
    return Ok(opening);
  }

  /** What a source brings beside the keys; an outer merge publishes it as optional. */
  function Brought(fields: seq<Field>, keys: seq<string>, join: Join): seq<Field> {
    if fields == [] then []
    else
      var init, last := Brought(fields[..|fields| - 1], keys, join), fields[|fields| - 1];
      if last.name in keys then init
      else init + [if join == Outer && last.required then last.(required := false) else last]
  }

  lemma BroughtStep(fields: seq<Field>, keys: seq<string>, join: Join, j: nat)
    requires j < |fields|
    ensures Brought(fields[..j + 1], keys, join)
            == Brought(fields[..j], keys, join)
               + (if fields[j].name in keys then []
                  else [if join == Outer && fields[j].required then fields[j].(required := false) else fields[j]])
  {
    assert fields[..j + 1][..j] == fields[..j];
  }

  function AllBrought(conformed: seq<Conformed>, keys: seq<string>, join: Join): seq<Field> {
    if conformed == [] then []
    else AllBrought(conformed[..|conformed| - 1], keys, join) + Brought(conformed[|conformed| - 1].fields, keys, join)
  }

  /** Every source carries a key with the type the first one declares. */
  predicate KeyAgrees(conformed: seq<Conformed>, key: string)
    requires conformed != []
  {
    && Lookup(conformed[0].fields, key).Some?
    && forall i | 1 <= i < |conformed| ::
         && Lookup(conformed[i].fields, key).Some?
         && Lookup(conformed[i].fields, key).value.kind == Lookup(conformed[0].fields, key).value.kind
  }

  function KeyFields(fields: seq<Field>, keys: seq<string>): seq<Field>
    requires forall i | 0 <= i < |keys| :: Lookup(fields, keys[i]).Some?
  {
    seq(|keys|, i requires 0 <= i < |keys| => Lookup(fields, keys[i]).value)
  }

  predicate Mergeable(conformed: seq<Conformed>, keys: seq<string>)
    requires conformed != []
  {
    && (forall i | 0 <= i < |keys| :: KeyAgrees(conformed, keys[i]))
    && DistinctNames(AllBrought(conformed, keys, Inner))
  }

  function Merged(conformed: seq<Conformed>, keys: seq<string>, join: Join): seq<Field>
    requires conformed != [] && Mergeable(conformed, keys)
  {
    assert forall i | 0 <= i < |keys| :: KeyAgrees(conformed, keys[i]);
    KeyFields(conformed[0].fields, keys) + AllBrought(conformed, keys, join)
  }

  /** Marking fields optional renames nothing. */
  lemma {:induction false} BroughtNames(fields: seq<Field>, keys: seq<string>, join: Join)
    ensures |Brought(fields, keys, join)| == |Brought(fields, keys, Inner)|
    ensures forall i | 0 <= i < |Brought(fields, keys, join)| ::
              Brought(fields, keys, join)[i].name == Brought(fields, keys, Inner)[i].name
  {
    if fields != [] {
      BroughtNames(fields[..|fields| - 1], keys, join);
    }
  }

  lemma {:induction false} AllBroughtNames(conformed: seq<Conformed>, keys: seq<string>, join: Join)
    ensures |AllBrought(conformed, keys, join)| == |AllBrought(conformed, keys, Inner)|
    ensures forall i | 0 <= i < |AllBrought(conformed, keys, join)| ::
              AllBrought(conformed, keys, join)[i].name == AllBrought(conformed, keys, Inner)[i].name
  {
    if conformed != [] {
      AllBroughtNames(conformed[..|conformed| - 1], keys, join);
      BroughtNames(conformed[|conformed| - 1].fields, keys, join);
    }
  }

  /** The declared keys as the first source carries them, checked against every other source. */
  method MergeKeys(conformed: seq<Conformed>, keys: seq<string>) returns (r: Result<seq<Field>, CompositionError>)
    requires conformed != []
    ensures r.Ok? <==> forall i | 0 <= i < |keys| :: KeyAgrees(conformed, keys[i])
    ensures r.Ok? ==> r.value == KeyFields(conformed[0].fields, keys)
    ensures r.Err? ==> r.error.Unmergeable? && r.error.field in keys
  {
    var ordered: seq<Field> := [];
    for i := 0 to |keys|
      invariant forall k | 0 <= k < i :: KeyAgrees(conformed, keys[k])
      invariant |ordered| == i && forall k | 0 <= k < i :: ordered[k] == Lookup(conformed[0].fields, keys[k]).value
    {
      var carried := Lookup(conformed[0].fields, keys[i]);
      if carried.None? { return Err(Unmergeable(conformed[0].contract, keys[i])); }
      for j := 1 to |conformed|
        invariant forall k | 1 <= k < j :: Lookup(conformed[k].fields, keys[i]).Some?
                                           && Lookup(conformed[k].fields, keys[i]).value.kind == carried.value.kind
      {
        var candidate := Lookup(conformed[j].fields, keys[i]);
        if candidate.None? || candidate.value.kind != carried.value.kind {
          return Err(Unmergeable(conformed[j].contract, keys[i]));
        }
      }
      ordered := ordered + [carried.value];
    }
    return Ok(ordered);
  }

  /** The keys, then every other field each source brings, in declaration order. */
  method MergedFields(conformed: seq<Conformed>, keys: seq<string>, join: Join)
    returns (r: Result<seq<Field>, CompositionError>)
    requires conformed != []
    ensures r.Ok? <==> Mergeable(conformed, keys)
    ensures r.Ok? ==> r.value == Merged(conformed, keys, join)
    ensures r.Err? ==> r.error.Unmergeable?
  {
    var ordered := MergeKeys(conformed, keys);
    if ordered.Err? { return Err(ordered.error); }
    var brought: seq<Field> := [];
    for i := 0 to |conformed|
      invariant brought == AllBrought(conformed[..i], keys, join)
      invariant DistinctNames(AllBrought(conformed[..i], keys, Inner))
    {
      assert conformed[..i + 1][..i] == conformed[..i];
      var more := BringFields(conformed, i, keys, join, brought);
      if more.Err? {
        PrefixNotDistinct(conformed, i + 1, keys);
        return Err(more.error);
      }
      brought := more.value;
    }
    assert conformed[..|conformed|] == conformed;
    return Ok(ordered.value + brought);
  }

  /** The inner loop: one source's non-key fields, refused at the first name already brought. */
  method BringFields(conformed: seq<Conformed>, i: nat, keys: seq<string>, join: Join, before: seq<Field>)
    returns (r: Result<seq<Field>, CompositionError>)
    requires i < |conformed| && before == AllBrought(conformed[..i], keys, join)
    requires DistinctNames(AllBrought(conformed[..i], keys, Inner))
    ensures r.Ok? <==> DistinctNames(AllBrought(conformed[..i], keys, Inner)
            + Brought(conformed[i].fields, keys, Inner))
    ensures r.Ok? ==> r.value == before + Brought(conformed[i].fields, keys, join)
    ensures r.Err? ==> r.error.Unmergeable?
  {
    var fields := conformed[i].fields;
    var brought := before;
    ghost var unmarked := AllBrought(conformed[..i], keys, Inner);
    BringsNothing(conformed[..i], keys, join, fields);
    for j := 0 to |fields|
      invariant BringsTo(before, unmarked, brought, fields[..j], keys, join)
    {
      var more := BringField(conformed[i].contract, before, unmarked, brought, fields, keys, join, j);
      if more.Err? { return more; }
      brought := more.value;
    }
    assert fields[..|fields|] == fields;
    return Ok(brought);
  }

  /** One field: a key stays out, and so does a name already brought, which is refused. */
  method BringField(contract: string, ghost before: seq<Field>, ghost unmarked: seq<Field>, brought: seq<Field>,
                    fields: seq<Field>, keys: seq<string>, join: Join, j: nat)
    returns (r: Result<seq<Field>, CompositionError>)
    requires j < |fields| && BringsTo(before, unmarked, brought, fields[..j], keys, join)
    ensures r.Ok? ==> BringsTo(before, unmarked, r.value, fields[..j + 1], keys, join)
    ensures r.Err? ==> r.error.Unmergeable? && !DistinctNames(unmarked + Brought(fields, keys, Inner))
  {
    var field := fields[j];
    if field.name !in keys && Present(brought, field.name) {
      RepeatRefuses(before, unmarked, brought, fields, keys, join, j);
      return Err(Unmergeable(contract, field.name));
    }
    BringsOneMore(before, unmarked, brought, fields, keys, join, j);
    return Ok(if field.name in keys then brought
              else brought + [if join == Outer && field.required then field.(required := false) else field]);
  }

  /** What the fields bring beside `before`: under the names they bring unmarked, none twice. */
  ghost predicate BringsTo(before: seq<Field>, unmarked: seq<Field>, brought: seq<Field>, fields: seq<Field>,
                           keys: seq<string>, join: Join) {
    && brought == before + Brought(fields, keys, join)
    && SameNames(brought, unmarked + Brought(fields, keys, Inner))
    && DistinctNames(unmarked + Brought(fields, keys, Inner))
  }

  lemma BringsNothing(conformed: seq<Conformed>, keys: seq<string>, join: Join, fields: seq<Field>)
    requires DistinctNames(AllBrought(conformed, keys, Inner))
    ensures var before := AllBrought(conformed, keys, join);
            BringsTo(before, AllBrought(conformed, keys, Inner), before, fields[..0], keys, join)
  {
    AllBroughtNames(conformed, keys, join);
    var before, unmarked := AllBrought(conformed, keys, join), AllBrought(conformed, keys, Inner);
    assert before + [] == before && unmarked + [] == unmarked;
  }

  lemma BringsOneMore(before: seq<Field>, unmarked: seq<Field>, brought: seq<Field>, fields: seq<Field>,
      keys: seq<string>, join: Join, j: nat)
    requires j < |fields| && BringsTo(before, unmarked, brought, fields[..j], keys, join)
    requires fields[j].name in keys || !Present(brought, fields[j].name)
    ensures var field := fields[j];
            var next := if field.name in keys then brought
                        else brought + [if join == Outer && field.required then field.(required := false) else field];
            BringsTo(before, unmarked, next, fields[..j + 1], keys, join)
  {
    BroughtStep(fields, keys, join, j);
    BroughtStep(fields, keys, Inner, j);
    if fields[j].name !in keys {
      AppendDistinct(unmarked + Brought(fields[..j], keys, Inner), fields[j]);
      assert unmarked + Brought(fields[..j + 1], keys, Inner)
        == unmarked + Brought(fields[..j], keys, Inner) + [fields[j]];
    }
  }

  lemma RepeatRefuses(before: seq<Field>, unmarked: seq<Field>, brought: seq<Field>, fields: seq<Field>,
      keys: seq<string>, join: Join, j: nat)
    requires j < |fields| && BringsTo(before, unmarked, brought, fields[..j], keys, join)
    requires fields[j].name !in keys && Present(brought, fields[j].name)
    ensures !DistinctNames(unmarked + Brought(fields, keys, Inner))
  {
    var k :| 0 <= k < |brought| && brought[k].name == fields[j].name;
    assert (unmarked + Brought(fields[..j], keys, Inner))[k].name == fields[j].name;
    RepeatStays(unmarked, fields, keys, j);
  }

  lemma AppendDistinct(fields: seq<Field>, field: Field)
    requires DistinctNames(fields) && !Present(fields, field.name)
    ensures DistinctNames(fields + [field])
  {}

  predicate SameNames(a: seq<Field>, b: seq<Field>) {
    |a| == |b| && forall i | 0 <= i < |a| :: a[i].name == b[i].name
  }

  lemma {:induction false} BroughtGrows(fields: seq<Field>, keys: seq<string>, j: nat)
    requires j <= |fields|
    ensures Brought(fields[..j], keys, Inner) <= Brought(fields, keys, Inner)
    decreases |fields|
  {
    if j < |fields| {
      var init := fields[..|fields| - 1];
      assert init[..j] == fields[..j];
      BroughtGrows(init, keys, j);
    } else {
      assert fields[..j] == fields;
    }
  }

  /** A name brought twice is still brought twice when the source's other fields are added. */
  lemma RepeatStays(unmarked: seq<Field>, fields: seq<Field>, keys: seq<string>, j: nat)
    requires j < |fields| && fields[j].name !in keys
    requires Present(unmarked + Brought(fields[..j], keys, Inner), fields[j].name)
    ensures !DistinctNames(unmarked + Brought(fields, keys, Inner))
  {
    var early := unmarked + Brought(fields[..j], keys, Inner);
    var all := unmarked + Brought(fields, keys, Inner);
    BroughtStep(fields, keys, Inner, j);
    BroughtGrows(fields, keys, j + 1);
    var k :| 0 <= k < |early| && early[k].name == fields[j].name;
    assert early + [fields[j]] <= all;
    assert all[k].name == all[|early|].name;
  }

  lemma {:induction false} PrefixNotDistinct(conformed: seq<Conformed>, i: nat, keys: seq<string>)
    requires i <= |conformed| && !DistinctNames(AllBrought(conformed[..i], keys, Inner))
    ensures !DistinctNames(AllBrought(conformed, keys, Inner))
    decreases |conformed|
  {
    if i < |conformed| {
      var init := conformed[..|conformed| - 1];
      assert init[..i] == conformed[..i];
      PrefixNotDistinct(init, i, keys);
      var a := AllBrought(init, keys, Inner);
      var x, y :| 0 <= x < y < |a| && a[x].name == a[y].name;
      var all := AllBrought(conformed, keys, Inner);
      assert all[x] == a[x] && all[y] == a[y];
    } else {
      assert conformed[..i] == conformed;
    }
  }
}

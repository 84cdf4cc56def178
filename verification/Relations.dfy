/**
  The typed relations products publish and read, and the one way a read of a producer
  resolves to a relation (ergasterion/framework/contract.py:677-730, 1347-1544).
*/
module Relations {
  import opened Basics
  import opened Text

  datatype NeutralType = Simple(token: string) | DecimalOf(precision: nat, scale: nat)

  datatype Field = Field(
    name: string, kind: NeutralType, required: bool, description: Option<string>, physicalName: Option<string>)

  datatype Schema = Schema(name: string, fields: seq<Field>)

  /** A schema as everything but storage sees it: without the names its columns are stored under. */
  function Logical(schema: Schema): Schema {
    schema.(fields := LogicalFields(schema.fields))
  }

  function LogicalFields(fields: seq<Field>): seq<Field> {
    seq(|fields|, i requires 0 <= i < |fields| => fields[i].(physicalName := None))
  }

  function LogicalSchemas(schemas: map<string, Schema>): map<string, Schema> {
    map key | key in schemas :: Logical(schemas[key])
  }

  /** One relation of a product's shape; `suffix` is absent for the composition relation itself. */
  datatype ShapeRelation = ShapeRelation(schema: Schema, suffix: Option<string>)

  /** A declared read: a contract reference `<domain>.<name>@<major>`, and perhaps a relation. */
  datatype Read = Read(contract: string, relation: Option<string>)

  function PublishedName(contract: string): string {
    contract[..IndexOf(contract, '@')]
  }

  function Producer(read: Read): string { PublishedName(read.contract) }

  /** The key a read resolves under. */
  function ReadKey(read: Read): string {
    match read.relation
    case None => Producer(read)
    case Some(relation) => Producer(read) + ['#'] + relation
  }

  datatype ReadError = AmbiguousRelation | UnknownRelation | UnresolvedSource

  /** The name a consumer declares to read a relation: what follows the product prefix. */
  function RelationChoice(producer: string, relation: string): Option<string> {
    var prefix := producer + "__";
    if prefix <= relation then Some(relation[|prefix|..]) else None
  }

  function FirstChosen(available: seq<string>, producer: string, relation: string): Option<string> {
    if available == [] then None
    else if RelationChoice(producer, available[0]) == Some(relation) then Some(available[0])
    else FirstChosen(available[1..], producer, relation)
  }

  function ResolveRelationName(available: seq<string>, producer: string, relation: Option<string>)
    : Result<string, ReadError>
  {
    match relation
    case None => if |available| == 1 then Ok(available[0]) else Err(AmbiguousRelation)
    case Some(wanted) =>
      var chosen := FirstChosen(available, producer, wanted);
      if chosen.Some? then Ok(chosen.value) else Err(UnknownRelation)
  }

  /** A resolved name is the one name read by no relation, or the one a declared relation names. */
  lemma {:induction false} ChosenIsPublished(available: seq<string>, producer: string, relation: string)
    ensures var chosen := FirstChosen(available, producer, relation);
            && (chosen.Some? ==> chosen.value in available && chosen.value == producer + "__" + relation)
            && (chosen.None? ==> producer + "__" + relation !in available)
  {
    if available != [] {
      ChosenIsPublished(available[1..], producer, relation);
      var prefix := producer + "__";
      if prefix <= available[0] {
        assert available[0] == prefix + available[0][|prefix|..];
      }
      assert prefix + relation == producer + "__" + relation;
      assert (prefix + relation)[|prefix|..] == relation;
    }
  }

  /**
    A read resolves exactly when it names no relation of a producer that publishes one, or
    names, by what follows the product prefix, a relation the producer publishes.
  */
  lemma ResolvedNameExactly(available: seq<string>, producer: string, relation: Option<string>)
    ensures var name := ResolveRelationName(available, producer, relation);
            match relation
            case None =>
              (name.Ok? <==> |available| == 1) && (name.Ok? ==> available == [name.value])
              && (name.Err? ==> name.error == AmbiguousRelation)
            case Some(wanted) =>
              (name.Ok? <==> producer + "__" + wanted in available)
                && (name.Ok? ==> name.value == producer + "__" + wanted)
              && (name.Err? ==> name.error == UnknownRelation)
  {
    if relation.Some? { ChosenIsPublished(available, producer, relation.value); }
  }

  function Names(relations: seq<ShapeRelation>): seq<string> {
    seq(|relations|, i requires 0 <= i < |relations| => relations[i].schema.name)
  }

  function FirstNamed(relations: seq<ShapeRelation>, name: string): Option<ShapeRelation> {
    if relations == [] then None
    else if relations[0].schema.name == name then Some(relations[0])
    else FirstNamed(relations[1..], name)
  }

  type Registry = map<string, seq<ShapeRelation>>

  /** The schema one read resolves to. */
  function ResolveRead(read: Read, resolved: Registry, opening: map<string, Schema>): Result<Schema, ReadError> {
    var producer := Producer(read);
    if producer in resolved then
      var name := ResolveRelationName(Names(resolved[producer]), producer, read.relation);
      if name.Err? then Err(name.error) else
      var chosen := FirstNamed(resolved[producer], name.value);
      if chosen.Some? then Ok(chosen.value.schema) else Err(UnknownRelation)
    else if producer in opening then
      var name := ResolveRelationName([producer], producer, read.relation);
      if name.Err? then Err(name.error) else Ok(opening[producer])
    else Err(UnresolvedSource)
  }

  /** Every schema a consumer's composition propagates from, by read key. */
  function SourceSchemas(inputs: seq<Read>, resolved: Registry, opening: map<string, Schema>)
    : Result<map<string, Schema>, ReadError>
  {
    if inputs == [] then Ok(opening) else
    var init := SourceSchemas(inputs[..|inputs| - 1], resolved, opening);
    if init.Err? then init else
    var last := inputs[|inputs| - 1];
    var schema := ResolveRead(last, resolved, opening);
    if schema.Err? then Err(schema.error) else Ok(init.value[ReadKey(last) := schema.value])
  }

  // ---------------------------------------------------------------- what a read resolves to

  /** What stands before the first `@` of a reference, or all of it. */
  lemma PublishedNameExactly(name: string, rest: string)
    requires '@' !in name
    ensures PublishedName(name) == name && PublishedName(name + ['@'] + rest) == name
  {
    IndexOfSeparated(name, '@', rest);
    assert name[..|name|] == name && (name + ['@'] + rest)[..|name|] == name;
  }

  /** Reads of one producer share a key exactly when they name the same relation, or none. */
  lemma KeysNeverCollide(a: Read, b: Read)
    requires '#' !in Producer(a) && '#' !in Producer(b)
    ensures ReadKey(a) == ReadKey(b) <==> Producer(a) == Producer(b) && a.relation == b.relation
  {
    if ReadKey(a) == ReadKey(b) {
      KeyParts(a);
      KeyParts(b);
    }
  }

  lemma KeyParts(read: Read)
    requires '#' !in Producer(read)
    ensures var key := ReadKey(read);
            var i := IndexOf(key, '#');
            && key[..i] == Producer(read) && (read.relation.None? <==> i == |key|)
            && (read.relation.Some? ==> key[i + 1..] == read.relation.value)
  {
    if read.relation.Some? {
      IndexOfSeparated(Producer(read), '#', read.relation.value);
      assert ReadKey(read)[..|Producer(read)|] == Producer(read);
    } else {
      IndexOfSeparated(Producer(read), '#', []);
      assert ReadKey(read)[..|Producer(read)|] == Producer(read);
    }
  }

  /** The published name a read picks: the only one, or the one its declared relation is the end of. */
  predicate Picks(available: seq<string>, producer: string, relation: Option<string>, name: string) {
    match relation
    case None => available == [name]
    case Some(wanted) => name in available && name == producer + "__" + wanted
  }

  lemma PicksExactly(available: seq<string>, producer: string, relation: Option<string>, name: string)
    ensures ResolveRelationName(available, producer, relation) == Ok(name)
            <==> Picks(available, producer, relation, name)
  {
    ResolvedNameExactly(available, producer, relation);
  }

  /** The schema is that of the first relation of the producer under the name the read picks. */
  ghost predicate ReadsFrom(relations: seq<ShapeRelation>, read: Read, schema: Schema) {
    exists i | 0 <= i < |relations| ::
      && relations[i].schema == schema
      && Picks(Names(relations), Producer(read), read.relation, schema.name)
      && forall k | 0 <= k < i :: relations[k].schema.name != schema.name
  }

  lemma {:induction false} FirstNamedExactly(relations: seq<ShapeRelation>, name: string)
    ensures var r := FirstNamed(relations, name);
            && (r.Some? <==> exists i | 0 <= i < |relations| :: relations[i].schema.name == name)
            && (r.Some? ==> exists i | 0 <= i < |relations| ::
                              && relations[i] == r.value && relations[i].schema.name == name
                              && forall k | 0 <= k < i :: relations[k].schema.name != name)
  {
    if relations != [] && relations[0].schema.name != name {
      var tail := relations[1..];
      FirstNamedExactly(tail, name);
      assert forall i | 0 <= i < |tail| :: tail[i] == relations[i + 1];
      if i :| 1 <= i < |relations| && relations[i].schema.name == name { assert tail[i - 1].schema.name == name; }
      if FirstNamed(tail, name).Some? {
        var i :| 0 <= i < |tail| && tail[i] == FirstNamed(tail, name).value && tail[i].schema.name == name
          && forall k | 0 <= k < i :: tail[k].schema.name != name;
        assert relations[i + 1] == tail[i];
        assert forall k | 0 < k < i + 1 :: relations[k] == tail[k - 1];
      }
    }
  }

  /**
    A read of a product of the estate returns the schema of the relation it picks; one of an
    opening schema that schema, where it names no relation; and anything else is refused.
  */
  lemma ResolveReadExactly(read: Read, resolved: Registry, opening: map<string, Schema>, schema: Schema)
    ensures var producer, r := Producer(read), ResolveRead(read, resolved, opening);
            if producer in resolved then r == Ok(schema) <==> ReadsFrom(resolved[producer], read, schema)
            else if producer in opening then r == Ok(schema) <==> read.relation.None? && schema == opening[producer]
            else r == Err(UnresolvedSource)
  {
    var producer := Producer(read);
    if producer in resolved {
      ResolveFromShape(resolved[producer], read, schema);
    } else if producer in opening {
      ResolvedNameExactly([producer], producer, read.relation);
    }
  }

  lemma ResolveFromShape(relations: seq<ShapeRelation>, read: Read, schema: Schema)
    ensures var name := ResolveRelationName(Names(relations), Producer(read), read.relation);
            ReadsFrom(relations, read, schema)
            <==> name.Ok? && FirstNamed(relations, name.value).Some?
                 && FirstNamed(relations, name.value).value.schema == schema
  {
    PicksExactly(Names(relations), Producer(read), read.relation, schema.name);
    FirstNamedExactly(relations, schema.name);
    var name := ResolveRelationName(Names(relations), Producer(read), read.relation);
    if name.Ok? { FirstNamedExactly(relations, name.value); }
  }

  /** A refused read is ambiguous, unknown, or of a producer that is neither resolved nor opened with. */
  lemma RefusedReadExactly(read: Read, resolved: Registry, opening: map<string, Schema>)
    ensures var producer, r := Producer(read), ResolveRead(read, resolved, opening);
            && (r == Err(UnresolvedSource) <==> producer !in resolved && producer !in opening)
            && (r == Err(AmbiguousRelation)
                <==> producer in resolved && |resolved[producer]| != 1 && read.relation.None?)
  {
    var producer := Producer(read);
    if producer in resolved {
      var names := Names(resolved[producer]);
      ResolvedNameExactly(names, producer, read.relation);
      var name := ResolveRelationName(names, producer, read.relation);
      if name.Ok? {
        var i :| 0 <= i < |names| && names[i] == name.value;
        assert resolved[producer][i].schema.name == name.value;
        FirstNamedExactly(resolved[producer], name.value);
      }
    } else {
      ResolvedNameExactly([producer], producer, read.relation);
    }
  }

  // ---------------------------------------------------------------- the schemas a consumer propagates from

  /** The i-th read is the last one under the key, and resolves to the schema. */
  ghost predicate LastRead(inputs: seq<Read>, resolved: Registry, opening: map<string, Schema>, key: string,
      schema: Schema, i: nat) {
    && i < |inputs| && ReadKey(inputs[i]) == key && ResolveRead(inputs[i], resolved, opening) == Ok(schema)
    && forall k | i < k < |inputs| :: ReadKey(inputs[k]) != key
  }

  predicate NoReadUnder(inputs: seq<Read>, key: string) {
    forall k | 0 <= k < |inputs| :: ReadKey(inputs[k]) != key
  }

  /** Every key holds the schema its last read resolves to, and an unread one the opening schema. */
  ghost predicate HoldsRead(inputs: seq<Read>, resolved: Registry, opening: map<string, Schema>,
      schemas: map<string, Schema>, key: string) {
    if NoReadUnder(inputs, key)
    then (key in schemas <==> key in opening) && (key in schemas ==> schemas[key] == opening[key])
    else key in schemas && exists i :: LastRead(inputs, resolved, opening, key, schemas[key], i)
  }

  /** Every key of the schemas a consumer propagates from. */
  lemma {:induction false} SourceSchemasHold(inputs: seq<Read>, resolved: Registry, opening: map<string, Schema>,
      key: string)
    requires SourceSchemas(inputs, resolved, opening).Ok?
    ensures HoldsRead(inputs, resolved, opening, SourceSchemas(inputs, resolved, opening).value, key)
  {
    if inputs != [] {
      SourceSchemasHold(inputs[..|inputs| - 1], resolved, opening, key);
      var before := SourceSchemas(inputs[..|inputs| - 1], resolved, opening).value;
      OneMoreRead(inputs, resolved, opening, before, ResolveRead(inputs[|inputs| - 1], resolved, opening).value, key);
    }
  }

  lemma OneMoreRead(inputs: seq<Read>, resolved: Registry, opening: map<string, Schema>, before: map<string, Schema>,
      last: Schema, key: string)
    requires inputs != [] && ResolveRead(inputs[|inputs| - 1], resolved, opening) == Ok(last)
    requires HoldsRead(inputs[..|inputs| - 1], resolved, opening, before, key)
    ensures HoldsRead(inputs, resolved, opening, before[ReadKey(inputs[|inputs| - 1]) := last], key)
  {
    var n := |inputs| - 1;
    var after := before[ReadKey(inputs[n]) := last];
    if key == ReadKey(inputs[n]) {
      assert !NoReadUnder(inputs, key);
      assert key in after && LastRead(inputs, resolved, opening, key, after[key], n);
    } else {
      EarlierReads(inputs, key);
      if !NoReadUnder(inputs, key) {
        var i :| LastRead(inputs[..n], resolved, opening, key, before[key], i);
        LaterKeyKeeps(inputs, resolved, opening, key, before[key], i);
        assert key in after && LastRead(inputs, resolved, opening, key, after[key], i);
      }
    }
  }

  lemma EarlierReads(inputs: seq<Read>, key: string)
    requires inputs != [] && key != ReadKey(inputs[|inputs| - 1])
    ensures NoReadUnder(inputs, key) <==> NoReadUnder(inputs[..|inputs| - 1], key)
  {
    var init := inputs[..|inputs| - 1];
    assert forall k | 0 <= k < |init| :: init[k] == inputs[k];
  }

  lemma LaterKeyKeeps(inputs: seq<Read>, resolved: Registry, opening: map<string, Schema>, key: string,
      schema: Schema, i: nat)
    requires inputs != [] && key != ReadKey(inputs[|inputs| - 1])
    requires LastRead(inputs[..|inputs| - 1], resolved, opening, key, schema, i)
    ensures LastRead(inputs, resolved, opening, key, schema, i)
  {
    var init := inputs[..|inputs| - 1];
    assert forall k | 0 <= k < |init| :: init[k] == inputs[k];
  }

  /** The first read that is refused. */
  ghost predicate FirstRefused(inputs: seq<Read>, resolved: Registry, opening: map<string, Schema>, e: ReadError) {
    exists i | 0 <= i < |inputs| ::
      && ResolveRead(inputs[i], resolved, opening) == Err(e)
      && forall k | 0 <= k < i :: ResolveRead(inputs[k], resolved, opening).Ok?
  }

  /** The schemas exist exactly when every read resolves; otherwise the first that does not is told. */
  lemma {:induction false} SourceSchemasExactly(inputs: seq<Read>, resolved: Registry, opening: map<string, Schema>)
    ensures var r := SourceSchemas(inputs, resolved, opening);
            && (r.Ok? <==> forall i | 0 <= i < |inputs| :: ResolveRead(inputs[i], resolved, opening).Ok?)
            && (r.Err? ==> FirstRefused(inputs, resolved, opening, r.error))
  {
    if inputs != [] {
      var n := |inputs| - 1;
      var init := inputs[..n];
      SourceSchemasExactly(init, resolved, opening);
      assert forall i | 0 <= i < n :: init[i] == inputs[i];
      if SourceSchemas(init, resolved, opening).Err? {
        var e := SourceSchemas(init, resolved, opening).error;
        var i :| 0 <= i < n && ResolveRead(init[i], resolved, opening) == Err(e)
          && forall k | 0 <= k < i :: ResolveRead(init[k], resolved, opening).Ok?;
        assert ResolveRead(inputs[i], resolved, opening) == Err(e);
      }
    }
  }
}

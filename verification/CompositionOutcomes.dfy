/**
  What conforming and merging do to each field, position by position
  (ergasterion/framework/contract.py:810-885, 937-1013).
*/
module CompositionOutcomes {
  import opened Basics
  import opened Relations
  import opened Composition

  // ---------------------------------------------------------------- conforming

  lemma {:induction false} EntryExactly(mapping: seq<Conform>, name: string)
    requires RenamesOnce(mapping)
    ensures Entry(mapping, name).None? <==> forall k | 0 <= k < |mapping| :: mapping[k].from != name
    ensures forall k | 0 <= k < |mapping| && mapping[k].from == name :: Entry(mapping, name) == Some(mapping[k])
  {
    if mapping != [] {
      var tail := mapping[1..];
      assert forall k | 0 <= k < |tail| :: tail[k] == mapping[k + 1];
      EntryExactly(tail, name);
      assert forall k | 1 <= k < |mapping| :: mapping[k] == tail[k - 1];
    }
  }

  /**
    A column a mapping names is published under the entry's name and type, optional and without
    description or stored name; any other is published as it is but for its stored name. Either
    is read from under the name, and stored name, the source has for it.
  */
  lemma ConformExactly(fields: seq<Field>, mapping: seq<Conform>, i: nat)
    requires Conformable(fields, mapping) && i < |fields|
    ensures |ConformedFields(fields, mapping)| == |ConformedColumns(fields, mapping)| == |fields|
    ensures var field, column := ConformedFields(fields, mapping)[i], ConformedColumns(fields, mapping)[i];
            && column.sourceName == fields[i].name && column.name == field.name
            && column.physicalSourceName == fields[i].physicalName && field.physicalName == None
            && (forall k | 0 <= k < |mapping| && mapping[k].from == fields[i].name ::
                  && field.name == mapping[k].to && field.kind == mapping[k].kind && !field.required
                  && field.description == None && column.castKind == Some(mapping[k].kind))
            && ((forall k | 0 <= k < |mapping| :: mapping[k].from != fields[i].name) ==>
                  && field.name == fields[i].name && field.kind == fields[i].kind
                  && field.required == fields[i].required && field.description == fields[i].description
                  && column.castKind == None)
  {
    EntryExactly(mapping, fields[i].name);
  }

  // ---------------------------------------------------------------- which sources combine

  ghost predicate CarriesAs(fields: seq<Field>, name: string, kind: NeutralType) {
    exists i | 0 <= i < |fields| :: fields[i].name == name && fields[i].kind == kind
  }

  lemma CarriesExactly(fields: seq<Field>, name: string, kind: NeutralType)
    requires DistinctNames(fields)
    ensures CarriesAs(fields, name, kind) <==> Lookup(fields, name).Some? && Lookup(fields, name).value.kind == kind
  {
    LookupFinds(fields, name);
  }

  /** Two sources have one shape exactly when each carries every field of the other under its type. */
  lemma SameShapeExactly(a: seq<Field>, b: seq<Field>)
    requires DistinctNames(a) && DistinctNames(b)
    ensures SameShape(a, b)
            <==> && (forall i | 0 <= i < |a| :: CarriesAs(b, a[i].name, a[i].kind))
                 && (forall i | 0 <= i < |b| :: CarriesAs(a, b[i].name, b[i].kind))
  {
    forall i | 0 <= i < |a|
      ensures CarriesAs(b, a[i].name, a[i].kind)
              <==> Lookup(b, a[i].name).Some? && Lookup(b, a[i].name).value.kind == a[i].kind
    {
      CarriesExactly(b, a[i].name, a[i].kind);
    }
    if SameShape(a, b) {
      forall i | 0 <= i < |b|
        ensures CarriesAs(a, b[i].name, b[i].kind)
      {
        var k :| 0 <= k < |a| && a[k].name == b[i].name;
        LookupFinds(b, b[i].name);
        assert a[k].kind == b[i].kind;
      }
    }
  }

  ghost predicate AllCarryAs(conformed: seq<Conformed>, key: string, kind: NeutralType) {
    forall i | 0 <= i < |conformed| :: CarriesAs(conformed[i].fields, key, kind)
  }

  /** Every source carries the key, and under one type. */
  lemma KeyAgreesExactly(conformed: seq<Conformed>, key: string)
    requires conformed != [] && forall i | 0 <= i < |conformed| :: DistinctNames(conformed[i].fields)
    ensures KeyAgrees(conformed, key)
            <==> exists kind :: AllCarryAs(conformed, key, kind)
  {
    if KeyAgrees(conformed, key) {
      var kind := Lookup(conformed[0].fields, key).value.kind;
      forall i | 0 <= i < |conformed|
        ensures CarriesAs(conformed[i].fields, key, kind)
      {
        CarriesExactly(conformed[i].fields, key, kind);
      }
      assert AllCarryAs(conformed, key, kind);
    }
    if kind :| AllCarryAs(conformed, key, kind) {
      forall i | 0 <= i < |conformed|
        ensures Lookup(conformed[i].fields, key).Some? && Lookup(conformed[i].fields, key).value.kind == kind
      {
        CarriesExactly(conformed[i].fields, key, kind);
      }
    }
  }

  // ---------------------------------------------------------------- merging

  /** A field as a merge brings it: an outer one never publishes it as required. */
  predicate BroughtAs(field: Field, join: Join, published: Field) {
    && published.name == field.name && published.kind == field.kind && published.description == field.description
    && published.physicalName == field.physicalName && published.required == (field.required && join == Inner)
  }

  ghost predicate Increasing(places: seq<nat>) {
    forall a, b | 0 <= a < b < |places| :: places[a] < places[b]
  }

  /** The places, in order, of the fields one source brings: every one that is no key. */
  ghost predicate BringsAt(fields: seq<Field>, keys: seq<string>, join: Join, brought: seq<Field>, places: seq<nat>) {
    && |places| == |brought| && Increasing(places)
    && (forall n | 0 <= n < |places| ::
          places[n] < |fields| && fields[places[n]].name !in keys && BroughtAs(fields[places[n]], join, brought[n]))
    && forall k | 0 <= k < |fields| && fields[k].name !in keys :: k in places
  }

  /** One source brings exactly its fields that are no keys, in its own order. */
  lemma {:induction false} BroughtInOrder(fields: seq<Field>, keys: seq<string>, join: Join) returns (places: seq<nat>)
    ensures BringsAt(fields, keys, join, Brought(fields, keys, join), places)
  {
    places := [];
    if fields != [] {
      var init, n := fields[..|fields| - 1], |fields| - 1;
      places := BroughtInOrder(init, keys, join);
      assert forall k | 0 <= k < n :: init[k] == fields[k];
      var before := places;
      if fields[n].name !in keys {
        places := places + [n];
        assert n in places;
      }
      forall k | 0 <= k < |fields| && fields[k].name !in keys
        ensures k in places
      {
        if k < n { assert init[k].name !in keys && k in before; }
      }
    }
  }

  /** What the sources bring, one list a source. */
  function BroughtLists(conformed: seq<Conformed>, keys: seq<string>, join: Join): seq<seq<Field>> {
    seq(|conformed|, i requires 0 <= i < |conformed| => Brought(conformed[i].fields, keys, join))
  }

  lemma {:induction false} BroughtSourceBySource(conformed: seq<Conformed>, keys: seq<string>, join: Join)
    ensures AllBrought(conformed, keys, join) == Concatenated(BroughtLists(conformed, keys, join), |conformed|)
  {
    if conformed != [] {
      var n := |conformed| - 1;
      BroughtSourceBySource(conformed[..n], keys, join);
      var all, init := BroughtLists(conformed, keys, join), BroughtLists(conformed[..n], keys, join);
      assert init == all[..n];
      ConcatenatedPrefix(all, n, n);
    }
  }

  lemma {:induction false} ConcatenatedPrefix<T>(parts: seq<seq<T>>, m: nat, n: nat)
    requires n <= m <= |parts|
    ensures Concatenated(parts[..m], n) == Concatenated(parts, n)
    decreases n
  {
    if n > 0 { ConcatenatedPrefix(parts, m, n - 1); }
  }

  /**
    A merge publishes its keys, each as the first source has it, and then, source after source,
    every field that is no key.
  */
  lemma MergedExactly(conformed: seq<Conformed>, keys: seq<string>, join: Join)
    requires conformed != [] && Mergeable(conformed, keys)
    ensures var merged := Merged(conformed, keys, join);
            && |merged| >= |keys|
            && (forall k | 0 <= k < |keys| ::
                  merged[k].name == keys[k] && merged[k] in conformed[0].fields)
            && merged[|keys|..] == Concatenated(BroughtLists(conformed, keys, join), |conformed|)
  {
    BroughtSourceBySource(conformed, keys, join);
    assert forall k | 0 <= k < |keys| :: KeyAgrees(conformed, keys[k]);
    forall k | 0 <= k < |keys|
      ensures Merged(conformed, keys, join)[k].name == keys[k]
              && Merged(conformed, keys, join)[k] in conformed[0].fields
    {
      LookupFinds(conformed[0].fields, keys[k]);
      assert KeyFields(conformed[0].fields, keys)[k] == Lookup(conformed[0].fields, keys[k]).value;
    }
  }
}

/**
  The names a declaration states its relations and columns are stored under, placed on the
  relations the product publishes
  (ergasterion/framework/declaration.py:498-568; ergasterion/framework/graph.py:724-768).
*/
module StoredNames {
  import opened Basics
  import Relations

  datatype StoredColumn = StoredColumn(logical: string, physical: string)

  /** The names stated for one relation: the product's own, or the one its shape calls `key`. */
  datatype StoredEntry = StoredEntry(
    key: Option<string>, schema: Option<string>, name: Option<string>, columns: seq<StoredColumn>)

  datatype StoredRelation = StoredRelation(
    product: string, relation: string, schema: Option<string>, name: Option<string>)

  datatype StoredField = StoredField(product: string, relation: string, field: string, name: string)

  /** A declaration's block, one entry a key. */
  type StoredBlock = entries: seq<StoredEntry> | DistinctKeys(entries)

  predicate DistinctKeys(entries: seq<StoredEntry>) {
    forall i, j | 0 <= i < j < |entries| :: entries[i].key != entries[j].key
  }

  // ---------------------------------------------------------------- addressing a relation

  function Address(published: string, key: Option<string>): string {
    if key.None? then published else published + "__" + key.value
  }

  predicate Addressable(published: string, names: seq<string>, key: Option<string>) {
    Address(published, key) in names
  }

  /** Two keys never address one relation. */
  lemma AddressIdentifies(published: string, a: Option<string>, b: Option<string>)
    ensures Address(published, a) == Address(published, b) <==> a == b
  {
    if Address(published, a) == Address(published, b) {
      assert |Address(published, a)| == |Address(published, b)|;
      if a.Some? && b.Some? {
        var n := |published + "__"|;
        assert a.value == Address(published, a)[n..] && b.value == Address(published, b)[n..];
      }
    }
  }

  function KeyFor(published: string, name: string): Option<Option<string>> {
    var prefix := published + "__";
    if name == published then Some(None)
    else if prefix <= name then Some(Some(name[|prefix|..]))
    else None
  }

  lemma KeyForExactly(published: string, name: string, key: Option<string>)
    ensures KeyFor(published, name) == Some(key) <==> Address(published, key) == name
  {
    var prefix := published + "__";
    if KeyFor(published, name).Some? {
      assert prefix <= name ==> prefix + name[|prefix|..] == name;
      AddressIdentifies(published, KeyFor(published, name).value, key);
    } else if key.Some? {
      assert prefix <= prefix + key.value;
    }
  }

  /** The published relations by the key a declaration addresses them with. */
  method AddressableRelations(published: string, names: seq<string>) returns (relations: map<Option<string>, string>)
    ensures forall key :: key in relations <==> Addressable(published, names, key)
    ensures forall key | key in relations :: relations[key] == Address(published, key)
  {
    relations := map[];
    for i := 0 to |names|
      invariant forall key :: key in relations <==> Address(published, key) in names[..i]
      invariant forall key | key in relations :: relations[key] == Address(published, key)
    {
      forall key: Option<string>
        ensures KeyFor(published, names[i]) == Some(key) <==> Address(published, key) == names[i]
      {
        KeyForExactly(published, names[i], key);
      }
      assert names[..i + 1] == names[..i] + [names[i]];
      var key := KeyFor(published, names[i]);
      if key.Some? { relations := relations[key.value := names[i]]; }
    }
    assert names[..|names|] == names;
  }

  /** A key addresses a relation exactly where a read that declares it resolves to that relation. */
  lemma AddressedAsRead(published: string, names: seq<string>, key: string)
    ensures Relations.ResolveRelationName(names, published, Some(key))
            == if Addressable(published, names, Some(key)) then Ok(Address(published, Some(key)))
               else Err(Relations.UnknownRelation)
    ensures Relations.RelationChoice(published, Address(published, Some(key))) == Some(key)
    ensures Address(published, None) == published
  {
    Relations.ResolvedNameExactly(names, published, Some(key));
    var prefix := published + "__";
    assert prefix <= prefix + key && (prefix + key)[|prefix|..] == key;
  }

  // ---------------------------------------------------------------- the records of a declaration

  function EntryRelations(published: string, entry: StoredEntry): seq<StoredRelation> {
    if entry.name.None? && entry.schema.None? then []
    else [StoredRelation(published, Address(published, entry.key), entry.schema, entry.name)]
  }

  function EntryFields(published: string, entry: StoredEntry): seq<StoredField> {
    seq(|entry.columns|, i requires 0 <= i < |entry.columns| =>
      StoredField(published, Address(published, entry.key), entry.columns[i].logical, entry.columns[i].physical))
  }

  function StoredRelations(published: string, block: seq<StoredEntry>): seq<StoredRelation> {
    if block == [] then []
    else StoredRelations(published, block[..|block| - 1]) + EntryRelations(published, block[|block| - 1])
  }

  function StoredFields(published: string, block: seq<StoredEntry>): seq<StoredField> {
    if block == [] then []
    else StoredFields(published, block[..|block| - 1]) + EntryFields(published, block[|block| - 1])
  }

  /** Every stated name is of a relation the product publishes. */
  predicate StoredKnown(published: string, names: seq<string>, block: seq<StoredEntry>) {
    forall i | 0 <= i < |block| :: Addressable(published, names, block[i].key)
  }

  /** The first key of the block that addresses no relation the product publishes. */
  ghost predicate FirstUnknown(published: string, names: seq<string>, block: seq<StoredEntry>, key: Option<string>) {
    exists i | 0 <= i < |block| :: block[i].key == key && !Addressable(published, names, key)
                                   && StoredKnown(published, names, block[..i])
  }

  /** The records of the block, or the first key that addresses nothing. */
  method StoredNamesFor(published: string, block: StoredBlock, names: seq<string>)
    returns (r: Result<(seq<StoredRelation>, seq<StoredField>), Option<string>>)
    ensures r.Ok? <==> StoredKnown(published, names, block)
    ensures r.Ok? ==> r.value == (StoredRelations(published, block), StoredFields(published, block))
    ensures r.Err? ==> FirstUnknown(published, names, block, r.error)
  {
    var addressable := AddressableRelations(published, names);
    var relations: seq<StoredRelation> := [];
    var fields: seq<StoredField> := [];
    for i := 0 to |block|
      invariant StoredKnown(published, names, block[..i])
      invariant relations == StoredRelations(published, block[..i]) && fields == StoredFields(published, block[..i])
    {
      var entry := block[i];
      if entry.key !in addressable {
        assert !Addressable(published, names, block[i].key);
        return Err(entry.key);
      }
      OneMoreEntry(published, names, block, i);
      var relation := addressable[entry.key];
      if entry.name.Some? || entry.schema.Some? {
        relations := relations + [StoredRelation(published, relation, entry.schema, entry.name)];
      }
      var columns := ColumnsOf(published, relation, entry);
      fields := fields + columns;
    }
    assert block[..|block|] == block;
    return Ok((relations, fields));
  }

  lemma OneMoreEntry(published: string, names: seq<string>, block: seq<StoredEntry>, i: nat)
    requires i < |block| && StoredKnown(published, names, block[..i]) && Addressable(published, names, block[i].key)
    ensures StoredKnown(published, names, block[..i + 1])
    ensures StoredRelations(published, block[..i + 1])
            == StoredRelations(published, block[..i]) + EntryRelations(published, block[i])
    ensures StoredFields(published, block[..i + 1])
            == StoredFields(published, block[..i]) + EntryFields(published, block[i])
  {
    assert block[..i + 1][..i] == block[..i] && block[..i + 1][i] == block[i];
  }

  method ColumnsOf(published: string, relation: string, entry: StoredEntry) returns (fields: seq<StoredField>)
    requires relation == Address(published, entry.key)
    ensures fields == EntryFields(published, entry)
  {
    fields := [];
    for j := 0 to |entry.columns|
      invariant fields == EntryFields(published, entry)[..j]
    {
      fields := fields + [StoredField(published, relation, entry.columns[j].logical, entry.columns[j].physical)];
    }
  }

  // ---------------------------------------------------------------- what the records say

  /** A relation has a record exactly where its entry states a schema or a name. */
  lemma {:induction false} StoredRelationsExactly(published: string, block: seq<StoredEntry>, r: StoredRelation)
    ensures r in StoredRelations(published, block) <==>
            exists i | 0 <= i < |block| ::
              && (block[i].name.Some? || block[i].schema.Some?)
              && r == StoredRelation(published, Address(published, block[i].key), block[i].schema, block[i].name)
  {
    if block != [] {
      var init := block[..|block| - 1];
      StoredRelationsExactly(published, init, r);
      assert forall i | 0 <= i < |init| :: init[i] == block[i];
    }
  }

  /** The record is of one of the entry's columns: its logical name, under its physical name. */
  ghost predicate ColumnStated(published: string, entry: StoredEntry, f: StoredField) {
    && f.product == published && f.relation == Address(published, entry.key)
    && StoredColumn(f.field, f.name) in entry.columns
  }

  lemma EntryFieldsExactly(published: string, entry: StoredEntry, f: StoredField)
    ensures f in EntryFields(published, entry) <==> ColumnStated(published, entry, f)
  {
    var listed := EntryFields(published, entry);
    if ColumnStated(published, entry, f) {
      var j :| 0 <= j < |entry.columns| && entry.columns[j] == StoredColumn(f.field, f.name);
      assert listed[j] == f;
    }
  }

  /** A column has a record exactly where its entry states a name for it. */
  lemma {:induction false} StoredFieldsExactly(published: string, block: seq<StoredEntry>, f: StoredField)
    ensures f in StoredFields(published, block) <==>
            exists i | 0 <= i < |block| :: ColumnStated(published, block[i], f)
  {
    if block != [] {
      var init := block[..|block| - 1];
      StoredFieldsExactly(published, init, f);
      EntryFieldsExactly(published, block[|block| - 1], f);
      assert forall i | 0 <= i < |init| :: init[i] == block[i];
    }
  }

  ghost predicate OneRecordEach(records: seq<StoredRelation>) {
    forall i, j | 0 <= i < j < |records| ::
      records[i].product == records[j].product ==> records[i].relation != records[j].relation
  }

  /** No relation is recorded twice. */
  lemma {:induction false} StoredOnce(published: string, block: seq<StoredEntry>)
    requires DistinctKeys(block)
    ensures OneRecordEach(StoredRelations(published, block))
  {
    if block != [] {
      var init, n := block[..|block| - 1], |block| - 1;
      StoredOnce(published, init);
      var records := StoredRelations(published, init);
      forall k | 0 <= k < |records|
        ensures records[k].relation != Address(published, block[n].key)
      {
        StoredRelationsExactly(published, init, records[k]);
        var i :| 0 <= i < n && records[k].relation == Address(published, init[i].key);
        AddressIdentifies(published, init[i].key, block[n].key);
      }
    }
  }

  /** The records of one product speak of relations it publishes. */
  lemma StoredArePublished(published: string, names: seq<string>, block: seq<StoredEntry>)
    requires StoredKnown(published, names, block)
    ensures forall r | r in StoredRelations(published, block) :: r.product == published && r.relation in names
    ensures forall f | f in StoredFields(published, block) :: f.product == published && f.relation in names
  {
    forall r | r in StoredRelations(published, block)
      ensures r.product == published && r.relation in names
    {
      StoredRelationsExactly(published, block, r);
      var i :| 0 <= i < |block| && r.product == published && r.relation == Address(published, block[i].key);
    }
    forall f | f in StoredFields(published, block)
      ensures f.product == published && f.relation in names
    {
      StoredFieldsExactly(published, block, f);
      var i :| 0 <= i < |block| && ColumnStated(published, block[i], f);
    }
  }
}

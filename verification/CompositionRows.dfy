/**
  What an opening composition means for rows: published required marks hold of every row a
  union or a merge can produce, and stacking by position is stacking by name
  (ergasterion/framework/contract.py:888-1110).
*/
module CompositionRows {
  import opened Basics
  import opened Relations
  import opened Composition

  /** A stored value; a cell without one is null. */
  datatype Value = Value(text: string)
  type Cell = Option<Value>
  type Row = map<string, Cell>

  /** Every field has a cell, and a required field's cell is not null. */
  ghost predicate Satisfies(row: Row, fields: seq<Field>) {
    forall i | 0 <= i < |fields| :: fields[i].name in row && (fields[i].required ==> row[fields[i].name].Some?)
  }

  // ---------------------------------------------------------------- conforming rows

  /** How a column's cast maps a cell; a null stays null. */
  type Cast = (NeutralType, Value) -> Cell

  function CastCell(cast: Cast, column: Column, cell: Cell): Cell {
    if cell.Some? && column.castKind.Some? then cast(column.castKind.value, cell.value) else cell
  }

  /** A source row as it reaches the composition. */
  function ConformRow(cast: Cast, columns: seq<Column>, row: Row): Row
    requires forall i | 0 <= i < |columns| :: columns[i].sourceName in row
  {
    if columns == [] then map[] else
    var n := |columns| - 1;
    ConformRow(cast, columns[..n], row)[columns[n].name := CastCell(cast, columns[n], row[columns[n].sourceName])]
  }

  lemma {:induction false} ConformedCells(cast: Cast, columns: seq<Column>, row: Row, i: nat)
    requires i < |columns| && forall k | 0 <= k < |columns| :: columns[k].sourceName in row
    requires forall a, b | 0 <= a < b < |columns| :: columns[a].name != columns[b].name
    ensures columns[i].name in ConformRow(cast, columns, row)
    ensures ConformRow(cast, columns, row)[columns[i].name] == CastCell(cast, columns[i], row[columns[i].sourceName])
  {
    var n := |columns| - 1;
    if i < n {
      ConformedCells(cast, columns[..n], row, i);
    }
  }

  /** A row that satisfies its source's schema still satisfies the conformed fields. */
  lemma ConformKeepsMarks(cast: Cast, mapping: seq<Conform>, fields: seq<Field>, row: Row)
    requires Conformable(fields, mapping) && Satisfies(row, fields)
    ensures forall i | 0 <= i < |fields| :: ConformedColumns(fields, mapping)[i].sourceName in row
    ensures Satisfies(ConformRow(cast, ConformedColumns(fields, mapping), row), ConformedFields(fields, mapping))
  {
    var columns, conformed := ConformedColumns(fields, mapping), ConformedFields(fields, mapping);
    forall i | 0 <= i < |columns|
      ensures columns[i].sourceName in row && columns[i].name == conformed[i].name
    {
      assert fields[i].name in row;
    }
    forall i | 0 <= i < |conformed|
      ensures conformed[i].name in ConformRow(cast, columns, row)
      ensures conformed[i].required ==> ConformRow(cast, columns, row)[conformed[i].name].Some?
    {
      ConformedCells(cast, columns, row, i);
    }
  }

  // ---------------------------------------------------------------- union

  /** Every required field of `published` is required under the same name. */
  ghost predicate AtLeastAsRequired(fields: seq<Field>, published: seq<Field>) {
    forall i | 0 <= i < |published| && published[i].required ::
      Lookup(fields, published[i].name).Some? && Lookup(fields, published[i].name).value.required
  }

  /** A row of nulls wherever the fields allow one. */
  function Sparse(fields: seq<Field>): Row {
    map i | 0 <= i < |fields| :: fields[i].name := if Required(fields, fields[i].name) then Some(Value("")) else None
  }

  predicate Required(fields: seq<Field>, name: string) {
    exists i | 0 <= i < |fields| :: fields[i].name == name && fields[i].required
  }

  lemma SparseSatisfies(fields: seq<Field>)
    ensures Satisfies(Sparse(fields), fields)
  {
    forall i | 0 <= i < |fields|
      ensures fields[i].name in Sparse(fields) && (fields[i].required ==> Sparse(fields)[fields[i].name].Some?)
    {}
  }

  lemma MarksHold(fields: seq<Field>, published: seq<Field>, row: Row)
    requires SameShape(published, fields) && AtLeastAsRequired(fields, published) && Satisfies(row, fields)
    ensures Satisfies(row, published)
  {
    forall i | 0 <= i < |published|
      ensures published[i].name in row && (published[i].required ==> row[published[i].name].Some?)
    {
      LookupFinds(fields, published[i].name);
      var k :| 0 <= k < |fields| && fields[k] == Lookup(fields, published[i].name).value;
    }
  }

  lemma SparseBreaks(fields: seq<Field>, published: seq<Field>)
    requires SameShape(published, fields) && DistinctNames(fields) && !AtLeastAsRequired(fields, published)
    ensures !Satisfies(Sparse(fields), published)
  {
    var i :| 0 <= i < |published| && published[i].required
             && !(Lookup(fields, published[i].name).Some? && Lookup(fields, published[i].name).value.required);
    LookupFinds(fields, published[i].name);
    assert !Required(fields, published[i].name);
    assert published[i].name in Sparse(fields) && Sparse(fields)[published[i].name].None?;
  }

  /**
    A union publishes the first source's required marks; they hold of every row of another
    source exactly when that source is at least as required.
  */
  lemma UnionMarksExactly(published: seq<Field>, fields: seq<Field>)
    requires SameShape(published, fields) && DistinctNames(fields)
    ensures (forall row | Satisfies(row, fields) :: Satisfies(row, published)) <==> AtLeastAsRequired(fields, published)
  {
    if AtLeastAsRequired(fields, published) {
      forall row | Satisfies(row, fields)
        ensures Satisfies(row, published)
      {
        MarksHold(fields, published, row);
      }
    } else {
      SparseSatisfies(fields);
      SparseBreaks(fields, published);
    }
  }

  // ---------------------------------------------------------------- merge

  /** A cell of a row, or null on a side that has no row. */
  function CellOf(row: Option<Row>, name: string): Cell {
    if row.Some? && name in row.value then row.value[name] else None
  }

  /** The first cell among the sides that is not null. */
  function Coalesce(tuple: seq<Option<Row>>, name: string): Cell {
    if tuple == [] then None
    else if CellOf(tuple[0], name).Some? then CellOf(tuple[0], name)
    else Coalesce(tuple[1..], name)
  }

  lemma {:induction false} CoalesceFinds(tuple: seq<Option<Row>>, name: string)
    ensures Coalesce(tuple, name).Some? <==> exists i | 0 <= i < |tuple| :: CellOf(tuple[i], name).Some?
  {
    if tuple != [] && CellOf(tuple[0], name).None? {
      CoalesceFinds(tuple[1..], name);
      assert forall i | 1 <= i < |tuple| :: tuple[i] == tuple[1..][i - 1];
    }
  }

  /** The cells one side contributes beside the keys. */
  function SideCells(fields: seq<Field>, keys: seq<string>, row: Option<Row>): Row {
    map i | 0 <= i < |fields| && fields[i].name !in keys :: fields[i].name := CellOf(row, fields[i].name)
  }

  function AllSideCells(conformed: seq<Conformed>, keys: seq<string>, tuple: seq<Option<Row>>): Row
    requires |conformed| == |tuple|
  {
    if conformed == [] then map[]
    else
      var n := |conformed| - 1;
      AllSideCells(conformed[..n], keys, tuple[..n]) + SideCells(conformed[n].fields, keys, tuple[n])
  }

  /** The row a merge produces: coalesced keys beside every other column of each side. */
  function MergedRow(conformed: seq<Conformed>, keys: seq<string>, tuple: seq<Option<Row>>): Row
    requires |conformed| == |tuple|
  {
    AllSideCells(conformed, keys, tuple) + map i | 0 <= i < |keys| :: keys[i] := Coalesce(tuple, keys[i])
  }

  /** Sides a join puts side by side: all of them under inner, and equal non-null keys. */
  ghost predicate Joined(join: Join, keys: seq<string>, tuple: seq<Option<Row>>) {
    && (join == Inner ==> forall i | 0 <= i < |tuple| :: tuple[i].Some?)
    && (exists i | 0 <= i < |tuple| :: tuple[i].Some?)
    && (forall i, j, key | 0 <= i < j < |tuple| && tuple[i].Some? && tuple[j].Some? && key in keys ::
          CellOf(tuple[i], key).Some? && CellOf(tuple[i], key) == CellOf(tuple[j], key))
  }

  ghost predicate SidesSatisfy(conformed: seq<Conformed>, tuple: seq<Option<Row>>) {
    && |tuple| == |conformed|
    && forall i | 0 <= i < |tuple| && tuple[i].Some? :: Satisfies(tuple[i].value, conformed[i].fields)
  }

  lemma {:induction false} BroughtPresent(fields: seq<Field>, keys: seq<string>, join: Join, name: string)
    ensures Present(Brought(fields, keys, join), name) <==> name !in keys && Present(fields, name)
  {
    if fields != [] {
      var init, last := fields[..|fields| - 1], fields[|fields| - 1];
      BroughtPresent(init, keys, join, name);
      PresentAppends(init, last, name);
      assert fields == init + [last];
      if last.name !in keys {
        PresentAppends(Brought(init, keys, join),
                       if join == Outer && last.required then last.(required := false) else last, name);
      }
    }
  }

  lemma PresentAppends(fields: seq<Field>, field: Field, name: string)
    ensures Present(fields + [field], name) <==> Present(fields, name) || field.name == name
  {
    var all := fields + [field];
    if Present(fields, name) {
      var i :| 0 <= i < |fields| && fields[i].name == name;
      assert all[i].name == name;
    }
    if field.name == name { assert all[|fields|].name == name; }
  }

  /** Where names are brought once, each side's cell reaches the merged row. */
  lemma {:induction false} SideCellReaches(conformed: seq<Conformed>, keys: seq<string>, tuple: seq<Option<Row>>,
      i: nat, name: string)
    requires |conformed| == |tuple| && i < |conformed| && DistinctNames(AllBrought(conformed, keys, Inner))
    requires name !in keys && Present(conformed[i].fields, name)
    ensures name in AllSideCells(conformed, keys, tuple)
    ensures AllSideCells(conformed, keys, tuple)[name] == CellOf(tuple[i], name)
    ensures Present(AllBrought(conformed, keys, Inner), name)
  {
    var n := |conformed| - 1;
    var early, late := AllBrought(conformed[..n], keys, Inner), Brought(conformed[n].fields, keys, Inner);
    BroughtPresent(conformed[n].fields, keys, Inner, name);
    PresentInEither(early, late, name);
    if i < n {
      DistinctPrefix(early, late);
      SideCellReaches(conformed[..n], keys, tuple[..n], i, name);
      DistinctSides(early, late, name);
    }
  }

  lemma PresentInEither(a: seq<Field>, b: seq<Field>, name: string)
    ensures Present(a, name) || Present(b, name) ==> Present(a + b, name)
  {
    if i :| 0 <= i < |a| && a[i].name == name { assert (a + b)[i].name == name; }
    if i :| 0 <= i < |b| && b[i].name == name { assert (a + b)[|a| + i].name == name; }
  }

  lemma DistinctSides(a: seq<Field>, b: seq<Field>, name: string)
    requires DistinctNames(a + b) && Present(a, name)
    ensures !Present(b, name)
  {
    var i :| 0 <= i < |a| && a[i].name == name;
    forall j | 0 <= j < |b|
      ensures b[j].name != name
    {
      assert (a + b)[i].name != (a + b)[|a| + j].name;
    }
  }

  lemma DistinctPrefix(a: seq<Field>, b: seq<Field>)
    requires DistinctNames(a + b)
    ensures DistinctNames(a)
  {
    assert forall i | 0 <= i < |a| :: (a + b)[i] == a[i];
  }

  /** A brought field comes from a field of one side, optional if the merge is outer. */
  lemma {:induction false} BroughtFrom(conformed: seq<Conformed>, keys: seq<string>, join: Join, k: nat)
      returns (i: nat, j: nat)
    requires k < |AllBrought(conformed, keys, join)|
    ensures i < |conformed| && j < |conformed[i].fields|
    ensures var f := AllBrought(conformed, keys, join)[k];
            && f.name == conformed[i].fields[j].name && f.name !in keys
            && (f.required ==> join == Inner && conformed[i].fields[j].required)
  {
    var n := |conformed| - 1;
    var early := AllBrought(conformed[..n], keys, join);
    if k < |early| {
      i, j := BroughtFrom(conformed[..n], keys, join, k);
    } else {
      i := n;
      j := BroughtFromSide(conformed[n].fields, keys, join, k - |early|);
    }
  }

  lemma {:induction false} BroughtFromSide(fields: seq<Field>, keys: seq<string>, join: Join, k: nat) returns (j: nat)
    requires k < |Brought(fields, keys, join)|
    ensures j < |fields|
    ensures var f := Brought(fields, keys, join)[k];
            && f.name == fields[j].name && f.name !in keys
            && (f.required ==> join == Inner && fields[j].required)
  {
    var init := fields[..|fields| - 1];
    if k < |Brought(init, keys, join)| {
      j := BroughtFromSide(init, keys, join, k);
    } else {
      j := |fields| - 1;
    }
  }

  /** Whatever the join, the columns beside the keys satisfy their published marks. */
  lemma BroughtMarksHold(conformed: seq<Conformed>, keys: seq<string>, join: Join, tuple: seq<Option<Row>>, k: nat)
    requires conformed != [] && Mergeable(conformed, keys)
    requires SidesSatisfy(conformed, tuple) && Joined(join, keys, tuple)
    requires k < |AllBrought(conformed, keys, join)|
    ensures var f := AllBrought(conformed, keys, join)[k];
            && f.name in MergedRow(conformed, keys, tuple)
            && (f.required ==> MergedRow(conformed, keys, tuple)[f.name].Some?)
  {
    var i, j := BroughtFrom(conformed, keys, join, k);
    var name := AllBrought(conformed, keys, join)[k].name;
    assert conformed[i].fields[j].name == name;
    SideCellReaches(conformed, keys, tuple, i, name);
  }

  /** Every key the first source requires is required by every source. */
  ghost predicate KeysAsRequired(conformed: seq<Conformed>, keys: seq<string>)
    requires conformed != []
  {
    forall key, i | key in keys && 0 <= i < |conformed| ::
      RequiredKey(conformed[0], key) ==> RequiredKey(conformed[i], key)
  }

  ghost predicate RequiredKey(source: Conformed, key: string) {
    Lookup(source.fields, key).Some? && Lookup(source.fields, key).value.required
  }

  /** A present side whose key is required has a key cell. */
  lemma RequiredKeyCell(conformed: seq<Conformed>, tuple: seq<Option<Row>>, i: nat, key: string)
    requires SidesSatisfy(conformed, tuple) && i < |tuple| && tuple[i].Some? && RequiredKey(conformed[i], key)
    ensures CellOf(tuple[i], key).Some?
  {
    LookupFinds(conformed[i].fields, key);
    var f :| f in conformed[i].fields && f.name == key && f.required;
    var j :| 0 <= j < |conformed[i].fields| && conformed[i].fields[j] == f;
  }

  lemma KeyMarksHold(conformed: seq<Conformed>, keys: seq<string>, join: Join, tuple: seq<Option<Row>>, k: nat)
    requires conformed != [] && Mergeable(conformed, keys) && k < |keys|
    requires SidesSatisfy(conformed, tuple) && Joined(join, keys, tuple)
    requires join == Inner || KeysAsRequired(conformed, keys)
    ensures keys[k] in MergedRow(conformed, keys, tuple)
    ensures RequiredKey(conformed[0], keys[k]) ==> MergedRow(conformed, keys, tuple)[keys[k]].Some?
  {
    CoalesceFinds(tuple, keys[k]);
    if RequiredKey(conformed[0], keys[k]) {
      var i :| 0 <= i < |tuple| && tuple[i].Some?;
      if join == Inner { i := 0; }
      RequiredKeyCell(conformed, tuple, i, keys[k]);
    }
  }

  /** The marks a merge publishes hold of every row it produces. */
  lemma MergeMarksHold(conformed: seq<Conformed>, keys: seq<string>, join: Join, tuple: seq<Option<Row>>)
    requires conformed != [] && Mergeable(conformed, keys)
    requires SidesSatisfy(conformed, tuple) && Joined(join, keys, tuple)
    requires join == Inner || KeysAsRequired(conformed, keys)
    ensures Satisfies(MergedRow(conformed, keys, tuple), Merged(conformed, keys, join))
  {
    var published, row := Merged(conformed, keys, join), MergedRow(conformed, keys, tuple);
    forall k | 0 <= k < |published|
      ensures published[k].name in row && (published[k].required ==> row[published[k].name].Some?)
    {
      if k < |keys| {
        PublishedKey(conformed, keys, join, k);
        KeyMarksHold(conformed, keys, join, tuple, k);
      } else {
        BroughtMarksHold(conformed, keys, join, tuple, k - |keys|);
      }
    }
  }

  /** The k-th published field of a merge is its k-th key as the first source has it. */
  lemma PublishedKey(conformed: seq<Conformed>, keys: seq<string>, join: Join, k: nat)
    requires conformed != [] && Mergeable(conformed, keys) && k < |keys|
    ensures var published := Merged(conformed, keys, join);
            k < |published| && published[k].name == keys[k]
            && (published[k].required <==> RequiredKey(conformed[0], keys[k]))
  {
    assert KeyAgrees(conformed, keys[k]);
    LookupFinds(conformed[0].fields, keys[k]);
  }

  /** A row of only one side, where the key the first source requires is null. */
  function Lonely(conformed: seq<Conformed>, i: nat): seq<Option<Row>>
    requires i < |conformed|
  {
    seq(|conformed|, k requires 0 <= k < |conformed| => if k == i then Some(Sparse(conformed[i].fields)) else None)
  }

  lemma LonelyAllowed(conformed: seq<Conformed>, keys: seq<string>, i: nat)
    requires i < |conformed|
    ensures SidesSatisfy(conformed, Lonely(conformed, i)) && Joined(Outer, keys, Lonely(conformed, i))
  {
    SparseSatisfies(conformed[i].fields);
    assert Lonely(conformed, i)[i].Some?;
  }

  lemma LonelyKeyIsNull(conformed: seq<Conformed>, i: nat, key: string)
    requires i < |conformed| && DistinctNames(conformed[i].fields) && !RequiredKey(conformed[i], key)
    ensures Coalesce(Lonely(conformed, i), key).None?
  {
    var tuple := Lonely(conformed, i);
    CoalesceFinds(tuple, key);
    LookupFinds(conformed[i].fields, key);
    assert !Required(conformed[i].fields, key);
  }

  lemma LonelyBreaks(conformed: seq<Conformed>, keys: seq<string>, i: nat, k: nat)
    requires conformed != [] && Mergeable(conformed, keys) && i < |conformed| && k < |keys|
    requires DistinctNames(conformed[i].fields)
    requires RequiredKey(conformed[0], keys[k]) && !RequiredKey(conformed[i], keys[k])
    ensures !Satisfies(MergedRow(conformed, keys, Lonely(conformed, i)), Merged(conformed, keys, Outer))
  {
    LonelyKeyIsNull(conformed, i, keys[k]);
    PublishedKey(conformed, keys, Outer, k);
    MergedKeyCell(conformed, keys, Lonely(conformed, i), k);
  }

  lemma MergedKeyCell(conformed: seq<Conformed>, keys: seq<string>, tuple: seq<Option<Row>>, k: nat)
    requires |conformed| == |tuple| && k < |keys|
    ensures keys[k] in MergedRow(conformed, keys, tuple)
    ensures MergedRow(conformed, keys, tuple)[keys[k]] == Coalesce(tuple, keys[k])
  {}

  /**
    An outer merge publishes the first source's marks on its keys; together with the other
    marks they hold of every row exactly when every source requires the keys the first does.
  */
  lemma OuterMarksExactly(conformed: seq<Conformed>, keys: seq<string>)
    requires conformed != [] && Mergeable(conformed, keys)
    requires forall i | 0 <= i < |conformed| :: DistinctNames(conformed[i].fields)
    ensures KeysAsRequired(conformed, keys) <==>
            (forall tuple | SidesSatisfy(conformed, tuple) && Joined(Outer, keys, tuple) ::
               Satisfies(MergedRow(conformed, keys, tuple), Merged(conformed, keys, Outer)))
  {
    if KeysAsRequired(conformed, keys) {
      forall tuple | SidesSatisfy(conformed, tuple) && Joined(Outer, keys, tuple)
        ensures Satisfies(MergedRow(conformed, keys, tuple), Merged(conformed, keys, Outer))
      {
        MergeMarksHold(conformed, keys, Outer, tuple);
      }
    } else {
      var key, i :| key in keys && 0 <= i < |conformed|
                    && RequiredKey(conformed[0], key) && !RequiredKey(conformed[i], key);
      var k :| 0 <= k < |keys| && keys[k] == key;
      LonelyAllowed(conformed, keys, i);
      LonelyBreaks(conformed, keys, i, k);
    }
  }

  // ---------------------------------------------------------------- stacking by position

  /** The place of a name in a schema, or its length. */
  function Position(fields: seq<Field>, name: string): (i: nat)
    ensures i <= |fields| && (i < |fields| <==> Present(fields, name))
    ensures i < |fields| ==> fields[i].name == name
  {
    if fields == [] then 0
    else if fields[0].name == name then 0
    else
      assert fields == [fields[0]] + fields[1..];
      1 + Position(fields[1..], name)
  }

  function InsertColumn(column: Column, columns: seq<Column>, fields: seq<Field>): seq<Column> {
    if columns == [] || Position(fields, column.name) <= Position(fields, columns[0].name) then [column] + columns
    else [columns[0]] + InsertColumn(column, columns[1..], fields)
  }

  /** The columns sorted by the place of their names. */
  function SortColumns(columns: seq<Column>, fields: seq<Field>): seq<Column> {
    if columns == [] then [] else InsertColumn(columns[0], SortColumns(columns[1..], fields), fields)
  }

  predicate InPlace(columns: seq<Column>, fields: seq<Field>) {
    forall i, j | 0 <= i < j < |columns| :: Position(fields, columns[i].name) <= Position(fields, columns[j].name)
  }

  lemma {:induction false} InsertColumnMembers(column: Column, columns: seq<Column>, fields: seq<Field>)
    ensures multiset(InsertColumn(column, columns, fields)) == multiset(columns) + multiset{column}
    ensures forall c :: c in InsertColumn(column, columns, fields) <==> c == column || c in columns
  {
    if columns != [] && Position(fields, column.name) > Position(fields, columns[0].name) {
      InsertColumnMembers(column, columns[1..], fields);
      assert columns == [columns[0]] + columns[1..];
    }
  }

  ghost predicate NotAfter(column: Column, columns: seq<Column>, fields: seq<Field>) {
    forall c | c in columns :: Position(fields, column.name) <= Position(fields, c.name)
  }

  lemma FrontInPlace(column: Column, columns: seq<Column>, fields: seq<Field>)
    requires InPlace(columns, fields) && NotAfter(column, columns, fields)
    ensures InPlace([column] + columns, fields)
  {}

  lemma HeadNotAfter(columns: seq<Column>, fields: seq<Field>)
    requires InPlace(columns, fields) && columns != []
    ensures NotAfter(columns[0], columns, fields)
  {}

  lemma {:induction false} InsertColumnInPlace(column: Column, columns: seq<Column>, fields: seq<Field>)
    requires InPlace(columns, fields)
    ensures InPlace(InsertColumn(column, columns, fields), fields)
  {
    if columns == [] {
    } else if Position(fields, column.name) <= Position(fields, columns[0].name) {
      HeadNotAfter(columns, fields);
      FrontInPlace(column, columns, fields);
    } else {
      var rest := InsertColumn(column, columns[1..], fields);
      InsertColumnInPlace(column, columns[1..], fields);
      InsertColumnMembers(column, columns[1..], fields);
      HeadNotAfter(columns, fields);
      FrontInPlace(columns[0], rest, fields);
    }
  }

  lemma {:induction false} SortColumnsKeeps(columns: seq<Column>, fields: seq<Field>)
    ensures InPlace(SortColumns(columns, fields), fields)
    ensures multiset(SortColumns(columns, fields)) == multiset(columns)
  {
    if columns != [] {
      SortColumnsKeeps(columns[1..], fields);
      InsertColumnInPlace(columns[0], SortColumns(columns[1..], fields), fields);
      InsertColumnMembers(columns[0], SortColumns(columns[1..], fields), fields);
      assert columns == [columns[0]] + columns[1..];
    }
  }

  /** Strictly ascending places below their count are 0, 1, 2 and so on. */
  lemma {:induction false} PlacesAreIndices(places: seq<nat>, i: nat)
    requires forall a, b | 0 <= a < b < |places| :: places[a] < places[b]
    requires forall a | 0 <= a < |places| :: places[a] < |places|
    requires i < |places|
    ensures places[i] == i
  {
    AtLeast(places, i);
    AtMost(places, i);
  }

  lemma {:induction false} AtLeast(places: seq<nat>, i: nat)
    requires forall a, b | 0 <= a < b < |places| :: places[a] < places[b]
    requires i < |places|
    ensures places[i] >= i
  {
    if i > 0 { AtLeast(places, i - 1); }
  }

  lemma {:induction false} AtMost(places: seq<nat>, i: nat)
    requires forall a, b | 0 <= a < b < |places| :: places[a] < places[b]
    requires forall a | 0 <= a < |places| :: places[a] < |places|
    requires i < |places|
    ensures places[i] <= i
    decreases |places| - i
  {
    if i + 1 < |places| { AtMost(places, i + 1); }
  }

  ghost predicate EachOnce(columns: seq<Column>) {
    forall i, j | 0 <= i < j < |columns| :: columns[i].name != columns[j].name
  }

  lemma SortedEachOnce(columns: seq<Column>, fields: seq<Field>)
    requires EachOnce(columns)
    ensures EachOnce(SortColumns(columns, fields))
    ensures |SortColumns(columns, fields)| == |columns|
    ensures forall c :: c in SortColumns(columns, fields) <==> c in columns
  {
    SortColumnsKeeps(columns, fields);
    var sorted := SortColumns(columns, fields);
    assert |multiset(sorted)| == |multiset(columns)|;
    forall c
      ensures c in sorted <==> c in columns
    {
      assert c in sorted <==> c in multiset(sorted);
      assert c in columns <==> c in multiset(columns);
    }
    forall i, j | 0 <= i < j < |sorted|
      ensures sorted[i].name != sorted[j].name
    {
      if sorted[i].name == sorted[j].name {
        SameNameSameColumn(columns, sorted[i], sorted[j]);
        RepeatCounted(sorted, i, j);
        CountedOnce(columns, sorted[i]);
      }
    }
  }

  lemma SameNameSameColumn(columns: seq<Column>, c: Column, d: Column)
    requires EachOnce(columns) && c in columns && d in columns && c.name == d.name
    ensures c == d
  {}

  lemma RepeatCounted(s: seq<Column>, i: nat, j: nat)
    requires i < j < |s| && s[i] == s[j]
    ensures multiset(s)[s[i]] >= 2
  {
    assert s == s[..j] + s[j..] && s[..j][i] == s[i] && s[j..][0] == s[j];
  }

  lemma CountedOnce(columns: seq<Column>, c: Column)
    requires EachOnce(columns)
    ensures multiset(columns)[c] <= 1
  {
    DistinctCount(columns, c);
  }

  /**
    Once a source's columns carry exactly the union's names, its k-th sorted column is the
    union's k-th published column.
  */
  lemma SortedColumnsLineUp(columns: seq<Column>, fields: seq<Field>, k: nat)
    requires |columns| == |fields| && EachOnce(columns) && k < |fields|
    requires forall i | 0 <= i < |columns| :: Present(fields, columns[i].name)
    ensures |SortColumns(columns, fields)| == |fields|
    ensures SortColumns(columns, fields)[k].name == fields[k].name
  {
    var sorted := SortColumns(columns, fields);
    SortColumnsKeeps(columns, fields);
    SortedEachOnce(columns, fields);
    var places := seq(|sorted|, i requires 0 <= i < |sorted| => Position(fields, sorted[i].name));
    forall a, b | 0 <= a < b < |places|
      ensures places[a] < places[b]
    {
      assert sorted[a] in columns && sorted[b] in columns;
    }
    forall a | 0 <= a < |places|
      ensures places[a] < |places|
    {
      assert sorted[a] in columns;
    }
    PlacesAreIndices(places, k);
  }

  /** The cells of a source row in the order its columns are listed. */
  function PositionalCells(cast: Cast, columns: seq<Column>, row: Row): seq<Cell>
    requires forall i | 0 <= i < |columns| :: columns[i].sourceName in row
  {
    seq(|columns|, i requires 0 <= i < |columns| => CastCell(cast, columns[i], row[columns[i].sourceName]))
  }

  /** A source's mapping, its relation and the union's schema agree on names and types. */
  ghost predicate ConformsTo(mapping: seq<Conform>, fields: seq<Field>, published: seq<Field>) {
    Conformable(fields, mapping) && SameShape(published, ConformedFields(fields, mapping)) && DistinctNames(published)
  }

  lemma SameShapeSameCount(published: seq<Field>, fields: seq<Field>)
    requires SameShape(published, fields) && DistinctNames(published) && DistinctNames(fields)
    ensures |published| == |fields|
  {
    var a := seq(|published|, i requires 0 <= i < |published| => published[i].name);
    var b := seq(|fields|, i requires 0 <= i < |fields| => fields[i].name);
    var s, t := set n | n in a, set n | n in b;
    forall n | n in a
      ensures n in b
    {
      var i :| 0 <= i < |published| && published[i].name == n;
      LookupFinds(fields, n);
      var k :| 0 <= k < |fields| && fields[k].name == n;
      assert b[k] == n;
    }
    forall n | n in b
      ensures n in a
    {
      var i :| 0 <= i < |fields| && fields[i].name == n;
      var k :| 0 <= k < |published| && published[k].name == n;
      assert a[k] == n;
    }
    DistinctSameElements(a, b);
    assert |multiset(a)| == |multiset(b)|;
  }

  /**
    In every arm of a union the k-th column has the k-th published name and type, so stacking
    the arms by position gives the cells that matching them by name would.
  */
  lemma UnionStacksByPosition(cast: Cast, mapping: seq<Conform>, fields: seq<Field>, published: seq<Field>, row: Row,
      k: nat)
    requires ConformsTo(mapping, fields, published) && Satisfies(row, fields) && k < |published|
    ensures forall i | 0 <= i < |ConformedColumns(fields, mapping)| ::
            ConformedColumns(fields, mapping)[i].sourceName in row
    ensures var columns := ConformedColumns(fields, mapping);
            var sorted := SortColumns(columns, published);
            && |sorted| == |published| && sorted[k].name == published[k].name
            && (forall i | 0 <= i < |sorted| :: sorted[i].sourceName in row)
            && published[k].name in ConformRow(cast, columns, row)
            && PositionalCells(cast, sorted, row)[k] == ConformRow(cast, columns, row)[published[k].name]
    ensures Lookup(ConformedFields(fields, mapping), published[k].name).value.kind == published[k].kind
  {
    var columns, conformed := ConformedColumns(fields, mapping), ConformedFields(fields, mapping);
    ConformKeepsMarks(cast, mapping, fields, row);
    SameShapeSameCount(published, conformed);
    ColumnsNamed(fields, mapping);
    SortedColumnsLineUp(columns, published, k);
    SortedReadRow(columns, published, row);
    var i := SortedColumnAt(columns, published, k);
    ConformedCells(cast, columns, row, i);
  }

  lemma SortedReadRow(columns: seq<Column>, published: seq<Field>, row: Row)
    requires EachOnce(columns) && forall i | 0 <= i < |columns| :: columns[i].sourceName in row
    ensures forall j | 0 <= j < |SortColumns(columns, published)| ::
              SortColumns(columns, published)[j].sourceName in row
  {
    var sorted := SortColumns(columns, published);
    forall j | 0 <= j < |sorted|
      ensures sorted[j].sourceName in row
    {
      var i := SortedColumnAt(columns, published, j);
    }
  }

  lemma SortedColumnAt(columns: seq<Column>, published: seq<Field>, k: nat) returns (i: nat)
    requires EachOnce(columns) && k < |SortColumns(columns, published)|
    ensures i < |columns| && columns[i] == SortColumns(columns, published)[k]
  {
    SortedEachOnce(columns, published);
    assert SortColumns(columns, published)[k] in columns;
    i :| 0 <= i < |columns| && columns[i] == SortColumns(columns, published)[k];
  }

  lemma ColumnsNamed(fields: seq<Field>, mapping: seq<Conform>)
    requires Conformable(fields, mapping)
    ensures EachOnce(ConformedColumns(fields, mapping))
    ensures forall i | 0 <= i < |fields| ::
              ConformedColumns(fields, mapping)[i].name == ConformedFields(fields, mapping)[i].name
  {
    var columns, conformed := ConformedColumns(fields, mapping), ConformedFields(fields, mapping);
    forall i | 0 <= i < |fields|
      ensures columns[i].name == conformed[i].name
    {}
  }

  /** A whole arm of a union: by position it is the published row its names give. */
  lemma UnionArm(cast: Cast, mapping: seq<Conform>, fields: seq<Field>, published: seq<Field>, row: Row)
    requires ConformsTo(mapping, fields, published) && Satisfies(row, fields)
    requires AtLeastAsRequired(ConformedFields(fields, mapping), published)
    ensures forall i | 0 <= i < |ConformedColumns(fields, mapping)| ::
            ConformedColumns(fields, mapping)[i].sourceName in row
    ensures Satisfies(ConformRow(cast, ConformedColumns(fields, mapping), row), published)
    ensures StacksAs(cast, SortColumns(ConformedColumns(fields, mapping), published), row, published,
                     ConformRow(cast, ConformedColumns(fields, mapping), row))
  {
    var columns := ConformedColumns(fields, mapping);
    ConformKeepsMarks(cast, mapping, fields, row);
    var named := ConformRow(cast, columns, row);
    MarksHold(ConformedFields(fields, mapping), published, named);
    SameShapeSameCount(published, ConformedFields(fields, mapping));
    ColumnsNamed(fields, mapping);
    SortedEachOnce(columns, published);
    forall k | 0 <= k < |published|
      ensures Lines(cast, SortColumns(columns, published), row, published, named, k)
    {
      UnionStacksByPosition(cast, mapping, fields, published, row, k);
    }
  }

  /** The k-th listed column carries the k-th published name and its cell. */
  ghost predicate Lines(cast: Cast, columns: seq<Column>, row: Row, published: seq<Field>, named: Row, k: nat)
    requires k < |columns| == |published|
  {
    && columns[k].name == published[k].name && columns[k].sourceName in row && published[k].name in named
    && CastCell(cast, columns[k], row[columns[k].sourceName]) == named[published[k].name]
  }

  ghost predicate StacksAs(cast: Cast, columns: seq<Column>, row: Row, published: seq<Field>, named: Row) {
    |columns| == |published| && forall k | 0 <= k < |published| :: Lines(cast, columns, row, published, named, k)
  }
}

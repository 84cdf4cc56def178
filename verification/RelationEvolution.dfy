/**
  How a published relation may change between two points in time, and what a consumer pinned
  to a major version may count on (ergasterion/framework/contract.py:2071-2168).
*/
module RelationEvolution {
  import opened Basics
  import opened SortedNames
  import opened Relations
  import opened Composition
  import opened CompositionRows

  datatype RelationChange = Unchanged | Minor | Major

  datatype Verdict = Compatible | Broken(field: string)

  function FieldNames(fields: seq<Field>): set<string> {
    set i | 0 <= i < |fields| :: fields[i].name
  }

  predicate Requires(fields: seq<Field>, name: string) {
    Lookup(fields, name).Some? && Lookup(fields, name).value.required
  }

  predicate Removed(prior: seq<Field>, candidate: seq<Field>, name: string) {
    Lookup(prior, name).Some? && Lookup(candidate, name).None?
  }

  predicate Retyped(prior: seq<Field>, candidate: seq<Field>, name: string) {
    Lookup(prior, name).Some? && Lookup(candidate, name).Some?
    && Lookup(prior, name).value.kind != Lookup(candidate, name).value.kind
  }

  /** A candidate requires the field and the prior schema, with or without it, did not. */
  predicate NewlyRequired(prior: seq<Field>, candidate: seq<Field>, name: string) {
    Requires(candidate, name) && !Requires(prior, name)
  }

  predicate Breaks(prior: seq<Field>, candidate: seq<Field>, name: string) {
    Removed(prior, candidate, name) || Retyped(prior, candidate, name) || NewlyRequired(prior, candidate, name)
  }

  /** The offending fields of each kind, in name order. */
  ghost predicate OffendsInOrder(prior: seq<Field>, candidate: seq<Field>, offending: seq<string>) {
    exists removed, added, retyped, required ::
      && offending == removed + added + retyped + required
      && IsSortedList(removed, set name | name in FieldNames(prior) && Removed(prior, candidate, name))
      && IsSortedList(added, set name |
           name in FieldNames(candidate) && Lookup(prior, name).None? && Requires(candidate, name))
      && IsSortedList(retyped, set name | name in FieldNames(prior) && Retyped(prior, candidate, name))
      && IsSortedList(required, set name | name in FieldNames(prior) && NewlyRequired(prior, candidate, name))
  }

  /** Removed fields, added required ones, retyped ones and newly required ones, each in name order. */
  method OffendingFields(prior: seq<Field>, candidate: seq<Field>) returns (offending: seq<string>)
    ensures forall name :: name in offending <==> Breaks(prior, candidate, name)
    ensures OffendsInOrder(prior, candidate, offending)
  {
    NamesLookUp(prior);
    NamesLookUp(candidate);
    var before, after := FieldNames(prior), FieldNames(candidate);
    var removed := SortNames(before - after);
    var addedRequired := SortNames(set name | name in after - before && Requires(candidate, name));
    var retyped := SortNames(set name | name in before * after && Retyped(prior, candidate, name));
    var newlyRequired := SortNames(set name | name in before * after && NewlyRequired(prior, candidate, name));
    offending := removed + addedRequired + retyped + newlyRequired;
    assert before - after == set name | name in before && Removed(prior, candidate, name);
    assert (set name | name in after - before && Requires(candidate, name))
           == set name | name in after && Lookup(prior, name).None? && Requires(candidate, name);
    assert (set name | name in before * after && Retyped(prior, candidate, name))
           == set name | name in before && Retyped(prior, candidate, name);
    assert (set name | name in before * after && NewlyRequired(prior, candidate, name))
           == set name | name in before && NewlyRequired(prior, candidate, name);
  }

  /** The change class, and every field a major change is due to. */
  method ClassifyRelationChange(prior: Schema, candidate: Schema)
      returns (change: RelationChange, offending: seq<string>)
    ensures forall name :: name in offending <==> Breaks(prior.fields, candidate.fields, name)
    ensures change == Major <==> exists name :: Breaks(prior.fields, candidate.fields, name)
    ensures change == Major ==> offending != [] && OffendsInOrder(prior.fields, candidate.fields, offending)
    ensures change == Unchanged <==>
              (forall name :: !Breaks(prior.fields, candidate.fields, name))
                && FieldNames(prior.fields) == FieldNames(candidate.fields)
  {
    offending := OffendingFields(prior.fields, candidate.fields);
    if offending != [] {
      assert offending[0] in offending;
      return Major, offending;
    }
    NamesLookUp(prior.fields);
    NamesLookUp(candidate.fields);
    var before, after := FieldNames(prior.fields), FieldNames(candidate.fields);
    if after - before != {} {
      var name :| name in after - before;
      assert name in after && name !in before;
      return Minor, [];
    }
    forall name | name in before
      ensures name in after
    {
      assert name !in offending && !Breaks(prior.fields, candidate.fields, name);
    }
    assert after <= before by {
      forall name | name in after
        ensures name in before
      {
        assert name !in after - before;
      }
    }
    assert before == after;
    return Unchanged, [];
  }

  lemma NamesLookUp(fields: seq<Field>)
    ensures forall name :: name in FieldNames(fields) <==> Lookup(fields, name).Some?
  {
    forall name: string
      ensures name in FieldNames(fields) <==> Lookup(fields, name).Some?
    {
      LookupFinds(fields, name);
    }
  }

  /** What a candidate may do without breaking a consumer. */
  ghost predicate Accepts(prior: Schema, candidate: Schema) {
    prior.name == candidate.name && forall name :: !Breaks(prior.fields, candidate.fields, name)
  }

  /** The first of the offending fields. */
  ghost predicate FirstOffence(prior: seq<Field>, candidate: seq<Field>, name: string) {
    exists offending :: OffendsInOrder(prior, candidate, offending) && offending != [] && offending[0] == name
  }

  method CheckConsumerCompatibility(prior: Schema, candidate: Schema) returns (verdict: Verdict)
    ensures verdict == Compatible <==> Accepts(prior, candidate)
    ensures verdict.Broken? ==> if prior.name != candidate.name then verdict.field == candidate.name
                                else FirstOffence(prior.fields, candidate.fields, verdict.field)
  {
    if prior.name != candidate.name { return Broken(candidate.name); }
    var change, offending := ClassifyRelationChange(prior, candidate);
    if change == Major {
      assert offending[0] in offending;
      return Broken(offending[0]);
    }
    assert forall name :: name !in offending;
    return Compatible;
  }

  // ---------------------------------------------------------------- field by field

  ghost predicate Carries(fields: seq<Field>, name: string) {
    exists i | 0 <= i < |fields| :: fields[i].name == name
  }

  /** Some field of the name is required. */
  ghost predicate CarriesRequired(fields: seq<Field>, name: string) {
    exists i | 0 <= i < |fields| :: fields[i].name == name && fields[i].required
  }

  ghost predicate CarriesAs(fields: seq<Field>, name: string, kind: NeutralType) {
    exists i | 0 <= i < |fields| :: fields[i].name == name && fields[i].kind == kind
  }

  lemma FieldExactly(fields: seq<Field>, name: string)
    requires DistinctNames(fields)
    ensures Lookup(fields, name).Some? <==> Carries(fields, name)
    ensures Requires(fields, name) <==> CarriesRequired(fields, name)
    ensures forall kind :: CarriesAs(fields, name, kind)
                           <==> Lookup(fields, name).Some? && Lookup(fields, name).value.kind == kind
  {
    LookupFinds(fields, name);
    if Lookup(fields, name).Some? {
      var i :| 0 <= i < |fields| && fields[i] == Lookup(fields, name).value;
      assert fields[i].name == name;
    }
  }

  /** What each offence is: gone, there under another type, or required where it was not before. */
  lemma OffenceExactly(prior: seq<Field>, candidate: seq<Field>, name: string)
    requires DistinctNames(prior) && DistinctNames(candidate)
    ensures Removed(prior, candidate, name) <==> Carries(prior, name) && !Carries(candidate, name)
    ensures Retyped(prior, candidate, name)
            <==> exists a, b :: a != b && CarriesAs(prior, name, a) && CarriesAs(candidate, name, b)
    ensures NewlyRequired(prior, candidate, name) <==> CarriesRequired(candidate, name) && !CarriesRequired(prior, name)
  {
    FieldExactly(prior, name);
    FieldExactly(candidate, name);
    if Retyped(prior, candidate, name) {
      var a, b := Lookup(prior, name).value.kind, Lookup(candidate, name).value.kind;
      assert CarriesAs(prior, name, a) && CarriesAs(candidate, name, b);
    }
  }

  /** The field is still there under its type, and required only if it was. */
  ghost predicate Kept(field: Field, candidate: seq<Field>) {
    exists j | 0 <= j < |candidate| :: candidate[j].name == field.name && candidate[j].kind == field.kind
                                       && (candidate[j].required ==> field.required)
  }

  /** The field was there before, or may be null. */
  ghost predicate AddedSafely(prior: seq<Field>, field: Field) {
    Carries(prior, field.name) || !field.required
  }

  /**
    A candidate is accepted exactly when it keeps the relation's name, every field it had, and
    requires none of the fields it adds.
  */
  lemma AcceptsExactly(prior: Schema, candidate: Schema)
    requires DistinctNames(prior.fields) && DistinctNames(candidate.fields)
    ensures Accepts(prior, candidate)
            <==> && prior.name == candidate.name
                 && (forall i | 0 <= i < |prior.fields| :: Kept(prior.fields[i], candidate.fields))
                 && (forall j | 0 <= j < |candidate.fields| :: AddedSafely(prior.fields, candidate.fields[j]))
  {
    if Accepts(prior, candidate) {
      forall i | 0 <= i < |prior.fields|
        ensures Kept(prior.fields[i], candidate.fields)
      {
        UnbrokenIsKept(prior.fields, candidate.fields, i);
      }
      forall j | 0 <= j < |candidate.fields|
        ensures AddedSafely(prior.fields, candidate.fields[j])
      {
        var name := candidate.fields[j].name;
        assert !Breaks(prior.fields, candidate.fields, name);
        OffenceExactly(prior.fields, candidate.fields, name);
      }
    } else if prior.name == candidate.name {
      var name :| Breaks(prior.fields, candidate.fields, name);
      BrokenIsNotKept(prior.fields, candidate.fields, name);
    }
  }

  lemma UnbrokenIsKept(prior: seq<Field>, candidate: seq<Field>, i: nat)
    requires DistinctNames(prior) && DistinctNames(candidate) && i < |prior|
    requires !Breaks(prior, candidate, prior[i].name)
    ensures Kept(prior[i], candidate)
  {
    var name := prior[i].name;
    DistinctLookup(prior, i);
    LookupFinds(candidate, name);
    var j :| 0 <= j < |candidate| && candidate[j] == Lookup(candidate, name).value;
    assert candidate[j].name == name;
  }

  lemma BrokenIsNotKept(prior: seq<Field>, candidate: seq<Field>, name: string)
    requires DistinctNames(prior) && DistinctNames(candidate) && Breaks(prior, candidate, name)
    ensures (exists i | 0 <= i < |prior| :: !Kept(prior[i], candidate))
            || exists j | 0 <= j < |candidate| :: !AddedSafely(prior, candidate[j])
  {
    FieldExactly(prior, name);
    FieldExactly(candidate, name);
    if Carries(prior, name) {
      var i :| 0 <= i < |prior| && prior[i].name == name;
      DistinctLookup(prior, i);
      if Kept(prior[i], candidate) {
        var j :| 0 <= j < |candidate| && candidate[j].name == name && candidate[j].kind == prior[i].kind
          && (candidate[j].required ==> prior[i].required);
        DistinctLookup(candidate, j);
        assert false;
      }
    } else {
      var j :| 0 <= j < |candidate| && candidate[j].name == name && candidate[j].required;
      assert !AddedSafely(prior, candidate[j]);
    }
  }

  // ---------------------------------------------------------------- over a whole history

  ghost predicate AcceptedHistory(history: seq<Schema>) {
    forall i | 0 <= i < |history| - 1 :: Accepts(history[i], history[i + 1])
  }

  /** Accepted changes compose: every later schema of an accepted history is accepted of every earlier one. */
  lemma {:induction false} AcceptedHistoriesCompose(history: seq<Schema>, i: nat, j: nat)
    requires AcceptedHistory(history) && i <= j < |history|
    ensures Accepts(history[i], history[j])
    decreases j - i
  {
    if i < j {
      AcceptedHistoriesCompose(history, i, j - 1);
      assert Accepts(history[j - 1], history[j - 1 + 1]);
      forall name: string
        ensures !Breaks(history[i].fields, history[j].fields, name)
      {
        assert !Breaks(history[i].fields, history[j - 1].fields, name);
        assert !Breaks(history[j - 1].fields, history[j].fields, name);
      }
    }
  }

  // ---------------------------------------------------------------- for rows

  /** A row as the candidate's table holds it once the fields it lacks are added as nulls. */
  function Completed(row: Row, fields: seq<Field>): Row {
    map i | 0 <= i < |fields| :: fields[i].name := if fields[i].name in row then row[fields[i].name] else None
  }

  lemma DistinctLookup(fields: seq<Field>, i: nat)
    requires DistinctNames(fields) && i < |fields|
    ensures Lookup(fields, fields[i].name) == Some(fields[i])
  {
    LookupFinds(fields, fields[i].name);
  }

  /** Rows written before an accepted change satisfy the candidate once completed. */
  lemma OldRowsStillServe(prior: Schema, candidate: Schema, row: Row)
    requires Accepts(prior, candidate) && DistinctNames(prior.fields) && DistinctNames(candidate.fields)
    requires Satisfies(row, prior.fields)
    ensures Satisfies(Completed(row, candidate.fields), candidate.fields)
  {
    var fields := candidate.fields;
    forall i | 0 <= i < |fields| && fields[i].required
      ensures fields[i].name in row && row[fields[i].name].Some?
    {
      DistinctLookup(fields, i);
      assert !Breaks(prior.fields, fields, fields[i].name);
      LookupFinds(prior.fields, fields[i].name);
      var k :| 0 <= k < |prior.fields| && prior.fields[k] == Lookup(prior.fields, fields[i].name).value;
    }
  }

  /** Every field the prior schema requires the candidate requires too. */
  ghost predicate NothingRelaxed(prior: Schema, candidate: Schema) {
    AtLeastAsRequired(candidate.fields, prior.fields)
  }

  lemma NewRowsServe(prior: Schema, candidate: Schema, row: Row)
    requires Accepts(prior, candidate) && DistinctNames(prior.fields)
    requires NothingRelaxed(prior, candidate) && Satisfies(row, candidate.fields)
    ensures Satisfies(row, prior.fields)
  {
    var fields := prior.fields;
    forall i | 0 <= i < |fields|
      ensures fields[i].name in row && (fields[i].required ==> row[fields[i].name].Some?)
    {
      DistinctLookup(fields, i);
      assert !Breaks(fields, candidate.fields, fields[i].name);
      LookupFinds(candidate.fields, fields[i].name);
      var k :| 0 <= k < |candidate.fields| && candidate.fields[k] == Lookup(candidate.fields, fields[i].name).value;
    }
  }

  /**
    An accepted change leaves every consumer of the prior schema unaffected exactly when it
    relaxes no required field: the classifier lets a required field become optional.
  */
  lemma ConsumerUnaffectedExactly(prior: Schema, candidate: Schema)
    requires Accepts(prior, candidate) && DistinctNames(prior.fields) && DistinctNames(candidate.fields)
    ensures (forall row | Satisfies(row, candidate.fields) :: Satisfies(row, prior.fields))
            <==> NothingRelaxed(prior, candidate)
  {
    if NothingRelaxed(prior, candidate) {
      forall row | Satisfies(row, candidate.fields)
        ensures Satisfies(row, prior.fields)
      {
        NewRowsServe(prior, candidate, row);
      }
    } else {
      var i :| 0 <= i < |prior.fields| && prior.fields[i].required && !Requires(candidate.fields, prior.fields[i].name);
      var name := prior.fields[i].name;
      SparseSatisfies(candidate.fields);
      DistinctLookup(prior.fields, i);
      assert !Breaks(prior.fields, candidate.fields, name);
      LookupFinds(candidate.fields, name);
      assert !Required(candidate.fields, name);
      assert name in Sparse(candidate.fields) && Sparse(candidate.fields)[name].None?;
    }
  }
}

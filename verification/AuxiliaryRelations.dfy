/**
  The registry in which translators declare the private relations they render
  (ergasterion/framework/graph.py:427-479).
*/
module AuxiliaryRelations {
  import opened Basics
  import opened Ordering
  import opened ProductGraph
  import opened EstateGraph

  datatype RegistrationError = EmptyField | ClaimedTwice

  /** What a registration is listed by. */
  function RegistrationKey(a: Auxiliary): seq<string> { [a.product, a.relation] }

  predicate Complete(a: Auxiliary) {
    a.product != "" && a.relation != "" && a.translator != "" && a.purpose != ""
  }

  /** Every registration is complete and filed under its product and relation. */
  predicate KeyedByName(entries: map<(string, string), Auxiliary>) {
    forall key | key in entries :: Complete(entries[key]) && key == (entries[key].product, entries[key].relation)
  }

  class AuxiliaryRelationRegistry {
    var entries: map<(string, string), Auxiliary>

    ghost predicate Valid()
      reads this
    {
      KeyedByName(entries)
    }

    constructor ()
      ensures Valid() && entries == map[]
    {
      entries := map[];
    }

    /** Register a complete entry, unless its relation is registered otherwise already. */
    method Register(entry: Auxiliary) returns (error: Option<RegistrationError>)
      requires Valid()
      modifies this
      ensures Valid()
      ensures error == if "" in [entry.product, entry.relation, entry.translator, entry.purpose] then Some(EmptyField)
                       else if (entry.product, entry.relation) in old(entries)
                               && old(entries)[(entry.product, entry.relation)] != entry then Some(ClaimedTwice)
                       else None
      ensures entries == if error.None? then old(entries)[(entry.product, entry.relation) := entry] else old(entries)
    {
      if !Complete(entry) { return Some(EmptyField); }
      var key := (entry.product, entry.relation);
      if key in entries && entries[key] != entry { return Some(ClaimedTwice); }
      entries := entries[key := entry];
      return None;
    }

    /** Every registration once, by product and then relation. */
    method Relations() returns (listed: seq<Auxiliary>)
      requires Valid()
      ensures Listing(entries, listed)
    {
      listed := [];
      var keys := entries.Keys;
      assert forall a :: !Registered(entries, {}, a);
      while keys != {}
        invariant keys <= entries.Keys && Distinct(listed)
        invariant forall a :: a in listed <==> Registered(entries, entries.Keys - keys, a)
        decreases |keys|
      {
        var key :| key in keys;
        OneMoreRegistered(entries, keys, key);
        listed := listed + [entries[key]];
        keys := keys - {key};
      }
      SortedListing(entries, listed);
      listed := SortByTuple(listed, RegistrationKey);
    }
  }

  /** The registration is the entry of one of the keys. */
  ghost predicate Registered(entries: map<(string, string), Auxiliary>, keys: set<(string, string)>, a: Auxiliary) {
    exists key :: key in keys && key in entries && entries[key] == a
  }

  lemma OneMoreRegistered(entries: map<(string, string), Auxiliary>, keys: set<(string, string)>, key: (string, string))
    requires key in keys && keys <= entries.Keys && KeyedByName(entries)
    ensures !Registered(entries, entries.Keys - keys, entries[key])
    ensures forall a :: Registered(entries, entries.Keys - (keys - {key}), a)
                        <==> Registered(entries, entries.Keys - keys, a) || a == entries[key]
  {
    var before, after := entries.Keys - keys, entries.Keys - (keys - {key});
    assert after == before + {key};
    forall a
      ensures Registered(entries, after, a) <==> Registered(entries, before, a) || a == entries[key]
    {
      assert key in after;
    }
  }

  /** The registrations, each once, in the order of their products and relations. */
  ghost predicate Listing(entries: map<(string, string), Auxiliary>, listed: seq<Auxiliary>) {
    && Distinct(listed) && SortedByTuple(listed, RegistrationKey)
    && forall a :: a in listed <==> Registered(entries, entries.Keys, a)
  }

  lemma SortedListing(entries: map<(string, string), Auxiliary>, listed: seq<Auxiliary>)
    requires Distinct(listed) && forall a :: a in listed <==> Registered(entries, entries.Keys, a)
    ensures Listing(entries, SortByTuple(listed, RegistrationKey))
  {
    SortByTupleKeeps(listed, RegistrationKey);
    DistinctByTuple(listed);
  }

  lemma DistinctByTuple(listed: seq<Auxiliary>)
    requires Distinct(listed)
    ensures Distinct(SortByTuple(listed, RegistrationKey))
  {
    var sorted := SortByTuple(listed, RegistrationKey);
    SortByTupleKeeps(listed, RegistrationKey);
    forall i, j | 0 <= i < j < |sorted|
      ensures sorted[i] != sorted[j]
    {
      if sorted[i] == sorted[j] {
        assert sorted == sorted[..j] + sorted[j..] && sorted[..j][i] == sorted[i] && sorted[j..][0] == sorted[j];
        assert multiset(sorted)[sorted[i]] >= 2;
        DistinctCount(listed, sorted[i]);
      }
    }
  }

  /** What a registry lists leaves nothing unnamed in the graph it is placed in. */
  lemma ListedAreNamed(entries: map<(string, string), Auxiliary>, listed: seq<Auxiliary>)
    requires forall key | key in entries :: Complete(entries[key])
    requires Listing(entries, listed)
    ensures RegistrationsNamed(listed)
  {
    forall i | 0 <= i < |listed|
      ensures listed[i].relation != ""
    {
      assert listed[i] in listed;
    }
  }

  /** However translators take turns, the same registrations give the same listing. */
  lemma ListingIsUnique(entries: map<(string, string), Auxiliary>, a: seq<Auxiliary>, b: seq<Auxiliary>)
    requires forall key | key in entries :: key == (entries[key].product, entries[key].relation)
    requires Listing(entries, a) && Listing(entries, b)
    ensures a == b
  {
    DistinctSameElements(a, b);
    forall x, y | x in a && y in a && RegistrationKey(x) == RegistrationKey(y)
      ensures x == y
    {
      assert RegistrationKey(x)[0] == RegistrationKey(y)[0] && RegistrationKey(x)[1] == RegistrationKey(y)[1];
    }
    SortedByTupleSame(a, b, RegistrationKey);
  }
}

/** `sorted` on a set of names: one ascending list without repetition. */
module SortedNames {
  import opened Basics
  import opened Ordering

  function Self(s: string): string { s }

  ghost predicate IsSortedList(s: seq<string>, names: set<string>) {
    Distinct(s) && SortedBy(s, Self) && forall x :: x in s <==> x in names
  }

  /** `sorted` of a set of names has one outcome. */
  lemma SortedListUnique(a: seq<string>, b: seq<string>, names: set<string>)
    requires IsSortedList(a, names) && IsSortedList(b, names)
    ensures a == b
  {
    DistinctSameElements(a, b);
    SortedSame(a, b, Self);
  }

  method SortNames(names: set<string>) returns (r: seq<string>)
    ensures IsSortedList(r, names)
  {
    var listed: seq<string> := [];
    var rest := names;
    while rest != {}
      invariant Distinct(listed) && rest <= names
      invariant forall x :: x in listed <==> x in names && x !in rest
      decreases |rest|
    {
      var x :| x in rest;
      listed := listed + [x];
      rest := rest - {x};
    }
    SortByKeeps(listed, Self);
    DistinctAfterSort(listed, SortBy(listed, Self));
    r := SortBy(listed, Self);
  }

  lemma DistinctAfterSort(a: seq<string>, b: seq<string>)
    requires Distinct(a) && multiset(a) == multiset(b)
    ensures Distinct(b)
  {
    forall i, j | 0 <= i < j < |b|
      ensures b[i] != b[j]
    {
      if b[i] == b[j] {
        assert b == b[..j] + b[j..] && b[..j][i] == b[i] && b[j..][0] == b[j];
        assert multiset(b)[b[i]] >= 2;
        DistinctCount(a, b[i]);
      }
    }
  }

  lemma {:induction false} SortedListExists(names: set<string>)
    ensures exists s :: IsSortedList(s, names)
  {
    var listed := ListOf(names);
    SortByKeeps(listed, Self);
    DistinctAfterSort(listed, SortBy(listed, Self));
    assert IsSortedList(SortBy(listed, Self), names);
  }

  lemma {:induction false} ListOf(names: set<string>) returns (listed: seq<string>)
    ensures Distinct(listed) && forall x :: x in listed <==> x in names
  {
    if names == {} {
      listed := [];
    } else {
      var x :| x in names;
      var rest := ListOf(names - {x});
      listed := [x] + rest;
    }
  }

  ghost function SortedList(names: set<string>): (s: seq<string>)
    ensures IsSortedList(s, names)
  {
    SortedListExists(names);
    var s :| IsSortedList(s, names);
    s
  }

  function NameSet(names: seq<string>): set<string> {
    set name | name in names
  }
}

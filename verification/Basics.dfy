/** Optional values and results carrying an error, used by every component. */
module Basics {

  datatype Option<+T> = None | Some(value: T)

  datatype Result<+T, +E> = Ok(value: T) | Err(error: E)

  /** No element occurs twice. */
  predicate Distinct<T(==)>(s: seq<T>) {
    forall i, j | 0 <= i < j < |s| :: s[i] != s[j]
  }

  /** Two distinct sequences with the same elements are permutations of each other. */
  lemma {:induction false} DistinctSameElements<T(!new)>(a: seq<T>, b: seq<T>)
    requires Distinct(a) && Distinct(b)
    requires forall x :: x in a <==> x in b
    ensures multiset(a) == multiset(b)
  {
    forall x
      ensures multiset(a)[x] == multiset(b)[x]
    {
      DistinctCount(a, x);
      DistinctCount(b, x);
    }
  }

  lemma {:induction false} DistinctCount<T>(a: seq<T>, x: T)
    requires Distinct(a)
    ensures multiset(a)[x] == if x in a then 1 else 0
  {
    if a != [] {
      assert a == a[..|a| - 1] + [a[|a| - 1]];
      DistinctCount(a[..|a| - 1], x);
    }
  }

  lemma DistinctConcat<T>(a: seq<T>, b: seq<T>)
    requires Distinct(a) && Distinct(b) && forall x | x in a :: x !in b
    ensures Distinct(a + b)
  {
    var s := a + b;
    forall i, j | 0 <= i < j < |s|
      ensures s[i] != s[j]
    {
      if i < |a| <= j {
        assert s[i] in a && s[j] == b[j - |a|];
      }
    }
  }

  /** A sequence of distinct elements of a finite set is no longer than the set. */
  lemma {:induction false} DistinctBounded<T>(a: seq<T>, s: set<T>)
    requires Distinct(a)
    requires forall x | x in a :: x in s
    ensures |a| <= |s|
  {
    if a != [] {
      var last := a[|a| - 1];
      DistinctBounded(a[..|a| - 1], s - {last});
    }
  }

  lemma ConcatAssociates<T>(a: seq<T>, b: seq<T>, c: seq<T>)
    ensures a + b + c == a + (b + c)
  {}

  /** The first n parts, one after the other. */
  function Concatenated<T>(parts: seq<seq<T>>, n: nat): seq<T>
    requires n <= |parts|
  {
    if n == 0 then [] else Concatenated(parts, n - 1) + parts[n - 1]
  }

  lemma {:induction false} InConcatenated<T>(parts: seq<seq<T>>, n: nat, x: T)
    requires n <= |parts|
    ensures x in Concatenated(parts, n) <==> exists i | 0 <= i < n :: x in parts[i]
  {
    if n > 0 { InConcatenated(parts, n - 1, x); }
  }
}

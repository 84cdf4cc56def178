/**
  Text order and stable sorting.

  Python's `sorted` orders strings by code point, left to right, tuples by the first component
  in which they differ, and keeps the authored order of items whose keys are equal.
*/
module Ordering {
  predicate LexLe(a: string, b: string) {
    a == [] || (b != [] && (a[0] < b[0] || (a[0] == b[0] && LexLe(a[1..], b[1..]))))
  }

  lemma {:induction false} LexTotal(a: string, b: string)
    ensures LexLe(a, b) || LexLe(b, a)
  {
    if a != [] && b != [] && a[0] == b[0] {
      LexTotal(a[1..], b[1..]);
    }
  }

  lemma {:induction false} LexAntisymmetric(a: string, b: string)
    requires LexLe(a, b) && LexLe(b, a)
    ensures a == b
  {
    if a != [] {
      LexAntisymmetric(a[1..], b[1..]);
      assert a == [a[0]] + a[1..] && b == [b[0]] + b[1..];
    }
  }

  lemma {:induction false} LexTransitive(a: string, b: string, c: string)
    requires LexLe(a, b) && LexLe(b, c)
    ensures LexLe(a, c)
  {
    if a != [] && a[0] == b[0] && b[0] == c[0] {
      LexTransitive(a[1..], b[1..], c[1..]);
    }
  }

  /** Equal before some place and smaller there. */
  ghost predicate LessAt(a: string, b: string, i: nat) {
    i < |a| && i < |b| && a[i] < b[i] && forall k | 0 <= k < i :: a[k] == b[k]
  }

  lemma LessLater(a: string, b: string, i: nat)
    requires a != [] && b != []
    ensures LessAt(a, b, i + 1) <==> a[0] == b[0] && LessAt(a[1..], b[1..], i)
  {
    if a[0] == b[0] && LessAt(a[1..], b[1..], i) {
      forall k | 0 <= k < i + 1
        ensures a[k] == b[k]
      {
        if k > 0 { assert a[1..][k - 1] == b[1..][k - 1]; }
      }
    }
    if LessAt(a, b, i + 1) {
      assert a[0] == b[0];
      assert forall k | 0 <= k < i :: a[1..][k] == a[k + 1] == b[k + 1];
    }
  }

  /** Texts are ordered by the first character in which they differ, and a beginning before the whole. */
  lemma {:induction false} LexExactly(a: string, b: string)
    ensures LexLe(a, b) <==> a <= b || exists i :: LessAt(a, b, i)
  {
    if a != [] && b != [] {
      LexExactly(a[1..], b[1..]);
      assert a == [a[0]] + a[1..] && b == [b[0]] + b[1..];
      assert LessAt(a, b, 0) <==> a[0] < b[0];
      forall i: nat
        ensures LessAt(a, b, i + 1) <==> a[0] == b[0] && LessAt(a[1..], b[1..], i)
      {
        LessLater(a, b, i);
      }
      if j: nat :| LessAt(a, b, j) && j > 0 { LessLater(a, b, j - 1); }
      if i: nat :| LessAt(a[1..], b[1..], i) { LessLater(a, b, i); }
    }
  }

  lemma SameMembers<T(!new)>(a: seq<T>, b: seq<T>)
    requires multiset(a) == multiset(b)
    ensures |a| == |b|
    ensures forall x :: x in a <==> x in b
  {
    assert |multiset(a)| == |multiset(b)|;
    forall x
      ensures x in a <==> x in b
    {
      assert x in a <==> x in multiset(a);
      assert x in b <==> x in multiset(b);
    }
  }

  lemma DropHead<T>(a: seq<T>)
    requires a != []
    ensures multiset(a[1..]) == multiset(a) - multiset{a[0]}
  {
    assert a == [a[0]] + a[1..];
  }

  // ---------------------------------------------------------------- by a tuple of texts

  /** Lexicographic order of tuples: the first component in which they differ decides. */
  predicate TupleLe(a: seq<string>, b: seq<string>) {
    a == [] || (b != [] && if a[0] == b[0] then TupleLe(a[1..], b[1..]) else LexLe(a[0], b[0]))
  }

  /** Equal before some component and different there, the first one's being the smaller. */
  ghost predicate TupleLessAt(a: seq<string>, b: seq<string>, i: nat) {
    i < |a| && i < |b| && a[i] != b[i] && LexLe(a[i], b[i]) && forall k | 0 <= k < i :: a[k] == b[k]
  }

  lemma TupleLessLater(a: seq<string>, b: seq<string>, i: nat)
    requires a != [] && b != []
    ensures TupleLessAt(a, b, i + 1) <==> a[0] == b[0] && TupleLessAt(a[1..], b[1..], i)
  {
    if a[0] == b[0] && TupleLessAt(a[1..], b[1..], i) {
      forall k | 0 <= k < i + 1
        ensures a[k] == b[k]
      {
        if k > 0 { assert a[1..][k - 1] == b[1..][k - 1]; }
      }
    }
    if TupleLessAt(a, b, i + 1) {
      assert a[0] == b[0];
      assert forall k | 0 <= k < i :: a[1..][k] == a[k + 1] == b[k + 1];
    }
  }

  /** Two tuples of one length are ordered by the first component in which they differ. */
  lemma {:induction false} TupleExactly(a: seq<string>, b: seq<string>)
    requires |a| == |b|
    ensures TupleLe(a, b) <==> a == b || exists i :: TupleLessAt(a, b, i)
  {
    if a != [] {
      TupleExactly(a[1..], b[1..]);
      assert a == [a[0]] + a[1..] && b == [b[0]] + b[1..];
      assert TupleLessAt(a, b, 0) <==> a[0] != b[0] && LexLe(a[0], b[0]);
      if j: nat :| TupleLessAt(a, b, j) && j > 0 { TupleLessLater(a, b, j - 1); }
      if i: nat :| TupleLessAt(a[1..], b[1..], i) { TupleLessLater(a, b, i); }
    }
  }

  lemma {:induction false} TupleTotal(a: seq<string>, b: seq<string>)
    ensures TupleLe(a, b) || TupleLe(b, a)
  {
    if a != [] && b != [] {
      if a[0] == b[0] { TupleTotal(a[1..], b[1..]); } else { LexTotal(a[0], b[0]); }
    }
  }

  lemma {:induction false} TupleTransitive(a: seq<string>, b: seq<string>, c: seq<string>)
    requires TupleLe(a, b) && TupleLe(b, c)
    ensures TupleLe(a, c)
  {
    if a != [] {
      if a[0] == b[0] && b[0] == c[0] {
        TupleTransitive(a[1..], b[1..], c[1..]);
      } else if a[0] != b[0] && b[0] != c[0] {
        LexTransitive(a[0], b[0], c[0]);
        if a[0] == c[0] { LexAntisymmetric(a[0], b[0]); }
      }
    }
  }

  lemma {:induction false} TupleAntisymmetric(a: seq<string>, b: seq<string>)
    requires TupleLe(a, b) && TupleLe(b, a)
    ensures a == b
  {
    if a != [] {
      if a[0] == b[0] {
        TupleAntisymmetric(a[1..], b[1..]);
        assert a == [a[0]] + a[1..] && b == [b[0]] + b[1..];
      } else {
        LexAntisymmetric(a[0], b[0]);
      }
    }
  }

  ghost predicate SortedByTuple<T(!new)>(s: seq<T>, key: T -> seq<string>) {
    forall i, j | 0 <= i < j < |s| :: TupleLe(key(s[i]), key(s[j]))
  }

  /** Every two items of `s` that share a key are the same item. */
  ghost predicate TupleIdentifies<T(!new)>(s: seq<T>, key: T -> seq<string>) {
    forall x, y | x in s && y in s && key(x) == key(y) :: x == y
  }

  function InsertByTuple<T>(x: T, s: seq<T>, key: T -> seq<string>): seq<T> {
    if s == [] then [x]
    else if TupleLe(key(x), key(s[0])) then [x] + s
    else [s[0]] + InsertByTuple(x, s[1..], key)
  }

  /** Stable sort by a tuple of texts. */
  function SortByTuple<T>(s: seq<T>, key: T -> seq<string>): seq<T> {
    if s == [] then [] else InsertByTuple(s[0], SortByTuple(s[1..], key), key)
  }

  lemma {:induction false} InsertByTupleKeeps<T(!new)>(x: T, s: seq<T>, key: T -> seq<string>)
    requires SortedByTuple(s, key)
    ensures SortedByTuple(InsertByTuple(x, s, key), key)
    ensures multiset(InsertByTuple(x, s, key)) == multiset(s) + multiset{x}
  {
    if s == [] {
    } else if TupleLe(key(x), key(s[0])) {
      forall j | 0 <= j < |s|
        ensures TupleLe(key(x), key(s[j]))
      {
        if j > 0 { TupleTransitive(key(x), key(s[0]), key(s[j])); }
      }
    } else {
      var rest := InsertByTuple(x, s[1..], key);
      InsertByTupleKeeps(x, s[1..], key);
      TupleTotal(key(x), key(s[0]));
      assert s == [s[0]] + s[1..];
      forall j | 0 <= j < |rest|
        ensures TupleLe(key(s[0]), key(rest[j]))
      {
        assert rest[j] in multiset(rest);
        assert rest[j] == x || rest[j] in s[1..];
      }
    }
  }

  lemma {:induction false} SortByTupleKeeps<T(!new)>(s: seq<T>, key: T -> seq<string>)
    ensures SortedByTuple(SortByTuple(s, key), key)
    ensures multiset(SortByTuple(s, key)) == multiset(s)
    ensures forall x :: x in SortByTuple(s, key) <==> x in s
  {
    if s != [] {
      SortByTupleKeeps(s[1..], key);
      InsertByTupleKeeps(s[0], SortByTuple(s[1..], key), key);
      assert s == [s[0]] + s[1..];
    }
    SameMembers(SortByTuple(s, key), s);
  }

  /** The items of one key, in order. */
  function Sharing<T>(s: seq<T>, key: T -> seq<string>, k: seq<string>): seq<T> {
    if s == [] then [] else (if key(s[0]) == k then [s[0]] else []) + Sharing(s[1..], key, k)
  }

  /** Items that share a key keep their authored order. */
  lemma {:induction false} SortIsStable<T(!new)>(s: seq<T>, key: T -> seq<string>, k: seq<string>)
    ensures Sharing(SortByTuple(s, key), key, k) == Sharing(s, key, k)
  {
    if s != [] {
      SortIsStable(s[1..], key, k);
      InsertIsStable(s[0], SortByTuple(s[1..], key), key, k);
    }
  }

  lemma {:induction false} InsertIsStable<T(!new)>(x: T, s: seq<T>, key: T -> seq<string>, k: seq<string>)
    ensures Sharing(InsertByTuple(x, s, key), key, k) == (if key(x) == k then [x] else []) + Sharing(s, key, k)
  {
    TupleTotal(key(x), key(x));
    if s != [] && !TupleLe(key(x), key(s[0])) {
      InsertIsStable(x, s[1..], key, k);
      var inserted := InsertByTuple(x, s, key);
      assert inserted[1..] == InsertByTuple(x, s[1..], key);
    } else {
      assert ([x] + s)[1..] == s;
    }
  }

  lemma SameHeadByTuple<T(!new)>(a: seq<T>, b: seq<T>, key: T -> seq<string>)
    requires SortedByTuple(a, key) && SortedByTuple(b, key) && multiset(a) == multiset(b) && a != []
    requires TupleIdentifies(a, key)
    ensures b != [] && a[0] == b[0]
  {
    assert a[0] in multiset(b);
    assert b[0] in multiset(a);
    var i :| 0 <= i < |b| && b[i] == a[0];
    var j :| 0 <= j < |a| && a[j] == b[0];
    if i > 0 && j > 0 {
      TupleAntisymmetric(key(a[0]), key(b[0]));
    }
  }

  /** Lists sorted by a key that tells items apart are equal once they hold the same items. */
  lemma {:induction false} SortedByTupleSame<T(!new)>(a: seq<T>, b: seq<T>, key: T -> seq<string>)
    requires SortedByTuple(a, key) && SortedByTuple(b, key) && multiset(a) == multiset(b)
    requires TupleIdentifies(a, key)
    ensures a == b
    decreases |a|
  {
    if a == [] {
      assert |multiset(b)| == 0;
    } else {
      SameHeadByTuple(a, b, key);
      DropHead(a);
      DropHead(b);
      SortedByTupleSame(a[1..], b[1..], key);
      assert a == [a[0]] + a[1..] && b == [b[0]] + b[1..];
    }
  }

  /** Sorting what is already sorted changes nothing, whatever the keys. */
  lemma {:induction false} SortOfSortedByTuple<T(!new)>(s: seq<T>, key: T -> seq<string>)
    requires SortedByTuple(s, key)
    ensures SortByTuple(s, key) == s
  {
    if s != [] {
      SortOfSortedByTuple(s[1..], key);
      if |s| > 1 {
        assert TupleLe(key(s[0]), key(s[1]));
      }
      assert s == [s[0]] + s[1..];
    }
  }

  // ---------------------------------------------------------------- by one text

  ghost predicate SortedBy<T(!new)>(s: seq<T>, key: T -> string) {
    forall i, j | 0 <= i < j < |s| :: LexLe(key(s[i]), key(s[j]))
  }

  /** Every two items of `s` that share a key are the same item. */
  ghost predicate KeyIdentifies<T(!new)>(s: seq<T>, key: T -> string) {
    forall x, y | x in s && y in s && key(x) == key(y) :: x == y
  }

  /** A text as the one component of a tuple. */
  function Single<T>(key: T -> string): T -> seq<string> {
    (x: T) => [key(x)]
  }

  /** Stable sort by one text. */
  function SortBy<T>(s: seq<T>, key: T -> string): seq<T> {
    SortByTuple(s, Single(key))
  }

  lemma SingleOrder(a: string, b: string)
    ensures TupleLe([a], [b]) <==> LexLe(a, b)
  {
    LexTotal(a, a);
    assert [a][1..] == [] && [b][1..] == [];
  }

  lemma SortedBySingle<T(!new)>(s: seq<T>, key: T -> string)
    ensures SortedByTuple(s, Single(key)) <==> SortedBy(s, key)
  {
    forall i, j | 0 <= i < j < |s|
      ensures TupleLe(Single(key)(s[i]), Single(key)(s[j])) <==> LexLe(key(s[i]), key(s[j]))
    {
      SingleOrder(key(s[i]), key(s[j]));
    }
  }

  lemma SortByKeeps<T(!new)>(s: seq<T>, key: T -> string)
    ensures SortedBy(SortBy(s, key), key)
    ensures multiset(SortBy(s, key)) == multiset(s)
    ensures |SortBy(s, key)| == |s|
    ensures forall x :: x in SortBy(s, key) <==> x in s
  {
    SortByTupleKeeps(s, Single(key));
    SortedBySingle(SortBy(s, key), key);
    SameMembers(SortBy(s, key), s);
  }

  /** Sorted sequences with the same items are equal once a key identifies its item. */
  lemma SortedSame<T(!new)>(a: seq<T>, b: seq<T>, key: T -> string)
    requires SortedBy(a, key) && SortedBy(b, key) && multiset(a) == multiset(b)
    requires KeyIdentifies(a, key)
    ensures a == b
  {
    SortedBySingle(a, key);
    SortedBySingle(b, key);
    forall x, y | x in a && y in a && Single(key)(x) == Single(key)(y)
      ensures x == y
    {
      assert Single(key)(x)[0] == Single(key)(y)[0];
    }
    SortedByTupleSame(a, b, Single(key));
  }

  /** Sorting forgets authored order, and nothing else, when keys identify items. */
  lemma SortForgetsOrder<T(!new)>(a: seq<T>, b: seq<T>, key: T -> string)
    requires KeyIdentifies(a, key)
    ensures SortBy(a, key) == SortBy(b, key) <==> multiset(a) == multiset(b)
  {
    SortByKeeps(a, key);
    SortByKeeps(b, key);
    if multiset(a) == multiset(b) {
      SortedSame(SortBy(a, key), SortBy(b, key), key);
    }
  }

  lemma SortOfSorted<T(!new)>(s: seq<T>, key: T -> string)
    requires SortedBy(s, key)
    ensures SortBy(s, key) == s
  {
    SortedBySingle(s, key);
    SortOfSortedByTuple(s, Single(key));
  }
}

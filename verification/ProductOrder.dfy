/**
  The order of the product graph (ergasterion/framework/graph.py:679-695): round after
  round, every product whose producers are all placed, in name order.
*/
module ProductOrder {
  import opened Basics
  import opened Ordering
  import opened SortedNames

  /** A product `target` consumes what `source` publishes. */
  datatype Edge = Edge(source: string, target: string)

  ghost predicate WithinProducts(products: set<string>, edges: set<Edge>) {
    forall e | e in edges :: e.source in products && e.target in products
  }

  function EdgeSet(edges: seq<Edge>): set<Edge> {
    set e | e in edges
  }

  function Blockers(edges: set<Edge>, name: string): set<string> {
    set e | e in edges && e.target == name :: e.source
  }

  // ---------------------------------------------------------------- the order

  ghost function Ready(edges: set<Edge>, remaining: set<string>, placed: set<string>): set<string> {
    set name | name in remaining && Blockers(edges, name) <= placed
  }

  /** The rounds still to come, or the products that can never be placed. */
  ghost function Rounds(edges: set<Edge>, remaining: set<string>, placed: set<string>)
    : Result<seq<string>, seq<string>>
    decreases |remaining|
  {
    if remaining == {} then Ok([]) else
    var ready := Ready(edges, remaining, placed);
    if ready == {} then Err(SortedList(remaining)) else
    SmallerWithout(remaining, ready);
    After(SortedList(ready), Rounds(edges, remaining - ready, placed + ready))
  }

  lemma SmallerWithout(a: set<string>, b: set<string>)
    requires b <= a && b != {}
    ensures |a - b| < |a|
  {
    var x :| x in b;
    assert a - b <= a - {x};
    SubsetSize(a - b, a - {x});
  }

  lemma {:induction false} SubsetSize(a: set<string>, b: set<string>)
    requires a <= b
    ensures |a| <= |b|
  {
    if a != {} {
      var x :| x in a;
      SubsetSize(a - {x}, b - {x});
    }
  }

  method BlockersByName(products: set<string>, edges: seq<Edge>) returns (blockers: map<string, set<string>>)
    requires WithinProducts(products, EdgeSet(edges))
    ensures blockers.Keys == products
    ensures forall name | name in products :: blockers[name] == Blockers(EdgeSet(edges), name)
  {
    blockers := map name | name in products :: {};
    for i := 0 to |edges|
      invariant blockers.Keys == products
      invariant forall name | name in products :: blockers[name] == Blockers(EdgeSet(edges[..i]), name)
    {
      var e := edges[i];
      assert e in EdgeSet(edges);
      blockers := blockers[e.target := blockers[e.target] + {e.source}];
      assert edges[..i + 1] == edges[..i] + [e];
    }
    assert edges[..|edges|] == edges;
  }

  /** The names whose blockers are all placed, sorted. */
  method ReadyNames(ghost edges: set<Edge>, blockers: map<string, set<string>>, remaining: set<string>,
      placed: set<string>)
    returns (names: seq<string>)
    requires remaining <= blockers.Keys
    requires forall name | name in blockers :: blockers[name] == Blockers(edges, name)
    ensures IsSortedList(names, Ready(edges, remaining, placed))
    ensures NameSet(names) == Ready(edges, remaining, placed)
  {
    var ready := set name | name in remaining && blockers[name] <= placed;
    assert ready == Ready(edges, remaining, placed);
    names := SortNames(ready);
  }

  method TopologicalOrder(products: set<string>, edges: seq<Edge>)
    returns (r: Result<seq<string>, seq<string>>)
    requires WithinProducts(products, EdgeSet(edges))
    ensures r == Rounds(EdgeSet(edges), products, {})
  {
    ghost var all := EdgeSet(edges);
    var blockers := BlockersByName(products, edges);
    var remaining := products;
    var order: seq<string> := [];
    var placed: set<string> := {};
    ghost var whole := Rounds(all, products, {});
    AfterNothing(whole);
    while remaining != {}
      invariant remaining <= products
      invariant whole == After(order, Rounds(all, remaining, placed))
      decreases |remaining|
    {
      var names := ReadyNames(all, blockers, remaining, placed);
      if names == [] {
        var stuck := SortNames(remaining);
        RoundsStuck(all, remaining, placed, stuck);
        return Err(stuck);
      }
      assert names[0] in NameSet(names);
      SmallerWithout(remaining, NameSet(names));
      RoundStep(all, order, remaining, placed, names);
      order := order + names;
      placed := placed + NameSet(names);
      remaining := remaining - NameSet(names);
    }
    assert order + [] == order;
    return Ok(order);
  }

  lemma RoundsStuck(edges: set<Edge>, remaining: set<string>, placed: set<string>, stuck: seq<string>)
    requires remaining != {} && Ready(edges, remaining, placed) == {} && IsSortedList(stuck, remaining)
    ensures Rounds(edges, remaining, placed) == Err(stuck)
  {
    SortedListUnique(stuck, SortedList(remaining), remaining);
  }

  /** What is placed already, in front of what later rounds place. */
  ghost function After(order: seq<string>, rest: Result<seq<string>, seq<string>>): Result<seq<string>, seq<string>> {
    if rest.Err? then rest else Ok(order + rest.value)
  }

  lemma AfterNothing(rest: Result<seq<string>, seq<string>>)
    ensures After([], rest) == rest
  {
    if rest.Ok? {
      assert [] + rest.value == rest.value;
    }
  }

  /** One round moves its sorted names in front of the rounds that follow. */
  lemma RoundStep(edges: set<Edge>, order: seq<string>, remaining: set<string>, placed: set<string>, names: seq<string>)
    requires IsSortedList(names, Ready(edges, remaining, placed)) && names != []
    ensures After(order, Rounds(edges, remaining, placed))
            == After(order + names, Rounds(edges, remaining - Ready(edges, remaining, placed),
                                           placed + Ready(edges, remaining, placed)))
  {
    var ready := Ready(edges, remaining, placed);
    assert names[0] in ready;
    SortedListUnique(names, SortedList(ready), ready);
    AfterAfter(order, names, Rounds(edges, remaining - ready, placed + ready));
  }

  lemma AfterAfter(a: seq<string>, b: seq<string>, rest: Result<seq<string>, seq<string>>)
    ensures After(a, After(b, rest)) == After(a + b, rest)
  {
    if rest.Ok? {
      assert a + (b + rest.value) == a + b + rest.value;
    }
  }

  // ---------------------------------------------------------------- dependency paths

  /** Each product of the path consumes the next one. */
  ghost predicate DependencyPath(edges: set<Edge>, path: seq<string>) {
    path != [] && forall i | 0 <= i < |path| - 1 :: Edge(path[i + 1], path[i]) in edges
  }

  /** A path of dependencies that comes back to its first product. */
  ghost predicate IsCycle(edges: set<Edge>, path: seq<string>) {
    DependencyPath(edges, path) && |path| >= 2 && path[0] == path[|path| - 1]
  }

  /** Following dependencies from `name` can revisit a product. */
  ghost predicate LeadsIntoCycle(edges: set<Edge>, name: string) {
    exists path :: DependencyPath(edges, path) && path[0] == name && !Distinct(path)
  }

  lemma RepeatIsCycle(edges: set<Edge>, path: seq<string>) returns (cycle: seq<string>)
    requires DependencyPath(edges, path) && !Distinct(path)
    ensures IsCycle(edges, cycle) && forall name | name in cycle :: name in path
  {
    var i, j :| 0 <= i < j < |path| && path[i] == path[j];
    cycle := path[i..j + 1];
  }

  /** Every dependency path from a grounded product visits no product twice. */
  ghost predicate Grounded(edges: set<Edge>, name: string) {
    forall path | DependencyPath(edges, path) && path[0] == name :: Distinct(path)
  }

  ghost predicate Closed(edges: set<Edge>, placed: set<string>) {
    forall name | name in placed :: Blockers(edges, name) <= placed
  }

  lemma {:induction false} PathStaysPlaced(edges: set<Edge>, placed: set<string>, path: seq<string>, i: nat)
    requires Closed(edges, placed) && DependencyPath(edges, path) && path[0] in placed && i < |path|
    ensures path[i] in placed
  {
    if i > 0 {
      PathStaysPlaced(edges, placed, path, i - 1);
      assert path[i] in Blockers(edges, path[i - 1]) by {
        assert Edge(path[i - 1 + 1], path[i - 1]) in edges;
      }
    }
  }

  /** A product not yet placed, whose producers are all placed and grounded, is grounded. */
  lemma ReadyIsGrounded(edges: set<Edge>, placed: set<string>, name: string)
    requires Closed(edges, placed) && AllGrounded(edges, placed)
    requires name !in placed && Blockers(edges, name) <= placed
    ensures Grounded(edges, name)
  {
    forall path | DependencyPath(edges, path) && path[0] == name
      ensures Distinct(path)
    {
      if |path| > 1 {
        var tail := path[1..];
        assert Edge(path[0 + 1], path[0]) in edges;
        assert tail[0] in Blockers(edges, name);
        assert DependencyPath(edges, tail) by {
          forall i | 0 <= i < |tail| - 1
            ensures Edge(tail[i + 1], tail[i]) in edges
          {
            assert Edge(path[i + 1 + 1], path[i + 1]) in edges;
          }
        }
        assert Grounded(edges, tail[0]);
        forall i | 0 <= i < |tail|
          ensures tail[i] != name
        {
          PathStaysPlaced(edges, placed, tail, i);
        }
        assert path == [name] + tail;
      }
    }
  }

  ghost predicate HasProducerIn(edges: set<Edge>, stuck: set<string>, name: string) {
    exists y :: y in Blockers(edges, name) && y in stuck
  }

  ghost predicate AllBlocked(edges: set<Edge>, stuck: set<string>) {
    forall x | x in stuck :: HasProducerIn(edges, stuck, x)
  }

  /** A path grows by one product in front. */
  lemma PathExtends(edges: set<Edge>, name: string, tail: seq<string>)
    requires DependencyPath(edges, tail) && tail[0] in Blockers(edges, name)
    ensures DependencyPath(edges, [name] + tail)
  {
    var path := [name] + tail;
    forall i | 0 <= i < |path| - 1
      ensures Edge(path[i + 1], path[i]) in edges
    {
      if i > 0 { assert Edge(tail[i - 1 + 1], tail[i - 1]) in edges; }
    }
  }

  /** Stuck products each have a stuck producer, so a path from one can go on for ever. */
  lemma {:induction false} StuckPath(edges: set<Edge>, stuck: set<string>, name: string, n: nat)
      returns (path: seq<string>)
    requires name in stuck && AllBlocked(edges, stuck)
    ensures DependencyPath(edges, path) && path[0] == name && |path| == n + 1
    ensures forall x | x in path :: x in stuck
    decreases n
  {
    if n == 0 {
      path := [name];
    } else {
      assert HasProducerIn(edges, stuck, name);
      var y :| y in Blockers(edges, name) && y in stuck;
      var tail := StuckPath(edges, stuck, y, n - 1);
      PathExtends(edges, name, tail);
      path := [name] + tail;
    }
  }

  lemma StuckLeadsIntoCycle(edges: set<Edge>, stuck: set<string>, name: string)
    requires name in stuck && AllBlocked(edges, stuck)
    ensures LeadsIntoCycle(edges, name)
  {
    var path := StuckPath(edges, stuck, name, |stuck|);
    if Distinct(path) {
      DistinctBounded(path, stuck);
    }
  }

  /** An order places what remains, each product after its producers. */
  ghost predicate Places(edges: set<Edge>, remaining: set<string>, placed: set<string>, order: seq<string>) {
    && Distinct(order) && (forall x :: x in order <==> x in remaining)
    && (forall i | 0 <= i < |order| :: PlacedEarlier(edges, placed, order, i))
  }

  /** Every producer of the i-th product is placed or comes before it. */
  ghost predicate PlacedEarlier(edges: set<Edge>, placed: set<string>, order: seq<string>, i: nat)
    requires i < |order|
  {
    forall y | y in Blockers(edges, order[i]) :: y in placed || y in order[..i]
  }

  /** Exactly the listed products are not grounded, and each leads into a cycle. */
  ghost predicate Strands(products: set<string>, edges: set<Edge>, stuck: seq<string>) {
    && stuck != []
    && (forall x | x in stuck :: x in products && LeadsIntoCycle(edges, x))
    && (forall x | x in products && x !in stuck :: Grounded(edges, x))
  }

  ghost predicate AllGrounded(edges: set<Edge>, names: set<string>) {
    forall x | x in names :: Grounded(edges, x)
  }

  /** The rounds place all that remains, or leave what is not grounded. */
  ghost predicate RoundsOutcome(products: set<string>, edges: set<Edge>, remaining: set<string>, placed: set<string>,
                                r: Result<seq<string>, seq<string>>) {
    match r
    case Ok(order) => Places(edges, remaining, placed, order) && AllGrounded(edges, products)
    case Err(stuck) => Strands(products, edges, stuck)
  }

  /** What the remaining rounds place and what they leave. */
  lemma {:induction false} RoundsMeaning(products: set<string>, edges: set<Edge>, remaining: set<string>,
      placed: set<string>)
    requires WithinProducts(products, edges) && placed !! remaining && placed + remaining == products
    requires Closed(edges, placed) && AllGrounded(edges, placed)
    ensures RoundsOutcome(products, edges, remaining, placed, Rounds(edges, remaining, placed))
    decreases |remaining|, 1
  {
    if remaining != {} {
      if Ready(edges, remaining, placed) == {} {
        NothingReady(products, edges, remaining, placed, SortedList(remaining));
      } else {
        RoundPlaced(products, edges, remaining, placed);
      }
    }
  }

  /** A round that places something leaves it to the others. */
  lemma {:induction false} RoundPlaced(products: set<string>, edges: set<Edge>, remaining: set<string>,
      placed: set<string>)
    requires WithinProducts(products, edges) && placed !! remaining && placed + remaining == products
    requires Closed(edges, placed) && AllGrounded(edges, placed) && Ready(edges, remaining, placed) != {}
    ensures RoundsOutcome(products, edges, remaining, placed, Rounds(edges, remaining, placed))
    decreases |remaining|, 0
  {
    var ready := Ready(edges, remaining, placed);
    ReadyKeeps(edges, placed, ready);
    SmallerWithout(remaining, ready);
    RoundsMeaning(products, edges, remaining - ready, placed + ready);
    var rest := Rounds(edges, remaining - ready, placed + ready);
    if rest.Ok? { RoundAppends(edges, remaining, placed, ready, rest.value); }
  }

  lemma ReadyKeeps(edges: set<Edge>, placed: set<string>, ready: set<string>)
    requires Closed(edges, placed) && AllGrounded(edges, placed) && ready !! placed
    requires forall x | x in ready :: Blockers(edges, x) <= placed
    ensures Closed(edges, placed + ready) && AllGrounded(edges, placed + ready)
  {
    forall x | x in ready
      ensures Grounded(edges, x)
    {
      ReadyIsGrounded(edges, placed, x);
    }
  }

  lemma NothingReady(products: set<string>, edges: set<Edge>, remaining: set<string>, placed: set<string>,
      stuck: seq<string>)
    requires WithinProducts(products, edges) && placed + remaining == products && remaining != {}
    requires AllGrounded(edges, placed) && Ready(edges, remaining, placed) == {}
    requires forall x :: x in stuck <==> x in remaining
    ensures Strands(products, edges, stuck)
  {
    forall x | x in remaining
      ensures LeadsIntoCycle(edges, x)
    {
      NothingReadyBlocks(products, edges, remaining, placed);
      StuckLeadsIntoCycle(edges, remaining, x);
    }
    assert forall x | x in products && x !in stuck :: x in placed;
    var x :| x in remaining;
    assert x in stuck;
  }

  lemma NothingReadyBlocks(products: set<string>, edges: set<Edge>, remaining: set<string>, placed: set<string>)
    requires WithinProducts(products, edges) && placed + remaining == products
    requires Ready(edges, remaining, placed) == {}
    ensures AllBlocked(edges, remaining)
  {
    forall x | x in remaining
      ensures HasProducerIn(edges, remaining, x)
    {
      assert x !in Ready(edges, remaining, placed);
      BlockedHasStuckProducer(products, edges, remaining, placed, x);
    }
  }

  lemma BlockedHasStuckProducer(products: set<string>, edges: set<Edge>, remaining: set<string>, placed: set<string>,
      x: string)
    requires WithinProducts(products, edges) && placed + remaining == products
    requires x in remaining && x !in Ready(edges, remaining, placed)
    ensures HasProducerIn(edges, remaining, x)
  {
    var y :| y in Blockers(edges, x) && y !in placed;
    assert y in products;
  }

  lemma RoundAppends(edges: set<Edge>, remaining: set<string>, placed: set<string>, ready: set<string>,
      rest: seq<string>)
    requires ready == Ready(edges, remaining, placed)
    requires Places(edges, remaining - ready, placed + ready, rest)
    ensures Places(edges, remaining, placed, SortedList(ready) + rest)
  {
    var head := SortedList(ready);
    var order := head + rest;
    DistinctConcat(head, rest);
    forall i | 0 <= i < |order|
      ensures PlacedEarlier(edges, placed, order, i)
    {
      if i < |head| {
        assert order[i] in ready;
      } else {
        assert order[..i] == head + rest[..i - |head|];
        assert PlacedEarlier(edges, placed + ready, rest, i - |head|);
      }
    }
  }

  ghost predicate ComesBefore(order: seq<string>, a: string, b: string) {
    exists i, j :: 0 <= i < j < |order| && order[i] == a && order[j] == b
  }

  lemma ProducerFirst(edges: set<Edge>, order: seq<string>, e: Edge)
    requires e in edges && e.target in order
    requires forall i | 0 <= i < |order| :: PlacedEarlier(edges, {}, order, i)
    ensures ComesBefore(order, e.source, e.target)
  {
    var j :| 0 <= j < |order| && order[j] == e.target;
    assert PlacedEarlier(edges, {}, order, j);
    assert e.source in Blockers(edges, order[j]);
    var before := order[..j];
    var i :| 0 <= i < |before| && before[i] == e.source;
    assert order[i] == e.source;
  }

  /**
    An order is a duplicate-free list of all products in which every producer comes before
    its consumers.
  */
  lemma OrderRespectsEdges(products: set<string>, edges: set<Edge>)
    requires WithinProducts(products, edges) && Rounds(edges, products, {}).Ok?
    ensures var order := Rounds(edges, products, {}).value;
            && Distinct(order) && (forall x :: x in order <==> x in products)
            && (forall e | e in edges :: ComesBefore(order, e.source, e.target))
  {
    RoundsMeaning(products, edges, products, {});
    var order := Rounds(edges, products, {}).value;
    forall e | e in edges
      ensures ComesBefore(order, e.source, e.target)
    {
      ProducerFirst(edges, order, e);
    }
  }

  lemma CyclicNotGrounded(products: set<string>, edges: set<Edge>, path: seq<string>)
    requires WithinProducts(products, edges) && IsCycle(edges, path)
    ensures path[0] in products && !Grounded(edges, path[0])
  {
    assert Edge(path[0 + 1], path[0]) in edges;
  }

  /**
    The order is refused exactly when the dependencies hold a cycle, and the refusal names,
    in name order, exactly the products whose dependencies lead into one.
  */
  lemma RefusalIsCycles(products: set<string>, edges: set<Edge>)
    requires WithinProducts(products, edges)
    ensures Rounds(edges, products, {}).Err? <==> exists path :: IsCycle(edges, path)
    ensures Rounds(edges, products, {}).Err? ==>
              && SortedBy(Rounds(edges, products, {}).error, Self)
              && (forall x :: x in Rounds(edges, products, {}).error <==> x in products && LeadsIntoCycle(edges, x))
  {
    RoundsMeaning(products, edges, products, {});
    var r := Rounds(edges, products, {});
    RefusalSorted(edges, products, {});
    if r.Err? {
      assert LeadsIntoCycle(edges, r.error[0]);
      var path :| DependencyPath(edges, path) && path[0] == r.error[0] && !Distinct(path);
      var cycle := RepeatIsCycle(edges, path);
    } else if path :| IsCycle(edges, path) {
      CyclicNotGrounded(products, edges, path);
    }
  }

  lemma {:induction false} RefusalSorted(edges: set<Edge>, remaining: set<string>, placed: set<string>)
    ensures Rounds(edges, remaining, placed).Err? ==> SortedBy(Rounds(edges, remaining, placed).error, Self)
    decreases |remaining|
  {
    if remaining != {} {
      var ready := Ready(edges, remaining, placed);
      if ready != {} {
        SmallerWithout(remaining, ready);
        RefusalSorted(edges, remaining - ready, placed + ready);
      }
    }
  }

  // ---------------------------------------------------------------- round by round

  /** The products of the first k rounds. */
  function Earlier(rounds: seq<seq<string>>, k: nat): set<string>
    requires k <= |rounds|
  {
    set r, x | 0 <= r < k && x in rounds[r] :: x
  }

  /** Each round lists, by name, every product left whose producers are placed or in an earlier round. */
  ghost predicate AreRounds(edges: set<Edge>, remaining: set<string>, placed: set<string>, rounds: seq<seq<string>>) {
    && (forall k | 0 <= k < |rounds| ::
          rounds[k] != []
          && IsSortedList(rounds[k], set x | x in remaining && x !in Earlier(rounds, k)
                                             && Blockers(edges, x) <= placed + Earlier(rounds, k)))
    && Earlier(rounds, |rounds|) == remaining
  }

  /** An order is its rounds, one after the other. */
  lemma {:induction false} OrderIsItsRounds(edges: set<Edge>, remaining: set<string>, placed: set<string>)
      returns (rounds: seq<seq<string>>)
    requires Rounds(edges, remaining, placed).Ok? && placed !! remaining
    ensures AreRounds(edges, remaining, placed, rounds)
    ensures Rounds(edges, remaining, placed).value == Concatenated(rounds, |rounds|)
    decreases |remaining|
  {
    rounds := [];
    if remaining != {} {
      var ready := FirstReady(edges, remaining, placed);
      var rest := OrderIsItsRounds(edges, remaining - ready, placed + ready);
      RoundsPrepend(edges, remaining, placed, ready, rest);
      ConcatenatedPrepend(SortedList(ready), rest, |rest|);
      rounds := [SortedList(ready)] + rest;
    }
  }

  lemma FirstReady(edges: set<Edge>, remaining: set<string>, placed: set<string>) returns (ready: set<string>)
    requires remaining != {} && Rounds(edges, remaining, placed).Ok?
    ensures ready == Ready(edges, remaining, placed) != {} && |remaining - ready| < |remaining|
    ensures Rounds(edges, remaining - ready, placed + ready).Ok?
    ensures Rounds(edges, remaining, placed).value
            == SortedList(ready) + Rounds(edges, remaining - ready, placed + ready).value
  {
    ready := Ready(edges, remaining, placed);
    SmallerWithout(remaining, ready);
  }

  lemma EarlierPrepend(first: seq<string>, rest: seq<seq<string>>, k: nat)
    requires k <= |rest|
    ensures Earlier([first] + rest, k + 1) == NameSet(first) + Earlier(rest, k)
  {
    var all := [first] + rest;
    assert forall r | 0 <= r < |rest| :: all[r + 1] == rest[r];
    forall x
      ensures x in Earlier(all, k + 1) <==> x in NameSet(first) + Earlier(rest, k)
    {
      if x in Earlier(all, k + 1) {
        var r :| 0 <= r < k + 1 && x in all[r];
        assert r > 0 ==> x in rest[r - 1];
      }
      if x in first { assert x in all[0]; }
      if x in Earlier(rest, k) {
        var r :| 0 <= r < k && x in rest[r];
        assert x in all[r + 1];
      }
    }
  }

  lemma RoundsPrepend(edges: set<Edge>, remaining: set<string>, placed: set<string>, ready: set<string>,
      rest: seq<seq<string>>)
    requires remaining != {} && ready == Ready(edges, remaining, placed) != {} && placed !! remaining
    requires AreRounds(edges, remaining - ready, placed + ready, rest)
    ensures AreRounds(edges, remaining, placed, [SortedList(ready)] + rest)
  {
    var first := SortedList(ready);
    var all := [first] + rest;
    assert NameSet(first) == ready;
    forall k | 0 <= k < |all|
      ensures all[k] != []
      ensures IsSortedList(all[k], set x | x in remaining && x !in Earlier(all, k)
                                           && Blockers(edges, x) <= placed + Earlier(all, k))
    {
      if k == 0 {
        FirstRound(edges, remaining, placed, all);
      } else {
        EarlierPrepend(first, rest, k - 1);
        LaterRound(edges, remaining, placed, ready, Earlier(rest, k - 1));
        assert all[k] == rest[k - 1];
      }
    }
    EarlierPrepend(first, rest, |rest|);
    assert ready <= remaining;
  }

  lemma FirstRound(edges: set<Edge>, remaining: set<string>, placed: set<string>, rounds: seq<seq<string>>)
    ensures (set x | x in remaining && x !in Earlier(rounds, 0) && Blockers(edges, x) <= placed + Earlier(rounds, 0))
            == Ready(edges, remaining, placed)
  {
    assert Earlier(rounds, 0) == {};
    assert placed + {} == placed;
  }

  lemma LaterRound(edges: set<Edge>, remaining: set<string>, placed: set<string>, ready: set<string>,
      earlier: set<string>)
    ensures (set x | x in remaining && x !in ready + earlier && Blockers(edges, x) <= placed + (ready + earlier))
            == set x | x in remaining - ready && x !in earlier && Blockers(edges, x) <= placed + ready + earlier
  {
    assert placed + (ready + earlier) == placed + ready + earlier;
  }

  lemma {:induction false} ConcatenatedPrepend(first: seq<string>, rest: seq<seq<string>>, n: nat)
    requires n <= |rest|
    ensures Concatenated([first] + rest, n + 1) == first + Concatenated(rest, n)
  {
    var all := [first] + rest;
    if n == 0 {
      assert Concatenated(all, 1) == Concatenated(all, 0) + all[0];
    } else {
      ConcatenatedPrepend(first, rest, n - 1);
      assert all[n] == rest[n - 1];
      ConcatAssociates(first, Concatenated(rest, n - 1), rest[n - 1]);
    }
  }
}

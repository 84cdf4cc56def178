/**
  The memoised view-depth search and the depth budget
  (ergasterion/structure_gate.py:332-356, 544-560).
*/
module ViewDepth {
  import opened Basics

  datatype Model = Model(view: bool, refs: seq<string>)

  type Models = map<string, Model>

  // ---------------------------------------------------------------- chains of views

  /** Views of the estate, each referencing the next. */
  ghost predicate ViewChain(models: Models, path: seq<string>) {
    && (forall i | 0 <= i < |path| :: path[i] in models && models[path[i]].view)
    && (forall i | 0 <= i < |path| - 1 :: path[i + 1] in models[path[i]].refs)
  }

  ghost predicate ChainFrom(models: Models, name: string, path: seq<string>) {
    ViewChain(models, path) && path != [] && path[0] == name
  }

  /** No chain of views meets a view twice. */
  ghost predicate Acyclic(models: Models) {
    forall path | ViewChain(models, path) :: Distinct(path)
  }

  /** `d` bounds every chain of views from `name`. */
  ghost predicate Bounds(models: Models, name: string, d: nat) {
    forall path | ChainFrom(models, name, path) :: |path| <= d
  }

  /** Some simple chain of views from `name`, inside `within`, has length `d`. */
  ghost predicate Realised(models: Models, name: string, d: nat, within: set<string>) {
    d == 0 || exists path ::
      ChainFrom(models, name, path) && |path| == d && Distinct(path) && (forall x | x in path :: x in within)
  }

  /** The length of the longest chain of views from `name`. */
  ghost predicate IsLongest(models: Models, name: string, d: nat) {
    Bounds(models, name, d) && (d == 0 || exists path :: ChainFrom(models, name, path) && |path| == d)
  }

  lemma LongestIsUnique(models: Models, name: string, c: nat, d: nat)
    requires IsLongest(models, name, c) && IsLongest(models, name, d)
    ensures c == d
  {}

  lemma PrependChain(models: Models, name: string, path: seq<string>)
    requires ViewChain(models, path) && name in models && models[name].view
    requires path != [] ==> path[0] in models[name].refs
    ensures ViewChain(models, [name] + path)
  {
    var chain := [name] + path;
    forall i | 0 <= i < |chain| - 1
      ensures chain[i + 1] in models[chain[i]].refs
    {
      if i > 0 { assert path[i - 1 + 1] in models[path[i - 1]].refs; }
    }
  }

  lemma RealisedWithin(models: Models, name: string, d: nat, a: set<string>, b: set<string>)
    requires Realised(models, name, d, a) && a <= b
    ensures Realised(models, name, d, b)
  {}

  /** One more view in front of a realised chain that does not contain it. */
  lemma RealisedGrows(models: Models, name: string, ref: string, d: nat, within: set<string>)
    requires name in models && models[name].view && ref in models[name].refs
    requires Realised(models, ref, d, within) && name !in within
    ensures Realised(models, name, d + 1, within + {name})
  {
    if d == 0 {
      assert ChainFrom(models, name, [name]);
    } else {
      var path :| ChainFrom(models, ref, path) && |path| == d && Distinct(path) && forall x | x in path :: x in within;
      PrependChain(models, name, path);
      DistinctConcat([name], path);
      assert ChainFrom(models, name, [name] + path);
    }
  }

  lemma RealisedAlone(models: Models, name: string, within: set<string>)
    requires name in models && models[name].view
    ensures Realised(models, name, 1, within + {name})
  {
    assert ChainFrom(models, name, [name]);
  }

  /** No chain from any of the references is longer than the given depth. */
  ghost predicate AllWithin(models: Models, refs: seq<string>, below: nat) {
    forall ref | ref in refs :: Bounds(models, ref, below)
  }

  /** A bound on every reference bounds the view one longer. */
  lemma BoundsGrow(models: Models, name: string, below: nat)
    requires name in models && AllWithin(models, models[name].refs, below)
    ensures Bounds(models, name, below + 1)
  {
    forall path | ChainFrom(models, name, path)
      ensures |path| <= below + 1
    {
      if |path| > 1 {
        var tail := path[1..];
        assert path[0 + 1] in models[path[0]].refs;
        assert ChainFrom(models, tail[0], tail);
      }
    }
  }

  // ---------------------------------------------------------------- the search

  /** The views being resolved, outermost first: each references the next, the last `name`. */
  ghost predicate Trail(models: Models, trail: seq<string>, name: string) {
    ViewChain(models, trail) && (trail != [] ==> name in models[trail[|trail| - 1]].refs)
  }

  lemma TrailExtends(models: Models, trail: seq<string>, name: string)
    requires Trail(models, trail, name) && name in models && models[name].view
    ensures ViewChain(models, trail + [name])
  {
    var longer := trail + [name];
    forall i | 0 <= i < |longer| - 1
      ensures longer[i + 1] in models[longer[i]].refs
    {
      if i < |trail| - 1 { assert trail[i + 1] in models[trail[i]].refs; }
    }
  }

  /** In an acyclic estate a view is never met again while it is being resolved. */
  lemma NeverMetAgain(models: Models, trail: seq<string>, name: string)
    requires Acyclic(models) && Trail(models, trail, name) && name in models && models[name].view
    ensures name !in trail
  {
    TrailExtends(models, trail, name);
    var longer := trail + [name];
    assert Distinct(longer);
    forall i | 0 <= i < |trail|
      ensures trail[i] != name
    {
      assert longer[i] != longer[|trail|];
    }
  }

  ghost predicate AllRealised(models: Models, memo: map<string, nat>) {
    forall name | name in memo :: Realised(models, name, memo[name], memo.Keys)
  }

  ghost predicate AllBounded(models: Models, memo: map<string, nat>) {
    forall name | name in memo :: Bounds(models, name, memo[name])
  }

  /** Memoising one more name keeps every realised chain realised. */
  lemma MemoiseRealised(models: Models, before: map<string, nat>, name: string, d: nat)
    requires AllRealised(models, before) && Realised(models, name, d, before.Keys + {name})
    ensures AllRealised(models, before[name := d])
  {
    var after := before[name := d];
    assert after.Keys == before.Keys + {name};
    forall n | n in after
      ensures Realised(models, n, after[n], after.Keys)
    {
      if n != name { RealisedWithin(models, n, before[n], before.Keys, after.Keys); }
    }
  }

  /** Some reference has a realised chain of the given depth, unless the depth is 0. */
  ghost predicate SomeReference(models: Models, refs: seq<string>, below: nat, within: set<string>) {
    below == 0 || exists k | 0 <= k < |refs| :: Realised(models, refs[k], below, within)
  }

  lemma SomeReferenceMore(models: Models, refs: seq<string>, more: seq<string>, below: nat, within: set<string>,
      wider: set<string>)
    requires SomeReference(models, refs, below, within) && refs <= more && within <= wider
    ensures SomeReference(models, more, below, wider)
  {
    if below > 0 {
      var k :| 0 <= k < |refs| && Realised(models, refs[k], below, within);
      RealisedWithin(models, refs[k], below, within, wider);
      assert Realised(models, more[k], below, wider);
    }
  }

  /** The deeper of two depths bounds one more reference. */
  lemma DeeperBounds(models: Models, refs: seq<string>, i: nat, below: nat, depth: nat)
    requires i < |refs| && AllWithin(models, refs[..i], below) && Bounds(models, refs[i], depth)
    ensures AllWithin(models, refs[..i + 1], if depth > below then depth else below)
  {
    assert refs[..i + 1] == refs[..i] + [refs[i]];
  }

  /** The deeper of two depths is realised by one more reference. */
  lemma DeeperRealised(models: Models, refs: seq<string>, i: nat, below: nat, depth: nat, within: set<string>,
      wider: set<string>)
    requires i < |refs| && SomeReference(models, refs[..i], below, within) && within <= wider
    requires Realised(models, refs[i], depth, wider)
    ensures SomeReference(models, refs[..i + 1], if depth > below then depth else below, wider)
  {
    if depth > below {
      assert Realised(models, refs[..i + 1][i], depth, wider);
    } else {
      SomeReferenceMore(models, refs[..i], refs[..i + 1], below, within, wider);
    }
  }

  lemma ViewRealised(models: Models, name: string, below: nat, within: set<string>)
    requires name in models && models[name].view && name !in within
    requires SomeReference(models, models[name].refs, below, within)
    ensures Realised(models, name, below + 1, within + {name})
  {
    if below == 0 {
      RealisedAlone(models, name, within);
    } else {
      var k :| 0 <= k < |models[name].refs| && Realised(models, models[name].refs[k], below, within);
      RealisedGrows(models, name, models[name].refs[k], below, within);
    }
  }

  // ---------------------------------------------------------------- one view against another

  /** A chain of views leads from `ref` back to `name`. */
  ghost predicate LeadsBack(models: Models, ref: string, name: string) {
    exists path :: ChainFrom(models, ref, path) && path[|path| - 1] == name
  }

  /** The reference is no model, leads back, or is memoised with at most the given depth. */
  ghost predicate Covers(models: Models, memo: map<string, nat>, name: string, ref: string, below: nat) {
    ref !in models || LeadsBack(models, ref, name) || (ref in memo && memo[ref] <= below)
  }

  ghost predicate CoversAll(models: Models, memo: map<string, nat>, name: string, refs: seq<string>, below: nat) {
    forall i | 0 <= i < |refs| :: Covers(models, memo, name, refs[i], below)
  }

  /** A memoised view is deeper than each of its references that does not lead back to it. */
  ghost predicate Deeper(models: Models, memo: map<string, nat>, name: string)
    requires name in models && name in memo
  {
    models[name].view ==> memo[name] > 0 && CoversAll(models, memo, name, models[name].refs, memo[name] - 1)
  }

  ghost predicate AllDeeper(models: Models, memo: map<string, nat>) {
    forall name | name in memo && name in models :: Deeper(models, memo, name)
  }

  /** Memoising one more name keeps every view deeper than its references. */
  lemma MemoiseDeeper(models: Models, before: map<string, nat>, name: string, d: nat)
    requires AllDeeper(models, before) && name !in before && name in models
    requires models[name].view ==> d > 0 && CoversAll(models, before, name, models[name].refs, d - 1)
    ensures AllDeeper(models, before[name := d])
  {
    var after := before[name := d];
    forall n | n in after && n in models
      ensures Deeper(models, after, n)
    {
      if n != name { assert Deeper(models, before, n); }
    }
  }

  /** What a view covers it covers with more memoised and a greater depth, and one more reference joins. */
  lemma CoversMore(models: Models, before: map<string, nat>, after: map<string, nat>, name: string, refs: seq<string>,
      i: nat, below: nat, deeper: nat)
    requires i < |refs| && CoversAll(models, before, name, refs[..i], below) && below <= deeper
    requires forall n | n in before :: n in after && after[n] == before[n]
    requires Covers(models, after, name, refs[i], deeper)
    ensures CoversAll(models, after, name, refs[..i + 1], deeper)
  {
    var earlier, longer := refs[..i], refs[..i + 1];
    forall k | 0 <= k < i
      ensures Covers(models, after, name, longer[k], deeper)
    {
      assert Covers(models, before, name, earlier[k], below);
    }
  }

  /** A view being resolved leads to the view resolved last. */
  lemma TrailLeadsBack(models: Models, trail: seq<string>, ref: string, name: string)
    requires ViewChain(models, trail) && ref in trail && trail[|trail| - 1] == name
    ensures LeadsBack(models, ref, name)
  {
    var i :| 0 <= i < |trail| && trail[i] == ref;
    var path := trail[i..];
    forall k | 0 <= k < |path| - 1
      ensures path[k + 1] in models[path[k]].refs
    {
      assert trail[i + k + 1] in models[trail[i + k]].refs;
    }
    assert ChainFrom(models, ref, path) && path[|path| - 1] == name;
  }

  class DepthSearch {
    const models: Models
    var memo: map<string, nat>
    var resolving: set<string>

    ghost predicate Valid()
      reads this
    {
      && memo.Keys <= models.Keys && resolving <= models.Keys && memo.Keys !! resolving
      && AllRealised(models, memo) && AllDeeper(models, memo)
      && (Acyclic(models) ==> AllBounded(models, memo))
    }

    constructor (models: Models)
      ensures Valid() && this.models == models && memo == map[] && resolving == {}
    {
      this.models := models;
      memo := map[];
      resolving := {};
    }

    /** What is memoised stays memoised with its depth. */
    twostate predicate Grows()
      reads this
    {
      old(memo.Keys) <= memo.Keys && forall name | name in old(memo) :: memo[name] == old(memo[name])
    }

    /** The depth of one model; `trail` lists the views being resolved, each referencing the next. */
    method ViewDepth(name: string, ghost trail: seq<string>) returns (d: nat)
      requires Valid() && Trail(models, trail, name) && forall x :: x in trail <==> x in resolving
      modifies this
      ensures Valid() && resolving == old(resolving) && Grows()
      ensures Realised(models, name, d, memo.Keys)
      ensures Acyclic(models) ==> Bounds(models, name, d)
      ensures name in models && name !in resolving ==> name in memo && memo[name] == d
      decreases |models.Keys - resolving|, 0
    {
      if name !in models { return 0; }
      if name in memo { return memo[name]; }
      if name in resolving {
        if Acyclic(models) && models[name].view { NeverMetAgain(models, trail, name); }
        return 0;
      }
      if !models[name].view {
        Memoise(name, 0);
        return 0;
      }
      TrailExtends(models, trail, name);
      LessToResolve(models.Keys, resolving, name);
      resolving := resolving + {name};
      var below := DeepestReference(name, trail + [name]);
      assert resolving - {name} == old(resolving);
      resolving := resolving - {name};
      ViewRealised(models, name, below, memo.Keys);
      if Acyclic(models) { BoundsGrow(models, name, below); }
      Memoise(name, below + 1);
      return below + 1;
    }

    /** Record the depth of a model that is neither memoised nor being resolved. */
    method Memoise(name: string, d: nat)
      requires Valid() && name in models && name !in memo && name !in resolving
      requires Realised(models, name, d, memo.Keys + {name}) && (Acyclic(models) ==> Bounds(models, name, d))
      requires models[name].view ==> d > 0 && CoversAll(models, memo, name, models[name].refs, d - 1)
      modifies this`memo
      ensures Valid() && memo == old(memo)[name := d]
    {
      MemoiseRealised(models, memo, name, d);
      MemoiseDeeper(models, memo, name, d);
      memo := memo[name := d];
    }

    /** The greatest depth among the references of a view being resolved, or 0 without any. */
    method DeepestReference(name: string, ghost trail: seq<string>) returns (below: nat)
      requires Valid() && name in resolving && models[name].view
      requires ViewChain(models, trail) && trail != [] && trail[|trail| - 1] == name
      requires forall x :: x in trail <==> x in resolving
      modifies this
      ensures Valid() && resolving == old(resolving) && Grows()
      ensures SomeReference(models, models[name].refs, below, memo.Keys)
      ensures Acyclic(models) ==> AllWithin(models, models[name].refs, below)
      ensures CoversAll(models, memo, name, models[name].refs, below)
      decreases |models.Keys - resolving|, 1
    {
      var refs := models[name].refs;
      below := 0;
      for i := 0 to |refs|
        invariant Valid() && resolving == old(resolving) && Grows()
        invariant SomeReference(models, refs[..i], below, memo.Keys)
        invariant Acyclic(models) ==> AllWithin(models, refs[..i], below)
        invariant CoversAll(models, memo, name, refs[..i], below)
      {
        ghost var before := memo;
        var depth := ViewDepth(refs[i], trail);
        DeeperRealised(models, refs, i, below, depth, before.Keys, memo.Keys);
        if Acyclic(models) { DeeperBounds(models, refs, i, below, depth); }
        if refs[i] in resolving { TrailLeadsBack(models, trail, refs[i], name); }
        CoversMore(models, before, memo, name, refs, i, below, if depth > below then depth else below);
        below := if depth > below then depth else below;
      }
      assert refs[..|refs|] == refs;
    }
  }

  lemma LessToResolve(all: set<string>, resolving: set<string>, name: string)
    requires name in all && name !in resolving
    ensures |all - (resolving + {name})| < |all - resolving|
  {
    assert all - resolving == (all - (resolving + {name})) + {name};
  }

  // ---------------------------------------------------------------- the scan and the budget

  /** Every view is deeper than each of its references, unless the reference leads back to it. */
  ghost predicate Ranks(models: Models, depths: map<string, nat>) {
    forall name | name in models && models[name].view :: Outranks(models, depths, name)
  }

  ghost predicate Outranks(models: Models, depths: map<string, nat>, name: string)
    requires name in models
  {
    forall ref | ref in models[name].refs && ref in models :: LeadsBack(models, ref, name) || Below(depths, ref, name)
  }

  predicate Below(depths: map<string, nat>, ref: string, name: string) {
    ref in depths && name in depths && depths[ref] < depths[name]
  }

  lemma DeeperRanks(models: Models, memo: map<string, nat>, depths: map<string, nat>)
    requires AllDeeper(models, memo) && depths.Keys == models.Keys
    requires forall name | name in models :: name in memo && memo[name] == depths[name]
    ensures Ranks(models, depths)
  {
    forall name | name in models && models[name].view
      ensures Outranks(models, depths, name)
    {
      assert Deeper(models, memo, name);
      forall ref | ref in models[name].refs && ref in models && !LeadsBack(models, ref, name)
        ensures Below(depths, ref, name)
      {
        var i :| 0 <= i < |models[name].refs| && models[name].refs[i] == ref;
        assert Covers(models, memo, name, models[name].refs[i], memo[name] - 1);
      }
    }
  }

  /** The depth is the length of a real simple chain, and the longest if no cycle is. */
  ghost predicate Measured(models: Models, name: string, d: nat) {
    Realised(models, name, d, models.Keys) && (Acyclic(models) ==> IsLongest(models, name, d))
  }

  /** Every model's depth is measured. */
  ghost predicate Measures(models: Models, depths: map<string, nat>) {
    && depths.Keys == models.Keys && (forall name | name in models :: Measured(models, name, depths[name]))
    && Ranks(models, depths)
  }

  /** The depth of one model, with no view being resolved. */
  method MeasureOne(search: DepthSearch, name: string) returns (d: nat)
    requires search.Valid() && search.resolving == {}
    modifies search
    ensures search.Valid() && search.resolving == {}
    ensures Measured(search.models, name, d) && search.Grows()
    ensures name in search.models ==> name in search.memo && search.memo[name] == d
  {
    d := search.ViewDepth(name, []);
    RealisedWithin(search.models, name, d, search.memo.Keys, search.models.Keys);
  }

  /** The depth of every model, whatever order they are visited in. */
  method ScanDepths(models: Models, visiting: seq<string>) returns (depths: map<string, nat>)
    requires forall name :: name in visiting <==> name in models
    ensures Measures(models, depths)
  {
    var search := new DepthSearch(models);
    depths := map[];
    for i := 0 to |visiting|
      invariant search.Valid() && search.models == models && search.resolving == {}
      invariant forall name :: name in depths <==> name in visiting[..i]
      invariant Agrees(models, search.memo, depths)
    {
      ghost var memo := search.memo;
      var d := MeasureOne(search, visiting[i]);
      AgreesMore(models, memo, search.memo, depths, visiting[i], d);
      depths := depths[visiting[i] := d];
      assert visiting[..i + 1] == visiting[..i] + [visiting[i]];
    }
    assert visiting[..|visiting|] == visiting;
    DeeperRanks(models, search.memo, depths);
  }

  /** The depths recorded are those memoised, and measured. */
  ghost predicate Agrees(models: Models, memo: map<string, nat>, depths: map<string, nat>) {
    forall name | name in depths :: name in memo && memo[name] == depths[name] && Measured(models, name, depths[name])
  }

  lemma AgreesMore(models: Models, before: map<string, nat>, after: map<string, nat>, depths: map<string, nat>,
      name: string, d: nat)
    requires Agrees(models, before, depths) && name in after && after[name] == d && Measured(models, name, d)
    requires forall n | n in before :: n in after && after[n] == before[n]
    ensures Agrees(models, after, depths[name := d])
  {}

  /** Models over the declared ceiling, in the order they are listed. */
  method DepthOffenses(listed: seq<string>, depths: map<string, nat>, limit: nat) returns (offenses: seq<string>)
    requires forall name | name in listed :: name in depths
    ensures forall name :: name in offenses <==> name in listed && depths[name] > limit
    ensures exists places :: Selects(listed, depths, limit, offenses, places)
  {
    offenses := [];
    ghost var places: seq<nat> := [];
    for i := 0 to |listed|
      invariant forall name :: name in offenses <==> name in listed[..i] && depths[name] > limit
      invariant Selects(listed[..i], depths, limit, offenses, places)
    {
      assert listed[..i + 1] == listed[..i] + [listed[i]];
      SelectsMore(listed[..i], depths, limit, offenses, places, listed[i]);
      if depths[listed[i]] > limit { offenses, places := offenses + [listed[i]], places + [i]; }
    }
    assert listed[..|listed|] == listed;
  }

  /** The offenders are those listed at the places, which ascend and are all the places over the ceiling. */
  ghost predicate Selects(listed: seq<string>, depths: map<string, nat>, limit: nat, offenses: seq<string>,
      places: seq<nat>)
  {
    && |places| == |offenses|
    && (forall k | 0 <= k < |places| :: places[k] < |listed| && listed[places[k]] == offenses[k])
    && (forall j, k | 0 <= j < k < |places| :: places[j] < places[k])
    && (forall i: nat | i < |listed| && listed[i] in depths && depths[listed[i]] > limit :: i in places)
  }

  lemma SelectsMore(listed: seq<string>, depths: map<string, nat>, limit: nat, offenses: seq<string>,
      places: seq<nat>, name: string)
    requires name in depths && Selects(listed, depths, limit, offenses, places)
    ensures if depths[name] > limit
            then Selects(listed + [name], depths, limit, offenses + [name], places + [|listed|])
            else Selects(listed + [name], depths, limit, offenses, places)
  {}

  /** A measured estate's depths do not depend on how it was measured, where there is no cycle. */
  lemma MeasureIsUnique(models: Models, a: map<string, nat>, b: map<string, nat>)
    requires Measures(models, a) && Measures(models, b) && Acyclic(models)
    ensures a == b
  {
    forall name | name in models
      ensures a[name] == b[name]
    {
      LongestIsUnique(models, name, a[name], b[name]);
    }
  }

  /** A chain round a cycle can be made as long as one likes. */
  lemma {:induction false} ChainRound(models: Models, cycle: seq<string>, n: nat) returns (path: seq<string>)
    requires ViewChain(models, cycle) && cycle != [] && cycle[0] in models[cycle[|cycle| - 1]].refs
    ensures ChainFrom(models, cycle[0], path) && |path| >= n
    decreases n
  {
    if n <= |cycle| {
      path := cycle;
    } else {
      var rest := ChainRound(models, cycle, n - |cycle|);
      path := cycle + rest;
      forall i | 0 <= i < |path| - 1
        ensures path[i + 1] in models[path[i]].refs
      {
        if i < |cycle| - 1 { assert cycle[i + 1] in models[cycle[i]].refs; }
        if i >= |cycle| { assert rest[i - |cycle| + 1] in models[rest[i - |cycle|]].refs; }
      }
    }
  }

  /** A chain that meets a view twice contains a cycle. */
  lemma CycleWithin(models: Models, path: seq<string>) returns (cycle: seq<string>)
    requires ViewChain(models, path) && !Distinct(path)
    ensures ViewChain(models, cycle) && cycle != [] && cycle[0] in models[cycle[|cycle| - 1]].refs
  {
    var i, j :| 0 <= i < j < |path| && path[i] == path[j];
    cycle := path[i..j];
    assert path[j - 1 + 1] in models[path[j - 1]].refs;
    forall k | 0 <= k < |cycle| - 1
      ensures cycle[k + 1] in models[cycle[k]].refs
    {
      assert path[i + k + 1] in models[path[i + k]].refs;
    }
  }

  /**
    The measured depths bound every chain of views exactly where no reference cycle joins
    views; so there, and only there, does a passing depth budget bound every chain.
  */
  lemma DepthsBoundChainsExactly(models: Models, depths: map<string, nat>)
    requires Measures(models, depths)
    ensures Acyclic(models) <==> forall name | name in models :: Bounds(models, name, depths[name])
  {
    if path :| ViewChain(models, path) && !Distinct(path) {
      var cycle := CycleWithin(models, path);
      var long := ChainRound(models, cycle, depths[cycle[0]] + 1);
      assert !Bounds(models, cycle[0], depths[cycle[0]]);
    }
  }

  /** Where no cycle joins views, a ceiling no model exceeds is a ceiling on every chain. */
  lemma BudgetBoundsChains(models: Models, depths: map<string, nat>, limit: nat, path: seq<string>)
    requires Measures(models, depths) && Acyclic(models) && ViewChain(models, path)
    requires forall name | name in models :: depths[name] <= limit
    ensures |path| <= limit
  {
    if path != [] {
      assert IsLongest(models, path[0], depths[path[0]]);
      assert ChainFrom(models, path[0], path);
    }
  }
}

/**
  Resolving every product's relations by repeated passes over what is left
  (ergasterion/framework/contract.py:1617-1690).
*/
module RelationRegistry {
  import opened Basics
  import opened SortedNames
  import opened Relations
  import opened ProductOrder

  /** What resolution looks at of a declaration: its profile and the reads it declares. */
  datatype Product = Product(landing: bool, inputs: seq<Read>)

  /**
    An estate: its products, the schemas it opens with, and what a product's declaration and
    shape make of a landing schema (`land`) or of resolved source schemas (`derive`).
  */
  datatype Estate = Estate(
    products: map<string, Product>,
    opening: map<string, Schema>,
    land: string -> Option<seq<ShapeRelation>>,
    derive: (string, map<string, Schema>) -> Option<seq<ShapeRelation>>)

  datatype ResolutionError = NoProgress(stuck: seq<string>) | ProductFails(product: string)

  function Needed(product: Product): set<string> {
    set read | read in product.inputs :: Producer(read)
  }

  /** The relations of one product, given the products resolved so far. */
  function PublishedBy(estate: Estate, name: string, resolved: Registry): Option<seq<ShapeRelation>>
    requires name in estate.products
  {
    var product := estate.products[name];
    if product.landing then estate.land(name) else
    var schemas := SourceSchemas(product.inputs, resolved, estate.opening);
    if schemas.Err? then None else estate.derive(name, schemas.value)
  }

  predicate Available(estate: Estate, name: string, resolved: Registry)
    requires name in estate.products
  {
    estate.products[name].landing || Needed(estate.products[name]) <= resolved.Keys + estate.opening.Keys
  }

  // ---------------------------------------------------------------- what a registry should be

  /** Every product has the relations its declaration derives from the whole registry. */
  ghost predicate Solution(estate: Estate, registry: Registry) {
    && registry.Keys == estate.products.Keys
    && forall name | name in registry :: PublishedBy(estate, name, registry) == Some(registry[name])
  }

  /** A part of the registry in which every product's reads are available and derived. */
  ghost predicate Justified(estate: Estate, resolved: Registry) {
    && resolved.Keys <= estate.products.Keys
    && forall name | name in resolved ::
         Available(estate, name, resolved) && PublishedBy(estate, name, resolved) == Some(resolved[name])
  }

  /**
    An opening schema a product publishes belongs to a landing product, which republishes it
    as its one relation, unchanged but for the names its columns are stored under.
  */
  ghost predicate Republishes(estate: Estate) {
    forall name | name in estate.products && name in estate.opening ::
      && estate.products[name].landing && estate.opening[name].name == name
      && estate.land(name).Some? && |estate.land(name).value| == 1
      && Logical(estate.land(name).value[0].schema) == Logical(estate.opening[name])
  }

  /** What a product derives does not depend on the names its sources' columns are stored under. */
  ghost predicate IgnoresStoredNames(estate: Estate) {
    forall name, a, b | LogicalSchemas(a) == LogicalSchemas(b) :: estate.derive(name, a) == estate.derive(name, b)
  }

  ghost predicate Steady(estate: Estate) {
    Republishes(estate) && IgnoresStoredNames(estate)
  }

  ghost predicate Within(part: Registry, whole: Registry) {
    forall name | name in part :: name in whole && whole[name] == part[name]
  }

  /** Landing products have the relations they land. */
  ghost predicate Lands(estate: Estate, resolved: Registry) {
    forall name | name in resolved && name in estate.products && estate.products[name].landing ::
      Some(resolved[name]) == estate.land(name)
  }

  /** The same schema but for stored names, or the same error. */
  ghost predicate AlikeRead(a: Result<Schema, ReadError>, b: Result<Schema, ReadError>) {
    if a.Ok? && b.Ok? then Logical(a.value) == Logical(b.value) else a == b
  }

  ghost predicate AlikeSchemas(a: Result<map<string, Schema>, ReadError>, b: Result<map<string, Schema>, ReadError>) {
    if a.Ok? && b.Ok? then LogicalSchemas(a.value) == LogicalSchemas(b.value) else a == b
  }

  lemma ReadIsStable(estate: Estate, read: Read, part: Registry, whole: Registry)
    requires Steady(estate) && Within(part, whole) && Lands(estate, whole)
    requires whole.Keys <= estate.products.Keys
    requires Producer(read) in part.Keys + estate.opening.Keys
    ensures AlikeRead(ResolveRead(read, part, estate.opening), ResolveRead(read, whole, estate.opening))
  {
    var producer := Producer(read);
    if producer !in part && producer in whole {
      var relations := estate.land(producer).value;
      assert whole[producer] == relations;
      assert relations[0].schema.name == Logical(relations[0].schema).name == producer;
      assert Names(relations) == [producer];
      assert FirstNamed(relations, producer) == Some(relations[0]);
      if read.relation.Some? { ChosenIsPublished([producer], producer, read.relation.value); }
    }
  }

  lemma {:induction false} SchemasAreStable(estate: Estate, inputs: seq<Read>, part: Registry, whole: Registry)
    requires Steady(estate) && Within(part, whole) && Lands(estate, whole)
    requires whole.Keys <= estate.products.Keys
    requires forall read | read in inputs :: Producer(read) in part.Keys + estate.opening.Keys
    ensures AlikeSchemas(SourceSchemas(inputs, part, estate.opening), SourceSchemas(inputs, whole, estate.opening))
  {
    if inputs != [] {
      var n := |inputs| - 1;
      assert forall read | read in inputs[..n] :: read in inputs;
      SchemasAreStable(estate, inputs[..n], part, whole);
      ReadIsStable(estate, inputs[n], part, whole);
      var a, b := SourceSchemas(inputs, part, estate.opening), SourceSchemas(inputs, whole, estate.opening);
      if a.Ok? && b.Ok? {
        LogicalUpdate(SourceSchemas(inputs[..n], part, estate.opening).value, ReadKey(inputs[n]),
                      ResolveRead(inputs[n], part, estate.opening).value);
        LogicalUpdate(SourceSchemas(inputs[..n], whole, estate.opening).value, ReadKey(inputs[n]),
                      ResolveRead(inputs[n], whole, estate.opening).value);
      }
    }
  }

  lemma LogicalUpdate(schemas: map<string, Schema>, key: string, schema: Schema)
    ensures LogicalSchemas(schemas[key := schema]) == LogicalSchemas(schemas)[key := Logical(schema)]
  {}

  /** Once a product's reads are available, resolving more products does not change it. */
  lemma RelationsAreStable(estate: Estate, name: string, part: Registry, whole: Registry)
    requires Steady(estate) && Within(part, whole) && Lands(estate, whole)
    requires whole.Keys <= estate.products.Keys && name in estate.products && Available(estate, name, part)
    ensures PublishedBy(estate, name, part) == PublishedBy(estate, name, whole)
  {
    var product := estate.products[name];
    if !product.landing {
      forall read | read in product.inputs
        ensures Producer(read) in part.Keys + estate.opening.Keys
      {
        assert Producer(read) in Needed(product);
      }
      SchemasAreStable(estate, product.inputs, part, whole);
    }
  }

  lemma JustifiedGrows(estate: Estate, resolved: Registry, name: string, relations: seq<ShapeRelation>)
    requires Steady(estate) && Justified(estate, resolved)
    requires name in estate.products && name !in resolved && Available(estate, name, resolved)
    requires PublishedBy(estate, name, resolved) == Some(relations)
    ensures Justified(estate, resolved[name := relations])
  {
    var more := resolved[name := relations];
    assert Lands(estate, more);
    forall n | n in more
      ensures Available(estate, n, more) && PublishedBy(estate, n, more) == Some(more[n])
    {
      RelationsAreStable(estate, n, resolved, more);
    }
  }

  lemma SolutionLands(estate: Estate, registry: Registry)
    requires Solution(estate, registry)
    ensures Lands(estate, registry)
  {
    forall name | name in registry && estate.products[name].landing
      ensures Some(registry[name]) == estate.land(name)
    {
      assert PublishedBy(estate, name, registry) == Some(registry[name]);
    }
  }

  /** What one more product derives is what every solution that extends the part has. */
  lemma SolutionAgrees(estate: Estate, resolved: Registry, name: string, registry: Registry)
    requires Steady(estate) && Solution(estate, registry) && Within(resolved, registry)
    requires name in estate.products && Available(estate, name, resolved)
    ensures PublishedBy(estate, name, resolved) == Some(registry[name])
  {
    SolutionLands(estate, registry);
    RelationsAreStable(estate, name, resolved, registry);
  }

  // ---------------------------------------------------------------- the passes

  /** A product left over reads something that is neither an opening schema nor resolved. */
  ghost predicate Stuck(estate: Estate, names: set<string>, name: string) {
    && name in estate.products && !estate.products[name].landing
    && exists producer :: producer in Needed(estate.products[name]) && producer !in estate.opening
                          && (producer in names || producer !in estate.products)
  }

  /** Every outcome of resolution, and what it means in any estate. */
  ghost predicate Resolves(estate: Estate, r: Result<Registry, ResolutionError>) {
    match r
    case Ok(registry) => registry.Keys == estate.products.Keys && Derived(estate, registry)
    case Err(NoProgress(stuck)) => StuckAt(estate, stuck)
    case Err(ProductFails(name)) => FailsWhenReached(estate, name)
  }

  /** The part is what deriving its products one by one, each after what it reads, makes. */
  ghost predicate DerivesTo(estate: Estate, order: seq<string>, part: Registry) {
    && Distinct(order) && (forall name | name in order :: name in estate.products)
    && (forall i | 0 <= i < |order| :: ReadsEarlier(estate, order, i))
    && part.Keys == NameSet(order) && DeriveInOrder(estate, order) == Some(part)
  }

  ghost predicate Derived(estate: Estate, part: Registry) {
    exists order :: DerivesTo(estate, order, part)
  }

  /** Some derived part has all the product reads, and the product derives nothing from it. */
  ghost predicate FailsWhenReached(estate: Estate, name: string) {
    exists part :: Derived(estate, part) && FailsFrom(estate, name, part)
  }

  ghost predicate FailsFrom(estate: Estate, name: string, part: Registry) {
    name in estate.products && Available(estate, name, part) && PublishedBy(estate, name, part).None?
  }

  lemma NothingIsDerived(estate: Estate)
    ensures Derived(estate, map[])
  {
    assert DerivesTo(estate, [], map[]);
  }

  lemma DerivedGrows(estate: Estate, part: Registry, name: string, relations: seq<ShapeRelation>)
    requires Derived(estate, part) && name in estate.products && name !in part && Available(estate, name, part)
    requires PublishedBy(estate, name, part) == Some(relations)
    ensures Derived(estate, part[name := relations])
  {
    var order :| DerivesTo(estate, order, part);
    var more := order + [name];
    assert more[..|order|] == order;
    forall i | 0 <= i < |more|
      ensures ReadsEarlier(estate, more, i)
    {
      assert i < |order| ==> more[..i] == order[..i] && ReadsEarlier(estate, order, i);
    }
    assert DerivesTo(estate, more, part[name := relations]);
  }

  /** The names left over, sorted, each of them stuck. */
  ghost predicate StuckAt(estate: Estate, names: seq<string>) {
    && names != [] && IsSortedList(names, NameSet(names))
    && forall name | name in names :: Stuck(estate, NameSet(names), name)
  }

  /** Every solution extends what is resolved so far. */
  ghost predicate Forced(estate: Estate, resolved: Registry) {
    forall registry | Solution(estate, registry) :: Within(resolved, registry)
  }

  lemma ForcedGrows(estate: Estate, resolved: Registry, name: string, relations: seq<ShapeRelation>)
    requires Steady(estate) && Forced(estate, resolved)
    requires name in estate.products && Available(estate, name, resolved)
    requires PublishedBy(estate, name, resolved) == Some(relations)
    ensures Forced(estate, resolved[name := relations])
  {
    forall registry | Solution(estate, registry)
      ensures Within(resolved[name := relations], registry)
    {
      SolutionAgrees(estate, resolved, name, registry);
    }
  }

  lemma FailureForced(estate: Estate, resolved: Registry, name: string)
    requires Steady(estate) && Forced(estate, resolved)
    requires name in estate.products && Available(estate, name, resolved)
    requires PublishedBy(estate, name, resolved).None?
    ensures forall registry :: !Solution(estate, registry)
  {
    forall registry
      ensures !Solution(estate, registry)
    {
      if Solution(estate, registry) {
        SolutionAgrees(estate, resolved, name, registry);
      }
    }
  }

  /** One pass over the names left, in name order; resolved products are read at once. */
  method Pass(estate: Estate, names: seq<string>, before: Registry)
    returns (r: Result<Registry, ResolutionError>)
    requires Distinct(names) && Derived(estate, before)
    requires forall name | name in names :: name in estate.products && name !in before
    ensures r.Ok? ==> before.Keys <= r.value.Keys <= before.Keys + NameSet(names) && Derived(estate, r.value)
    ensures r.Ok? && r.value.Keys == before.Keys ==>
              forall name | name in names :: !Available(estate, name, before)
    ensures r.Err? ==> r.error.ProductFails? && Resolves(estate, r)
  {
    var resolved := before;
    for i := 0 to |names|
      invariant Derived(estate, resolved)
      invariant before.Keys <= resolved.Keys <= before.Keys + NameSet(names[..i])
      invariant resolved.Keys == before.Keys ==>
                  resolved == before && forall name | name in names[..i] :: !Available(estate, name, before)
    {
      var name := names[i];
      assert names[..i + 1] == names[..i] + [name];
      assert name !in NameSet(names[..i]);
      if Available(estate, name, resolved) {
        var relations := PublishedBy(estate, name, resolved);
        if relations.None? {
          assert FailsFrom(estate, name, resolved);
          return Err(ProductFails(name));
        }
        DerivedGrows(estate, resolved, name, relations.value);
        resolved := resolved[name := relations.value];
        assert name in resolved.Keys && name !in before.Keys;
      }
    }
    assert names[..|names|] == names;
    return Ok(resolved);
  }

  /** One pass over what is left: more is resolved, or resolution is over. */
  method NextPass(estate: Estate, resolved: Registry) returns (r: Result<Registry, ResolutionError>)
    requires resolved.Keys < estate.products.Keys && Derived(estate, resolved)
    ensures r.Ok? ==> resolved.Keys < r.value.Keys <= estate.products.Keys && Derived(estate, r.value)
    ensures r.Err? ==> Resolves(estate, r)
  {
    var remaining := estate.products.Keys - resolved.Keys;
    var names := SortNames(remaining);
    r := Pass(estate, names, resolved);
    assert NameSet(names) == remaining;
    if r.Ok? && r.value.Keys == resolved.Keys {
      assert remaining != {};
      NoProgressIsStuck(estate, names, resolved);
      r := Err(NoProgress(names));
    }
  }

  /** Pass after pass until nothing is left or a pass makes no progress. */
  method ResolveRelationRegistry(estate: Estate) returns (r: Result<Registry, ResolutionError>)
    ensures Resolves(estate, r)
  {
    var resolved: Registry := map[];
    NothingIsDerived(estate);
    while resolved.Keys != estate.products.Keys
      invariant resolved.Keys <= estate.products.Keys && Derived(estate, resolved)
      decreases |estate.products.Keys - resolved.Keys|
    {
      var pass := NextPass(estate, resolved);
      if pass.Err? { return pass; }
      LessLeft(estate.products.Keys, resolved.Keys, pass.value.Keys);
      resolved := pass.value;
    }
    r := Ok(resolved);
  }

  lemma LessLeft(all: set<string>, done: set<string>, more: set<string>)
    requires done < more <= all
    ensures |all - more| < |all - done|
  {
    var x :| x in more && x !in done;
    assert x in all - done && x !in all - more;
    SubsetSize(all - more, all - done - {x});
  }

  lemma NoProgressIsStuck(estate: Estate, names: seq<string>, resolved: Registry)
    requires NameSet(names) == estate.products.Keys - resolved.Keys
    requires forall name | name in names :: name in estate.products && !Available(estate, name, resolved)
    requires names != [] && IsSortedList(names, NameSet(names))
    ensures StuckAt(estate, names)
  {
    forall name | name in names
      ensures Stuck(estate, NameSet(names), name)
    {
      var producer :| producer in Needed(estate.products[name]) && producer !in resolved.Keys + estate.opening.Keys;
    }
  }

  // ---------------------------------------------------------------- deriving in order

  /** The registry obtained by deriving the listed products one by one. */
  function DeriveInOrder(estate: Estate, order: seq<string>): Option<Registry>
    requires forall name | name in order :: name in estate.products
  {
    if order == [] then Some(map[]) else
    var n := |order| - 1;
    var init := DeriveInOrder(estate, order[..n]);
    if init.None? then None else
    var relations := PublishedBy(estate, order[n], init.value);
    if relations.None? then None else Some(init.value[order[n] := relations.value])
  }

  /** Every product once, each after the producers it reads or with an opening schema for them. */
  ghost predicate ValidOrder(estate: Estate, order: seq<string>) {
    && Distinct(order) && (forall name :: name in order <==> name in estate.products)
    && (forall i | 0 <= i < |order| :: ReadsEarlier(estate, order, i))
  }

  ghost predicate ReadsEarlier(estate: Estate, order: seq<string>, i: nat)
    requires i < |order|
  {
    order[i] in estate.products &&
    (estate.products[order[i]].landing
     || forall producer | producer in Needed(estate.products[order[i]]) ::
          producer in order[..i] || producer in estate.opening)
  }

  /** A derived part that every solution extends, or proof that there is no solution. */
  ghost predicate PartOutcome(estate: Estate, names: set<string>, part: Option<Registry>) {
    match part
    case Some(resolved) => resolved.Keys == names && Justified(estate, resolved) && Forced(estate, resolved)
    case None => forall registry :: !Solution(estate, registry)
  }

  lemma PartGrows(estate: Estate, resolved: Registry, name: string)
    requires Steady(estate) && PartOutcome(estate, resolved.Keys, Some(resolved))
    requires name in estate.products && name !in resolved && Available(estate, name, resolved)
    ensures var relations := PublishedBy(estate, name, resolved);
            PartOutcome(estate, resolved.Keys + {name},
                        if relations.None? then None else Some(resolved[name := relations.value]))
  {
    var relations := PublishedBy(estate, name, resolved);
    if relations.Some? {
      JustifiedGrows(estate, resolved, name, relations.value);
      ForcedGrows(estate, resolved, name, relations.value);
    } else {
      FailureForced(estate, resolved, name);
    }
  }

  /** In a steady estate every solution extends a derived part. */
  lemma {:induction false} DerivedIsForced(estate: Estate, order: seq<string>, part: Registry)
    requires Steady(estate) && DerivesTo(estate, order, part)
    ensures Justified(estate, part) && Forced(estate, part)
  {
    if order != [] {
      var n := |order| - 1;
      var before := DeriveInOrder(estate, order[..n]).value;
      forall i | 0 <= i < n
        ensures ReadsEarlier(estate, order[..n], i)
      {
        assert order[..n][..i] == order[..i] && ReadsEarlier(estate, order, i);
      }
      DerivedKeys(estate, order[..n]);
      DerivedIsForced(estate, order[..n], before);
      assert ReadsEarlier(estate, order, n);
      PartGrows(estate, before, order[n]);
    }
  }

  lemma {:induction false} DerivedKeys(estate: Estate, order: seq<string>)
    requires (forall name | name in order :: name in estate.products) && DeriveInOrder(estate, order).Some?
    ensures DeriveInOrder(estate, order).value.Keys == NameSet(order)
  {
    if order != [] {
      var n := |order| - 1;
      DerivedKeys(estate, order[..n]);
      assert NameSet(order) == NameSet(order[..n]) + {order[n]};
    }
  }

  /**
    What resolution means in a steady estate: what it returns is the one solution, and a product
    that fails leaves none.
  */
  lemma ResolutionIsSolution(estate: Estate, r: Result<Registry, ResolutionError>)
    requires Steady(estate) && Resolves(estate, r)
    ensures r.Ok? ==> Solution(estate, r.value) && forall registry | Solution(estate, registry) :: registry == r.value
    ensures r.Err? && r.error.ProductFails? ==> forall registry :: !Solution(estate, registry)
  {
    if r.Ok? {
      var order :| DerivesTo(estate, order, r.value);
      DerivedIsForced(estate, order, r.value);
      forall registry | Solution(estate, registry)
        ensures registry == r.value
      {
        assert Within(r.value, registry);
      }
    } else if r.error.ProductFails? {
      var part :| Derived(estate, part) && FailsFrom(estate, r.error.product, part);
      var order :| DerivesTo(estate, order, part);
      DerivedIsForced(estate, order, part);
      FailureForced(estate, part, r.error.product);
    }
  }

  /**
    Whatever products publish: resolution returns a registry only where some order puts every
    product after what it reads, and stops for want of progress only where none does.
  */
  lemma OutcomeTellsOrder(estate: Estate, r: Result<Registry, ResolutionError>)
    requires Resolves(estate, r)
    ensures r.Ok? ==> exists order :: ValidOrder(estate, order) && DeriveInOrder(estate, order) == Some(r.value)
    ensures r.Err? && r.error.NoProgress? ==> forall order :: !ValidOrder(estate, order)
  {
    if r.Ok? {
      var order :| DerivesTo(estate, order, r.value);
      assert forall name :: name in order <==> name in NameSet(order);
      assert ValidOrder(estate, order);
    } else if r.error.NoProgress? {
      forall order
        ensures !ValidOrder(estate, order)
      {
        if ValidOrder(estate, order) { NothingStuck(estate, order, r.error.stuck); }
      }
    }
  }

  /** Deriving a prefix of a valid order agrees with every solution, or shows there is none. */
  lemma {:induction false} PrefixDerived(estate: Estate, order: seq<string>, k: nat)
    requires Steady(estate) && ValidOrder(estate, order) && k <= |order|
    ensures PartOutcome(estate, NameSet(order[..k]), DeriveInOrder(estate, order[..k]))
  {
    if k > 0 {
      PrefixDerived(estate, order, k - 1);
      assert order[..k][..k - 1] == order[..k - 1];
      var init := DeriveInOrder(estate, order[..k - 1]);
      if init.Some? {
        PrefixAvailable(estate, order, k - 1, init.value);
        PartGrows(estate, init.value, order[k - 1]);
        assert NameSet(order[..k]) == NameSet(order[..k - 1]) + {order[k - 1]};
      }
    }
  }

  lemma PrefixAvailable(estate: Estate, order: seq<string>, i: nat, resolved: Registry)
    requires ValidOrder(estate, order) && i < |order| && resolved.Keys == NameSet(order[..i])
    ensures order[i] in estate.products && order[i] !in resolved && Available(estate, order[i], resolved)
  {
    assert ReadsEarlier(estate, order, i);
    assert forall name | name in order[..i] :: name != order[i];
  }

  /** On a valid order the solution is exactly what deriving in order returns. */
  lemma DerivationIsSolution(estate: Estate, order: seq<string>)
    requires Steady(estate) && ValidOrder(estate, order)
    ensures var derived := DeriveInOrder(estate, order);
            if derived.Some?
            then Solution(estate, derived.value)
                 && forall registry | Solution(estate, registry) :: registry == derived.value
            else forall registry :: !Solution(estate, registry)
  {
    PrefixDerived(estate, order, |order|);
    assert order[..|order|] == order;
    var derived := DeriveInOrder(estate, order);
    if derived.Some? {
      assert derived.value.Keys == estate.products.Keys;
      forall registry | Solution(estate, registry)
        ensures registry == derived.value
      {
        assert Within(derived.value, registry);
      }
    }
  }

  /** No product is stuck when the products have a valid order. */
  lemma {:induction false} ValidOrderNeverSticks(estate: Estate, order: seq<string>, stuck: set<string>, i: nat)
    requires ValidOrder(estate, order) && i <= |order|
    requires forall name | name in stuck :: Stuck(estate, stuck, name)
    ensures forall name | name in order[..i] :: name !in stuck
  {
    if i > 0 {
      assert order[..i] == order[..i - 1] + [order[i - 1]];
      ValidOrderNeverSticks(estate, order, stuck, i - 1);
      var name := order[i - 1];
      assert ReadsEarlier(estate, order, i - 1);
      if name in stuck {
        assert Stuck(estate, stuck, name);
        var producer :| producer in Needed(estate.products[name]) && producer !in estate.opening
                        && (producer in stuck || producer !in estate.products);
      }
    }
  }

  /** Every read names a product of the estate or an opening schema, and is an edge if the former. */
  ghost predicate EdgesCover(estate: Estate, edges: set<Edge>) {
    && WithinProducts(estate.products.Keys, edges)
    && forall name, producer | name in estate.products && !estate.products[name].landing
                               && producer in Needed(estate.products[name]) ::
         producer in estate.opening || Edge(producer, name) in edges
  }

  /**
    Where the products have a valid order, resolution never stops for want of progress, and it
    returns exactly the registry obtained by deriving the products one by one in that order.
  */
  lemma ResolutionFollowsOrder(estate: Estate, order: seq<string>, r: Result<Registry, ResolutionError>)
    requires Steady(estate) && ValidOrder(estate, order) && Resolves(estate, r)
    ensures r.Err? ==> r.error.ProductFails?
    ensures DeriveInOrder(estate, order) == if r.Ok? then Some(r.value) else None
  {
    DerivationIsSolution(estate, order);
    ResolutionIsSolution(estate, r);
    if r.Err? && r.error.NoProgress? {
      NothingStuck(estate, order, r.error.stuck);
    }
  }

  /** In particular in the order of any product graph whose edges cover the reads. */
  lemma ResolutionFollowsGraphOrder(estate: Estate, edges: set<Edge>, r: Result<Registry, ResolutionError>)
    requires Steady(estate) && EdgesCover(estate, edges) && Resolves(estate, r)
    requires Rounds(edges, estate.products.Keys, {}).Ok?
    ensures r.Err? ==> r.error.ProductFails?
    ensures forall name | name in Rounds(edges, estate.products.Keys, {}).value :: name in estate.products
    ensures DeriveInOrder(estate, Rounds(edges, estate.products.Keys, {}).value)
            == if r.Ok? then Some(r.value) else None
  {
    GraphOrderIsValid(estate, edges);
    ResolutionFollowsOrder(estate, Rounds(edges, estate.products.Keys, {}).value, r);
  }

  lemma NothingStuck(estate: Estate, order: seq<string>, stuck: seq<string>)
    requires ValidOrder(estate, order)
    requires forall name | name in stuck :: Stuck(estate, NameSet(stuck), name)
    ensures stuck == []
  {
    assert forall name | name in NameSet(stuck) :: name in stuck;
    assert order[..|order|] == order;
    ValidOrderNeverSticks(estate, order, NameSet(stuck), |order|);
    if stuck != [] {
      StuckIsProduct(estate, NameSet(stuck), stuck[0]);
    }
  }

  lemma StuckIsProduct(estate: Estate, stuck: set<string>, name: string)
    requires Stuck(estate, stuck, name)
    ensures name in estate.products
  {}

  lemma GraphOrderIsValid(estate: Estate, edges: set<Edge>)
    requires EdgesCover(estate, edges) && Rounds(edges, estate.products.Keys, {}).Ok?
    ensures ValidOrder(estate, Rounds(edges, estate.products.Keys, {}).value)
  {
    var order := Rounds(edges, estate.products.Keys, {}).value;
    RoundsMeaning(estate.products.Keys, edges, estate.products.Keys, {});
    forall i | 0 <= i < |order|
      ensures ReadsEarlier(estate, order, i)
    {
      assert PlacedEarlier(edges, {}, order, i);
      assert order[i] in order;
      forall producer | producer in Needed(estate.products[order[i]]) && !estate.products[order[i]].landing
                        && producer !in estate.opening
        ensures producer in order[..i]
      {
        assert Edge(producer, order[i]) in edges;
        assert producer in Blockers(edges, order[i]);
      }
    }
  }
}

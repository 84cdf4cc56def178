/**
  Canonicalisation (ergasterion/source_delivery.py:247-436): declared sets, columns,
  projections and rules are sorted so that authored order never reaches a digest.
*/
module Canonical {
  import opened Basics
  import opened Ordering
  import opened LandingContract

  datatype CanonicalError = RepeatedSetValue

  function Map<T, U>(f: T -> U, s: seq<T>): seq<U> {
    seq(|s|, i requires 0 <= i < |s| => f(s[i]))
  }

  // ---------------------------------------------------------------- sort keys

  function LowerChar(c: char): char {
    if 'A' <= c <= 'Z' then (c as int - 'A' as int + 'a' as int) as char else c
  }

  function Lower(s: string): string {
    if s == [] then [] else [LowerChar(s[0])] + Lower(s[1..])
  }

  function ColumnKey(column: SourceField): string { Lower(column.name) }

  function EntryKey(entry: ProjectionField): string { entry.name }

  function RuleKey(enc: Encoding): Rule -> string {
    (rule: Rule) => enc.ruleId(rule.body)
  }

  /** The wire pattern of an Identifier: a lower-case letter or underscore, then digits too. */
  predicate IsIdentifier(s: string) {
    && s != []
    && !('0' <= s[0] <= '9')
    && forall i | 0 <= i < |s| :: 'a' <= s[i] <= 'z' || '0' <= s[i] <= '9' || s[i] == '_'
  }

  lemma {:induction false} LowerKeepsLowerCase(s: string)
    requires forall i | 0 <= i < |s| :: !('A' <= s[i] <= 'Z')
    ensures Lower(s) == s
  {
    if s != [] {
      LowerKeepsLowerCase(s[1..]);
      assert s == [s[0]] + s[1..];
    }
  }

  // ---------------------------------------------------------------- specification

  /** No two values of a declared set have the same canonical bytes. */
  predicate DeclaredSet<T>(items: seq<T>, bytes: T -> string) {
    forall i, j | 0 <= i < j < |items| :: bytes(items[i]) != bytes(items[j])
  }

  function NormaliseBody(enc: Encoding, body: RuleBody): RuleBody {
    if body.AcceptedValues? then body.(values := SortBy(body.values, enc.scalarBytes)) else body
  }

  function NormaliseRule(enc: Encoding): Rule -> Rule {
    (rule: Rule) => rule.(body := NormaliseBody(enc, rule.body))
  }

  predicate RuleSetsDeclared(enc: Encoding, rules: seq<Rule>) {
    forall i | 0 <= i < |rules| && rules[i].body.AcceptedValues? ::
      DeclaredSet(rules[i].body.values, enc.scalarBytes)
  }

  /** Every position the interface description marks as a set holds no repeated value. */
  predicate SetsDeclared(enc: Encoding, c: Contract) {
    && DeclaredSet(c.landing.contentEncodings, enc.encodingBytes)
    && (c.landing.integration.External? ==>
          DeclaredSet(c.landing.integration.receiptTrust.allowedKeyIds, enc.textBytes))
    && (c.delivery.tombstone.Some? ==>
          DeclaredSet(c.delivery.tombstone.value.values, enc.scalarBytes))
    && (c.delivery.snapshot.Some? ==>
          DeclaredSet(c.delivery.snapshot.value.allowedKeyIds, enc.textBytes))
    && RuleSetsDeclared(enc, c.delivery.quality.rules)
  }

  function NormalTrust(enc: Encoding, trust: TrustPolicy): TrustPolicy {
    trust.(allowedKeyIds := SortBy(trust.allowedKeyIds, enc.textBytes))
  }

  function NormalIntegration(enc: Encoding, i: Integration): Integration {
    if i.External? then i.(receiptTrust := NormalTrust(enc, i.receiptTrust)) else i
  }

  function NormalLanding(enc: Encoding, landing: Landing): Landing {
    landing.(
      physicalColumns := SortBy(landing.physicalColumns, ColumnKey),
      contentEncodings := SortBy(landing.contentEncodings, enc.encodingBytes),
      integration := NormalIntegration(enc, landing.integration))
  }

  function NormalTombstone(enc: Encoding, t: Option<Tombstone>): Option<Tombstone> {
    if t.Some? then Some(t.value.(values := SortBy(t.value.values, enc.scalarBytes))) else t
  }

  function NormalSnapshot(enc: Encoding, s: Option<Snapshot>): Option<Snapshot> {
    if s.Some? then Some(s.value.(allowedKeyIds := SortBy(s.value.allowedKeyIds, enc.textBytes)))
    else s
  }

  function NormalRules(enc: Encoding, rules: seq<Rule>): seq<Rule> {
    SortBy(Map(NormaliseRule(enc), rules), RuleKey(enc))
  }

  function NormalDelivery(enc: Encoding, d: Delivery): Delivery {
    d.(tombstone := NormalTombstone(enc, d.tombstone),
       snapshot := NormalSnapshot(enc, d.snapshot),
       quality := d.quality.(rules := NormalRules(enc, d.quality.rules)))
  }

  /** The normalised contract, which has the shape of a contract again. */
  function Normal(enc: Encoding, c: Contract): Contract {
    c.(landing := NormalLanding(enc, c.landing),
       delivery := NormalDelivery(enc, c.delivery),
       projection := SortBy(c.projection, EntryKey))
  }

  function Document(enc: Encoding, c: Contract): Result<Contract, CanonicalError> {
    if SetsDeclared(enc, c) then Ok(Normal(enc, c)) else Err(RepeatedSetValue)
  }

  // ---------------------------------------------------------------- what the compiler does

  method NormaliseDeclaredSet<T(!new)>(items: seq<T>, bytes: T -> string)
    returns (r: Result<seq<T>, CanonicalError>)
    ensures r == if DeclaredSet(items, bytes) then Ok(SortBy(items, bytes)) else Err(RepeatedSetValue)
  {
    var keys: set<string> := {};
    for i := 0 to |items|
      invariant keys == set k | 0 <= k < i :: bytes(items[k])
      invariant DeclaredSet(items[..i], bytes)
    {
      if bytes(items[i]) in keys {
        assert !DeclaredSet(items, bytes);
        return Err(RepeatedSetValue);
      }
      keys := keys + {bytes(items[i])};
    }
    assert items[..|items|] == items;
    return Ok(SortBy(items, bytes));
  }

  method ComputeRuleId(enc: Encoding, rule: Rule) returns (r: Result<string, CanonicalError>)
    ensures r == if RuleSetsDeclared(enc, [rule]) then Ok(enc.ruleId(NormaliseBody(enc, rule.body)))
                 else Err(RepeatedSetValue)
  {
    var body := rule.body;
    if body.AcceptedValues? {
      var values := NormaliseDeclaredSet(body.values, enc.scalarBytes);
      assert [rule][0] == rule;
      if values.Err? { return Err(RepeatedSetValue); }
      body := body.(values := values.value);
    }
    return Ok(enc.ruleId(body));
  }

  /** Rewrites the dumped contract part by part, failing on the first repeated set value. */
  method CanonicalContractDocument(enc: Encoding, contract: Contract)
    returns (r: Result<Contract, CanonicalError>)
    ensures r == Document(enc, contract)
  {
    var landing := contract.landing;
    landing := landing.(physicalColumns := SortBy(landing.physicalColumns, ColumnKey));
    var encodings := NormaliseDeclaredSet(landing.contentEncodings, enc.encodingBytes);
    if encodings.Err? { return Err(RepeatedSetValue); }
    landing := landing.(contentEncodings := encodings.value);
    var integration := landing.integration;
    if integration.External? {
      var keyIds := NormaliseDeclaredSet(integration.receiptTrust.allowedKeyIds, enc.textBytes);
      if keyIds.Err? { return Err(RepeatedSetValue); }
      landing := landing.(integration := integration.(
        receiptTrust := integration.receiptTrust.(allowedKeyIds := keyIds.value)));
    }
    var projection := SortBy(contract.projection, EntryKey);
    var delivery := contract.delivery;
    if delivery.tombstone.Some? {
      var values := NormaliseDeclaredSet(delivery.tombstone.value.values, enc.scalarBytes);
      if values.Err? { return Err(RepeatedSetValue); }
      delivery := delivery.(tombstone := Some(delivery.tombstone.value.(values := values.value)));
    }
    if delivery.snapshot.Some? {
      var keyIds := NormaliseDeclaredSet(delivery.snapshot.value.allowedKeyIds, enc.textBytes);
      if keyIds.Err? { return Err(RepeatedSetValue); }
      delivery := delivery.(snapshot := Some(delivery.snapshot.value.(allowedKeyIds := keyIds.value)));
    }
    var rules := CanonicalRules(enc, delivery.quality.rules);
    if rules.Err? { return Err(RepeatedSetValue); }
    delivery := delivery.(quality := delivery.quality.(rules := rules.value));
    return Ok(contract.(landing := landing, delivery := delivery, projection := projection));
  }

  method CanonicalRules(enc: Encoding, rules: seq<Rule>) returns (r: Result<seq<Rule>, CanonicalError>)
    ensures r == if RuleSetsDeclared(enc, rules) then Ok(NormalRules(enc, rules))
                 else Err(RepeatedSetValue)
  {
    var dumped: seq<Rule> := [];
    for i := 0 to |rules|
      invariant |dumped| == i
      invariant forall k | 0 <= k < i :: dumped[k] == NormaliseRule(enc)(rules[k])
      invariant forall k | 0 <= k < i && rules[k].body.AcceptedValues? ::
                  DeclaredSet(rules[k].body.values, enc.scalarBytes)
    {
      var rule := rules[i];
      if rule.body.AcceptedValues? {
        var values := NormaliseDeclaredSet(rule.body.values, enc.scalarBytes);
        if values.Err? { return Err(RepeatedSetValue); }
        rule := rule.(body := rule.body.(values := values.value));
      }
      dumped := dumped + [rule];
    }
    assert dumped == Map(NormaliseRule(enc), rules);
    return Ok(SortBy(dumped, RuleKey(enc)));
  }

  // ---------------------------------------------------------------- authored order

  /**
    The uniqueness a validated contract guarantees (ergasterion/source_delivery.py:561-568,
    731-742, 767-776, 822-824): identifiers are lower case, columns and published names do not
    repeat, and neither do rule identities.
  */
  ghost predicate Validated(enc: Encoding, c: Contract) {
    && (forall i | 0 <= i < |c.landing.physicalColumns| ::
          IsIdentifier(c.landing.physicalColumns[i].name))
    && (forall i, j | 0 <= i < j < |c.landing.physicalColumns| ::
          c.landing.physicalColumns[i].name != c.landing.physicalColumns[j].name)
    && (forall i, j | 0 <= i < j < |c.projection| :: c.projection[i].name != c.projection[j].name)
    && RuleSetsDeclared(enc, c.delivery.quality.rules)
    && DeclaredSet(Map(NormaliseRule(enc), c.delivery.quality.rules), RuleKey(enc))
  }

  /** What a rule says, with the order of its accepted values forgotten. */
  datatype RuleMeaning = RuleMeaning(
    severity: Severity, frame: RuleBody, values: multiset<TypedScalar>)

  ghost function Meaning(rule: Rule): RuleMeaning {
    if rule.body.AcceptedValues?
    then RuleMeaning(rule.severity, rule.body.(values := []), multiset(rule.body.values))
    else RuleMeaning(rule.severity, rule.body, multiset{})
  }

  ghost function MeaningOf(): Rule -> RuleMeaning {
    (rule: Rule) => Meaning(rule)
  }

  /** The contract with every reorderable list emptied. */
  function Skeleton(c: Contract): Contract {
    c.(landing := c.landing.(
         physicalColumns := [],
         contentEncodings := [],
         integration := if c.landing.integration.External?
                        then c.landing.integration.(
                          receiptTrust := c.landing.integration.receiptTrust.(allowedKeyIds := []))
                        else c.landing.integration),
       delivery := c.delivery.(
         tombstone := if c.delivery.tombstone.Some?
                      then Some(c.delivery.tombstone.value.(values := []))
                      else c.delivery.tombstone,
         snapshot := if c.delivery.snapshot.Some?
                     then Some(c.delivery.snapshot.value.(allowedKeyIds := []))
                     else c.delivery.snapshot,
         quality := c.delivery.quality.(rules := [])),
       projection := [])
  }

  /** The two contracts differ only in the authored order of reorderable lists. */
  ghost predicate Reordered(c: Contract, d: Contract) {
    && Skeleton(c) == Skeleton(d)
    && multiset(c.landing.physicalColumns) == multiset(d.landing.physicalColumns)
    && multiset(c.landing.contentEncodings) == multiset(d.landing.contentEncodings)
    && (c.landing.integration.External? ==>
          multiset(c.landing.integration.receiptTrust.allowedKeyIds)
          == multiset(d.landing.integration.receiptTrust.allowedKeyIds))
    && multiset(c.projection) == multiset(d.projection)
    && (c.delivery.tombstone.Some? ==>
          multiset(c.delivery.tombstone.value.values)
          == multiset(d.delivery.tombstone.value.values))
    && (c.delivery.snapshot.Some? ==>
          multiset(c.delivery.snapshot.value.allowedKeyIds)
          == multiset(d.delivery.snapshot.value.allowedKeyIds))
    && multiset(Map(MeaningOf(), c.delivery.quality.rules))
       == multiset(Map(MeaningOf(), d.delivery.quality.rules))
  }

  // ---------------------------------------------------------------- proofs

  lemma InjectiveIdentifies<T(!new)>(s: seq<T>, key: T -> string)
    requires Injective(key)
    ensures KeyIdentifies(s, key)
  {}

  /** Rules normalise alike exactly when they say the same thing. */
  lemma SameMeaning(enc: Encoding, a: Rule, b: Rule)
    requires Faithful(enc)
    ensures NormaliseRule(enc)(a) == NormaliseRule(enc)(b) <==> Meaning(a) == Meaning(b)
  {
    if a.body.AcceptedValues? && b.body.AcceptedValues? {
      InjectiveIdentifies(a.body.values, enc.scalarBytes);
      SortForgetsOrder(a.body.values, b.body.values, enc.scalarBytes);
    }
  }

  /** Two ways of looking at items that tell the same items apart count them alike. */
  lemma {:induction false} SameCounts<T, U, V>(f: T -> U, g: T -> V, s: seq<T>, x: T)
    requires forall y | y in s :: f(y) == f(x) <==> g(y) == g(x)
    ensures multiset(Map(f, s))[f(x)] == multiset(Map(g, s))[g(x)]
  {
    if s != [] {
      SameCounts(f, g, s[1..], x);
      assert Map(f, s) == [f(s[0])] + Map(f, s[1..]);
      assert Map(g, s) == [g(s[0])] + Map(g, s[1..]);
    }
  }

  lemma SameMultisets<T, U, V(!new)>(f: T -> U, g: T -> V, s: seq<T>, t: seq<T>)
    requires forall x, y | x in s + t && y in s + t :: f(x) == f(y) <==> g(x) == g(y)
    requires multiset(Map(f, s)) == multiset(Map(f, t))
    ensures multiset(Map(g, s)) == multiset(Map(g, t))
  {
    forall v
      ensures multiset(Map(g, s))[v] == multiset(Map(g, t))[v]
    {
      if v in Map(g, s) || v in Map(g, t) {
        SameCountOf(f, g, s, t, v);
      } else {
        assert v !in multiset(Map(g, s)) && v !in multiset(Map(g, t));
      }
    }
    assert multiset(Map(g, s)) == multiset(Map(g, t));
  }

  lemma SameCountOf<T, U, V>(f: T -> U, g: T -> V, s: seq<T>, t: seq<T>, v: V)
    requires forall x, y | x in s + t && y in s + t :: f(x) == f(y) <==> g(x) == g(y)
    requires multiset(Map(f, s)) == multiset(Map(f, t))
    requires v in Map(g, s) || v in Map(g, t)
    ensures multiset(Map(g, s))[v] == multiset(Map(g, t))[v]
  {
    var x: T;
    if v in Map(g, s) {
      var i :| 0 <= i < |s| && Map(g, s)[i] == v;
      x := s[i];
    } else {
      var i :| 0 <= i < |t| && Map(g, t)[i] == v;
      x := t[i];
    }
    assert x in s + t && g(x) == v;
    SameCounts(f, g, s, x);
    SameCounts(f, g, t, x);
  }

  lemma RulesForgetOrder(enc: Encoding, a: seq<Rule>, b: seq<Rule>)
    requires Faithful(enc)
    requires DeclaredSet(Map(NormaliseRule(enc), a), RuleKey(enc))
    ensures NormalRules(enc, a) == NormalRules(enc, b)
            <==> multiset(Map(MeaningOf(), a)) == multiset(Map(MeaningOf(), b))
  {
    var f, g := NormaliseRule(enc), MeaningOf();
    SortForgetsOrder(Map(f, a), Map(f, b), RuleKey(enc));
    forall x, y | x in a + b && y in a + b
      ensures f(x) == f(y) <==> g(x) == g(y)
    {
      SameMeaning(enc, x, y);
    }
    if multiset(Map(f, a)) == multiset(Map(f, b)) {
      SameMultisets(f, g, a, b);
    }
    if multiset(Map(g, a)) == multiset(Map(g, b)) {
      SameMultisets(g, f, a, b);
    }
  }

  lemma ColumnsForgetOrder(enc: Encoding, c: Contract, d: Contract)
    requires Validated(enc, c)
    ensures SortBy(c.landing.physicalColumns, ColumnKey) == SortBy(d.landing.physicalColumns, ColumnKey)
            <==> multiset(c.landing.physicalColumns) == multiset(d.landing.physicalColumns)
  {
    var columns := c.landing.physicalColumns;
    forall x, y | x in columns && y in columns && ColumnKey(x) == ColumnKey(y)
      ensures x == y
    {
      LowerKeepsLowerCase(x.name);
      LowerKeepsLowerCase(y.name);
    }
    SortForgetsOrder(columns, d.landing.physicalColumns, ColumnKey);
  }

  lemma DeclaredSetForgetsOrder<T(!new)>(a: seq<T>, b: seq<T>, bytes: T -> string)
    requires Injective(bytes)
    ensures SortBy(a, bytes) == SortBy(b, bytes) <==> multiset(a) == multiset(b)
    ensures multiset(a) == multiset(b) ==> (DeclaredSet(a, bytes) <==> DeclaredSet(b, bytes))
  {
    InjectiveIdentifies(a, bytes);
    SortForgetsOrder(a, b, bytes);
    if multiset(a) == multiset(b) {
      if DeclaredSet(a, bytes) { DeclaredSetReordered(a, b, bytes); }
      if DeclaredSet(b, bytes) { DeclaredSetReordered(b, a, bytes); }
    }
  }

  lemma DeclaredSetReordered<T(!new)>(a: seq<T>, b: seq<T>, bytes: T -> string)
    requires Injective(bytes) && DeclaredSet(a, bytes) && multiset(a) == multiset(b)
    ensures DeclaredSet(b, bytes)
  {
    assert Distinct(a);
    forall i, j | 0 <= i < j < |b|
      ensures bytes(b[i]) != bytes(b[j])
    {
      if b[i] == b[j] {
        assert b == b[..j] + b[j..];
        assert b[i] in multiset(b[..j]) && b[i] in multiset(b[j..]) by {
          assert b[..j][i] == b[i] && b[j..][0] == b[i];
        }
        assert multiset(b)[b[i]] >= 2;
        DistinctCount(a, b[i]);
      }
    }
  }

  /**
    Two validated contracts have the same canonical document exactly when only authored
    order tells them apart; a repeated set value is reported for both or for neither.
  */
  lemma DocumentForgetsOrder(enc: Encoding, c: Contract, d: Contract)
    requires Faithful(enc) && Validated(enc, c) && Validated(enc, d)
    ensures Document(enc, c).Ok? && Document(enc, d).Ok? ==>
              (Document(enc, c) == Document(enc, d) <==> Reordered(c, d))
    ensures Reordered(c, d) ==> Document(enc, c) == Document(enc, d)
  {
    if Reordered(c, d) {
      ReorderedNormalisesAlike(enc, c, d);
    }
    if Normal(enc, c) == Normal(enc, d) {
      AlikeIsReordered(enc, c, d);
    }
  }

  lemma OptionalSetsForgetOrder(enc: Encoding, c: Contract, d: Contract)
    requires Faithful(enc) && Skeleton(c) == Skeleton(d)
    ensures c.landing.integration.External? && d.landing.integration.External? ==>
              var a, b := c.landing.integration.receiptTrust.allowedKeyIds,
                          d.landing.integration.receiptTrust.allowedKeyIds;
              && (SortBy(a, enc.textBytes) == SortBy(b, enc.textBytes) <==> multiset(a) == multiset(b))
              && (multiset(a) == multiset(b) ==> (DeclaredSet(a, enc.textBytes) <==> DeclaredSet(b, enc.textBytes)))
    ensures c.delivery.tombstone.Some? && d.delivery.tombstone.Some? ==>
              var a, b := c.delivery.tombstone.value.values, d.delivery.tombstone.value.values;
              && (SortBy(a, enc.scalarBytes) == SortBy(b, enc.scalarBytes) <==> multiset(a) == multiset(b))
              && (multiset(a) == multiset(b) ==> (DeclaredSet(a, enc.scalarBytes) <==> DeclaredSet(b, enc.scalarBytes)))
    ensures c.delivery.snapshot.Some? && d.delivery.snapshot.Some? ==>
              var a, b := c.delivery.snapshot.value.allowedKeyIds, d.delivery.snapshot.value.allowedKeyIds;
              && (SortBy(a, enc.textBytes) == SortBy(b, enc.textBytes) <==> multiset(a) == multiset(b))
              && (multiset(a) == multiset(b) ==> (DeclaredSet(a, enc.textBytes) <==> DeclaredSet(b, enc.textBytes)))
  {
    if c.landing.integration.External? && d.landing.integration.External? {
      DeclaredSetForgetsOrder(c.landing.integration.receiptTrust.allowedKeyIds,
                              d.landing.integration.receiptTrust.allowedKeyIds, enc.textBytes);
    }
    if c.delivery.tombstone.Some? && d.delivery.tombstone.Some? {
      DeclaredSetForgetsOrder(c.delivery.tombstone.value.values,
                              d.delivery.tombstone.value.values, enc.scalarBytes);
    }
    if c.delivery.snapshot.Some? && d.delivery.snapshot.Some? {
      DeclaredSetForgetsOrder(c.delivery.snapshot.value.allowedKeyIds,
                              d.delivery.snapshot.value.allowedKeyIds, enc.textBytes);
    }
  }

  lemma ReorderedNormalisesAlike(enc: Encoding, c: Contract, d: Contract)
    requires Faithful(enc) && Validated(enc, c) && Validated(enc, d) && Reordered(c, d)
    ensures Normal(enc, c) == Normal(enc, d)
    ensures SetsDeclared(enc, c) <==> SetsDeclared(enc, d)
  {
    SkeletonParts(c, d);
    DeclaredSetForgetsOrder(c.landing.contentEncodings, d.landing.contentEncodings, enc.encodingBytes);
    OptionalSetsForgetOrder(enc, c, d);
    ReorderedIsNormalAlike(enc, c, d);
  }

  lemma ReorderedIsNormalAlike(enc: Encoding, c: Contract, d: Contract)
    requires Faithful(enc) && Validated(enc, c) && Reordered(c, d)
    ensures Normal(enc, c) == Normal(enc, d)
  {
    SkeletonParts(c, d);
    ColumnsForgetOrder(enc, c, d);
    SortForgetsOrder(c.projection, d.projection, EntryKey);
    DeclaredSetForgetsOrder(c.landing.contentEncodings, d.landing.contentEncodings, enc.encodingBytes);
    RulesForgetOrder(enc, c.delivery.quality.rules, d.delivery.quality.rules);
    OptionalSetsForgetOrder(enc, c, d);
  }

  lemma AlikeIsReordered(enc: Encoding, c: Contract, d: Contract)
    requires Faithful(enc) && Validated(enc, c) && Normal(enc, c) == Normal(enc, d)
    ensures Reordered(c, d)
  {
    NormalParts(enc, c, d);
    SkeletonParts(c, d);
    ColumnsForgetOrder(enc, c, d);
    SortForgetsOrder(c.projection, d.projection, EntryKey);
    DeclaredSetForgetsOrder(c.landing.contentEncodings, d.landing.contentEncodings, enc.encodingBytes);
    RulesForgetOrder(enc, c.delivery.quality.rules, d.delivery.quality.rules);
    OptionalSetsForgetOrder(enc, c, d);
  }

  /** The parts a skeleton keeps. */
  lemma SkeletonParts(c: Contract, d: Contract)
    requires Skeleton(c) == Skeleton(d)
    ensures c.identity == d.identity && c.product == d.product && c.interfaces == d.interfaces
    ensures c.landing.integration.External? <==> d.landing.integration.External?
    ensures c.delivery.tombstone.Some? <==> d.delivery.tombstone.Some?
    ensures c.delivery.snapshot.Some? <==> d.delivery.snapshot.Some?
  {
    assert Skeleton(c).landing.integration.External? <==> c.landing.integration.External?;
    assert Skeleton(c).delivery.tombstone.Some? <==> c.delivery.tombstone.Some?;
    assert Skeleton(c).delivery.snapshot.Some? <==> c.delivery.snapshot.Some?;
  }

  lemma NormalParts(enc: Encoding, c: Contract, d: Contract)
    requires Normal(enc, c) == Normal(enc, d)
    ensures Skeleton(c) == Skeleton(d)
  {
    assert Skeleton(Normal(enc, c)) == Skeleton(c);
    assert Skeleton(Normal(enc, d)) == Skeleton(d);
  }

  /** Canonicalising a canonical document changes nothing. */
  lemma DocumentIdempotent(enc: Encoding, c: Contract)
    requires Faithful(enc) && Document(enc, c).Ok?
    ensures Document(enc, Document(enc, c).value) == Document(enc, c)
  {
    var n := Normal(enc, c);
    SortIdempotent(c.landing.physicalColumns, ColumnKey);
    SortIdempotent(c.projection, EntryKey);
    DeclaredSetIdempotent(c.landing.contentEncodings, enc.encodingBytes);
    if c.landing.integration.External? {
      DeclaredSetIdempotent(c.landing.integration.receiptTrust.allowedKeyIds, enc.textBytes);
    }
    if c.delivery.tombstone.Some? {
      DeclaredSetIdempotent(c.delivery.tombstone.value.values, enc.scalarBytes);
    }
    if c.delivery.snapshot.Some? {
      DeclaredSetIdempotent(c.delivery.snapshot.value.allowedKeyIds, enc.textBytes);
    }
    RulesIdempotent(enc, c.delivery.quality.rules);
    assert Normal(enc, n) == n;
  }

  lemma SortIdempotent<T(!new)>(s: seq<T>, key: T -> string)
    ensures SortBy(SortBy(s, key), key) == SortBy(s, key)
  {
    SortByKeeps(s, key);
    SortOfSorted(SortBy(s, key), key);
  }

  lemma DeclaredSetIdempotent<T(!new)>(s: seq<T>, bytes: T -> string)
    requires Injective(bytes) && DeclaredSet(s, bytes)
    ensures SortBy(SortBy(s, bytes), bytes) == SortBy(s, bytes)
    ensures DeclaredSet(SortBy(s, bytes), bytes)
  {
    SortIdempotent(s, bytes);
    SortByKeeps(s, bytes);
    DeclaredSetReordered(s, SortBy(s, bytes), bytes);
  }

  /** Normalising the rule again changes nothing, and its accepted values do not repeat. */
  predicate NormalRule(enc: Encoding, rule: Rule) {
    && NormaliseBody(enc, rule.body) == rule.body
    && (rule.body.AcceptedValues? ==> DeclaredSet(rule.body.values, enc.scalarBytes))
  }

  lemma RuleNormalised(enc: Encoding, rule: Rule)
    requires Faithful(enc)
    requires rule.body.AcceptedValues? ==> DeclaredSet(rule.body.values, enc.scalarBytes)
    ensures NormalRule(enc, NormaliseRule(enc)(rule))
  {
    if rule.body.AcceptedValues? {
      DeclaredSetIdempotent(rule.body.values, enc.scalarBytes);
    }
  }

  lemma RulesIdempotent(enc: Encoding, rules: seq<Rule>)
    requires Faithful(enc) && RuleSetsDeclared(enc, rules)
    ensures RuleSetsDeclared(enc, NormalRules(enc, rules))
    ensures NormalRules(enc, NormalRules(enc, rules)) == NormalRules(enc, rules)
  {
    var f := NormaliseRule(enc);
    var normalised := Map(f, rules);
    var sorted := NormalRules(enc, rules);
    SortByKeeps(normalised, RuleKey(enc));
    forall k | 0 <= k < |sorted|
      ensures NormalRule(enc, sorted[k])
    {
      assert sorted[k] in normalised;
      var i :| 0 <= i < |rules| && normalised[i] == sorted[k];
      RuleNormalised(enc, rules[i]);
    }
    assert Map(f, sorted) == sorted;
    SortIdempotent(normalised, RuleKey(enc));
  }
}

/**
  The canonical document said without the code that makes it: which contracts have one, and
  that it is the one ascending reordering of its contract
  (ergasterion/source_delivery.py:308-365, 408-415).
*/
module CanonicalForm {
  import opened Basics
  import opened Ordering
  import opened LandingContract
  import opened Canonical

  // ---------------------------------------------------------------- which contracts have a document

  lemma DistinctByBytes<T(!new)>(items: seq<T>, bytes: T -> string)
    requires Injective(bytes)
    ensures DeclaredSet(items, bytes) <==> Distinct(items)
  {}

  /** The accepted values of a rule, where it has any. */
  function ValuesOf(rule: Rule): seq<TypedScalar> {
    if rule.body.AcceptedValues? then rule.body.values else []
  }

  ghost predicate NothingRepeats(c: Contract) {
    && Distinct(c.landing.contentEncodings)
    && (c.landing.integration.External? ==> Distinct(c.landing.integration.receiptTrust.allowedKeyIds))
    && (c.delivery.tombstone.Some? ==> Distinct(c.delivery.tombstone.value.values))
    && (c.delivery.snapshot.Some? ==> Distinct(c.delivery.snapshot.value.allowedKeyIds))
    && forall i | 0 <= i < |c.delivery.quality.rules| :: Distinct(ValuesOf(c.delivery.quality.rules[i]))
  }

  /** A contract is refused exactly when a value of one of its five declared sets repeats. */
  lemma DocumentExistsExactly(enc: Encoding, c: Contract)
    requires Faithful(enc)
    ensures Document(enc, c).Ok? <==> NothingRepeats(c)
  {
    DistinctByBytes(c.landing.contentEncodings, enc.encodingBytes);
    if c.landing.integration.External? {
      DistinctByBytes(c.landing.integration.receiptTrust.allowedKeyIds, enc.textBytes);
    }
    if c.delivery.tombstone.Some? { DistinctByBytes(c.delivery.tombstone.value.values, enc.scalarBytes); }
    if c.delivery.snapshot.Some? { DistinctByBytes(c.delivery.snapshot.value.allowedKeyIds, enc.textBytes); }
    RuleValuesDistinct(enc, c.delivery.quality.rules);
  }

  lemma RuleValuesDistinct(enc: Encoding, rules: seq<Rule>)
    requires Faithful(enc)
    ensures RuleSetsDeclared(enc, rules) <==> forall i | 0 <= i < |rules| :: Distinct(ValuesOf(rules[i]))
  {
    forall i | 0 <= i < |rules|
      ensures Distinct(ValuesOf(rules[i])) <==>
              (rules[i].body.AcceptedValues? ==> DeclaredSet(rules[i].body.values, enc.scalarBytes))
    {
      if rules[i].body.AcceptedValues? { DistinctByBytes(rules[i].body.values, enc.scalarBytes); }
    }
  }

  // ---------------------------------------------------------------- what the document is

  /** Columns ascend by lower-cased name. */
  ghost predicate ColumnsAscend(columns: seq<SourceField>) {
    forall i, j | 0 <= i < j < |columns| :: LexLe(Lower(columns[i].name), Lower(columns[j].name))
  }

  ghost predicate EntriesAscend(entries: seq<ProjectionField>) {
    forall i, j | 0 <= i < j < |entries| :: LexLe(entries[i].name, entries[j].name)
  }

  /** The values of a set ascend by their canonical bytes. */
  ghost predicate BytesAscend<T(!new)>(items: seq<T>, bytes: T -> string) {
    forall i, j | 0 <= i < j < |items| :: LexLe(bytes(items[i]), bytes(items[j]))
  }

  /** Rules ascend by identity, and so do the values each accepts by their bytes. */
  ghost predicate RulesAscend(enc: Encoding, rules: seq<Rule>) {
    && (forall i, j | 0 <= i < j < |rules| :: LexLe(enc.ruleId(rules[i].body), enc.ruleId(rules[j].body)))
    && forall i | 0 <= i < |rules| :: BytesAscend(ValuesOf(rules[i]), enc.scalarBytes)
  }

  ghost predicate Ascends(enc: Encoding, d: Contract) {
    && ColumnsAscend(d.landing.physicalColumns) && EntriesAscend(d.projection)
    && BytesAscend(d.landing.contentEncodings, enc.encodingBytes)
    && (d.landing.integration.External? ==>
          BytesAscend(d.landing.integration.receiptTrust.allowedKeyIds, enc.textBytes))
    && (d.delivery.tombstone.Some? ==> BytesAscend(d.delivery.tombstone.value.values, enc.scalarBytes))
    && (d.delivery.snapshot.Some? ==> BytesAscend(d.delivery.snapshot.value.allowedKeyIds, enc.textBytes))
    && RulesAscend(enc, d.delivery.quality.rules)
  }

  /** ASCII upper case becomes lower case, and nothing else changes. */
  lemma {:induction false} LowerExactly(s: string)
    ensures |Lower(s)| == |s|
    ensures forall i | 0 <= i < |s| ::
              if 'A' <= s[i] <= 'Z' then 'a' <= Lower(s)[i] <= 'z' && Lower(s)[i] as int - s[i] as int == 32
              else Lower(s)[i] == s[i]
  {
    if s != [] {
      LowerExactly(s[1..]);
      assert forall i | 1 <= i < |s| :: s[i] == s[1..][i - 1] && Lower(s)[i] == Lower(s[1..])[i - 1];
    }
  }

  lemma NormalAscends(enc: Encoding, c: Contract)
    ensures Ascends(enc, Normal(enc, c))
  {
    SortByKeeps(c.landing.physicalColumns, ColumnKey);
    SortByKeeps(c.projection, EntryKey);
    SortByKeeps(c.landing.contentEncodings, enc.encodingBytes);
    if c.landing.integration.External? {
      SortByKeeps(c.landing.integration.receiptTrust.allowedKeyIds, enc.textBytes);
    }
    if c.delivery.tombstone.Some? { SortByKeeps(c.delivery.tombstone.value.values, enc.scalarBytes); }
    if c.delivery.snapshot.Some? { SortByKeeps(c.delivery.snapshot.value.allowedKeyIds, enc.textBytes); }
    NormalRulesAscend(enc, c.delivery.quality.rules);
  }

  lemma NormalRulesAscend(enc: Encoding, rules: seq<Rule>)
    ensures RulesAscend(enc, NormalRules(enc, rules))
  {
    var normalised := Map(NormaliseRule(enc), rules);
    var sorted := NormalRules(enc, rules);
    SortByKeeps(normalised, RuleKey(enc));
    forall i | 0 <= i < |sorted|
      ensures BytesAscend(ValuesOf(sorted[i]), enc.scalarBytes)
    {
      assert sorted[i] in normalised;
      var k :| 0 <= k < |rules| && normalised[k] == sorted[i];
      if rules[k].body.AcceptedValues? { SortByKeeps(rules[k].body.values, enc.scalarBytes); }
    }
    forall i, j | 0 <= i < j < |sorted|
      ensures LexLe(enc.ruleId(sorted[i].body), enc.ruleId(sorted[j].body))
    {
      assert LexLe(RuleKey(enc)(sorted[i]), RuleKey(enc)(sorted[j]));
    }
  }

  /** What ascends already is its own normal form. */
  lemma AscendingIsNormal(enc: Encoding, d: Contract)
    requires Ascends(enc, d)
    ensures Normal(enc, d) == d
  {
    SortOfSorted(d.landing.physicalColumns, ColumnKey);
    SortOfSorted(d.projection, EntryKey);
    SortOfSorted(d.landing.contentEncodings, enc.encodingBytes);
    if d.landing.integration.External? {
      SortOfSorted(d.landing.integration.receiptTrust.allowedKeyIds, enc.textBytes);
    }
    if d.delivery.tombstone.Some? { SortOfSorted(d.delivery.tombstone.value.values, enc.scalarBytes); }
    if d.delivery.snapshot.Some? { SortOfSorted(d.delivery.snapshot.value.allowedKeyIds, enc.textBytes); }
    AscendingRulesAreNormal(enc, d.delivery.quality.rules);
  }

  lemma AscendingRulesAreNormal(enc: Encoding, rules: seq<Rule>)
    requires RulesAscend(enc, rules)
    ensures NormalRules(enc, rules) == rules
  {
    forall i | 0 <= i < |rules|
      ensures NormaliseRule(enc)(rules[i]) == rules[i]
    {
      assert BytesAscend(ValuesOf(rules[i]), enc.scalarBytes);
      if rules[i].body.AcceptedValues? { SortOfSorted(rules[i].body.values, enc.scalarBytes); }
    }
    assert Map(NormaliseRule(enc), rules) == rules;
    SortOfSorted(rules, RuleKey(enc));
  }

  /** A document differs from its contract in the order of the reorderable lists alone. */
  lemma DocumentReorders(enc: Encoding, c: Contract)
    requires Faithful(enc) && Validated(enc, c) && Document(enc, c).Ok?
    ensures Reordered(c, Normal(enc, c))
  {
    DocumentIdempotent(enc, c);
    AlikeIsReordered(enc, c, Normal(enc, c));
  }

  /**
    The document of a validated contract that repeats nothing is the one contract that ascends
    everywhere and differs from it in order alone.
  */
  lemma DocumentExactly(enc: Encoding, c: Contract, d: Contract)
    requires Faithful(enc) && Validated(enc, c) && NothingRepeats(c)
    ensures Document(enc, c) == Ok(d) <==> Reordered(c, d) && Ascends(enc, d)
  {
    DocumentExistsExactly(enc, c);
    if Document(enc, c) == Ok(d) {
      NormalAscends(enc, c);
      DocumentReorders(enc, c);
    }
    if Reordered(c, d) && Ascends(enc, d) {
      AscendingIsNormal(enc, d);
      ReorderedIsNormalAlike(enc, c, d);
    }
  }
}

/**
  What `validate_contract` finds wrong with a contract: each fault by itself, and that a
  contract passes exactly when it has none (ergasterion/source_delivery.py:229-246, 528-862).
*/
module ContractFaults {
  import opened Basics
  import opened Text
  import opened LandingContract
  import opened Canonical
  import opened Acceptance

  // ---------------------------------------------------------------- the delivery policy

  datatype PolicyFault =
    | ProgressNotAllowed | StrategyNotAllowed | EventMissing | EffectiveMissing
    | TombstoneMissing | TombstoneForbidden | SnapshotMissing | SnapshotForbidden
    | KeyEmpty | KeyRepeats | FingerprintMissing | FingerprintForbidden | ScopesDiffer
    | ValidRowsForbidden | FractionNotZero | LatenessOrder | AgeOrder | RetryOrder
    | ExpressionInvalid | ZoneUnknown

  predicate SomeRepeats<T(==)>(items: seq<T>) {
    exists i, j :: 0 <= i < j < |items| && items[i] == items[j]
  }

  predicate ExpressionFails(s: Schedule) {
    s.CronSchedule? && ExpressionRead(s.expression).None?
  }

  predicate ZoneFails(libraries: Libraries, s: Schedule) {
    s.CronSchedule? && !libraries.zone(s.timezone)
  }

  predicate HasPolicyFault(libraries: Libraries, d: Delivery, f: PolicyFault) {
    var key, strategy := d.recordKey, d.deleteStrategy;
    match f
    case ProgressNotAllowed =>
      (d.mode == Cdc && d.progress.OpaqueBatch?) || (d.mode == CompleteSnapshot && d.progress.Sequence?)
    case StrategyNotAllowed =>
      || (d.mode == Cdc && strategy == SnapshotDiff) || (d.mode == AppendOnly && strategy != NoDelete)
      || (d.mode == CompleteSnapshot && strategy != SnapshotDiff)
    case EventMissing => d.mode == Cdc && d.timestamps.eventField == None
    case EffectiveMissing => d.mode == CompleteSnapshot && d.timestamps.effectiveField == None
    case TombstoneMissing => strategy == ExplicitTombstone && d.tombstone == None
    case TombstoneForbidden => strategy != ExplicitTombstone && d.tombstone != None
    case SnapshotMissing => strategy == SnapshotDiff && d.snapshot == None
    case SnapshotForbidden => strategy != SnapshotDiff && d.snapshot != None
    case KeyEmpty => key.fields == []
    case KeyRepeats => SomeRepeats(key.fields)
    case FingerprintMissing =>
      strategy in {ExplicitTombstone, SnapshotDiff} && (key.fingerprintScope == None || key.hmacKeyId == None)
    case FingerprintForbidden => strategy == NoDelete && (key.fingerprintScope != None || key.hmacKeyId != None)
    case ScopesDiffer =>
      d.snapshot.Some? && key.fingerprintScope.Some?
      && (d.snapshot.value.scopeId != key.fingerprintScope.value.scopeId
          || d.snapshot.value.scopeParameters != key.fingerprintScope.value.scopeParameters)
    case ValidRowsForbidden =>
      d.quality.publicationMode == PublishValidRows && (d.mode != AppendOnly || d.progress.Sequence?)
    case FractionNotZero => d.quality.publicationMode == AllOrNothing && d.quality.maxErrorFraction != "0"
    case LatenessOrder => d.scheduleLateness.warnAfterMinutes >= d.scheduleLateness.errorAfterMinutes
    case AgeOrder => d.maximumAge.Some? && d.maximumAge.value.warnAfterMinutes >= d.maximumAge.value.errorAfterMinutes
    case RetryOrder => d.retry.capSeconds < d.retry.baseSeconds
    case ExpressionInvalid => ExpressionFails(d.schedule)
    case ZoneUnknown => ZoneFails(libraries, d.schedule)
  }

  predicate PolicyChecked(libraries: Libraries, d: Delivery) {
    && ModeChecked(d) && DeletesChecked(d) && d.recordKey.fields != [] && Distinct(d.recordKey.fields)
    && PublicationChecked(d) && SlaChecked(d.scheduleLateness)
    && (d.maximumAge.Some? ==> SlaChecked(d.maximumAge.value))
    && d.retry.baseSeconds <= d.retry.capSeconds && ScheduleChecked(libraries, d.schedule)
  }

  lemma ModeFaultless(libraries: Libraries, d: Delivery)
    ensures ModeChecked(d) && DeletesChecked(d)
            <==> && !HasPolicyFault(libraries, d, ProgressNotAllowed)
                 && !HasPolicyFault(libraries, d, StrategyNotAllowed)
                 && !HasPolicyFault(libraries, d, EventMissing) && !HasPolicyFault(libraries, d, EffectiveMissing)
                 && !HasPolicyFault(libraries, d, TombstoneMissing) && !HasPolicyFault(libraries, d, TombstoneForbidden)
                 && !HasPolicyFault(libraries, d, SnapshotMissing) && !HasPolicyFault(libraries, d, SnapshotForbidden)
                 && !HasPolicyFault(libraries, d, FingerprintMissing)
                 && !HasPolicyFault(libraries, d, FingerprintForbidden)
                 && !HasPolicyFault(libraries, d, ScopesDiffer)
  {}

  lemma KeyFaultless(libraries: Libraries, d: Delivery)
    ensures d.recordKey.fields != [] && Distinct(d.recordKey.fields)
            <==> !HasPolicyFault(libraries, d, KeyEmpty) && !HasPolicyFault(libraries, d, KeyRepeats)
  {}

  lemma PublicationFaultless(libraries: Libraries, d: Delivery)
    ensures PublicationChecked(d)
            <==> !HasPolicyFault(libraries, d, ValidRowsForbidden) && !HasPolicyFault(libraries, d, FractionNotZero)
  {}

  lemma SchedulePasses(libraries: Libraries, s: Schedule)
    ensures ScheduleChecked(libraries, s) <==> !ExpressionFails(s) && !ZoneFails(libraries, s)
  {}

  lemma ScheduleFaultless(libraries: Libraries, d: Delivery)
    ensures HasPolicyFault(libraries, d, ExpressionInvalid) <==> ExpressionFails(d.schedule)
    ensures HasPolicyFault(libraries, d, ZoneUnknown) <==> ZoneFails(libraries, d.schedule)
  {}

  lemma MinutesFaultless(libraries: Libraries, d: Delivery)
    ensures SlaChecked(d.scheduleLateness) <==> !HasPolicyFault(libraries, d, LatenessOrder)
    ensures (d.maximumAge.Some? ==> SlaChecked(d.maximumAge.value)) <==> !HasPolicyFault(libraries, d, AgeOrder)
    ensures d.retry.baseSeconds <= d.retry.capSeconds <==> !HasPolicyFault(libraries, d, RetryOrder)
  {}

  lemma PolicyFaultless(libraries: Libraries, d: Delivery)
    ensures PolicyChecked(libraries, d) <==> forall f :: !HasPolicyFault(libraries, d, f)
  {
    ModeFaultless(libraries, d);
    KeyFaultless(libraries, d);
    PublicationFaultless(libraries, d);
    ScheduleFaultless(libraries, d);
    SchedulePasses(libraries, d.schedule);
    MinutesFaultless(libraries, d);
    if PolicyChecked(libraries, d) {
      forall f
        ensures !HasPolicyFault(libraries, d, f)
      {
        match f {
          case ProgressNotAllowed => case StrategyNotAllowed => case EventMissing => case EffectiveMissing =>
          case TombstoneMissing => case TombstoneForbidden => case SnapshotMissing => case SnapshotForbidden =>
          case KeyEmpty => case KeyRepeats => case FingerprintMissing => case FingerprintForbidden =>
          case ScopesDiffer => case ValidRowsForbidden => case FractionNotZero => case LatenessOrder =>
          case AgeOrder => case RetryOrder => case ExpressionInvalid => case ZoneUnknown =>
        }
      }
    }
  }

  // ---------------------------------------------------------------- quality rules

  datatype RuleFault =
    | SameIdentity(i: nat, j: nat) | RepeatsValue(i: nat) | RepeatsField(i: nat) | NoValues(i: nat)
    | RangeUnbounded(i: nat) | BoundTypesDiffer(i: nat) | BoundsReversed(i: nat)
    | CountUnbounded(i: nat) | CountReversed(i: nat)

  /** Both scalars are of one type. */
  predicate OneType(a: TypedScalar, b: TypedScalar) {
    match a
    case TypedBinary(_) => b.TypedBinary?
    case TypedBoolean(_) => b.TypedBoolean?
    case TypedDate(_) => b.TypedDate?
    case TypedDecimal(_, _) => b.TypedDecimal?
    case TypedInt64(_) => b.TypedInt64?
    case TypedLocalDateTime(_, _) => b.TypedLocalDateTime?
    case TypedString(_) => b.TypedString?
    case TypedUtcInstant(_) => b.TypedUtcInstant?
  }

  predicate BytesRepeat(enc: Encoding, values: seq<TypedScalar>) {
    exists a, b :: 0 <= a < b < |values| && enc.scalarBytes(values[a]) == enc.scalarBytes(values[b])
  }

  predicate HasRuleFault(enc: Encoding, libraries: Libraries, rules: seq<Rule>, f: RuleFault) {
    f.i < |rules| &&
    var body := rules[f.i].body;
    match f
    case SameIdentity(i, j) =>
      i < j < |rules|
      && enc.ruleId(NormaliseBody(enc, body)) == enc.ruleId(NormaliseBody(enc, rules[j].body))
    case RepeatsValue(_) => body.AcceptedValues? && BytesRepeat(enc, body.values)
    case RepeatsField(_) => body.UniqueKey? && SomeRepeats(body.fields)
    case NoValues(_) => body.AcceptedValues? && body.values == []
    case RangeUnbounded(_) => body.Range? && body.min == None && body.max == None
    case BoundTypesDiffer(_) =>
      body.Range? && body.min.Some? && body.max.Some? && !OneType(body.min.value, body.max.value)
    case BoundsReversed(_) =>
      body.Range? && body.min.Some? && body.max.Some? && !libraries.atMost(body.min.value, body.max.value)
    case CountUnbounded(_) => body.RowCount? && body.minRows == None && body.maxRows == None
    case CountReversed(_) =>
      body.RowCount? && body.minRows.Some? && body.maxRows.Some?
      && IsNumeral(body.minRows.value)
      && NumeralValue(body.minRows.value)
         > if IsNumeral(body.maxRows.value) then NumeralValue(body.maxRows.value) else 0
  }

  lemma RuleClosedExactly(libraries: Libraries, enc: Encoding, rules: seq<Rule>, i: nat)
    requires i < |rules|
    ensures RuleChecked(libraries, rules[i].body)
            <==> && !HasRuleFault(enc, libraries, rules, RepeatsField(i))
                 && !HasRuleFault(enc, libraries, rules, NoValues(i))
                 && !HasRuleFault(enc, libraries, rules, RangeUnbounded(i))
                 && !HasRuleFault(enc, libraries, rules, BoundTypesDiffer(i))
                 && !HasRuleFault(enc, libraries, rules, BoundsReversed(i))
                 && !HasRuleFault(enc, libraries, rules, CountUnbounded(i))
                 && !HasRuleFault(enc, libraries, rules, CountReversed(i))
  {}

  lemma RulesFaultless(enc: Encoding, libraries: Libraries, rules: seq<Rule>)
    ensures RulesChecked(enc, libraries, rules) <==> forall f :: !HasRuleFault(enc, libraries, rules, f)
  {
    forall i | 0 <= i < |rules|
      ensures RuleChecked(libraries, rules[i].body)
              <==> && !HasRuleFault(enc, libraries, rules, RepeatsField(i))
                   && !HasRuleFault(enc, libraries, rules, NoValues(i))
                   && !HasRuleFault(enc, libraries, rules, RangeUnbounded(i))
                   && !HasRuleFault(enc, libraries, rules, BoundTypesDiffer(i))
                   && !HasRuleFault(enc, libraries, rules, BoundsReversed(i))
                   && !HasRuleFault(enc, libraries, rules, CountUnbounded(i))
                   && !HasRuleFault(enc, libraries, rules, CountReversed(i))
    {
      RuleClosedExactly(libraries, enc, rules, i);
    }
    RuleIdentities(enc, libraries, rules);
    RuleValues(enc, libraries, rules);
    if forall f :: !HasRuleFault(enc, libraries, rules, f) {
      assert forall i, j :: !HasRuleFault(enc, libraries, rules, SameIdentity(i, j));
      assert forall i :: !HasRuleFault(enc, libraries, rules, RepeatsValue(i));
    }
  }

  lemma RuleIdentities(enc: Encoding, libraries: Libraries, rules: seq<Rule>)
    ensures DeclaredSet(Map(NormaliseRule(enc), rules), RuleKey(enc))
            <==> forall i, j :: !HasRuleFault(enc, libraries, rules, SameIdentity(i, j))
  {
    var normal := Map(NormaliseRule(enc), rules);
    forall i | 0 <= i < |rules|
      ensures RuleKey(enc)(normal[i]) == enc.ruleId(NormaliseBody(enc, rules[i].body))
    {}
    if !DeclaredSet(normal, RuleKey(enc)) {
      var i, j :| 0 <= i < j < |rules| && RuleKey(enc)(normal[i]) == RuleKey(enc)(normal[j]);
      assert HasRuleFault(enc, libraries, rules, SameIdentity(i, j));
    }
    if i: nat, j: nat :| HasRuleFault(enc, libraries, rules, SameIdentity(i, j)) {
      assert RuleKey(enc)(normal[i]) == RuleKey(enc)(normal[j]);
    }
  }

  lemma RuleValues(enc: Encoding, libraries: Libraries, rules: seq<Rule>)
    ensures RuleSetsDeclared(enc, rules) <==> forall i :: !HasRuleFault(enc, libraries, rules, RepeatsValue(i))
  {
    if !RuleSetsDeclared(enc, rules) {
      var i :| 0 <= i < |rules| && rules[i].body.AcceptedValues?
        && !DeclaredSet(rules[i].body.values, enc.scalarBytes);
      assert HasRuleFault(enc, libraries, rules, RepeatsValue(i));
    }
  }

  // ---------------------------------------------------------------- landing

  datatype LandingFault =
    | NoColumns | ColumnTwice | EncodingTwice | SeparatorLength | SeparatorsEqual | NullTokenTwice
    | ReservedTaken | ReservedTwice | TrustKeyTwice | NoTrustKey

  function Reserved(r: References): seq<string> {
    [r.deliveryIdColumn, r.visibilityEpochColumn, r.visibilityKindColumn, r.visibilityIdColumn]
  }

  predicate HasLandingFault(l: Landing, f: LandingFault) {
    var columns, codec, port := l.physicalColumns, l.codec, l.integration;
    match f
    case NoColumns => columns == []
    case ColumnTwice => exists i, j :: 0 <= i < j < |columns| && columns[i].name == columns[j].name
    case EncodingTwice => SomeRepeats(l.contentEncodings)
    case SeparatorLength => codec.Csv? && (|codec.delimiter| != 1 || |codec.quote| != 1 || |codec.escape| != 1)
    case SeparatorsEqual =>
      codec.Csv? && (codec.delimiter == codec.quote || codec.delimiter == codec.escape || codec.quote == codec.escape)
    case NullTokenTwice => codec.Csv? && SomeRepeats(codec.nullTokens)
    case ReservedTaken =>
      port.External? && exists i, k :: 0 <= i < |columns| && 0 <= k < 4
                                      && Reserved(port.references)[k] == columns[i].name
    case ReservedTwice => port.External? && SomeRepeats(Reserved(port.references))
    case TrustKeyTwice => port.External? && SomeRepeats(port.receiptTrust.allowedKeyIds)
    case NoTrustKey => port.External? && port.receiptTrust.allowedKeyIds == []
  }

  lemma LandingFaultless(l: Landing)
    ensures LandingChecked(l) <==> forall f :: !HasLandingFault(l, f)
  {
    CodecFaultless(l);
    PortFaultless(l);
    if forall f :: !HasLandingFault(l, f) {
      assert !HasLandingFault(l, NoColumns) && !HasLandingFault(l, ColumnTwice) && !HasLandingFault(l, EncodingTwice);
    }
    if LandingChecked(l) {
      forall f
        ensures !HasLandingFault(l, f)
      {
        match f {
          case NoColumns => case ColumnTwice => case EncodingTwice => case SeparatorLength => case SeparatorsEqual =>
          case NullTokenTwice => case ReservedTaken => case ReservedTwice => case TrustKeyTwice => case NoTrustKey =>
        }
      }
    }
  }

  lemma CodecFaultless(l: Landing)
    ensures CodecChecked(l.codec)
            <==> !HasLandingFault(l, SeparatorLength) && !HasLandingFault(l, SeparatorsEqual)
                 && !HasLandingFault(l, NullTokenTwice)
  {
    if l.codec.Csv? {
      var s := [l.codec.delimiter, l.codec.quote, l.codec.escape];
      assert s[0] == l.codec.delimiter && s[1] == l.codec.quote && s[2] == l.codec.escape;
    }
  }

  lemma PortFaultless(l: Landing)
    ensures IntegrationChecked(l.integration, l.physicalColumns)
            <==> !HasLandingFault(l, ReservedTaken) && !HasLandingFault(l, ReservedTwice)
                 && !HasLandingFault(l, TrustKeyTwice) && !HasLandingFault(l, NoTrustKey)
  {}

  // ---------------------------------------------------------------- references to columns

  /** The scalar is of the column's type. */
  predicate OfType(v: TypedScalar, t: LogicalType) {
    match t
    case Binary => v.TypedBinary?
    case Boolean => v.TypedBoolean?
    case Date => v.TypedDate?
    case Int64 => v.TypedInt64?
    case UtcInstant => v.TypedUtcInstant?
    case Utf8String => v.TypedString?
    case DecimalType(_, _) => v.TypedDecimal?
    case LocalDateTimeType(_) => v.TypedLocalDateTime?
  }

  lemma KindsAgree(v: TypedScalar, t: LogicalType)
    ensures ScalarKind(v) == TypeKind(t) <==> OfType(v, t)
  {}

  /** The delivery policy reads a column of this name. */
  predicate NamesColumn(d: Delivery, name: string) {
    || name == d.timestamps.loadField || d.timestamps.eventField == Some(name)
    || d.timestamps.effectiveField == Some(name) || (d.progress.Sequence? && name == d.progress.field)
    || name in d.recordKey.fields || (d.tombstone.Some? && name == d.tombstone.value.field)
    || exists i | 0 <= i < |d.quality.rules| :: RuleNamesColumn(d.quality.rules[i].body, name)
  }

  predicate RuleNamesColumn(body: RuleBody, name: string) {
    match body
    case NotNull(field) => name == field
    case UniqueKey(fields) => name in fields
    case AcceptedValues(field, _, _) => name == field
    case Range(field, _, _, _) => name == field
    case RowCount(_, _) => false
  }

  /** The delivery policy compares the scalar with a column of this name. */
  predicate ComparesScalar(d: Delivery, name: string, v: TypedScalar) {
    || (d.tombstone.Some? && name == d.tombstone.value.field && v in d.tombstone.value.values)
    || exists i | 0 <= i < |d.quality.rules| :: RuleCompares(d.quality.rules[i].body, name, v)
  }

  predicate RuleCompares(body: RuleBody, name: string, v: TypedScalar) {
    || (body.AcceptedValues? && name == body.field && v in body.values)
    || (body.Range? && name == body.field && (body.min == Some(v) || body.max == Some(v)))
  }

  ghost predicate UnknownColumn(columns: seq<SourceField>, d: Delivery, name: string) {
    NamesColumn(d, name) && !HasColumn(columns, name)
  }

  ghost predicate Mistyped(columns: seq<SourceField>, d: Delivery, name: string, v: TypedScalar) {
    ComparesScalar(d, name, v) && WrongType(columns, name, v)
  }

  ghost predicate WrongType(columns: seq<SourceField>, name: string, v: TypedScalar) {
    exists i | 0 <= i < |columns| :: columns[i].name == name && !OfType(v, columns[i].logicalType)
  }

  lemma TypedExactly(columns: seq<SourceField>, name: string, values: seq<TypedScalar>)
    ensures Typed(columns, name, values) <==> forall v | v in values :: !WrongType(columns, name, v)
  {
    forall i, j | 0 <= i < |columns| && 0 <= j < |values|
      ensures ScalarKind(values[j]) == TypeKind(columns[i].logicalType) <==> OfType(values[j], columns[i].logicalType)
    {
      KindsAgree(values[j], columns[i].logicalType);
    }
    if forall v | v in values :: !WrongType(columns, name, v) {
      forall i, j | 0 <= i < |columns| && columns[i].name == name && 0 <= j < |values|
        ensures ScalarKind(values[j]) == TypeKind(columns[i].logicalType)
      {
        assert values[j] in values;
      }
    }
  }

  ghost predicate RuleFits(columns: seq<SourceField>, body: RuleBody) {
    && (forall name | RuleNamesColumn(body, name) :: HasColumn(columns, name))
    && forall name, v | RuleCompares(body, name, v) :: !WrongType(columns, name, v)
  }

  lemma RuleResolvesExactly(columns: seq<SourceField>, body: RuleBody)
    ensures RuleResolves(columns, body) <==> RuleFits(columns, body)
  {
    match body {
      case NotNull(field) => assert RuleNamesColumn(body, field);
      case UniqueKey(fields) => assert forall i | 0 <= i < |fields| :: RuleNamesColumn(body, fields[i]);
      case AcceptedValues(field, values, _) =>
        assert RuleNamesColumn(body, field);
        TypedExactly(columns, field, values);
        assert forall v | v in values :: RuleCompares(body, field, v);
      case Range(field, min, max, _) =>
        assert RuleNamesColumn(body, field);
        TypedExactly(columns, field, Bounds(min, max));
        assert forall v :: v in Bounds(min, max) <==> min == Some(v) || max == Some(v);
        assert forall v | v in Bounds(min, max) :: RuleCompares(body, field, v);
      case RowCount(_, _) =>
    }
  }

  ghost predicate PolicyFits(columns: seq<SourceField>, d: Delivery) {
    && (forall name :: !UnknownColumn(columns, d, name)) && (forall name, v :: !Mistyped(columns, d, name, v))
  }

  lemma ReferencesFaultless(columns: seq<SourceField>, d: Delivery)
    ensures FieldsResolve(columns, d) <==> PolicyFits(columns, d)
  {
    forall i | 0 <= i < |d.quality.rules|
      ensures RuleResolves(columns, d.quality.rules[i].body) <==> RuleFits(columns, d.quality.rules[i].body)
    {
      RuleResolvesExactly(columns, d.quality.rules[i].body);
    }
    if d.tombstone.Some? { TypedExactly(columns, d.tombstone.value.field, d.tombstone.value.values); }
    if PolicyFits(columns, d) { FitsResolve(columns, d); }
  }

  lemma FitsResolve(columns: seq<SourceField>, d: Delivery)
    requires PolicyFits(columns, d)
    requires forall i | 0 <= i < |d.quality.rules| ::
               RuleResolves(columns, d.quality.rules[i].body) <==> RuleFits(columns, d.quality.rules[i].body)
    ensures FieldsResolve(columns, d)
  {
    forall name | NamesColumn(d, name)
      ensures HasColumn(columns, name)
    {
      assert !UnknownColumn(columns, d, name);
    }
    assert NamesColumn(d, d.timestamps.loadField);
    assert forall i | 0 <= i < |d.recordKey.fields| :: NamesColumn(d, d.recordKey.fields[i]);
    forall i | 0 <= i < |d.quality.rules|
      ensures RuleFits(columns, d.quality.rules[i].body)
    {
      var body := d.quality.rules[i].body;
      assert forall name | RuleNamesColumn(body, name) :: NamesColumn(d, name);
      forall name, v | RuleCompares(body, name, v)
        ensures !WrongType(columns, name, v)
      {
        assert !Mistyped(columns, d, name, v);
      }
    }
    if d.tombstone.Some? {
      var field, values := d.tombstone.value.field, d.tombstone.value.values;
      assert NamesColumn(d, field);
      forall v | v in values
        ensures !WrongType(columns, field, v)
      {
        assert !Mistyped(columns, d, field, v);
      }
      TypedExactly(columns, field, values);
    }
  }

  // ---------------------------------------------------------------- projection and interfaces

  datatype ProjectionFault = NothingPublished | PublishedTwice | SourceUnknown(i: nat) | TypeChanged(i: nat)
                           | MadeRequired(i: nat)

  /** One type token, whatever its parameters. */
  predicate SameToken(t: LogicalType, u: LogicalType) {
    t == u || (t.DecimalType? && u.DecimalType?) || (t.LocalDateTimeType? && u.LocalDateTimeType?)
  }

  predicate HasProjectionFault(columns: seq<SourceField>, projection: seq<ProjectionField>, f: ProjectionFault) {
    match f
    case NothingPublished => projection == []
    case PublishedTwice => exists i, j :: 0 <= i < j < |projection| && projection[i].name == projection[j].name
    case SourceUnknown(i) =>
      i < |projection| && forall k | 0 <= k < |columns| :: columns[k].name != projection[i].source
    case TypeChanged(i) =>
      i < |projection| && exists k | 0 <= k < |columns| ::
        columns[k].name == projection[i].source && !SameToken(columns[k].logicalType, projection[i].logicalType)
    case MadeRequired(i) =>
      i < |projection| && exists k | 0 <= k < |columns| ::
        columns[k].name == projection[i].source && columns[k].nullable && !projection[i].nullable
  }

  lemma TokensAgree(t: LogicalType, u: LogicalType)
    ensures TypeKind(t) == TypeKind(u) <==> SameToken(t, u)
  {}

  lemma PublishesExactly(columns: seq<SourceField>, projection: seq<ProjectionField>, i: nat)
    requires i < |projection| && DistinctColumns(columns)
    ensures PublishesColumn(columns, projection[i])
            <==> && !HasProjectionFault(columns, projection, SourceUnknown(i))
                 && !HasProjectionFault(columns, projection, TypeChanged(i))
                 && !HasProjectionFault(columns, projection, MadeRequired(i))
  {
    forall k | 0 <= k < |columns|
      ensures TypeKind(columns[k].logicalType) == TypeKind(projection[i].logicalType)
              <==> SameToken(columns[k].logicalType, projection[i].logicalType)
    {
      TokensAgree(columns[k].logicalType, projection[i].logicalType);
    }
  }

  lemma ProjectionFaultless(columns: seq<SourceField>, projection: seq<ProjectionField>)
    requires DistinctColumns(columns)
    ensures ProjectionChecked(columns, projection) <==> forall f :: !HasProjectionFault(columns, projection, f)
  {
    forall i | 0 <= i < |projection|
      ensures PublishesColumn(columns, projection[i])
              <==> && !HasProjectionFault(columns, projection, SourceUnknown(i))
                   && !HasProjectionFault(columns, projection, TypeChanged(i))
                   && !HasProjectionFault(columns, projection, MadeRequired(i))
    {
      PublishesExactly(columns, projection, i);
    }
    if forall f :: !HasProjectionFault(columns, projection, f) {
      assert !HasProjectionFault(columns, projection, NothingPublished);
      assert !HasProjectionFault(columns, projection, PublishedTwice);
    }
  }

  /** The interfaces carry the source and table, underscores written as hyphens. */
  predicate InterfacesNamed(c: Contract, source: string, table: string) {
    && c.interfaces.raw == "landing-" + source + "-" + table + "-raw"
    && c.interfaces.sourceNative == "landing-" + source + "-" + table + "-source-native"
    && c.interfaces.published == "landing-" + source + "-" + table + "-published"
    && c.interfaces.quarantine == "landing-" + source + "-" + table + "-quarantine"
    && c.interfaces.deletionEvidence == "landing-" + source + "-" + table + "-deletion-evidence"
  }

  predicate Hyphenated(s: string, t: string) {
    |s| == |t| && forall i | 0 <= i < |s| :: t[i] == if s[i] == '_' then '-' else s[i]
  }

  lemma {:induction false} TokenSafeExactly(s: string, t: string)
    ensures TokenSafe(s) == t <==> Hyphenated(s, t)
  {
    if s != [] && t != [] {
      TokenSafeExactly(s[1..], t[1..]);
      assert t == [t[0]] + t[1..];
      assert Hyphenated(s, t) ==> Hyphenated(s[1..], t[1..]);
      if Hyphenated(s[1..], t[1..]) {
        assert forall i | 1 <= i < |s| :: s[i] == s[1..][i - 1] && t[i] == t[1..][i - 1];
      }
    }
  }

  ghost predicate InterfacesDerived(c: Contract) {
    exists source, table :: Hyphenated(c.identity.source, source) && Hyphenated(c.identity.table, table)
                            && InterfacesNamed(c, source, table)
  }

  lemma InterfacesExactly(c: Contract)
    ensures c.interfaces == DerivedInterfaces(c.identity.source, c.identity.table) <==> InterfacesDerived(c)
  {
    var source, table := TokenSafe(c.identity.source), TokenSafe(c.identity.table);
    TokenSafeExactly(c.identity.source, source);
    TokenSafeExactly(c.identity.table, table);
    if a, b :| Hyphenated(c.identity.source, a) && Hyphenated(c.identity.table, b) && InterfacesNamed(c, a, b) {
      TokenSafeExactly(c.identity.source, a);
      TokenSafeExactly(c.identity.table, b);
    }
    var base := "landing-" + source + "-" + table;
    assert InterfacesNamed(c, source, table)
           <==> c.interfaces == DerivedInterfaces(c.identity.source, c.identity.table);
  }

  lemma {:induction false} TokenSafeJoined(a: string, b: string)
    ensures TokenSafe(a + b) == TokenSafe(a) + TokenSafe(b)
  {
    if a == [] {
      assert a + b == b;
    } else {
      TokenSafeJoined(a[1..], b);
      assert a + b == [a[0]] + (a[1..] + b);
    }
  }

  /** Hyphenation keeps distinct identifiers distinct. */
  lemma IdentifiersStayDistinct(a: string, b: string)
    requires '-' !in a && '-' !in b
    ensures TokenSafe(a) == TokenSafe(b) <==> a == b
  {
    TokenSafeExactly(a, TokenSafe(a));
    TokenSafeExactly(b, TokenSafe(b));
    if TokenSafe(a) == TokenSafe(b) {
      forall i | 0 <= i < |a|
        ensures a[i] == b[i]
      {
        assert a[i] in a && b[i] in b && TokenSafe(a)[i] == TokenSafe(b)[i];
      }
    }
  }

  /** The interface names of two tables are the same exactly when source, underscore and table are one text. */
  lemma InterfacesCollideExactly(a: LogicalIdentity, b: LogicalIdentity)
    requires IdentityOnWire(a) && IdentityOnWire(b)
    ensures DerivedInterfaces(a.source, a.table) == DerivedInterfaces(b.source, b.table)
            <==> a.source + "_" + a.table == b.source + "_" + b.table
  {
    var s, t := a.source + "_" + a.table, b.source + "_" + b.table;
    JoinedNames(a.source, a.table);
    JoinedNames(b.source, b.table);
    IdentifiersStayDistinct(s, t);
    var raw, other := DerivedInterfaces(a.source, a.table).raw, DerivedInterfaces(b.source, b.table).raw;
    if raw == other {
      assert |raw| == |other|;
      assert TokenSafe(s) == raw[8..|raw| - 4] && TokenSafe(t) == other[8..|other| - 4];
    }
  }

  lemma JoinedNames(source: string, table: string)
    requires IsIdentifier(source) && IsIdentifier(table)
    ensures '-' !in source + "_" + table
    ensures "landing-" + TokenSafe(source) + "-" + TokenSafe(table) == "landing-" + TokenSafe(source + "_" + table)
  {
    TokenSafeJoined(source + "_", table);
    TokenSafeJoined(source, "_");
    assert TokenSafe("_") == "-";
  }

  /** Two tables of one estate, of different sources, with the same interface names. */
  lemma InterfacesCollide(estate: string) returns (a: LogicalIdentity, b: LogicalIdentity)
    requires IsEstateNamespace(estate)
    ensures IdentityOnWire(a) && IdentityOnWire(b) && a != b
    ensures DerivedInterfaces(a.source, a.table) == DerivedInterfaces(b.source, b.table)
  {
    a, b := LogicalIdentity(estate, "a", "b_c"), LogicalIdentity(estate, "a_b", "c");
    InterfacesCollideExactly(a, b);
    assert a.source != b.source;
  }

  // ---------------------------------------------------------------- the whole contract

  ghost predicate Faultless(enc: Encoding, libraries: Libraries, c: Contract) {
    && (forall f :: !HasPolicyFault(libraries, c.delivery, f))
    && (forall f :: !HasRuleFault(enc, libraries, c.delivery.quality.rules, f))
    && (forall f :: !HasLandingFault(c.landing, f))
    && PolicyFits(c.landing.physicalColumns, c.delivery)
    && (forall f :: !HasProjectionFault(c.landing.physicalColumns, c.projection, f))
    && InterfacesDerived(c)
  }

  /** Validation finds nothing exactly when the contract has none of the faults. */
  lemma CheckedExactly(enc: Encoding, libraries: Libraries, c: Contract)
    ensures Checked(enc, libraries, c) <==> Faultless(enc, libraries, c)
  {
    PolicyFaultless(libraries, c.delivery);
    RulesFaultless(enc, libraries, c.delivery.quality.rules);
    LandingFaultless(c.landing);
    ReferencesFaultless(c.landing.physicalColumns, c.delivery);
    InterfacesExactly(c);
    DeliveryParts(enc, libraries, c.delivery);
    if DistinctColumns(c.landing.physicalColumns) {
      ProjectionFaultless(c.landing.physicalColumns, c.projection);
    } else {
      assert HasLandingFault(c.landing, ColumnTwice);
    }
  }

  lemma DeliveryParts(enc: Encoding, libraries: Libraries, d: Delivery)
    ensures DeliveryChecked(enc, libraries, d)
            <==> PolicyChecked(libraries, d) && RulesChecked(enc, libraries, d.quality.rules)
  {}
}

/**
  Which contracts the ingestion side accepts: the wire patterns of their texts
  (ergasterion/framework/landing_contract.py:81-135) and the checks of `validate_contract`
  (ergasterion/source_delivery.py:540-862).
*/
module Acceptance {
  import opened Basics
  import opened Text
  import opened LandingContract
  import opened Canonical
  import Cron

  /**
    What libraries decide: the zone names the zone database knows, and the order of two scalars
    of one logical type.
  */
  datatype Libraries = Libraries(zone: string -> bool, atMost: (TypedScalar, TypedScalar) -> bool)

  // ---------------------------------------------------------------- wire patterns

  /** Whole numbers on the wire are ones a JSON number holds exactly. */
  const SAFE_INTEGER: nat := 9007199254740991

  predicate IsLower(c: char) { 'a' <= c <= 'z' }

  predicate TokenTail(s: string) {
    forall i | 0 <= i < |s| :: IsLower(s[i]) || IsDigit(s[i]) || s[i] in "._:-"
  }

  predicate IsToken(s: string) {
    1 <= |s| <= 127 && IsLower(s[0]) && TokenTail(s)
  }

  predicate IsLabel(s: string) {
    && 1 <= |s| <= 63 && s[0] != '-' && s[|s| - 1] != '-'
    && forall i | 0 <= i < |s| :: IsLower(s[i]) || IsDigit(s[i]) || s[i] == '-'
  }

  predicate IsEstateNamespace(s: string) {
    var labels := Split(s, '.');
    3 <= |s| <= 253 && |labels| >= 2 && forall i | 0 <= i < |labels| :: IsLabel(labels[i])
  }

  predicate IsPhysicalIdentifier(s: string) {
    s != [] && forall i | 0 <= i < |s| :: s[i] !in ".\r\n"
  }

  predicate VersionChars(s: string) {
    s != [] && forall i | 0 <= i < |s| :: IsLower(s[i]) || 'A' <= s[i] <= 'Z' || IsDigit(s[i]) || s[i] in ".-"
  }

  /** What may follow a version core: a pre-release after a hyphen, then build metadata after a plus. */
  predicate IsVersionSuffix(s: string) {
    var plus := IndexOf(s, '+');
    && (plus > 0 ==> s[0] == '-' && VersionChars(s[1..plus]))
    && (plus < |s| ==> VersionChars(s[plus + 1..]))
  }

  /** `0000-00-00T00:00:00.000000Z` with any digits. */
  predicate IsUtcInstant(s: string) {
    |s| == 27 && forall i | 0 <= i < 27 :: InstantChar(s[i], i)
  }

  predicate InstantChar(c: char, i: nat) {
    if i in {4, 7} then c == '-' else if i == 10 then c == 'T' else if i in {13, 16} then c == ':'
    else if i == 19 then c == '.' else if i == 26 then c == 'Z' else IsDigit(c)
  }

  predicate IsDate(s: string) {
    |s| == 10 && forall i | 0 <= i < 10 :: InstantChar(s[i], i)
  }

  /** A whole number without leading zeros. */
  predicate IsCount(s: string) {
    IsNumeral(s) && (|s| > 1 ==> s[0] != '0')
  }

  predicate IsInteger(s: string) {
    IsCount(s) || (s != [] && s[0] == '-' && IsCount(s[1..]) && s[1..] != "0")
  }

  predicate IsDecimal(s: string) {
    var unsigned := if s != [] && s[0] == '-' then s[1..] else s;
    var point := IndexOf(unsigned, '.');
    IsCount(unsigned[..point]) && (point < |unsigned| ==> IsNumeral(unsigned[point + 1..]))
  }

  predicate IsBase64Url(s: string) {
    forall i | 0 <= i < |s| :: IsLower(s[i]) || 'A' <= s[i] <= 'Z' || IsDigit(s[i]) || s[i] in "_-"
  }

  predicate ScalarOnWire(v: TypedScalar) {
    match v
    case TypedBinary(base64) => IsBase64Url(base64)
    case TypedDate(date) => IsDate(date)
    case TypedDecimal(unscaled, scale) => IsInteger(unscaled) && scale <= SAFE_INTEGER
    case TypedInt64(digits) => IsInteger(digits)
    case TypedUtcInstant(instant) => IsUtcInstant(instant)
    case _ => true
  }

  predicate ScalarsOnWire(values: seq<TypedScalar>) {
    forall i | 0 <= i < |values| :: ScalarOnWire(values[i])
  }

  predicate Tokens(texts: seq<string>) {
    forall i | 0 <= i < |texts| :: IsToken(texts[i])
  }

  predicate Identifiers(texts: seq<string>) {
    forall i | 0 <= i < |texts| :: IsIdentifier(texts[i])
  }

  predicate IdentityOnWire(i: LogicalIdentity) {
    IsEstateNamespace(i.estateNamespace) && IsIdentifier(i.source) && IsIdentifier(i.table)
  }

  predicate FactsOnWire(f: ProductFacts) {
    && IsVersionSuffix(f.version.suffix)
    && IsToken(f.owner) && IsToken(f.domain) && IsToken(f.support) && IsToken(f.classification)
    && IsToken(f.accessPolicyRef) && IsToken(f.retentionPolicyRef)
  }

  predicate IntegrationOnWire(i: Integration) {
    match i
    case Managed => true
    case External(r, trust) =>
      && Identifiers([r.deliveryIdColumn, r.visibilityEpochColumn, r.visibilityKindColumn, r.visibilityIdColumn])
      && Identifiers([r.rawReferenceField, r.candidateReferenceField, r.frameIndexReferenceField])
      && IsToken(trust.policyRef) && Tokens(trust.allowedKeyIds) && trust.futureClockSkewSeconds <= SAFE_INTEGER
  }

  predicate TypeOnWire(t: LogicalType) {
    t.DecimalType? ==> 1 <= t.precision <= SAFE_INTEGER && t.scale <= SAFE_INTEGER
  }

  predicate ColumnsOnWire(columns: seq<SourceField>) {
    forall i | 0 <= i < |columns| ::
      && IsIdentifier(columns[i].name) && TypeOnWire(columns[i].logicalType)
      && (columns[i].physicalName.Some? ==> IsPhysicalIdentifier(columns[i].physicalName.value))
  }

  predicate LandingOnWire(l: Landing) {
    && IsIdentifier(l.sourceName) && IsIdentifier(l.identifier) && IntegrationOnWire(l.integration)
    && ColumnsOnWire(l.physicalColumns) && (l.physicalName.Some? ==> IsPhysicalIdentifier(l.physicalName.value))
  }

  predicate ProjectionOnWire(projection: seq<ProjectionField>) {
    forall i | 0 <= i < |projection| ::
      IsIdentifier(projection[i].source) && IsIdentifier(projection[i].name) && TypeOnWire(projection[i].logicalType)
  }

  predicate InterfacesOnWire(i: Interfaces) {
    && IsToken(i.raw) && IsToken(i.sourceNative) && IsToken(i.published) && IsToken(i.quarantine)
    && IsToken(i.deletionEvidence)
  }

  predicate OptionalIdentifier(name: Option<string>) {
    name.Some? ==> IsIdentifier(name.value)
  }

  predicate ScheduleOnWire(s: Schedule) {
    match s
    case IntervalSchedule(everyMinutes, anchorAt) => 1 <= everyMinutes <= SAFE_INTEGER && IsUtcInstant(anchorAt)
    case CronSchedule(_, _, startsAt) => IsUtcInstant(startsAt)
  }

  predicate SlaOnWire(s: Sla) {
    s.warnAfterMinutes <= SAFE_INTEGER && 1 <= s.errorAfterMinutes <= SAFE_INTEGER
  }

  predicate KeyOnWire(k: RecordKey) {
    && Identifiers(k.fields) && (k.hmacKeyId.Some? ==> IsToken(k.hmacKeyId.value))
    && (k.fingerprintScope.Some? ==> IsToken(k.fingerprintScope.value.scopeId)
                                     && forall name | name in k.fingerprintScope.value.scopeParameters ::
                                          ScalarOnWire(k.fingerprintScope.value.scopeParameters[name]))
  }

  predicate SnapshotOnWire(s: Snapshot) {
    && IsToken(s.scopeId) && IsToken(s.attestationPolicyRef) && Tokens(s.allowedKeyIds)
    && s.futureClockSkewSeconds <= SAFE_INTEGER
    && forall name | name in s.scopeParameters :: ScalarOnWire(s.scopeParameters[name])
  }

  predicate RuleOnWire(body: RuleBody) {
    match body
    case NotNull(field) => IsIdentifier(field)
    case UniqueKey(fields) => Identifiers(fields)
    case AcceptedValues(field, values, _) => IsIdentifier(field) && ScalarsOnWire(values)
    case Range(field, min, max, _) =>
      IsIdentifier(field) && (min.Some? ==> ScalarOnWire(min.value)) && (max.Some? ==> ScalarOnWire(max.value))
    case RowCount(minRows, maxRows) =>
      (minRows.Some? ==> IsCount(minRows.value)) && (maxRows.Some? ==> IsCount(maxRows.value))
  }

  predicate DeliveryOnWire(d: Delivery) {
    && (d.progress.Sequence? ==> IsIdentifier(d.progress.field))
    && ScheduleOnWire(d.schedule) && SlaOnWire(d.scheduleLateness)
    && (d.maximumAge.Some? ==> SlaOnWire(d.maximumAge.value))
    && IsIdentifier(d.timestamps.loadField) && OptionalIdentifier(d.timestamps.eventField)
    && OptionalIdentifier(d.timestamps.effectiveField)
    && KeyOnWire(d.recordKey)
    && (d.tombstone.Some? ==> IsIdentifier(d.tombstone.value.field) && ScalarsOnWire(d.tombstone.value.values))
    && (d.snapshot.Some? ==> SnapshotOnWire(d.snapshot.value))
    && IsDecimal(d.quality.maxErrorFraction)
    && (forall i | 0 <= i < |d.quality.rules| :: RuleOnWire(d.quality.rules[i].body))
    && 1 <= d.retry.maxAttempts <= SAFE_INTEGER
    && 1 <= d.retry.baseSeconds <= SAFE_INTEGER && 1 <= d.retry.capSeconds <= SAFE_INTEGER
  }

  /** Every text and number of the contract is one its record admits. */
  predicate OnWire(c: Contract) {
    && IdentityOnWire(c.identity) && FactsOnWire(c.product) && LandingOnWire(c.landing)
    && DeliveryOnWire(c.delivery) && ProjectionOnWire(c.projection) && InterfacesOnWire(c.interfaces)
  }

  // ---------------------------------------------------------------- the delivery policy

  /** Progress, delete strategy and timestamps a mode admits. */
  predicate ModeChecked(d: Delivery) {
    match d.mode
    case Cdc => d.progress.Sequence? && d.deleteStrategy != SnapshotDiff && d.timestamps.eventField.Some?
    case AppendOnly => d.deleteStrategy == NoDelete
    case CompleteSnapshot =>
      d.progress.OpaqueBatch? && d.deleteStrategy == SnapshotDiff && d.timestamps.effectiveField.Some?
  }

  /** The blocks, the fingerprint and the one scope a delete strategy asks for. */
  predicate DeletesChecked(d: Delivery) {
    var k := d.recordKey;
    && (d.tombstone.Some? <==> d.deleteStrategy == ExplicitTombstone)
    && (d.snapshot.Some? <==> d.deleteStrategy == SnapshotDiff)
    && (if d.deleteStrategy == NoDelete then k.fingerprintScope.None? && k.hmacKeyId.None?
        else k.fingerprintScope.Some? && k.hmacKeyId.Some?)
    && (d.snapshot.Some? && k.fingerprintScope.Some? ==>
          k.fingerprintScope.value == FingerprintScope(d.snapshot.value.scopeId, d.snapshot.value.scopeParameters))
  }

  /** What a cron expression allows, where all five of its fields are accepted. */
  function ExpressionRead(expression: string): Option<Cron.ParsedCron> {
    var fields := Words(expression);
    if Cron.FieldsAccepted(fields) then Some(Cron.ParsedFields(fields)) else None
  }

  predicate ScheduleChecked(libraries: Libraries, s: Schedule) {
    s.CronSchedule? ==> ExpressionRead(s.expression).Some? && libraries.zone(s.timezone)
  }

  predicate SlaChecked(s: Sla) { s.warnAfterMinutes < s.errorAfterMinutes }

  predicate PublicationChecked(d: Delivery) {
    if d.quality.publicationMode == PublishValidRows then d.mode == AppendOnly && d.progress.OpaqueBatch?
    else d.quality.maxErrorFraction == "0"
  }

  datatype Kind = KBinary | KBoolean | KDate | KDecimal | KInt64 | KLocalDateTime | KString | KUtcInstant

  function TypeKind(t: LogicalType): Kind {
    match t
    case Binary => KBinary
    case Boolean => KBoolean
    case Date => KDate
    case Int64 => KInt64
    case UtcInstant => KUtcInstant
    case Utf8String => KString
    case DecimalType(_, _) => KDecimal
    case LocalDateTimeType(_) => KLocalDateTime
  }

  function ScalarKind(v: TypedScalar): Kind {
    match v
    case TypedBinary(_) => KBinary
    case TypedBoolean(_) => KBoolean
    case TypedDate(_) => KDate
    case TypedDecimal(_, _) => KDecimal
    case TypedInt64(_) => KInt64
    case TypedLocalDateTime(_, _) => KLocalDateTime
    case TypedString(_) => KString
    case TypedUtcInstant(_) => KUtcInstant
  }

  function Rows(count: string): nat {
    if IsNumeral(count) then NumeralValue(count) else 0
  }

  predicate RuleChecked(libraries: Libraries, body: RuleBody) {
    match body
    case NotNull(_) => true
    case UniqueKey(fields) => Distinct(fields)
    case AcceptedValues(_, values, _) => values != []
    case Range(_, min, max, _) =>
      && (min.Some? || max.Some?)
      && (min.Some? && max.Some? ==>
            ScalarKind(min.value) == ScalarKind(max.value) && libraries.atMost(min.value, max.value))
    case RowCount(minRows, maxRows) =>
      && (minRows.Some? || maxRows.Some?)
      && (minRows.Some? && maxRows.Some? ==> Rows(minRows.value) <= Rows(maxRows.value))
  }

  /** No two rules share an identity, none repeats an accepted value, and each is closed. */
  predicate RulesChecked(enc: Encoding, libraries: Libraries, rules: seq<Rule>) {
    && RuleSetsDeclared(enc, rules) && DeclaredSet(Map(NormaliseRule(enc), rules), RuleKey(enc))
    && forall i | 0 <= i < |rules| :: RuleChecked(libraries, rules[i].body)
  }

  /** `validate_delivery_policy` finds nothing. */
  predicate DeliveryChecked(enc: Encoding, libraries: Libraries, d: Delivery) {
    && ModeChecked(d) && DeletesChecked(d) && d.recordKey.fields != [] && Distinct(d.recordKey.fields)
    && PublicationChecked(d) && SlaChecked(d.scheduleLateness)
    && (d.maximumAge.Some? ==> SlaChecked(d.maximumAge.value))
    && d.retry.baseSeconds <= d.retry.capSeconds
    && ScheduleChecked(libraries, d.schedule) && RulesChecked(enc, libraries, d.quality.rules)
  }

  // ---------------------------------------------------------------- landing and projection

  predicate CodecChecked(codec: Codec) {
    codec.Csv? ==>
      && |codec.delimiter| == |codec.quote| == |codec.escape| == 1
      && Distinct([codec.delimiter, codec.quote, codec.escape]) && Distinct(codec.nullTokens)
  }

  predicate HasColumn(columns: seq<SourceField>, name: string) {
    exists i | 0 <= i < |columns| :: columns[i].name == name
  }

  predicate HasColumns(columns: seq<SourceField>, names: seq<string>) {
    forall i | 0 <= i < |names| :: HasColumn(columns, names[i])
  }

  predicate OptionalColumn(columns: seq<SourceField>, name: Option<string>) {
    name.Some? ==> HasColumn(columns, name.value)
  }

  predicate DistinctColumns(columns: seq<SourceField>) {
    forall i, j | 0 <= i < j < |columns| :: columns[i].name != columns[j].name
  }

  predicate DistinctEntries(projection: seq<ProjectionField>) {
    forall i, j | 0 <= i < j < |projection| :: projection[i].name != projection[j].name
  }

  predicate IntegrationChecked(i: Integration, columns: seq<SourceField>) {
    match i
    case Managed => true
    case External(r, trust) =>
      var added := [r.deliveryIdColumn, r.visibilityEpochColumn, r.visibilityKindColumn, r.visibilityIdColumn];
      && Distinct(added) && (forall k | 0 <= k < |added| :: !HasColumn(columns, added[k]))
      && trust.allowedKeyIds != [] && Distinct(trust.allowedKeyIds)
  }

  predicate LandingChecked(l: Landing) {
    && l.physicalColumns != [] && DistinctColumns(l.physicalColumns) && Distinct(l.contentEncodings)
    && CodecChecked(l.codec) && IntegrationChecked(l.integration, l.physicalColumns)
  }

  /** The scalars are of the type of the column they speak of. */
  predicate Typed(columns: seq<SourceField>, name: string, values: seq<TypedScalar>) {
    forall i, j | 0 <= i < |columns| && columns[i].name == name && 0 <= j < |values| ::
      ScalarKind(values[j]) == TypeKind(columns[i].logicalType)
  }

  function Bounds(min: Option<TypedScalar>, max: Option<TypedScalar>): seq<TypedScalar> {
    (if min.Some? then [min.value] else []) + (if max.Some? then [max.value] else [])
  }

  predicate RuleResolves(columns: seq<SourceField>, body: RuleBody) {
    match body
    case NotNull(field) => HasColumn(columns, field)
    case UniqueKey(fields) => HasColumns(columns, fields)
    case AcceptedValues(field, values, _) => HasColumn(columns, field) && Typed(columns, field, values)
    case Range(field, min, max, _) => HasColumn(columns, field) && Typed(columns, field, Bounds(min, max))
    case RowCount(_, _) => true
  }

  /** Every field the delivery policy names is a declared column of the type it is used with. */
  predicate FieldsResolve(columns: seq<SourceField>, d: Delivery) {
    && HasColumn(columns, d.timestamps.loadField) && OptionalColumn(columns, d.timestamps.eventField)
    && OptionalColumn(columns, d.timestamps.effectiveField)
    && (d.progress.Sequence? ==> HasColumn(columns, d.progress.field))
    && HasColumns(columns, d.recordKey.fields)
    && (d.tombstone.Some? ==>
          && HasColumn(columns, d.tombstone.value.field)
          && Typed(columns, d.tombstone.value.field, d.tombstone.value.values))
    && forall i | 0 <= i < |d.quality.rules| :: RuleResolves(columns, d.quality.rules[i].body)
  }

  /** The published field passes a declared column through unchanged. */
  predicate PublishesColumn(columns: seq<SourceField>, entry: ProjectionField) {
    exists i | 0 <= i < |columns| ::
      && columns[i].name == entry.source && TypeKind(columns[i].logicalType) == TypeKind(entry.logicalType)
      && (columns[i].nullable ==> entry.nullable)
  }

  predicate ProjectionChecked(columns: seq<SourceField>, projection: seq<ProjectionField>) {
    && projection != [] && DistinctEntries(projection)
    && forall i | 0 <= i < |projection| :: PublishesColumn(columns, projection[i])
  }

  /** Underscores of an identifier become hyphens in a token. */
  function TokenSafe(s: string): string {
    if s == [] then [] else [if s[0] == '_' then '-' else s[0]] + TokenSafe(s[1..])
  }

  function DerivedInterfaces(source: string, table: string): Interfaces {
    var base := "landing-" + TokenSafe(source) + "-" + TokenSafe(table);
    Interfaces(base + "-raw", base + "-source-native", base + "-published", base + "-quarantine",
               base + "-deletion-evidence")
  }

  /** `validate_contract` finds nothing. */
  predicate Checked(enc: Encoding, libraries: Libraries, c: Contract) {
    && DeliveryChecked(enc, libraries, c.delivery) && LandingChecked(c.landing)
    && FieldsResolve(c.landing.physicalColumns, c.delivery)
    && ProjectionChecked(c.landing.physicalColumns, c.projection)
    && c.interfaces == DerivedInterfaces(c.identity.source, c.identity.table)
  }

  datatype Refusal = Unreadable | Invalid

  /** Why a contract is turned away: it cannot be received, or validation finds something. */
  function RefusalOf(enc: Encoding, libraries: Libraries, c: Contract): Option<Refusal> {
    if !OnWire(c) then Some(Unreadable)
    else if !Checked(enc, libraries, c) then Some(Invalid)
    else None
  }

  /** A contract that can be received and passes validation. */
  predicate Admitted(enc: Encoding, libraries: Libraries, c: Contract) {
    RefusalOf(enc, libraries, c).None?
  }

  // ---------------------------------------------------------------- what acceptance guarantees

  predicate NoRepeatedTombstone(d: Delivery) {
    d.tombstone.Some? ==> Distinct(d.tombstone.value.values)
  }

  predicate NoRepeatedSnapshotKey(d: Delivery) {
    d.snapshot.Some? ==> Distinct(d.snapshot.value.allowedKeyIds)
  }

  /**
    What is accepted has the uniqueness canonicalisation sorts by. It has a canonical document,
    and so a digest, exactly when neither its tombstone values nor its snapshot key ids repeat,
    which no check looks at.
  */
  lemma AcceptedIsValidated(enc: Encoding, libraries: Libraries, c: Contract)
    requires Faithful(enc) && Admitted(enc, libraries, c)
    ensures Validated(enc, c)
    ensures Document(enc, c).Ok? <==> NoRepeatedTombstone(c.delivery) && NoRepeatedSnapshotKey(c.delivery)
  {
    CheckedIsValidated(enc, libraries, c);
    SetsDeclaredExactly(enc, libraries, c);
    DocumentNeedsSets(enc, c);
  }

  lemma DocumentNeedsSets(enc: Encoding, c: Contract)
    ensures Document(enc, c).Ok? <==> SetsDeclared(enc, c)
  {}

  lemma CheckedIsValidated(enc: Encoding, libraries: Libraries, c: Contract)
    requires LandingOnWire(c.landing) && LandingChecked(c.landing)
    requires ProjectionChecked(c.landing.physicalColumns, c.projection)
    requires RulesChecked(enc, libraries, c.delivery.quality.rules)
    ensures Validated(enc, c)
  {}

  lemma DeclaredExactly<T(!new)>(items: seq<T>, bytes: T -> string)
    requires Injective(bytes)
    ensures DeclaredSet(items, bytes) <==> Distinct(items)
  {}

  lemma SetsDeclaredExactly(enc: Encoding, libraries: Libraries, c: Contract)
    requires Faithful(enc) && LandingChecked(c.landing) && RulesChecked(enc, libraries, c.delivery.quality.rules)
    ensures SetsDeclared(enc, c) <==> NoRepeatedTombstone(c.delivery) && NoRepeatedSnapshotKey(c.delivery)
  {
    DeclaredExactly(c.landing.contentEncodings, enc.encodingBytes);
    if c.landing.integration.External? {
      DeclaredExactly(c.landing.integration.receiptTrust.allowedKeyIds, enc.textBytes);
    }
    if c.delivery.tombstone.Some? { DeclaredExactly(c.delivery.tombstone.value.values, enc.scalarBytes); }
    if c.delivery.snapshot.Some? { DeclaredExactly(c.delivery.snapshot.value.allowedKeyIds, enc.textBytes); }
  }
}

/**
  The Landing Product Contract wire records (ergasterion/framework/landing_contract.py).

  Fields whose wire type is a single literal (a schema token, a record kind, a fixed
  charset) carry no information and are left out of the records.
*/
module LandingContract {
  import opened Basics

  datatype DeliveryMode = Cdc | AppendOnly | CompleteSnapshot
  datatype DeleteStrategy = NoDelete | ExplicitTombstone | SnapshotDiff
  datatype ContentEncoding = IdentityEncoding | Gzip
  datatype Newline = Crlf | Lf
  datatype Backoff = Exponential | Fixed
  datatype PublicationPolicy = AllOrNothing | PublishValidRows
  datatype Severity = SeverityError | SeverityWarn

  datatype TypedScalar =
    | TypedBinary(base64: string)
    | TypedBoolean(flag: bool)
    | TypedDate(date: string)
    | TypedDecimal(unscaled: string, scale: nat)
    | TypedInt64(digits: string)
    | TypedLocalDateTime(localText: string, timezone: string)
    | TypedString(text: string)
    | TypedUtcInstant(instant: string)

  datatype LogicalType =
    | Binary | Boolean | Date | Int64 | UtcInstant | Utf8String
    | DecimalType(precision: nat, scale: nat)
    | LocalDateTimeType(timezone: string)

  datatype SourceField = SourceField(
    name: string, logicalType: LogicalType, nullable: bool, physicalName: Option<string>)

  datatype ProjectionField = ProjectionField(
    source: string, name: string, logicalType: LogicalType, nullable: bool)

  datatype LogicalIdentity = LogicalIdentity(estateNamespace: string, source: string, table: string)

  /** A SemVer text already split at its numeric core; `suffix` is the pre-release and build part. */
  datatype Version = Version(major: nat, minor: nat, patch: nat, suffix: string)

  datatype ProductFacts = ProductFacts(
    version: Version, displayName: string, description: string, owner: string, domain: string,
    support: string, classification: string, accessPolicyRef: string, retentionPolicyRef: string)

  datatype Codec =
    | Csv(delimiter: string, header: bool, quote: string, escape: string,
          newline: Newline, nullTokens: seq<string>)
    | Jsonl(newline: Newline)

  datatype TrustPolicy = TrustPolicy(
    policyRef: string, allowedKeyIds: seq<string>, futureClockSkewSeconds: nat)

  /** The columns and fields an external integration binds a consumer to. */
  datatype References = References(
    deliveryIdColumn: string, visibilityEpochColumn: string, visibilityKindColumn: string,
    visibilityIdColumn: string, rawReferenceField: string, candidateReferenceField: string,
    frameIndexReferenceField: string)

  datatype Integration = Managed | External(references: References, receiptTrust: TrustPolicy)

  datatype Landing = Landing(
    sourceName: string, identifier: string, integration: Integration,
    contentEncodings: seq<ContentEncoding>, codec: Codec,
    physicalColumns: seq<SourceField>, physicalName: Option<string>)

  datatype Schedule =
    | IntervalSchedule(everyMinutes: nat, anchorAt: string)
    | CronSchedule(expression: string, timezone: string, startsAt: string)

  datatype Sla = Sla(warnAfterMinutes: nat, errorAfterMinutes: nat)

  datatype Timestamps = Timestamps(
    loadField: string, eventField: Option<string>, effectiveField: Option<string>)

  datatype Progress = OpaqueBatch | Sequence(field: string)

  datatype FingerprintScope = FingerprintScope(
    scopeId: string, scopeParameters: map<string, TypedScalar>)

  datatype RecordKey = RecordKey(
    fields: seq<string>, fingerprintScope: Option<FingerprintScope>, hmacKeyId: Option<string>)

  datatype Retry = Retry(maxAttempts: nat, backoff: Backoff, baseSeconds: nat, capSeconds: nat)

  /** A quality rule without its severity. */
  datatype RuleBody =
    | NotNull(field: string)
    | UniqueKey(fields: seq<string>)
    | AcceptedValues(field: string, values: seq<TypedScalar>, allowNull: bool)
    | Range(field: string, min: Option<TypedScalar>, max: Option<TypedScalar>, allowNull: bool)
    | RowCount(minRows: Option<string>, maxRows: Option<string>)

  datatype Rule = Rule(body: RuleBody, severity: Severity)

  datatype Quality = Quality(
    publicationMode: PublicationPolicy, maxErrorFraction: string, rules: seq<Rule>)

  datatype Tombstone = Tombstone(field: string, values: seq<TypedScalar>)

  datatype Snapshot = Snapshot(
    scopeId: string, scopeParameters: map<string, TypedScalar>, attestationPolicyRef: string,
    allowedKeyIds: seq<string>, futureClockSkewSeconds: nat)

  datatype Delivery = Delivery(
    mode: DeliveryMode, progress: Progress, deleteStrategy: DeleteStrategy, schedule: Schedule,
    scheduleLateness: Sla, maximumAge: Option<Sla>, timestamps: Timestamps, recordKey: RecordKey,
    tombstone: Option<Tombstone>, snapshot: Option<Snapshot>, quality: Quality, retry: Retry)

  datatype Interfaces = Interfaces(
    raw: string, sourceNative: string, published: string, quarantine: string,
    deletionEvidence: string)

  datatype Contract = Contract(
    identity: LogicalIdentity, product: ProductFacts, landing: Landing, delivery: Delivery,
    projection: seq<ProjectionField>, interfaces: Interfaces)

  datatype MigrationKind = Carry | Reset

  /** One activation's facts, before its derived identifier is attached. */
  datatype MigrationFields = MigrationFields(
    kind: MigrationKind, fromDigest: Option<string>, toDigest: string,
    activatedAt: Option<string>, fromEpoch: nat, toEpoch: nat)

  datatype Migration = Migration(migrationId: string, fields: MigrationFields)

  /**
    The byte-level functions the compiler calls: RFC 8785 bytes of a scalar, and the
    SHA-256 identities taken over canonical bytes.
  */
  datatype Encoding = Encoding(
    textBytes: string -> string,
    encodingBytes: ContentEncoding -> string,
    scalarBytes: TypedScalar -> string,
    ruleId: RuleBody -> string,
    contractDigest: Contract -> string,
    migrationId: MigrationFields -> string)

  ghost predicate Injective<T(!new)>(f: T -> string) {
    forall x, y :: f(x) == f(y) ==> x == y
  }

  /** Distinct canonical content has distinct bytes and no digest collides. */
  ghost predicate Faithful(enc: Encoding) {
    && Injective(enc.textBytes)
    && Injective(enc.encodingBytes)
    && Injective(enc.scalarBytes)
    && Injective(enc.ruleId)
    && Injective(enc.contractDigest)
  }
}

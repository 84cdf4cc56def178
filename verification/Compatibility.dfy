/**
  The compatibility classifier and the SemVer check
  (ergasterion/source_delivery.py:863-1080), over canonical documents.
*/
module Compatibility {
  import opened Basics
  import opened LandingContract
  import opened Canonical

  datatype ChangeClass = NoChange | PatchChange | MinorChange | MajorChange | NewProduct

  /** What the classifier compares of a column: its type and its nullability. */
  datatype ColumnSpec = ColumnSpec(logicalType: LogicalType, nullable: bool)

  type Columns = map<string, ColumnSpec>

  /** A dictionary by name: of two columns with one name the later entry wins. */
  function ColumnMap(columns: seq<SourceField>): Columns {
    if columns == [] then map[] else
    var last := columns[|columns| - 1];
    ColumnMap(columns[..|columns| - 1])[last.name := ColumnSpec(last.logicalType, last.nullable)]
  }

  function ProjectionMap(projection: seq<ProjectionField>): Columns {
    if projection == [] then map[] else
    var last := projection[|projection| - 1];
    ProjectionMap(projection[..|projection| - 1])[last.name := ColumnSpec(last.logicalType, last.nullable)]
  }

  predicate IntegrationMajorChange(prior: Integration, candidate: Integration) {
    || prior.External? != candidate.External?
    || (prior.External? && prior.references != candidate.references)
  }

  predicate IntegrationMinorChange(prior: Integration, candidate: Integration) {
    prior.External? && candidate.External? && prior.receiptTrust != candidate.receiptTrust
  }

  predicate SnapshotMajorChange(prior: Option<Snapshot>, candidate: Option<Snapshot>) {
    || prior.None? != candidate.None?
    || (prior.Some? &&
        (prior.value.scopeId != candidate.value.scopeId
         || prior.value.scopeParameters != candidate.value.scopeParameters))
  }

  predicate SnapshotMinorChange(prior: Option<Snapshot>, candidate: Option<Snapshot>) {
    && prior.Some? && candidate.Some?
    && (|| prior.value.attestationPolicyRef != candidate.value.attestationPolicyRef
        || prior.value.allowedKeyIds != candidate.value.allowedKeyIds
        || prior.value.futureClockSkewSeconds != candidate.value.futureClockSkewSeconds)
  }

  /** Some column of `prior` is gone, retyped or renullabled. */
  predicate DropsColumn(prior: Columns, candidate: Columns) {
    exists name | name in prior :: name !in candidate || candidate[name] != prior[name]
  }

  predicate AddsRequiredColumn(prior: Columns, candidate: Columns) {
    exists name | name in candidate :: name !in prior && !candidate[name].nullable
  }

  predicate HasMajorChange(prior: Contract, candidate: Contract) {
    var p, c := prior.delivery, candidate.delivery;
    var columns, columns' :=
      ColumnMap(prior.landing.physicalColumns), ColumnMap(candidate.landing.physicalColumns);
    var published, published' := ProjectionMap(prior.projection), ProjectionMap(candidate.projection);
    || prior.product.domain != candidate.product.domain
    || prior.landing.sourceName != candidate.landing.sourceName
    || prior.landing.identifier != candidate.landing.identifier
    || prior.landing.codec != candidate.landing.codec
    || prior.landing.contentEncodings != candidate.landing.contentEncodings
    || IntegrationMajorChange(prior.landing.integration, candidate.landing.integration)
    || p.mode != c.mode || p.progress != c.progress || p.timestamps != c.timestamps
    || p.recordKey != c.recordKey || p.deleteStrategy != c.deleteStrategy
    || SnapshotMajorChange(p.snapshot, c.snapshot)
    || p.tombstone != c.tombstone
    || DropsColumn(columns, columns') || DropsColumn(published, published')
    || AddsRequiredColumn(columns, columns') || AddsRequiredColumn(published, published')
  }

  predicate HasMinorChange(prior: Contract, candidate: Contract) {
    var p, c := prior.product, candidate.product;
    || ColumnMap(candidate.landing.physicalColumns).Keys - ColumnMap(prior.landing.physicalColumns).Keys != {}
    || ProjectionMap(candidate.projection).Keys - ProjectionMap(prior.projection).Keys != {}
    || prior.delivery.schedule != candidate.delivery.schedule
    || p.classification != c.classification || p.accessPolicyRef != c.accessPolicyRef
    || p.retentionPolicyRef != c.retentionPolicyRef || p.displayName != c.displayName
    || prior.delivery.quality != candidate.delivery.quality
    || IntegrationMinorChange(prior.landing.integration, candidate.landing.integration)
    || SnapshotMinorChange(prior.delivery.snapshot, candidate.delivery.snapshot)
  }

  function ClassifyDocuments(prior: Contract, candidate: Contract): ChangeClass {
    if prior == candidate then NoChange
    else if HasMajorChange(prior, candidate) then MajorChange
    else if HasMinorChange(prior, candidate) then MinorChange
    else PatchChange
  }

  /** Classify the change a candidate makes; fails only where canonicalisation fails. */
  function ClassifyContractChange(enc: Encoding, prior: Option<Contract>, candidate: Contract)
    : Result<ChangeClass, CanonicalError>
  {
    if prior.None? || prior.value.identity != candidate.identity then Ok(NewProduct)
    else
      var p, c := Document(enc, prior.value), Document(enc, candidate);
      if p.Err? then Err(p.error)
      else if c.Err? then Err(c.error)
      else Ok(ClassifyDocuments(p.value, c.value))
  }

  function RequiredMigrationKind(change: ChangeClass): MigrationKind {
    if change.NoChange? || change.PatchChange? || change.MinorChange? then Carry else Reset
  }

  // ---------------------------------------------------------------- SemVer

  predicate CoreLess(a: Version, b: Version) {
    || a.major < b.major
    || (a.major == b.major && a.minor < b.minor)
    || (a.major == b.major && a.minor == b.minor && a.patch < b.patch)
  }

  datatype BumpError = MustIncrease | MajorBumpNeeded | MinorBumpNeeded

  function ValidateSemverBump(prior: Version, candidate: Version, required: ChangeClass)
    : Option<BumpError>
  {
    if required.NoChange? then None
    else if !CoreLess(prior, candidate) then Some(MustIncrease)
    else if required.MajorChange? && candidate.major <= prior.major then Some(MajorBumpNeeded)
    else if required.MinorChange?
            && (candidate.major < prior.major
                || (candidate.major == prior.major && candidate.minor <= prior.minor))
    then Some(MinorBumpNeeded)
    else None
  }

  // ---------------------------------------------------------------- what is compared

  /** The i-th column is the last one of its name. */
  predicate LastColumn(columns: seq<SourceField>, i: nat) {
    i < |columns| && forall k | i < k < |columns| :: columns[k].name != columns[i].name
  }

  predicate LastEntry(projection: seq<ProjectionField>, i: nat) {
    i < |projection| && forall k | i < k < |projection| :: projection[k].name != projection[i].name
  }

  /** Columns are compared by name, each by the type and nullability its last entry states. */
  lemma {:induction false} ColumnMapExactly(columns: seq<SourceField>, name: string, spec: ColumnSpec)
    ensures name in ColumnMap(columns) && ColumnMap(columns)[name] == spec
            <==> exists i: nat :: LastColumn(columns, i) && columns[i].name == name
                                  && spec == ColumnSpec(columns[i].logicalType, columns[i].nullable)
  {
    if columns != [] {
      var n := |columns| - 1;
      var init := columns[..n];
      assert forall i | 0 <= i < n :: init[i] == columns[i];
      assert LastColumn(columns, n);
      if name != columns[n].name {
        ColumnMapExactly(init, name, spec);
        forall i: nat | i < n && columns[i].name == name
          ensures LastColumn(columns, i) <==> LastColumn(init, i)
        {
          assert forall k | i < k < n :: init[k] == columns[k];
        }
      }
    }
  }

  /** Published columns likewise. */
  lemma {:induction false} ProjectionMapExactly(projection: seq<ProjectionField>, name: string, spec: ColumnSpec)
    ensures name in ProjectionMap(projection) && ProjectionMap(projection)[name] == spec
            <==> exists i: nat :: LastEntry(projection, i) && projection[i].name == name
                                  && spec == ColumnSpec(projection[i].logicalType, projection[i].nullable)
  {
    if projection != [] {
      var n := |projection| - 1;
      var init := projection[..n];
      assert forall i | 0 <= i < n :: init[i] == projection[i];
      assert LastEntry(projection, n);
      if name != projection[n].name {
        ProjectionMapExactly(init, name, spec);
        forall i: nat | i < n && projection[i].name == name
          ensures LastEntry(projection, i) <==> LastEntry(init, i)
        {
          assert forall k | i < k < n :: init[k] == projection[k];
        }
      }
    }
  }

  function Core(v: Version): seq<nat> { [v.major, v.minor, v.patch] }

  /** Cores are ordered by the first number in which they differ; a suffix counts for nothing. */
  lemma CoreLessExactly(a: Version, b: Version)
    ensures CoreLess(a, b)
            <==> exists i | 0 <= i < 3 :: Core(a)[i] < Core(b)[i] && forall k | 0 <= k < i :: Core(a)[k] == Core(b)[k]
  {
    assert CoreLess(a, b) <==>
      || Core(a)[0] < Core(b)[0]
      || (Core(a)[0] == Core(b)[0] && Core(a)[1] < Core(b)[1])
      || (Core(a)[0] == Core(b)[0] && Core(a)[1] == Core(b)[1] && Core(a)[2] < Core(b)[2]);
  }

  // ---------------------------------------------------------------- what a carry promises

  /** Every earlier column is still there, unchanged, and every new one is nullable. */
  ghost predicate Extends(earlier: Columns, later: Columns) {
    && (forall name | name in earlier :: name in later && later[name] == earlier[name])
    && (forall name | name in later && name !in earlier :: later[name].nullable)
  }

  ghost predicate SameSnapshotScope(a: Option<Snapshot>, b: Option<Snapshot>) {
    match (a, b)
    case (Some(x), Some(y)) => x.scopeId == y.scopeId && x.scopeParameters == y.scopeParameters
    case (None, None) => true
    case _ => false
  }

  ghost predicate SameLandingPort(a: Integration, b: Integration) {
    match (a, b)
    case (External(x, _), External(y, _)) => x == y
    case (Managed, Managed) => true
    case _ => false
  }

  /** A reader of `earlier` may go on reading `later` as the same series. */
  ghost predicate Continues(earlier: Contract, later: Contract) {
    && earlier.identity == later.identity
    && earlier.product.domain == later.product.domain
    && earlier.landing.sourceName == later.landing.sourceName
    && earlier.landing.identifier == later.landing.identifier
    && earlier.landing.codec == later.landing.codec
    && earlier.landing.contentEncodings == later.landing.contentEncodings
    && SameLandingPort(earlier.landing.integration, later.landing.integration)
    && earlier.delivery.mode == later.delivery.mode
    && earlier.delivery.progress == later.delivery.progress
    && earlier.delivery.timestamps == later.delivery.timestamps
    && earlier.delivery.recordKey == later.delivery.recordKey
    && earlier.delivery.deleteStrategy == later.delivery.deleteStrategy
    && earlier.delivery.tombstone == later.delivery.tombstone
    && SameSnapshotScope(earlier.delivery.snapshot, later.delivery.snapshot)
    && Extends(ColumnMap(earlier.landing.physicalColumns), ColumnMap(later.landing.physicalColumns))
    && Extends(ProjectionMap(earlier.projection), ProjectionMap(later.projection))
  }

  ghost predicate SameTrust(a: Integration, b: Integration) {
    a.External? && b.External? ==> a.receiptTrust == b.receiptTrust
  }

  ghost predicate SameAttestation(a: Option<Snapshot>, b: Option<Snapshot>) {
    a.Some? && b.Some? ==>
      && a.value.attestationPolicyRef == b.value.attestationPolicyRef
      && a.value.allowedKeyIds == b.value.allowedKeyIds
      && a.value.futureClockSkewSeconds == b.value.futureClockSkewSeconds
  }

  /**
    Nothing a consumer reads without binding to it changes: the columns and published columns
    are the same ones, and so are schedule, policies, display name, quality and trust.
  */
  ghost predicate SameFacts(earlier: Contract, later: Contract) {
    && ColumnMap(earlier.landing.physicalColumns) == ColumnMap(later.landing.physicalColumns)
    && ProjectionMap(earlier.projection) == ProjectionMap(later.projection)
    && earlier.delivery.schedule == later.delivery.schedule
    && earlier.product.classification == later.product.classification
    && earlier.product.accessPolicyRef == later.product.accessPolicyRef
    && earlier.product.retentionPolicyRef == later.product.retentionPolicyRef
    && earlier.product.displayName == later.product.displayName
    && earlier.delivery.quality == later.delivery.quality
    && SameTrust(earlier.landing.integration, later.landing.integration)
    && SameAttestation(earlier.delivery.snapshot, later.delivery.snapshot)
  }

  lemma ContinuesReflexive(c: Contract)
    ensures Continues(c, c)
  {}

  lemma ContinuesTransitive(a: Contract, b: Contract, c: Contract)
    requires Continues(a, b) && Continues(b, c)
    ensures Continues(a, c)
  {
    ExtendsTransitive(ColumnMap(a.landing.physicalColumns), ColumnMap(b.landing.physicalColumns),
                      ColumnMap(c.landing.physicalColumns));
    ExtendsTransitive(ProjectionMap(a.projection), ProjectionMap(b.projection), ProjectionMap(c.projection));
  }

  lemma ExtendsTransitive(a: Columns, b: Columns, c: Columns)
    requires Extends(a, b) && Extends(b, c)
    ensures Extends(a, c)
  {
    forall name | name in c && name !in a
      ensures c[name].nullable
    {
      if name in b {}
    }
  }

  lemma MajorExactly(prior: Contract, candidate: Contract)
    requires prior.identity == candidate.identity
    ensures HasMajorChange(prior, candidate) <==> !Continues(prior, candidate)
  {
    ExtendsExactly(ColumnMap(prior.landing.physicalColumns), ColumnMap(candidate.landing.physicalColumns));
    ExtendsExactly(ProjectionMap(prior.projection), ProjectionMap(candidate.projection));
  }

  /** A change that is not major is minor exactly when some such fact changes. */
  lemma MinorExactly(prior: Contract, candidate: Contract)
    requires Continues(prior, candidate)
    ensures HasMinorChange(prior, candidate) <==> !SameFacts(prior, candidate)
  {
    SameColumnsExactly(ColumnMap(prior.landing.physicalColumns), ColumnMap(candidate.landing.physicalColumns));
    SameColumnsExactly(ProjectionMap(prior.projection), ProjectionMap(candidate.projection));
  }

  lemma SameColumnsExactly(prior: Columns, candidate: Columns)
    requires Extends(prior, candidate)
    ensures candidate.Keys - prior.Keys == {} <==> prior == candidate
  {
    if candidate.Keys - prior.Keys == {} {
      forall name | name in candidate
        ensures name in prior
      {
        assert name !in candidate.Keys - prior.Keys;
      }
      assert prior.Keys == candidate.Keys;
    }
  }

  lemma SameFactsTransitive(a: Contract, b: Contract, c: Contract)
    requires SameFacts(a, b) && SameFacts(b, c) && Continues(a, b) && Continues(b, c)
    ensures SameFacts(a, c)
  {}

  lemma ExtendsExactly(prior: Columns, candidate: Columns)
    ensures Extends(prior, candidate) <==> !DropsColumn(prior, candidate) && !AddsRequiredColumn(prior, candidate)
  {}

  /** The class of every change that has one. */
  lemma ClassExactly(enc: Encoding, prior: Option<Contract>, candidate: Contract)
    ensures var r := ClassifyContractChange(enc, prior, candidate);
            && (r == Ok(NewProduct) <==> prior.None? || prior.value.identity != candidate.identity)
            && (r.Ok? && r.value != NewProduct ==>
                  && Document(enc, prior.value).Ok? && Document(enc, candidate).Ok?
                  && var p, c := Document(enc, prior.value).value, Document(enc, candidate).value;
                     r.value == if p == c then NoChange else if !Continues(p, c) then MajorChange
                                else if !SameFacts(p, c) then MinorChange else PatchChange)
            && (r.Err? <==> prior.Some? && prior.value.identity == candidate.identity
                            && (Document(enc, prior.value).Err? || Document(enc, candidate).Err?))
  {
    if prior.Some? && prior.value.identity == candidate.identity
       && Document(enc, prior.value).Ok? && Document(enc, candidate).Ok?
    {
      DocumentKeepsFacts(enc, prior.value);
      DocumentKeepsFacts(enc, candidate);
      var p, c := Document(enc, prior.value).value, Document(enc, candidate).value;
      if p != c { DifferentDocuments(p, c); }
    }
  }

  /**
    The activation kind of a classified change: carry exactly when the candidate continues
    a prior contract.
  */
  lemma CarryExactly(enc: Encoding, prior: Option<Contract>, candidate: Contract)
    requires ClassifyContractChange(enc, prior, candidate).Ok?
    requires Document(enc, candidate).Ok?
    requires prior.Some? ==> Document(enc, prior.value).Ok?
    ensures RequiredMigrationKind(ClassifyContractChange(enc, prior, candidate).value) == Carry
            <==> prior.Some? && Continues(Document(enc, prior.value).value, Document(enc, candidate).value)
  {
    if prior.Some? && prior.value.identity == candidate.identity {
      var p, c := Document(enc, prior.value).value, Document(enc, candidate).value;
      MajorExactly(p, c);
      ContinuesReflexive(c);
    }
  }

  /**
    Classification is `NoChange` exactly on contracts of one identity that differ only in
    authored order.
  */
  lemma NoChangeExactly(enc: Encoding, prior: Contract, candidate: Contract)
    requires Faithful(enc) && Validated(enc, prior) && Validated(enc, candidate)
    requires Document(enc, prior).Ok? && Document(enc, candidate).Ok?
    ensures ClassifyContractChange(enc, Some(prior), candidate) == Ok(NoChange)
            <==> Reordered(prior, candidate)
  {
    DocumentForgetsOrder(enc, prior, candidate);
    NoChangeIsSameDocument(enc, prior, candidate);
  }

  lemma NoChangeIsSameDocument(enc: Encoding, prior: Contract, candidate: Contract)
    requires Document(enc, prior).Ok? && Document(enc, candidate).Ok?
    ensures ClassifyContractChange(enc, Some(prior), candidate) == Ok(NoChange)
            <==> Document(enc, prior) == Document(enc, candidate)
  {
    DocumentKeepsFacts(enc, prior);
    DocumentKeepsFacts(enc, candidate);
  }

  lemma DocumentKeepsFacts(enc: Encoding, c: Contract)
    requires Document(enc, c).Ok?
    ensures Document(enc, c).value.identity == c.identity && Document(enc, c).value.product == c.product
  {}

  /**
    What an accepted bump says about two documents of a planned migration: the same document,
    or a higher core; a higher major number when one identity stops continuing, and a higher
    major or minor number when it goes on with changed facts.
  */
  ghost predicate VersionStep(prior: Contract, candidate: Contract) {
    var v, v' := prior.product.version, candidate.product.version;
    && (prior == candidate || CoreLess(v, v'))
    && (prior.identity == candidate.identity && !Continues(prior, candidate) ==> v.major < v'.major)
    && (prior.identity == candidate.identity && Continues(prior, candidate) && !SameFacts(prior, candidate) ==>
          v.major < v'.major || (v.major == v'.major && v.minor < v'.minor))
  }

  /** The bump check accepts exactly the version steps. */
  lemma AcceptedBumpSteps(enc: Encoding, prior: Contract, candidate: Contract)
    requires ClassifyContractChange(enc, Some(prior), candidate).Ok?
    requires Document(enc, prior).Ok? && Document(enc, candidate).Ok?
    ensures ValidateSemverBump(prior.product.version, candidate.product.version,
                               ClassifyContractChange(enc, Some(prior), candidate).value).None?
            <==> VersionStep(Document(enc, prior).value, Document(enc, candidate).value)
  {
    DocumentKeepsFacts(enc, prior);
    DocumentKeepsFacts(enc, candidate);
    if prior.identity == candidate.identity {
      DocumentBumpSteps(Document(enc, prior).value, Document(enc, candidate).value);
    }
  }

  lemma DocumentBumpSteps(p: Contract, c: Contract)
    requires p.identity == c.identity
    ensures ValidateSemverBump(p.product.version, c.product.version, ClassifyDocuments(p, c)).None?
            <==> VersionStep(p, c)
  {
    if p == c {
      ContinuesReflexive(c);
      assert SameFacts(p, c);
    } else {
      DifferentDocuments(p, c);
    }
  }

  /** Two different documents of one identity are of the class what they break asks for. */
  lemma DifferentDocuments(p: Contract, c: Contract)
    requires p.identity == c.identity && p != c
    ensures ClassifyDocuments(p, c) == if !Continues(p, c) then MajorChange
                                       else if !SameFacts(p, c) then MinorChange else PatchChange
  {
    MajorExactly(p, c);
    if Continues(p, c) { MinorExactly(p, c); }
  }
}

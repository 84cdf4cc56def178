/**
  Contracts that can be received and pass validation, among them ones that have no canonical
  document (ergasterion/source_delivery.py:308-365, 618-862).
*/
module AcceptedContracts {
  import opened Basics
  import opened Text
  import opened Ordering
  import opened LandingContract
  import opened Canonical
  import opened Acceptance

  const ANCHOR: string := "2026-01-01T00:00:00.000000Z"
  const ENTRY: SourceField := SourceField("entry_id", Utf8String, false, None)
  const LOADED: SourceField := SourceField("loaded_at", UtcInstant, false, None)

  function LedgerColumns(): seq<SourceField> { [ENTRY, LOADED] }

  function LedgerFacts(minor: nat): ProductFacts {
    ProductFacts(Version(1, minor, 0, ""), "Ledger", "", "finance", "sales", "finance", "internal",
                 "ledger-read", "years-7")
  }

  function LedgerLanding(table: string): Landing {
    Landing("ledger", table, Managed, [IdentityEncoding], Jsonl(Lf), LedgerColumns(), None)
  }

  function LedgerDelivery(): Delivery {
    Delivery(AppendOnly, OpaqueBatch, NoDelete, IntervalSchedule(15, ANCHOR), Sla(10, 20), None,
             Timestamps("loaded_at", None, None), RecordKey(["entry_id"], None, None), None, None,
             Quality(AllOrNothing, "0", []), Retry(3, Fixed, 1, 60))
  }

  function LedgerProjection(): seq<ProjectionField> {
    [ProjectionField("entry_id", "entry_id", Utf8String, false),
     ProjectionField("loaded_at", "loaded_at", UtcInstant, false)]
  }

  /** A ledger's table at version 1.minor.0, two columns, both published, delivered in some way. */
  function LedgerTable(table: string, minor: nat, delivery: Delivery): Contract {
    Contract(LogicalIdentity("estate.example", "ledger", table), LedgerFacts(minor), LedgerLanding(table),
             delivery, LedgerProjection(), DerivedInterfaces("ledger", table))
  }

  /** A text that may stand both for a table and in a token. */
  predicate MayNameTable(table: string) {
    IsIdentifier(table) && IsToken(table) && '_' !in table && |table| <= 64
  }

  // ---------------------------------------------------------------- parts that pass

  lemma {:induction false} TokenSafeKeeps(s: string)
    requires '_' !in s
    ensures TokenSafe(s) == s
  {
    if s != [] { TokenSafeKeeps(s[1..]); }
  }

  /** Two labels around a dot name an estate. */
  lemma LabelsNameEstate(a: string, b: string)
    requires IsLabel(a) && IsLabel(b)
    ensures IsEstateNamespace(a + ['.'] + b)
  {
    var labels := [a, b];
    assert labels[1..] == [b];
    assert '.' !in a && '.' !in b;
    SplitJoin(labels, '.');
  }

  lemma EstateLabels()
    ensures IsLabel("estate") && IsLabel("example") && "estate" + ['.'] + "example" == "estate.example"
  {}

  lemma EstateIsNamespace()
    ensures IsEstateNamespace("estate.example")
  {
    EstateLabels();
    LabelsNameEstate("estate", "example");
  }

  lemma TokenJoins(a: string, b: string)
    requires IsToken(a) && |a| + |b| <= 127 && TokenTail(b)
    ensures IsToken(a + b)
  {}

  lemma BaseToken(table: string)
    requires MayNameTable(table)
    ensures IsToken("landing-" + "ledger" + "-" + table)
  {
    TokenJoins("landing-" + "ledger" + "-", table);
  }

  lemma InterfaceTails()
    ensures TokenTail("-raw") && TokenTail("-source-native") && TokenTail("-published")
    ensures TokenTail("-quarantine") && TokenTail("-deletion-evidence")
  {}

  lemma NamesFromBase(base: string)
    requires IsToken(base) && |base| <= 100
    ensures InterfacesOnWire(Interfaces(base + "-raw", base + "-source-native", base + "-published",
                                        base + "-quarantine", base + "-deletion-evidence"))
  {
    InterfaceTails();
    TokenJoins(base, "-raw");
    TokenJoins(base, "-source-native");
    TokenJoins(base, "-published");
    TokenJoins(base, "-quarantine");
    TokenJoins(base, "-deletion-evidence");
  }

  lemma LedgerInterfacesOnWire(table: string)
    requires MayNameTable(table)
    ensures InterfacesOnWire(DerivedInterfaces("ledger", table))
  {
    TokenSafeKeeps("ledger");
    TokenSafeKeeps(table);
    BaseToken(table);
    NamesFromBase("landing-" + TokenSafe("ledger") + "-" + TokenSafe(table));
  }

  lemma LedgerFactsOnWire(minor: nat)
    ensures FactsOnWire(LedgerFacts(minor))
  {}

  lemma LedgerNames()
    ensures IsIdentifier("ledger") && IsIdentifier("entry_id") && IsIdentifier("loaded_at")
    ensures "entry_id" != "loaded_at"
  {
    assert "entry_id"[0] != "loaded_at"[0];
  }

  lemma LedgerLandingPasses(table: string)
    requires IsIdentifier(table)
    ensures LandingOnWire(LedgerLanding(table)) && LandingChecked(LedgerLanding(table))
  {
    LedgerNames();
  }

  lemma LedgerProjectionPasses()
    ensures ProjectionOnWire(LedgerProjection()) && ProjectionChecked(LedgerColumns(), LedgerProjection())
  {
    LedgerNames();
    assert LedgerColumns()[0] == ENTRY && LedgerColumns()[1] == LOADED;
  }

  lemma AnchorOnWire()
    ensures IsUtcInstant(ANCHOR) && IsDecimal("0")
  {
    assert IndexOf("0", '.') == 1;
  }

  lemma LedgerHasColumns()
    ensures HasColumn(LedgerColumns(), "entry_id") && HasColumn(LedgerColumns(), "loaded_at")
  {
    assert LedgerColumns()[0] == ENTRY && LedgerColumns()[1] == LOADED;
  }

  /** A delivery policy that fits the ledger's columns. */
  ghost predicate FitsLedger(enc: Encoding, libraries: Libraries, d: Delivery) {
    DeliveryOnWire(d) && DeliveryChecked(enc, libraries, d) && FieldsResolve(LedgerColumns(), d)
  }

  /** Whatever the table's name and however it is delivered, as long as both fit. */
  lemma LedgerTableAccepted(enc: Encoding, libraries: Libraries, table: string, minor: nat, delivery: Delivery)
    requires MayNameTable(table) && FitsLedger(enc, libraries, delivery)
    ensures Admitted(enc, libraries, LedgerTable(table, minor, delivery))
  {
    LedgerTableOnWire(table, minor, delivery);
    LedgerTableChecked(enc, libraries, table, minor, delivery);
  }

  lemma LedgerTableOnWire(table: string, minor: nat, delivery: Delivery)
    requires MayNameTable(table) && DeliveryOnWire(delivery)
    ensures OnWire(LedgerTable(table, minor, delivery))
  {
    EstateIsNamespace();
    LedgerNames();
    LedgerFactsOnWire(minor);
    LedgerInterfacesOnWire(table);
    LedgerLandingPasses(table);
    LedgerProjectionPasses();
  }

  lemma LedgerTableChecked(enc: Encoding, libraries: Libraries, table: string, minor: nat, delivery: Delivery)
    requires IsIdentifier(table) && FitsLedger(enc, libraries, delivery)
    ensures Checked(enc, libraries, LedgerTable(table, minor, delivery))
  {
    LedgerLandingPasses(table);
    LedgerProjectionPasses();
  }

  lemma LedgerDeliveryFits(enc: Encoding, libraries: Libraries)
    ensures FitsLedger(enc, libraries, LedgerDelivery())
  {
    AnchorOnWire();
    LedgerNames();
    LedgerHasColumns();
  }

  // ---------------------------------------------------------------- a contract that is its own document

  lemma SortedPair<T(!new)>(a: T, b: T, key: T -> string)
    requires key(a) != [] && key(b) != [] && key(a)[0] < key(b)[0]
    ensures SortBy([a, b], key) == [a, b]
  {
    SortOfSorted([a, b], key);
  }

  lemma LowerHead(s: string)
    requires s != []
    ensures Lower(s) != [] && Lower(s)[0] == LowerChar(s[0])
  {}

  lemma LedgerColumnsSorted()
    ensures SortBy(LedgerColumns(), ColumnKey) == LedgerColumns()
  {
    LowerHead(ENTRY.name);
    LowerHead(LOADED.name);
    SortedPair(ENTRY, LOADED, ColumnKey);
  }

  lemma LedgerProjectionSorted()
    ensures SortBy(LedgerProjection(), EntryKey) == LedgerProjection()
  {
    SortedPair(LedgerProjection()[0], LedgerProjection()[1], EntryKey);
  }

  lemma LedgerLandingIsNormal(enc: Encoding, table: string)
    ensures NormalLanding(enc, LedgerLanding(table)) == LedgerLanding(table)
  {
    LedgerColumnsSorted();
  }

  lemma LedgerDeliveryIsNormal(enc: Encoding)
    ensures NormalDelivery(enc, LedgerDelivery()) == LedgerDelivery()
  {}

  lemma NormalIsDocument(enc: Encoding, c: Contract)
    requires NormalLanding(enc, c.landing) == c.landing && NormalDelivery(enc, c.delivery) == c.delivery
    requires SortBy(c.projection, EntryKey) == c.projection && SetsDeclared(enc, c)
    ensures Document(enc, c) == Ok(c)
  {}

  lemma LedgerSetsDeclared(enc: Encoding, table: string, minor: nat)
    ensures SetsDeclared(enc, LedgerTable(table, minor, LedgerDelivery()))
  {}

  lemma LedgerDocument(enc: Encoding, table: string, minor: nat)
    ensures var c := LedgerTable(table, minor, LedgerDelivery()); Document(enc, c) == Ok(c)
  {
    LedgerLandingIsNormal(enc, table);
    LedgerDeliveryIsNormal(enc);
    LedgerProjectionSorted();
    LedgerSetsDeclared(enc, table, minor);
    NormalIsDocument(enc, LedgerTable(table, minor, LedgerDelivery()));
  }

  lemma TwoTables() returns (home: string, away: string)
    ensures MayNameTable(home) && MayNameTable(away) && home != away
  {
    home, away := "journal", "accounts";
    assert home[0] != away[0];
  }

  /** For any table and minor number, an accepted contract that is its own document. */
  lemma AcceptedContract(enc: Encoding, libraries: Libraries, table: string, minor: nat) returns (c: Contract)
    requires MayNameTable(table)
    ensures Admitted(enc, libraries, c) && Document(enc, c) == Ok(c)
    ensures c.identity == LogicalIdentity("estate.example", "ledger", table)
    ensures c.product.version == Version(1, minor, 0, "")
  {
    c := LedgerTable(table, minor, LedgerDelivery());
    LedgerDeliveryFits(enc, libraries);
    LedgerTableAccepted(enc, libraries, table, minor, LedgerDelivery());
    LedgerDocument(enc, table, minor);
  }

  /** Two versions of one table that differ in their minor number alone. */
  lemma AcceptedVersions(enc: Encoding, libraries: Libraries, table: string) returns (a: Contract, b: Contract)
    requires MayNameTable(table)
    ensures Admitted(enc, libraries, a) && Admitted(enc, libraries, b)
    ensures Document(enc, a) == Ok(a) && Document(enc, b) == Ok(b)
    ensures b == a.(product := a.product.(version := Version(1, 1, 0, ""))) && a.product.version == Version(1, 0, 0, "")
  {
    a, b := LedgerTable(table, 0, LedgerDelivery()), LedgerTable(table, 1, LedgerDelivery());
    LedgerDeliveryFits(enc, libraries);
    LedgerTableAccepted(enc, libraries, table, 0, LedgerDelivery());
    LedgerTableAccepted(enc, libraries, table, 1, LedgerDelivery());
    LedgerDocument(enc, table, 0);
    LedgerDocument(enc, table, 1);
  }

  // ---------------------------------------------------------------- contracts without a document

  function LedgerKey(): RecordKey {
    RecordKey(["entry_id"], Some(FingerprintScope("ledger", map[])), Some("key-1"))
  }

  /** Change records with one tombstone value stated twice. */
  function TombstoneTwice(): Delivery {
    Delivery(Cdc, Sequence("entry_id"), ExplicitTombstone, IntervalSchedule(15, ANCHOR), Sla(10, 20), None,
             Timestamps("loaded_at", Some("loaded_at"), None), LedgerKey(),
             Some(Tombstone("entry_id", [TypedString("gone"), TypedString("gone")])), None,
             Quality(AllOrNothing, "0", []), Retry(3, Fixed, 1, 60))
  }

  /** Complete snapshots with one attestation key stated twice. */
  function SnapshotKeyTwice(): Delivery {
    Delivery(CompleteSnapshot, OpaqueBatch, SnapshotDiff, IntervalSchedule(15, ANCHOR), Sla(10, 20), None,
             Timestamps("loaded_at", None, Some("loaded_at")), LedgerKey(), None,
             Some(Snapshot("ledger", map[], "ledger-read", ["key-1", "key-1"], 0)),
             Quality(AllOrNothing, "0", []), Retry(3, Fixed, 1, 60))
  }

  lemma LedgerKeyOnWire()
    ensures KeyOnWire(LedgerKey()) && IsToken("ledger") && IsToken("ledger-read") && IsToken("key-1")
  {
    LedgerNames();
  }

  lemma TombstoneTwiceFits(enc: Encoding, libraries: Libraries)
    ensures FitsLedger(enc, libraries, TombstoneTwice()) && !NoRepeatedTombstone(TombstoneTwice())
  {
    TombstoneTwiceOnWire();
    TombstoneTwiceChecked(enc, libraries);
    LedgerHasColumns();
    LedgerNames();
    assert TombstoneTwice().tombstone.value.values[0] == TombstoneTwice().tombstone.value.values[1];
  }

  lemma TombstoneTwiceOnWire()
    ensures DeliveryOnWire(TombstoneTwice())
  {
    AnchorOnWire();
    LedgerNames();
    LedgerKeyOnWire();
  }

  lemma TombstoneTwiceChecked(enc: Encoding, libraries: Libraries)
    ensures DeliveryChecked(enc, libraries, TombstoneTwice())
  {}

  lemma SnapshotKeyTwiceFits(enc: Encoding, libraries: Libraries)
    ensures FitsLedger(enc, libraries, SnapshotKeyTwice()) && !NoRepeatedSnapshotKey(SnapshotKeyTwice())
  {
    AnchorOnWire();
    LedgerNames();
    LedgerKeyOnWire();
    LedgerHasColumns();
    assert SnapshotKeyTwice().snapshot.value.allowedKeyIds[0] == SnapshotKeyTwice().snapshot.value.allowedKeyIds[1];
  }

  /** A ledger's table delivered with a repeated declared set is accepted and has no document. */
  lemma NoDocument(enc: Encoding, libraries: Libraries, delivery: Delivery) returns (c: Contract)
    requires Faithful(enc) && FitsLedger(enc, libraries, delivery)
    requires !NoRepeatedTombstone(delivery) || !NoRepeatedSnapshotKey(delivery)
    ensures Admitted(enc, libraries, c) && c.delivery == delivery && Document(enc, c) == Err(RepeatedSetValue)
  {
    var table, _ := TwoTables();
    c := LedgerTable(table, 0, delivery);
    LedgerTableAccepted(enc, libraries, table, 0, delivery);
    AcceptedIsValidated(enc, libraries, c);
  }

  lemma RepeatingDeliveries(enc: Encoding, libraries: Libraries) returns (d: Delivery, e: Delivery)
    ensures FitsLedger(enc, libraries, d) && !NoRepeatedTombstone(d)
    ensures FitsLedger(enc, libraries, e) && !NoRepeatedSnapshotKey(e)
  {
    d, e := TombstoneTwice(), SnapshotKeyTwice();
    TombstoneTwiceFits(enc, libraries);
    SnapshotKeyTwiceFits(enc, libraries);
  }

  /**
    Acceptance does not promise a document: a contract that repeats a tombstone value, and one
    that repeats a snapshot key, are accepted and then refused by canonicalisation.
  */
  lemma AcceptedWithoutDocument(enc: Encoding, libraries: Libraries) returns (a: Contract, b: Contract)
    requires Faithful(enc)
    ensures Admitted(enc, libraries, a) && Document(enc, a) == Err(RepeatedSetValue)
    ensures Admitted(enc, libraries, b) && Document(enc, b) == Err(RepeatedSetValue)
    ensures !NoRepeatedTombstone(a.delivery) && !NoRepeatedSnapshotKey(b.delivery)
  {
    var d, e := RepeatingDeliveries(enc, libraries);
    a := NoDocument(enc, libraries, d);
    b := NoDocument(enc, libraries, e);
  }
}

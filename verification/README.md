# Ergasterion: verified models of its contract, schedule, graph and scanning rules

This project models the parts of Ergasterion whose behaviour is decided in code rather than by a
schema or a library, and proves what they promise.

* **Landing contracts** (`LandingContract`, `Canonical`, `CanonicalForm`, `Acceptance`,
  `WireTexts`, `ContractFaults`, `AcceptedContracts`, `Compatibility`, `Registry`,
  `RegistryOutcomes`, `RegistryHistory`). A landing contract is received, checked and normalised
  so that authored order never reaches its digest; two contracts are classified and their version
  bump is checked; a registry moves from contract to contract under compare-and-swap. The main
  results speak of whole runs: a `visibility_ancestry` closure is one unbroken series, completed
  migrations form one chain, stale clients change nothing.
* **Schedules** (`Cron`, `Calendar`, `CronDays`, `Schedule`, `CronMeaning`, `Boundaries`,
  `BoundaryMeaning`). Cron fields, the Gregorian calendar, fold-aware resolution of local times,
  and the bounded day search. Time is integer microseconds, a zone is a function from instants to
  offsets.
* **Relations and composition** (`Relations`, `RelationRegistry`, `Composition`,
  `CompositionOutcomes`, `CompositionRows`, `OpeningComposition`, `FieldPropagation`,
  `FieldOutcomes`, `EstateRelations`, `EstateReads`, `RelationEvolution`). The passes
  that resolve every product's relations, how sources union or merge, what steps do to fields,
  and how a relation may change. Rows are maps from names to optional cells, so that a required
  mark means "never null".
* **The product graph** (`ProductOrder`, `FieldLineage`, `LineageMeaning`, `StoredNames`,
  `ProductGraph`, `EstateGraph`, `GraphMeaning`, `AuxiliaryRelations`). The topological order, the
  field lineage, the stored names, the registry of auxiliary relations, and everything the build
  refuses, down to the coverage assertion at its end.
* **Generated files** (`GeneratedFiles`), **view depth** (`ViewDepth`), **call scanning**
  (`CallScanner`, `CallGrammar`). The changed-only writer and its check, the memoised depth
  search, and the two quote-and-parenthesis scanners.

`Basics`, `Ordering`, `SortedNames` and `Text` hold shared vocabulary: stable
sorting by texts and by tuples of texts, sorted sets of names, numerals, separated lists and words.

Functions of the source that only compute on frozen records are functions here; loops over
growing collections are methods with invariants; the depth search with its shared `memo` and
`resolving`, the registry of auxiliary relations, and the file writer that changes the disk are
classes.

## Assumptions

* `Faithful(enc)`: canonical bytes, rule identities and digests are injective on what they
  cover. An `Encoding` record holds those functions.
* `FoldAware(zone)`: what the zone database guarantees of an offset function and `fold`;
  `Boundaries.OneTransitionFoldAware` proves it of every zone with one change of offset.
* `Republishes(estate)`: a landing product publishes the schema the estate opens with, unchanged but
  for the names its columns are stored under. That derivation ignores stored names is proved
  (`EstateRelations.DerivationIgnoresStoredNames`).
* Shapes, expression parsing and casts are arbitrary functions, and so is what a shape and the
  stored names make of the fields a product derives.
* `Libraries`: which zone names exist, and the order of two scalars of one type, are arbitrary.

## Where the code does less than its documentation says

Each of these is proved as an exact condition.

* *An accepted contract has a digest.* Only where neither its tombstone values nor its snapshot
  key ids repeat, which no check looks at (`Acceptance.AcceptedIsValidated`, with two accepted
  contracts in `AcceptedContracts.AcceptedWithoutDocument`); any other can never be registered
  (`RegistryHistory.AcceptedButNeverRegistered`).
* *One major number, one closure.* Two activations with the same major number may have resets
  between them when the registry leaves an identity and returns to it
  (`RegistryHistory.SameMajorAcrossResets`, a run over accepted contracts); otherwise they cannot
  (`RegistryHistory.SameMajorIsOneClosure`).
* *Greatest and least occurrence.* True for every expression exactly in zones whose local day
  never runs backwards around a whole local minute (`Boundaries.CurrentIsGreatestExactly`,
  `Boundaries.NextIsLeastExactly`); a clock set back an hour at 00:01 breaks both
  (`Boundaries.MidnightFoldFails`).
* *1474 days cover every expression.* Not `0 0 29 2 *` from 1 March 2096, across a skipped century
  leap day (`CronDays.SearchWindowSuffices`, `CronDays.CenturyGapExists`,
  `CronDays.LeapDayMidnightParses`); what that means for the two searches is
  `Boundaries.NextRefusedInGap` and `Boundaries.CurrentMissingInGap`.
* *Union and outer merge publish sound required marks.* Only where the other sources are at
  least as required as the first (`CompositionRows.UnionMarksExactly`,
  `CompositionRows.OuterMarksExactly`).
* *Minor changes leave a pinned consumer unaffected.* The classifier lets a required field
  become optional without a major change (`RelationEvolution.ConsumerUnaffectedExactly`).
* *A declared field is an output.* A mapping may take away what an earlier entry of the same
  mapping declared (`FieldPropagation.DeclaredIsCarriedExactly`); lineage still records it.
* *Writing makes the check clean.* Not for content with a carriage return, which reading back
  turns into a newline (`GeneratedFiles.WriteThenCheckExactly`, `GeneratedFiles.CleanExactly`).
* *Hyphenation keeps identifiers distinct.* One identifier from another
  (`ContractFaults.IdentifiersStayDistinct`), but not a source and table from another: their
  interface names are shared exactly where source, underscore and table are one text
  (`ContractFaults.InterfacesCollideExactly`, `ContractFaults.InterfacesCollide`).
* *A passing depth budget bounds every view chain.* Exactly where no reference cycle joins views
  (`ViewDepth.DepthsBoundChainsExactly`).

## Model

| member | source | states |
|---|---|---|
| Canonical.NormaliseDeclaredSet | ergasterion/source_delivery.py:308-315 | A declared set is refused exactly when two values share canonical bytes, and is otherwise its stable sort by those bytes |
| Canonical.ComputeRuleId | ergasterion/source_delivery.py:408-415 | A rule's identity covers its normalised body and not its severity; a repeated accepted value is refused |
| Canonical.CanonicalRules | ergasterion/source_delivery.py:353-363 | The rules of a document are normalised and ordered by identity, or the first repeated value is refused |
| Canonical.CanonicalContractDocument | ergasterion/source_delivery.py:318-365 | The in-place rewriting of a dumped contract yields the specified document, and fails exactly when some declared set repeats a value |
| Canonical.SameMeaning | ergasterion/source_delivery.py:408-415 | Two rules normalise alike exactly when they agree on everything but the order of accepted values |
| Canonical.RulesForgetOrder | ergasterion/source_delivery.py:358-363 | Two rule lists normalise alike exactly when they are permutations up to the order of accepted values |
| Canonical.ColumnsForgetOrder | ergasterion/source_delivery.py:326-329 | Sorting physical columns by lower-cased name forgets their order and nothing else |
| Canonical.DeclaredSetForgetsOrder | ergasterion/source_delivery.py:308-315 | Sorting a declared set forgets order and nothing else; the refusal does not depend on order |
| Canonical.DocumentForgetsOrder | ergasterion/source_delivery.py:318-365 | Validated contracts have equal documents exactly when they differ only by reordering columns, projection, declared sets and rules |
| Canonical.DocumentIdempotent | ergasterion/source_delivery.py:318-365 | The document of a document is itself |
| CanonicalForm.DocumentExistsExactly | ergasterion/source_delivery.py:308-365 | A contract has a document exactly when none of its five kinds of declared set repeats a value |
| CanonicalForm.DocumentExactly | ergasterion/source_delivery.py:318-365 | The document of a validated contract is the one contract that differs from it in authored order alone and ascends everywhere: columns by lower-cased name, projection by name, sets by canonical bytes, rules by identity |
| CanonicalForm.LowerExactly | ergasterion/source_delivery.py:327-329 | Lower-casing turns ASCII capitals into small letters and changes nothing else |
| Acceptance.AcceptedIsValidated | ergasterion/source_delivery.py:849-862 | Every contract that meets the wire patterns and passes validation has the uniqueness of columns, projection names and rules that canonicalisation sorts by; it has a canonical document exactly when neither its tombstone values nor its snapshot key ids repeat |
| ContractFaults.CheckedExactly | ergasterion/source_delivery.py:618-862 | Validation finds nothing exactly in a contract without any of the twenty policy faults, nine rule faults, ten landing faults and five projection faults, whose columns are known and compared with scalars of their types, and whose interfaces are derived |
| ContractFaults.PolicyFaultless | ergasterion/source_delivery.py:618-712 | The delivery policy passes exactly when it has none of its twenty faults, each stated by itself |
| ContractFaults.RulesFaultless | ergasterion/source_delivery.py:561-591 | Rules pass exactly when no two share an identity, none repeats a value or field, and each states ordered bounds of one type |
| ContractFaults.LandingFaultless | ergasterion/source_delivery.py:714-770 | Landing passes exactly when columns, encodings, separators, null tokens, reserved columns and trust keys have none of their faults |
| ContractFaults.ReferencesFaultless | ergasterion/source_delivery.py:772-815 | References resolve exactly when every column the policy names exists and every scalar is of the type of the column it is compared with |
| ContractFaults.ProjectionFaultless | ergasterion/source_delivery.py:817-837 | A projection passes exactly when it publishes something, nothing twice, and every entry reads a column of its type that is not null where it says so |
| ContractFaults.InterfacesExactly | ergasterion/source_delivery.py:229-246 | Interfaces are derived exactly when they spell source and table with hyphens for underscores, character by character |
| ContractFaults.IdentifiersStayDistinct | ergasterion/source_delivery.py:229-232 | Hyphenation keeps two distinct identifiers distinct |
| ContractFaults.InterfacesCollideExactly | ergasterion/source_delivery.py:235-246 | Two tables have one set of interface names exactly when source, underscore and table are one text |
| ContractFaults.InterfacesCollide | ergasterion/source_delivery.py:235-246 | Two tables of different sources that share their interface names |
| WireTexts.CountExactly | ergasterion/framework/landing_contract.py:85 | A text spells a count exactly when it is the numeral of a number |
| WireTexts.IntegerExactly | ergasterion/framework/landing_contract.py:84 | A text spells an integer exactly when some integer is written so, zero without a sign |
| WireTexts.DecimalExactly | ergasterion/framework/landing_contract.py:87 | A text spells a decimal exactly when it is an optional minus, a numeral and, after a point, digits |
| AcceptedContracts.LedgerTableAccepted | ergasterion/source_delivery.py:618-846 | For any fitting table name and delivery policy the example contract is on the wire and passes every check |
| AcceptedContracts.AcceptedWithoutDocument | ergasterion/source_delivery.py:343-352 | Two contracts that validation accepts, one repeating a tombstone value and one a snapshot key, are refused by canonicalisation |
| Ordering.SortForgetsOrder | ergasterion/source_delivery.py:308-315 | A stable sort whose key identifies items is equal on two lists exactly when they are permutations |
| Ordering.LexExactly | ergasterion/source_delivery.py:308-315 | Texts are ordered by the first character in which they differ, a beginning before the whole |
| Ordering.TupleExactly | ergasterion/framework/graph.py:676 | Tuples are ordered by the first component in which they differ |
| Ordering.SortIsStable | ergasterion/framework/graph.py:676 | Items that share a key keep their authored order |
| Compatibility.MajorExactly | ergasterion/source_delivery.py:947-992 | For one identity a change is major exactly when the candidate does not continue the prior contract: columns and projection kept with type and nullability, additions nullable, identity, codec, port, mode, progress, keys, tombstone and snapshot scope unchanged |
| Compatibility.ColumnMapExactly | ergasterion/source_delivery.py:873-877 | Columns are compared by name, each by the type and nullability its last entry states |
| Compatibility.ProjectionMapExactly | ergasterion/source_delivery.py:880-886 | Published columns likewise |
| Compatibility.MinorExactly | ergasterion/source_delivery.py:995-1017 | A change that is not major is minor exactly when the columns, published columns, schedule, policies, display name, quality or trust change |
| Compatibility.CarryExactly | ergasterion/source_delivery.py:1181-1187 | The activation kind is carry exactly when a prior contract exists and the candidate's document continues its document |
| Compatibility.NoChangeExactly | ergasterion/source_delivery.py:1020-1045 | Validated contracts classify as unchanged exactly when they differ only in authored order |
| Compatibility.ClassExactly | ergasterion/source_delivery.py:1020-1052 | The class of every change: new without a prior contract or across identities, none for one document, major without continuity, minor with changed facts, patch otherwise; it fails exactly where a document of one identity is missing |
| Compatibility.CoreLessExactly | ergasterion/source_delivery.py:1058-1080 | Cores are ordered by the first of major, minor and patch in which they differ |
| Compatibility.AcceptedBumpSteps | ergasterion/source_delivery.py:1058-1080 | A bump is accepted exactly when the documents are the same or the core rises, the major number rises where one identity stops continuing, and the major or minor number rises where it goes on with changed facts |
| RegistryOutcomes.BumpIsRefused | ergasterion/source_delivery.py:1058-1080 | Which bump error two documents meet: no increase, a major number kept across a break, a minor number kept across changed facts |
| Compatibility.ContinuesTransitive | ergasterion/source_delivery.py:1094-1103 | Continuing composes, so a closure may be read as one series |
| Registry.PlannedActivation | ergasterion/source_delivery.py:1269-1379 | An accepted activation carries exactly when the candidate continues the last activated document and stages a reset otherwise; the whole new state and migration are given |
| RegistryOutcomes.ActivationExactly | ergasterion/source_delivery.py:1269-1379 | An activation is accepted exactly at the read revision, from the active document, with a registered candidate whose version follows; a carry with its instant and an ancestry within both ceilings, a reset without an instant |
| RegistryOutcomes.ActivationOutcome | ergasterion/source_delivery.py:1269-1379 | Every activation has the error of the first check it fails, or the carried or staged state and migration |
| RegistryOutcomes.RegistrationExactly | ergasterion/source_delivery.py:1218-1245 | A candidate is registered exactly at the read revision, with a document, and with nothing else in flight; the new state and each refusal are given |
| RegistryOutcomes.ConfirmationExactly | ergasterion/source_delivery.py:1382-1419 | A baseline is confirmed exactly at the read revision, where one is pending, with an instant; the new state and each refusal are given |
| RegistryOutcomes.StepExactly | ergasterion/source_delivery.py:1218-1419 | In every registry that satisfies the invariant an acceptable request is carried out and any other changes nothing |
| Registry.StepIsAcceptedOrNothing | ergasterion/source_delivery.py:1218-1419 | Every request either changes nothing or is one of the four accepted transitions from the expected revision |
| Registry.RegisterKeeps | ergasterion/source_delivery.py:1218-1245 | Registering keeps the invariant |
| Registry.CarryKeeps | ergasterion/source_delivery.py:1313-1345 | A carry keeps the invariant, and never happens while a baseline is pending |
| Registry.StageKeeps | ergasterion/source_delivery.py:1347-1379 | Staging a reset keeps the invariant |
| Registry.ConfirmKeeps | ergasterion/source_delivery.py:1382-1419 | Confirming a baseline keeps the invariant |
| Registry.AcceptedKeeps | ergasterion/source_delivery.py:1130-1178 | Every accepted transition keeps the invariant |
| Registry.RunKeeps | ergasterion/source_delivery.py:1130-1178 | In every run ancestry is the contiguous run of epochs since the last reset, empty exactly when nothing is active; a pending baseline resets the active digest to the registered candidate at the next epoch; migrations chain |
| Registry.CarryAlwaysHasActive | ergasterion/source_delivery.py:1313-1317 | The refusal of a carry without an active contract never happens, in any state |
| Registry.RestagingChangesOnlyRevision | ergasterion/source_delivery.py:1347-1379 | Staging a staged reset again changes the revision and nothing else |
| Registry.CapacityBindsCarries | ergasterion/source_delivery.py:1248-1266 | An accepted carry fits both ceilings, and the ceilings never refuse a reset |
| RegistryOutcomes.EpochListReads | ergasterion/source_delivery.py:1248-1266 | The list the byte ceiling counts reads back: brackets around the epochs' numerals, without leading zeros or spaces, between commas |
| RegistryHistory.ClosureIsOneSeries | ergasterion/source_delivery.py:1094-1103 | In every run, for two epochs of the current closure, the later contract continues the earlier one |
| RegistryHistory.ClosureIsMaximal | ergasterion/source_delivery.py:1094-1103 | A closure's root is the first activation or does not continue the contract before it |
| RegistryHistory.VersionsIdentifyContracts | ergasterion/source_delivery.py:1058-1080 | Over a run the active core never falls and rises exactly when the active digest changes |
| RegistryHistory.SameMajorIsOneClosure | ergasterion/source_delivery.py:1181-1215 | Activations of one major number are separated by carries alone exactly when the identity does not change between them |
| RegistryHistory.SameMinorIsSameFacts | ergasterion/source_delivery.py:1058-1080 | Over a run, activations of one unbroken identity with equal major and minor numbers have the same columns, published columns, schedule, policies, display name, quality and trust |
| RegistryHistory.SameMajorAcrossResets | ergasterion/source_delivery.py:1181-1215 | A concrete run over three accepted contracts, every activation of which is a reset, activates one identity twice under one major number |
| RegistryHistory.CarryRuns | ergasterion/source_delivery.py:1313-1345 | After any run a next version of the active series can be registered and carried to, which extends the closure by one epoch |
| RegistryHistory.CarriesHappen | ergasterion/source_delivery.py:1313-1345 | A concrete run over two accepted versions of one table ends in a closure of two epochs |
| RegistryHistory.AcceptedButNeverRegistered | ergasterion/source_delivery.py:1218-1245 | An accepted contract is refused by registration, in every state and at every revision, exactly when its tombstone values or snapshot key ids repeat |
| RegistryHistory.InterleavingKeeps | ergasterion/source_delivery.py:1218-1419 | However clients interleave, the invariant holds and no client has read a future revision |
| RegistryHistory.StaleClientChangesNothing | ergasterion/source_delivery.py:1292-1299 | A client whose read is out of date never changes the registry |
| RegistryHistory.FreshClientIsAnswered | ergasterion/source_delivery.py:1218-1419 | A client that reads and then submits has an acceptable request carried out at the revision it read, and any other changes nothing |
| RegistryHistory.OneSuccessorPerRevision | ergasterion/source_delivery.py:1218-1245 | Each revision has at most one accepted successor |
| RegistryHistory.HistoryGrows | ergasterion/source_delivery.py:1218-1419 | The revision and the list of completed migrations only grow |
| RegistryHistory.CandidateLeavesByActivation | ergasterion/source_delivery.py:1218-1245 | A registered candidate that is no longer registered was activated in between |
| RegistryHistory.LedgerIsOneChain | ergasterion/source_delivery.py:1292-1419 | Completed migrations chain digests and epochs without a gap, and the last ends at the active contract |
| Text.SplitJoin | ergasterion/source_delivery.py:1434 | Splitting a joined list of separator-free pieces returns them |
| Text.WordsRoundTrip | ergasterion/source_delivery.py:1477 | Splitting words separated by spaces returns them |
| Text.WordsAreWords | ergasterion/source_delivery.py:1477 | The fields of a split expression are non-empty and hold no white space of any kind |
| Text.SpacesExactly | ergasterion/source_delivery.py:1477 | White space is the 29 code points that separate fields |
| Cron.ParseCronField | ergasterion/source_delivery.py:1432-1458 | Growing the value set part by part gives the specified set or the first part's error |
| Cron.FieldIsUnion | ergasterion/source_delivery.py:1432-1458 | An accepted field is the union of its parts' progressions and lies in its domain |
| Cron.PartRoundTrip | ergasterion/source_delivery.py:1435-1457 | Every written star, number, range and step parses to what it means |
| CronMeaning.ReadPart | ergasterion/source_delivery.py:1435-1457 | A part that can be read is accepted exactly without a fault, as the progression it writes, and otherwise refused for the first fault: a step of zero, a step on a number, a bound outside the domain, a descending range |
| CronMeaning.UnreadPart | ergasterion/source_delivery.py:1424-1438 | A part is no part exactly when no star, number or range, with or without a step, is written so |
| CronMeaning.FieldAcceptedExactly | ergasterion/source_delivery.py:1432-1458 | A field is accepted exactly when every part of its comma list can be read and has no fault |
| CronMeaning.FieldAdmits | ergasterion/source_delivery.py:1432-1458 | An accepted field holds exactly the values some part of its text names |
| Cron.FieldRoundTrip | ergasterion/source_delivery.py:1432-1458 | A comma list of well-formed parts parses to the union of their meanings |
| Cron.NumberListRoundTrip | ergasterion/source_delivery.py:1432-1458 | Writing an in-domain set as a comma list and parsing it returns the set |
| Cron.ParseCronExpression | ergasterion/source_delivery.py:1472-1498 | An expression of five words parses exactly when each is accepted in its domain, to what they allow; the emptiness refusal never fires |
| Cron.AcceptedInDomain | ergasterion/source_delivery.py:1472-1498 | Every accepted expression keeps its five value sets inside their domains, as the day search assumes |
| Cron.DateAndTimeRoundTrip | ergasterion/source_delivery.py:1472-1498 | The written form of any minute, hour, day and month parses to exactly that date and time |
| CronDays.WeekdayEarlyInMonth | ergasterion/source_delivery.py:1501-1511 | Every month has every weekday among its first seven days, within 372 days of any start |
| CronMeaning.DayMatchesExactly | ergasterion/source_delivery.py:1501-1511 | A day matches exactly when the written month admits it and so do the day fields: both where one is a star, either where neither is |
| CronMeaning.WeekdayFromSunday | ergasterion/source_delivery.py:1504 | Weekdays count from Sunday, 2 January 2000, by sevens |
| CronMeaning.LeapYearsBefore | ergasterion/source_delivery.py:1556 | The days before a year are 365 a year and one for every leap year before it, the centuries counted |
| Calendar.EveryYearWithin | ergasterion/source_delivery.py:1425 | A month and day that every year has comes round within 366 days |
| Calendar.ConsecutiveLeapDays | ergasterion/source_delivery.py:1425 | Consecutive leap days are 1461 days apart, or 2921 across a skipped century |
| CronDays.LeapDayWindow | ergasterion/source_delivery.py:1425 | An expression for 29 February alone matches inside such a window exactly when no skipped century spans it |
| CronDays.SearchWindowSuffices | ergasterion/source_delivery.py:1556-1565 | Any expression that can match matches within any 1461 or more consecutive days, the searched 1474 among them, except exactly 29 February alone in a skipped-century gap |
| CronDays.CenturyGapExists | ergasterion/source_delivery.py:1425 | The expression for 29 February, in its domain and matching other days, matches none of the 1474 days from 1 March 2096, which hold no 29 February |
| CronDays.LeapDayMidnightParses | ergasterion/source_delivery.py:1472-1498 | `0 0 29 2 *` is accepted and parses to the expression of the gap |
| Schedule.ResolutionIsExact | ergasterion/source_delivery.py:1514-1524 | Resolving a local time returns exactly the instants that show it, each once, at most two |
| Schedule.InstantsShow | ergasterion/source_delivery.py:1514-1524 | An instant resolves a day, hour and minute exactly when its local time shows them on the whole minute |
| Schedule.CronDayOccurrences | ergasterion/source_delivery.py:1527-1534 | The occurrences of a local day are listed ascending, all of them and nothing else |
| CronMeaning.OccursExactly | ergasterion/source_delivery.py:1527-1534 | An instant is an occurrence exactly when its local time is a whole minute of a date that the five written fields admit |
| Schedule.CurrentCronBoundary | ergasterion/source_delivery.py:1549-1566 | The backward day search finds the greatest eligible occurrence of the first day back that has one, or none in the searched days |
| Schedule.NextCronBoundary | ergasterion/source_delivery.py:1583-1601 | The forward day search finds the least eligible occurrence of the first day on that has one, or none |
| Boundaries.SearchFloorIsLatest | ergasterion/source_delivery.py:1587 | The forward search starts from the later of the instant and the last microsecond before the start |
| Boundaries.CurrentIsGreatestExactly | ergasterion/source_delivery.py:1537-1567 | The backward search returns the greatest occurrence, for every authored expression and all arguments, exactly in zones where no later instant is on an earlier local day than a whole local minute |
| Boundaries.NextIsLeastExactly | ergasterion/source_delivery.py:1570-1602 | The forward search returns the least occurrence, for every authored expression and all arguments, exactly in the mirrored zones |
| BoundaryMeaning.CurrentByText | ergasterion/source_delivery.py:1549-1567 | In zones whose local day never runs backwards around a whole minute: the greatest instant from the start up to `at` whose local time the written fields admit, or none with all of them 1474 or more local days back |
| BoundaryMeaning.NextByText | ergasterion/source_delivery.py:1583-1601 | In the mirrored zones: the least such instant strictly after `at` and not before the start, or none within 1474 local days |
| Boundaries.YearlyIsAuthored | ergasterion/source_delivery.py:1472-1498 | The expression for the date and time a zone shows at a whole minute is the parse of a written one |
| Boundaries.BackwardUnique | ergasterion/source_delivery.py:1556-1566 | The backward search has one outcome |
| Boundaries.ForwardUnique | ergasterion/source_delivery.py:1589-1601 | The forward search has one outcome |
| Boundaries.NothingBetween | ergasterion/source_delivery.py:1537-1602 | No occurrence lies strictly between the current boundary and the next |
| Boundaries.IsEligibleCronBoundary | ergasterion/source_delivery.py:1605-1617 | A cron boundary is eligible exactly when it is an occurrence between the schedule's start and the evaluation time, in every zone |
| Boundaries.IntervalBoundaries | ergasterion/source_delivery.py:1543-1582 | The interval form returns the greatest multiple up to an instant and the least one after it |
| Boundaries.IsEligibleIntervalBoundary | ergasterion/source_delivery.py:1605-1617 | An interval boundary is eligible exactly when it is on the interval and not after the evaluation time |
| Boundaries.OneTransitionFoldAware | ergasterion/source_delivery.py:1514-1524 | Every zone with one change of offset resolves as assumed |
| Boundaries.GapOrdinaryAndFold | ergasterion/source_delivery.py:1514-1524 | A skipped local time has no instant, a repeated one two, any other one |
| Boundaries.OneTransitionNeverBefore | ergasterion/source_delivery.py:1556-1566 | A zone with one change of offset has the monotone local day exactly when the change does not set the clock back across midnight past a whole minute |
| Boundaries.OneTransitionNeverAfter | ergasterion/source_delivery.py:1589-1598 | Such a zone suits the forward search exactly when the first whole minute after the change is of no earlier day than the last instant before it |
| Boundaries.MidnightFoldShows | ergasterion/source_delivery.py:1514-1524 | The clock of that zone shows 00:01 of one day and then 23:01 of the day before |
| Boundaries.MidnightFoldFails | ergasterion/source_delivery.py:1537-1602 | In a zone set back an hour at 00:01 both searches return wrong boundaries for some authored expression and instants |
| Boundaries.NextRefusedExactly | ergasterion/source_delivery.py:1589-1601 | In a zone where no later instant is on an earlier local day than a whole minute, the forward search is refused exactly when nothing is left of its first day and no later searched day that matches shows a listed minute |
| Boundaries.NextRefusedInGap | ergasterion/source_delivery.py:1589-1601 | Where every matching searched day shows a listed minute, that is exactly when nothing is left of the first day and the expression matches no date, or only 29 February in a skipped-century gap |
| Boundaries.CurrentMissingExactly | ergasterion/source_delivery.py:1556-1567 | In the mirrored zones the backward search returns nothing exactly when nothing of the evaluation day is due and no earlier searched day that matches shows a listed minute since the start |
| Boundaries.CurrentMissingInGap | ergasterion/source_delivery.py:1556-1567 | Where the start is earlier than the searched days and every matching one shows a listed minute, that is exactly when nothing of the day is due and the expression matches no date, or only 29 February in a skipped-century gap |
| Relations.ChosenIsPublished | ergasterion/framework/contract.py:1366-1410 | A declared relation resolves to the published name it prefixes, exactly when that is published |
| Relations.PublishedNameExactly | ergasterion/framework/contract.py:677-678 | A reference's published name is what stands before its first `@` |
| Relations.KeysNeverCollide | ergasterion/framework/contract.py:718-730 | Two reads share a key exactly when they read one producer under one relation, or both under none |
| Relations.ResolvedNameExactly | ergasterion/framework/contract.py:1366-1410 | A read that names no relation resolves exactly to the only one, and one that names a relation exactly to the published name it prefixes; the errors tell the two apart |
| Relations.ResolveReadExactly | ergasterion/framework/contract.py:1413-1478 | A read of a resolved product returns the schema of the relation it picks, the only one or the one its relation names; a read of an opening schema that schema, where it names no relation |
| Relations.RefusedReadExactly | ergasterion/framework/contract.py:1413-1478 | A read is unresolved exactly when its producer is nowhere, and ambiguous exactly when it names none of several relations |
| Relations.SourceSchemasHold | ergasterion/framework/contract.py:1527-1544 | Every key a consumer reads holds the schema its last read resolves to, and every other key the opening schema |
| Relations.SourceSchemasExactly | ergasterion/framework/contract.py:1481-1544 | The schemas exist exactly when every read resolves; otherwise the first refused read's error is returned |
| RelationRegistry.Pass | ergasterion/framework/contract.py:1642-1688 | One pass only adds derived products, fails only at a product all of whose reads are there, and without progress nothing left is available |
| RelationRegistry.NextPass | ergasterion/framework/contract.py:1641-1688 | A pass resolves more or ends resolution with its verdict |
| RelationRegistry.ResolveRelationRegistry | ergasterion/framework/contract.py:1617-1690 | In every estate resolution terminates: with what deriving the products one by one in an order that respects their reads makes, with a product that derives nothing from such a part although all it reads is there, or with the sorted products stuck on each other |
| RelationRegistry.ResolutionIsSolution | ergasterion/framework/contract.py:1617-1690 | Where landing products republish the opening schemas, what is returned is the one solution of the estate's equations, and a failing product means there is none |
| RelationRegistry.OutcomeTellsOrder | ergasterion/framework/contract.py:1641-1690 | Whatever products publish, a returned registry comes of an order in which every product follows what it reads, and resolution stops for want of progress only where there is no such order |
| RelationRegistry.RelationsAreStable | ergasterion/framework/contract.py:1527-1544 | Once a product's reads are available, resolving more does not change what it publishes, stored names of landing products included |
| RelationRegistry.DerivationIsSolution | ergasterion/framework/contract.py:1617-1690 | Deriving in a valid order gives the one solution, or there is none |
| RelationRegistry.ValidOrderNeverSticks | ergasterion/framework/contract.py:1617-1690 | No set of products waits on itself when they have a valid order |
| RelationRegistry.ResolutionFollowsGraphOrder | ergasterion/framework/contract.py:1617-1690 | Where edges cover the reads and have an order, the passes never stop for want of progress and return what deriving in that order returns |
| RelationRegistry.ResolutionFollowsOrder | ergasterion/framework/contract.py:1617-1690 | The same for any order in which every product follows what it reads |
| EstateRelations.DerivePropagated | ergasterion/framework/contract.py:1204-1240 | Derivation is what propagation leaves after the last step, with the fields validation rules require marked, and nothing where propagation is refused |
| EstateRelations.RequiredFieldNames | ergasterion/framework/contract.py:733-744 | The required names are exactly those some validation rule forbids to be null or wants complete |
| EstateReads.RequiresExactly | ergasterion/framework/contract.py:733-744 | A field is required by the rules exactly when a validation step forbids it to be null or wants it complete |
| EstateReads.DerivedExactly | ergasterion/framework/contract.py:1204-1240 | What is derived is field by field what the last step carries, without description or stored name, required where it was or a rule says so |
| EstateRelations.DerivationIgnoresStoredNames | ergasterion/framework/contract.py:1204-1240 | The fields a product derives, marks included, do not depend on the names its sources' columns are stored under |
| EstateRelations.InputIsEdge | ergasterion/framework/graph.py:631-676 | Every declared read is of an opening schema or is an edge of the graph |
| EstateReads.InputsExactly | ergasterion/framework/contract.py:1481-1524 | What a product reads is exactly what its sources and lookups declare |
| EstateReads.DeclaredReadsAreHeld | ergasterion/framework/contract.py:1481-1544 | Where no contract name holds the character that parts a key, every source opens on and every lookup borrows from the schema of the relation it declares |
| EstateRelations.BuiltOrderIsValid | ergasterion/framework/graph.py:679-695 | In the order of the built graph every product follows what it reads |
| EstateRelations.ResolutionFollowsBuiltGraph | ergasterion/framework/contract.py:1617-1690 | Once the graph is ordered, resolution with derivation by propagation never stops for want of progress and returns what deriving in the graph's order returns |
| EstateRelations.ResolveEstate | ergasterion/framework/graph.py:972-997 | Ordering an estate and resolving its relations, in one: the order is refused exactly on an unresolved read or a cycle, and resolution returns what deriving in that order returns |
| Composition.ConformSource | ergasterion/framework/contract.py:810-885 | A source conforms exactly when it maps existing columns once each to distinct names; its fields and columns are then given position by position |
| CompositionOutcomes.ConformExactly | ergasterion/framework/contract.py:810-885 | A mapped column is published under the entry's name and type, optional; any other as it is but for its stored name; each column says what it is read from and cast to |
| Composition.UnionFields | ergasterion/framework/contract.py:888-934 | Sources union exactly when all have the first one's names and types; the first one's fields are published |
| CompositionOutcomes.SameShapeExactly | ergasterion/framework/contract.py:888-934 | Two sources have one shape exactly when each carries every field of the other under its type |
| Composition.MergeKeys | ergasterion/framework/contract.py:960-990 | Keys merge exactly when every source carries each with the first one's type |
| CompositionOutcomes.KeyAgreesExactly | ergasterion/framework/contract.py:960-990 | A key agrees exactly when every source carries it under one type |
| Composition.BringFields | ergasterion/framework/contract.py:991-1013 | One source's other fields are brought exactly when none repeats a name already brought |
| CompositionOutcomes.BroughtInOrder | ergasterion/framework/contract.py:991-1013 | A source brings exactly its fields that are no keys, in its order, an outer merge never as required |
| Composition.MergedFields | ergasterion/framework/contract.py:937-1013 | A merge succeeds exactly on agreeing keys and distinct other names, and publishes keys first, then the rest, optional under an outer join |
| CompositionOutcomes.MergedExactly | ergasterion/framework/contract.py:937-1013 | A merge publishes its keys as the first source has them and then what each source brings, source after source |
| OpeningComposition.ResolveSources | ergasterion/framework/contract.py:1036-1059 | Every source resolves exactly when its relation is supplied, carries what is expected and conforms |
| OpeningComposition.SourceReadyExactly | ergasterion/framework/contract.py:1036-1059 | A source is ready exactly where it reads a supplied relation, conforms, and finds every field expected of it |
| OpeningComposition.ResolveOpeningComposition | ergasterion/framework/contract.py:1016-1110 | The opening is resolved exactly when its sources are ready and combine, and every part of it is given; a refusal is of the first source that is not ready, or of the combination |
| CompositionRows.ConformKeepsMarks | ergasterion/framework/contract.py:846-885 | A row that satisfies a source's schema satisfies the conformed fields once renamed and cast |
| CompositionRows.UnionMarksExactly | ergasterion/framework/contract.py:888-934 | The published marks hold of every row of another source exactly when it is at least as required |
| CompositionRows.MergeMarksHold | ergasterion/framework/contract.py:937-1013 | Marks published by an inner merge hold of every joined row, and by an outer merge where keys are as required |
| CompositionRows.OuterMarksExactly | ergasterion/framework/contract.py:945-1013 | An outer merge's marks hold of every row exactly when every source requires the keys the first requires |
| CompositionRows.SortedColumnsLineUp | ergasterion/framework/contract.py:1073-1088 | After sorting, the k-th column has the k-th published name |
| CompositionRows.UnionStacksByPosition | ergasterion/framework/contract.py:1073-1088 | The k-th cell and type of every source are those its k-th published name gives, so stacking by position is stacking by name |
| OpeningComposition.OpenedMergeRowsSatisfy | ergasterion/framework/contract.py:1089-1110 | Rows joined from rows of the sources' relations, renamed and cast, satisfy the published fields of an opened merge |
| OpeningComposition.OpenedUnionRowsSatisfy | ergasterion/framework/contract.py:1073-1088 | Rows an opened union stacks by position satisfy its published fields |
| FieldPropagation.TransformFields | ergasterion/framework/contract.py:1140-1147 | Popping and setting entry by entry gives the specified ordered fields |
| FieldOutcomes.AssignedInPlace | ergasterion/framework/contract.py:1129-1147 | Assigning a carried name replaces its field in place, and a new one goes to the end |
| FieldOutcomes.TakenFromPlace | ergasterion/framework/contract.py:1140-1147 | Taking a name away leaves the others in their order |
| FieldPropagation.LastTouchDecides | ergasterion/framework/contract.py:1140-1147 | After a mapping a name is as its last touching entry leaves it: set with that type, or gone; untouched names are unchanged |
| FieldPropagation.DeclaredIsCarriedExactly | ergasterion/framework/contract.py:1140-1147 | A field a mapping declares is carried after it exactly when no later entry takes it away for good |
| FieldPropagation.LastCalculationDecides | ergasterion/framework/contract.py:1149-1153 | The last calculation of a name decides its type; other fields are unchanged |
| FieldPropagation.AggregationLeaves | ergasterion/framework/contract.py:1169-1185 | The names an aggregation leaves are exactly its grain, its groups and its aggregates |
| FieldPropagation.LastAggregateDecides | ergasterion/framework/contract.py:1169-1185 | An aggregate has its declared type, a grouped field is carried as it was, and nothing else is left |
| FieldPropagation.EnrichFields | ergasterion/framework/contract.py:1155-1167 | Lookups add typed fields in order or fail at the first unresolved source or field |
| FieldOutcomes.EnrichOutcome | ergasterion/framework/contract.py:1155-1167 | An enrichment succeeds exactly when every lookup reads a supplied relation that carries what it names; else the first failure is told |
| FieldPropagation.LastLookupDecides | ergasterion/framework/contract.py:1155-1167 | A looked-up field has the type of the relation the last lookup that brings it reads; other fields are unchanged |
| FieldPropagation.PropagateSteps | ergasterion/framework/contract.py:1133-1199 | The field set after each step is the specified one, and the first failing step's error ends propagation |
| FieldOutcomes.StepOutcome | ergasterion/framework/contract.py:1131-1199 | A step fails exactly where a lookup does not resolve, a grouped field is not carried or an aggregate has no name or type; any pattern but the four carries its fields on |
| FieldPropagation.PropagateRelationFields | ergasterion/framework/contract.py:1113-1201 | Propagation opens as composition resolves, refuses exactly what composition refuses, and then follows the steps |
| FieldPropagation.FieldsStayDistinct | ergasterion/framework/contract.py:1131-1199 | After every step no two fields share a name |
| RelationEvolution.OffendingFields | ergasterion/framework/contract.py:2078-2093 | The offending fields are exactly those removed, retyped, or required now and not before, listed kind by kind in name order |
| RelationEvolution.OffenceExactly | ergasterion/framework/contract.py:2078-2090 | Each offence field by field: gone, there under another type, required and not required before |
| RelationEvolution.ClassifyRelationChange | ergasterion/framework/contract.py:2071-2098 | A change is major exactly when some field offends, and unchanged exactly when none does and the names are the same |
| RelationEvolution.CheckConsumerCompatibility | ergasterion/framework/contract.py:2136-2157 | A candidate passes exactly when it keeps the name and no field offends; otherwise the first offending field is named |
| RelationEvolution.AcceptsExactly | ergasterion/framework/contract.py:2136-2157 | A candidate is accepted exactly when it keeps the relation's name and every field under its type, requires no field that was optional and adds none that is required |
| RelationEvolution.AcceptedHistoriesCompose | ergasterion/framework/contract.py:2136-2157 | Over an accepted history every later schema is accepted of every earlier one |
| RelationEvolution.OldRowsStillServe | ergasterion/framework/contract.py:2071-2098 | Rows written before an accepted change satisfy the candidate once added fields are null |
| RelationEvolution.ConsumerUnaffectedExactly | ergasterion/framework/contract.py:2139-2144 | Every row of an accepted candidate satisfies the prior schema exactly when no required field was relaxed |
| ProductOrder.TopologicalOrder | ergasterion/framework/graph.py:679-695 | The loop returns the rounds of the product and edge sets alone, in whatever sequence the edges come |
| ProductOrder.RoundsMeaning | ergasterion/framework/graph.py:679-695 | Rounds place every product after its producers, or strand exactly those that lead into a cycle |
| ProductOrder.OrderIsItsRounds | ergasterion/framework/graph.py:679-695 | An order is its rounds, each the products that became ready, in name order |
| ProductOrder.OrderRespectsEdges | ergasterion/framework/graph.py:679-695 | The order is a duplicate-free permutation in which producers precede consumers |
| ProductOrder.RefusalIsCycles | ergasterion/framework/graph.py:688-691 | The order is refused exactly when a cycle exists, naming in order exactly the products that lead into one |
| FieldLineage.CompositionFieldsFor | ergasterion/framework/graph.py:771-926 | The records, with their transforms, and the declared fields are listed in source, step, output and origin order |
| LineageMeaning.LineageExactly | ergasterion/framework/graph.py:771-926 | The lineage holds exactly the records the declared sources and steps state: renames, expression columns or texts, rules with versions, looked-up and grouped fields, each with its kind, product, source, occurrence and transform |
| LineageMeaning.DeclarationsExactly | ergasterion/framework/graph.py:843-924 | The declared fields are exactly those the steps name, each at its step |
| LineageMeaning.LineageInOrder | ergasterion/framework/graph.py:821-926 | Records are listed source after source and then step after step |
| FieldLineage.TransformRecordsExactly | ergasterion/framework/graph.py:847-863 | A mapping records exactly its renames, each from the name taken to the name given; a drop records nothing |
| FieldLineage.LookupOutputsExactly | ergasterion/framework/graph.py:889-902 | Lookups declare exactly their fields, each from the same field of the product read |
| FieldLineage.DeclaredExactlyWhenRecorded | ergasterion/framework/graph.py:794-820 | A field is declared at a step exactly when a lineage record of that step has it as target |
| FieldLineage.StepExplains | ergasterion/framework/graph.py:843-924 | What a step carries it carried before or declares, and every step but a mapping carries all it declares |
| FieldLineage.OpeningIsExplained | ergasterion/framework/graph.py:828-841 | An opening field arrives under its own name from a source or is the target of a conformance record |
| FieldLineage.CarriedFieldIsExplained | ergasterion/framework/contract.py:1113-1201 | Every field carried after the first i steps comes from a source under its own name or is the target of a record that a source or one of those steps states |
| ProductGraph.ReadsExactly | ergasterion/framework/graph.py:564-620 | The reads that become edges are exactly the declared sources that are no fixture, and the lookups |
| ProductGraph.EdgesFor | ergasterion/framework/graph.py:631-676 | Edges exist exactly when every read names a product and one of its relations, and are the edges of those reads sorted by ends, kind and contract; a refusal is of the first such read, by consumer name and declaration order |
| ProductGraph.EdgeOfExactly | ergasterion/framework/graph.py:631-676 | One read becomes one edge that carries its kind, contract and producer and the relation it picks |
| ProductGraph.EdgeRefusedExactly | ergasterion/framework/graph.py:641-675 | A read has no edge exactly when its producer is no product, it names none of several relations, or one that is not published |
| ProductGraph.EdgesExactly | ergasterion/framework/graph.py:631-676 | The listed edges are exactly those of the declared reads |
| EstateGraph.EdgesAreDeclaredReads | ergasterion/framework/graph.py:631-676 | The edges are exactly those of the declared sources and lookups, field by field |
| ProductGraph.GenerationExactly | ergasterion/framework/graph.py:698-721 | A product is of the first generation exactly when it reads landing products and fixtures alone, consolidating exactly when two sources read other products, and unclassified exactly without a source |
| GraphMeaning.NodeExactly | ergasterion/framework/graph.py:999-1018 | A node has its product's name, relations, generation and checkpoint, and a table exactly where it checkpoints |
| ProductGraph.ValidationsFor | ergasterion/framework/graph.py:929-969 | Every rule of every validation step is recorded in order, exactly when no reconciliation names a contract that is no source; a refusal names such a contract |
| GraphMeaning.ReconcilesExactly | ergasterion/framework/graph.py:929-969 | Reconciliations are accepted exactly when each names a contract that a source other than a fixture reads |
| GraphMeaning.ValidationsExactly | ergasterion/framework/graph.py:929-969 | A composition records exactly the rules its validation steps state, each with step, stage, subject and contracts |
| GraphMeaning.ValidationsInOrder | ergasterion/framework/graph.py:929-969 | Rules are recorded step after step |
| ProductGraph.AssertCoverage | ergasterion/framework/graph.py:1081-1157 | The assertion passes exactly on covered graphs |
| GraphMeaning.CoveredExactly | ergasterion/framework/graph.py:1081-1157 | A graph passes the assertion exactly when its parts speak of its nodes, name what they speak of, checkpoint tables alone, and every declared field has a record |
| ProductGraph.StepSound | ergasterion/framework/graph.py:1125-1138 | A step's records are complete exactly when the step names what it must |
| EstateGraph.CoverageExactly | ergasterion/framework/graph.py:1081-1157 | An assembled graph is covered exactly when shapes publish named relations, declarations leave nothing they record unnamed, and registrations name their relations |
| EstateGraph.EdgeListingIsUnique | ergasterion/framework/graph.py:1064-1066 | The listing of edges depends on which edges there are and on nothing else |
| GraphMeaning.EdgesAscend | ergasterion/framework/graph.py:1064-1066 | The listing of edges ascends by source, target, kind, contract and relation |
| EstateGraph.PlaceAuxiliary | ergasterion/framework/graph.py:1030-1062 | Registrations are placed exactly when each belongs to the estate or a product and claims no published relation; those of products become edges |
| StoredNames.AddressableRelations | ergasterion/framework/declaration.py:549-568 | Exactly the published relations are addressed, the product's own without a key and any other by what follows its prefix |
| StoredNames.AddressIdentifies | ergasterion/framework/declaration.py:549-568 | Two keys never address one relation |
| StoredNames.AddressedAsRead | ergasterion/framework/graph.py:747-750 | A key addresses a relation exactly where a read that declares it resolves to that relation |
| StoredNames.StoredNamesFor | ergasterion/framework/graph.py:724-768 | The records of a declaration's stored names are given in order, exactly when every key addresses a relation the product publishes; else the first that does not is named |
| StoredNames.StoredRelationsExactly | ergasterion/framework/graph.py:751-759 | A relation has a record exactly where its entry states a schema or a name |
| StoredNames.StoredFieldsExactly | ergasterion/framework/graph.py:760-768 | A column has a record, with its logical and physical name, exactly where its entry states one |
| EstateGraph.StoredNamesAreSound | ergasterion/framework/graph.py:1025-1027 | A graph records a relation's stored name at most once, and speaks only of relations their products publish |
| EstateGraph.RecordProducts | ergasterion/framework/graph.py:999-1027 | Product after product in order, the nodes, lineage, declared fields, validations and stored names are gathered, or the first product without a generation, a reconcilable rule or an addressable name is refused |
| EstateGraph.ResolveOrder | ergasterion/framework/graph.py:996-997 | Products are ordered, in the one order of the rounds, exactly when every read resolves and no cycle exists; producers precede consumers, and the first unresolved read is named |
| EstateGraph.BuildProductGraph | ergasterion/framework/graph.py:972-1075 | The build succeeds exactly when keys, reads, order, generations, reconciliations, stored names and registrations resolve and names are stated; a refusal is the first of those to fail, the coverage refusal exactly when only the names are missing |
| GraphMeaning.GraphExactly | ergasterion/framework/graph.py:972-1075 | A built graph holds exactly the nodes, edges, lineage, validations, declared fields and stored names its declarations and registrations state |
| AuxiliaryRelations.AuxiliaryRelationRegistry.Register | ergasterion/framework/graph.py:446-474 | An entry is refused exactly when a field is empty or its relation is registered otherwise; else it alone is added |
| AuxiliaryRelations.AuxiliaryRelationRegistry.Relations | ergasterion/framework/graph.py:476-479 | Every registration is listed once, by product and relation |
| AuxiliaryRelations.ListingIsUnique | ergasterion/framework/graph.py:476-479 | The listing depends on the registrations alone |
| AuxiliaryRelations.ListedAreNamed | ergasterion/framework/graph.py:446-474 | A listed registration never makes coverage fail |
| GeneratedFiles.ReadHasNoReturn | ergasterion/framework/contract.py:179 | Reading text returns it unchanged exactly when it has no carriage return |
| GeneratedFiles.ReadTextExactly | ergasterion/framework/contract.py:179 | Reading a file keeps its lines and makes every end between them, alone or paired, one newline |
| GeneratedFiles.LinesOf | ergasterion/framework/contract.py:179 | Every file is such lines and ends |
| GeneratedFiles.FileSystem.WriteGeneratedFiles | ergasterion/framework/contract.py:159-185 | Writing leaves exactly the specified disk and lists the orphans and then, in name order, exactly the missing and drifted paths; it lists nothing exactly on a clean disk |
| GeneratedFiles.FileSystem.CheckGeneratedFiles | ergasterion/framework/contract.py:188-216 | The check returns the report: generated files in name order, then each pattern's orphans; it is empty exactly on a clean disk |
| GeneratedFiles.ReportExactly | ergasterion/framework/contract.py:188-216 | The report holds exactly the missing, drifted and orphaned paths |
| GeneratedFiles.CleanExactly | ergasterion/framework/contract.py:159-216 | On every disk the check is clean exactly when a write changes nothing and no generated content has a carriage return |
| GeneratedFiles.CheckAgreesWithWrite | ergasterion/framework/contract.py:159-216 | The check is clean exactly when a write changes nothing, on all disks, exactly when no generated content has a carriage return |
| GeneratedFiles.WriteThenCheckExactly | ergasterion/framework/contract.py:159-216 | After a write the check is clean exactly when no generated content has a carriage return |
| GeneratedFiles.WriteIsIdempotent | ergasterion/framework/contract.py:159-185 | A second write changes nothing, on every disk |
| GeneratedFiles.OthersUntouched | ergasterion/framework/contract.py:159-185 | A path neither generated nor matched by a prune pattern keeps its state |
| GeneratedFiles.EmittersCommuteExactly | ergasterion/framework/contract.py:159-185 | Two emitters of disjoint files commute on every disk exactly when neither prunes what the other generates |
| ViewDepth.DepthSearch.ViewDepth | ergasterion/structure_gate.py:335-350 | The memoised search terminates on every graph, restores the resolving set, memoises what it returns, and returns the length of a real simple chain, which bounds every chain on acyclic graphs |
| ViewDepth.DepthSearch.DeepestReference | ergasterion/structure_gate.py:346-348 | The greatest depth among a view's references is one of theirs and bounds all of theirs |
| ViewDepth.ScanDepths | ergasterion/structure_gate.py:352-353 | Every model gets such a depth in whatever order models are visited, and a view is deeper than each reference that does not lead back to it, cycles or not |
| ViewDepth.DepthOffenses | ergasterion/structure_gate.py:544-560 | The offenders are exactly the models deeper than the ceiling, in the order listed |
| ViewDepth.MeasureIsUnique | ergasterion/structure_gate.py:332-353 | On acyclic graphs the depths do not depend on the visiting order |
| ViewDepth.DepthsBoundChainsExactly | ergasterion/structure_gate.py:332-353 | The measured depths bound every view chain exactly on acyclic graphs |
| ViewDepth.BudgetBoundsChains | ergasterion/structure_gate.py:544-560 | On acyclic graphs a passing budget bounds every view chain of the estate |
| CallScanner.QuotedOrNestedCallEnd | ergasterion/dialect_lint.py:141-166 | The loop finds the call's end as the shared cursor defines it |
| CallScanner.TopLevelCallArguments | ergasterion/dialect_lint.py:169-198 | The loop returns the stripped pieces between top-level commas |
| CallScanner.Lockstep | ergasterion/dialect_lint.py:141-198 | On a found body the splitter's scan ends unquoted at depth zero and never goes below |
| CallScanner.CallBodyIsBalanced | ergasterion/dialect_lint.py:141-198 | The body of every found call is balanced in that sense |
| CallScanner.BalancedEndsCall | ergasterion/dialect_lint.py:141-166 | A balanced body ends at the closing parenthesis the first scanner finds |
| CallScanner.PiecesRejoin | ergasterion/dialect_lint.py:169-198 | The unstripped pieces rejoin to the body |
| CallGrammar.WellFormedExactly | ergasterion/dialect_lint.py:141-198 | The arguments the scanners take for whole are exactly the texts of a grammar: plain characters, balanced parentheses, commas inside them, single-quoted literals with doubled quotes, double-quoted ones, escapes |
| CallGrammar.CallEndExactly | ergasterion/dialect_lint.py:141-166 | A call ends at exactly the parenthesis before which the text since the opening one is a comma list of such arguments |
| CallGrammar.ListSplits | ergasterion/dialect_lint.py:169-198 | A comma list of such arguments splits into those arguments, each stripped |
| CallGrammar.StripExactly | ergasterion/dialect_lint.py:190-197 | Stripping takes the white space off both ends and nothing else |
| CallScanner.SplitJoined | ergasterion/dialect_lint.py:169-198 | Splitting a comma-join of well-formed pieces returns them |
| CallScanner.ArgumentsRoundTrip | ergasterion/dialect_lint.py:169-198 | Splitting a comma-join of well-formed stripped arguments returns them |
| CallScanner.CallBodySplits | ergasterion/dialect_lint.py:141-198 | A found body's pieces are well-formed and rejoin to it |
| CallScanner.CallRoundTrip | ergasterion/dialect_lint.py:141-198 | A call written from well-formed arguments is found to end at its own parenthesis and yields them, whatever follows |

## Left out

- SHA-256, the byte production of RFC 8785, YAML, JSON Schema, Pydantic fields and regular expressions: libraries and wire shape; an `Encoding` of injective functions stands for them, versions are triples and epochs numbers.
- `validate_contract`: the zone names a database knows, the time-zone data version and the order of two scalars are the library's; the list of messages is not modelled.
- `compute_ruleset_digest` and the derived digests: projections of the same canonical forms.
- Digits outside ASCII in a cron field, and Python's bounds on years: the calendar is unbounded in both directions.
- The real time-zone database: zones are functions that satisfy `FoldAware`.
- Message wording, and which of several errors of one operation is reported where only the kind matters: for example the first unmapped or missing field is named in declaration order, not name order.
- A projection that renames its source column or changes a stored name: the classifier compares neither, and neither does the model.
- EstateGraph.BuildProductGraph: of several mismatched keys any one may be reported, because the entries are a map; a product's layer, profile and shape names are carried by no node.
- RelationRegistry.ResolveRelationRegistry: where a landing product does not republish what the estate opens with, which of the two schemas a product of the same pass reads is left open; `Republishes` makes them one.
- An expression arrives with the columns its parser resolved; the parser, which may refuse it, is not part of this model.
- GeneratedFiles.FileSystem.WriteGeneratedFiles: files are text; directories, unreadable bytes and the creation of parent directories are not modelled, and the order in which a directory search meets orphans is left open.
- GeneratedFiles.FileSystem.CheckGeneratedFiles: the text of a reported difference is not modelled.
- The stored names applied to resolved relations and what a shape makes of the fields: one arbitrary function of a declaration and its marked fields, `publish`.
- ODCS and ODPS documents, CSV and JSON serialisers, the command line, importers, scaffolding, estate loading, neutrality gates, dialect deny-lists, the ingestion runtime and the dbt translators: input, output and templating.

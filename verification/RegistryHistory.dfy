/**
  What whole runs of the migration state machine guarantee: one ancestry closure is one
  unbroken series, versions identify contracts, and stale clients change nothing
  (ergasterion/source_delivery.py:1094-1114, 1181-1419).
*/
module RegistryHistory {
  import opened Basics
  import opened LandingContract
  import opened Canonical
  import opened Acceptance
  import opened AcceptedContracts
  import opened Compatibility
  import opened Registry
  import opened RegistryOutcomes

  // ---------------------------------------------------------------- one closure, one series

  lemma {:induction false} CarriesContinue(enc: Encoding, w: World, i: nat, j: nat)
    requires Chained(enc, w) && i <= j < |w.documents|
    requires forall k | i < k <= j :: w.ledger[k].fields.kind == Carry
    ensures Continues(w.documents[i], w.documents[j])
  {
    if i < j {
      CarriesContinue(enc, w, i, j - 1);
      assert Continues(w.documents[j - 1], w.documents[j]) by {
        assert Linked(w.ledger[j - 1], w.documents[j - 1], w.ledger[j], w.documents[j]);
      }
      ContinuesTransitive(w.documents[i], w.documents[j - 1], w.documents[j]);
    }
  }

  /** Some run of commands from the initial state ends in `w`. */
  ghost predicate Reachable(enc: Encoding, w: World) {
    exists commands :: w == Run(enc, commands)
  }

  lemma ReachableInv(enc: Encoding, w: World)
    requires Faithful(enc) && Reachable(enc, w)
    ensures Inv(enc, w)
  {
    var commands :| w == Run(enc, commands);
    RunKeeps(enc, commands);
  }

  /** The digest of some contract's canonical document. */
  ghost predicate StandsFor(enc: Encoding, digest: string, c: Contract) {
    Digest(enc, c) == Ok(digest)
  }

  lemma StoodForDocument(enc: Encoding, w: World, i: nat, c: Contract)
    requires Faithful(enc) && Chained(enc, w) && i < |w.ledger|
    requires StandsFor(enc, w.ledger[i].fields.toDigest, c)
    ensures Document(enc, c) == Ok(w.documents[i])
  {
    DigestIdentifies(enc, Document(enc, c).value, w.documents[i]);
  }

  lemma ClosureIsCarries(w: World, from: nat, to: nat)
    requires |w.ledger| == w.state.epoch && AncestryIsLastRun(w)
    requires from in w.state.ancestry && to in w.state.ancestry && from <= to
    ensures 1 <= from && to <= |w.ledger|
    ensures forall k | from - 1 < k <= to - 1 :: w.ledger[k].fields.kind == Carry
  {}

  lemma ClosureContinues(enc: Encoding, w: World, from: nat, to: nat)
    requires Chained(enc, w) && AncestryIsLastRun(w)
    requires from in w.state.ancestry && to in w.state.ancestry && from <= to
    ensures 1 <= from && to <= |w.documents|
    ensures Continues(w.documents[from - 1], w.documents[to - 1])
  {
    ClosureIsCarries(w, from, to);
    CarriesContinue(enc, w, from - 1, to - 1);
  }

  /**
    In every run, for any two epochs of the current ancestry closure, whatever contracts the
    ledger's digests stand for, the later one continues the earlier one.
  */
  lemma ClosureIsOneSeries(enc: Encoding, w: World, from: nat, to: nat, earlier: Contract, later: Contract)
    requires Faithful(enc) && Reachable(enc, w)
    requires from in w.state.ancestry && to in w.state.ancestry && from <= to
    requires 1 <= from && to <= |w.ledger|
    requires StandsFor(enc, w.ledger[from - 1].fields.toDigest, earlier)
    requires StandsFor(enc, w.ledger[to - 1].fields.toDigest, later)
    ensures Document(enc, earlier).Ok? && Document(enc, later).Ok?
    ensures Continues(Document(enc, earlier).value, Document(enc, later).value)
  {
    ReachableInv(enc, w);
    StoodForContinues(enc, w, from, to, earlier, later);
  }

  lemma StoodForContinues(enc: Encoding, w: World, from: nat, to: nat, earlier: Contract, later: Contract)
    requires Faithful(enc) && Chained(enc, w) && AncestryIsLastRun(w)
    requires from in w.state.ancestry && to in w.state.ancestry && from <= to
    requires 1 <= from && to <= |w.ledger|
    requires StandsFor(enc, w.ledger[from - 1].fields.toDigest, earlier)
    requires StandsFor(enc, w.ledger[to - 1].fields.toDigest, later)
    ensures Document(enc, earlier).Ok? && Document(enc, later).Ok?
    ensures Continues(Document(enc, earlier).value, Document(enc, later).value)
  {
    StoodForDocument(enc, w, from - 1, earlier);
    StoodForDocument(enc, w, to - 1, later);
    ClosureContinues(enc, w, from, to);
  }

  /**
    The closure cannot be extended: unless it starts at the first activation, the contract
    just before its root is one its root does not continue.
  */
  lemma ClosureIsMaximal(enc: Encoding, w: World)
    requires Faithful(enc) && Reachable(enc, w) && w.state.ancestry != []
    ensures var root := w.state.ancestry[0];
            && 1 <= root <= |w.documents|
            && (root == 1 || !Continues(w.documents[root - 2], w.documents[root - 1]))
  {
    ReachableInv(enc, w);
    RootBreaks(enc, w);
  }

  lemma RootBreaks(enc: Encoding, w: World)
    requires Chained(enc, w) && AncestryIsLastRun(w) && w.state.ancestry != []
    ensures var root := w.state.ancestry[0];
            && 1 <= root <= |w.documents|
            && (root == 1 || !Continues(w.documents[root - 2], w.documents[root - 1]))
  {
    var root := w.state.ancestry[0];
    if root > 1 {
      assert Linked(w.ledger[root - 2], w.documents[root - 2], w.ledger[root - 1], w.documents[root - 1]);
    }
  }

  // ---------------------------------------------------------------- versions

  lemma {:induction false} CoresAscend(enc: Encoding, w: World, i: nat, j: nat)
    requires Chained(enc, w) && i <= j < |w.documents|
    ensures w.documents[i] == w.documents[j]
            || CoreLess(w.documents[i].product.version, w.documents[j].product.version)
  {
    if i < j {
      CoresAscend(enc, w, i, j - 1);
      assert Linked(w.ledger[j - 1], w.documents[j - 1], w.ledger[j], w.documents[j]);
    }
  }

  /**
    Over a whole run the active version core never falls, and it rises exactly when the
    active digest changes.
  */
  lemma VersionsIdentifyContracts(enc: Encoding, w: World, i: nat, j: nat)
    requires Faithful(enc) && Reachable(enc, w) && i <= j < |w.documents|
    ensures |w.ledger| == |w.documents|
    ensures var a, b := w.documents[i].product.version, w.documents[j].product.version;
            && !CoreLess(b, a)
            && (CoreLess(a, b) <==> w.ledger[i].fields.toDigest != w.ledger[j].fields.toDigest)
  {
    ReachableInv(enc, w);
    CoresAscend(enc, w, i, j);
  }

  ghost predicate OneIdentity(w: World, i: nat, j: nat)
    requires i <= j < |w.documents|
  {
    forall k | i <= k <= j :: w.documents[k].identity == w.documents[i].identity
  }

  ghost predicate OnlyCarries(w: World, i: nat, j: nat)
    requires i <= j < |w.ledger|
  {
    forall k | i < k <= j :: w.ledger[k].fields.kind == Carry
  }

  lemma {:induction false} CarriesKeepIdentity(enc: Encoding, w: World, i: nat, j: nat)
    requires Chained(enc, w) && i <= j < |w.documents| && OnlyCarries(w, i, j)
    ensures OneIdentity(w, i, j)
  {
    forall k | i <= k <= j
      ensures w.documents[k].identity == w.documents[i].identity
    {
      CarriesContinue(enc, w, i, k);
    }
  }

  lemma {:induction false} SameMajorSameIdentityCarries(enc: Encoding, w: World, i: nat, j: nat)
    requires Chained(enc, w) && i <= j < |w.documents| && OneIdentity(w, i, j)
    requires w.documents[i].product.version.major == w.documents[j].product.version.major
    ensures OnlyCarries(w, i, j)
  {
    forall k | i < k <= j
      ensures w.ledger[k].fields.kind == Carry
    {
      assert Linked(w.ledger[k - 1], w.documents[k - 1], w.ledger[k], w.documents[k]);
      CoresAscend(enc, w, i, k - 1);
      CoresAscend(enc, w, k, j);
    }
  }

  /**
    Two activations with the same major number are separated by carries alone exactly when
    the logical identity does not change between them.
  */
  lemma SameMajorIsOneClosure(enc: Encoding, w: World, i: nat, j: nat)
    requires Faithful(enc) && Reachable(enc, w) && i <= j < |w.documents|
    requires w.documents[i].product.version.major == w.documents[j].product.version.major
    ensures |w.ledger| == |w.documents|
    ensures OnlyCarries(w, i, j) <==> OneIdentity(w, i, j)
  {
    ReachableInv(enc, w);
    if OnlyCarries(w, i, j) { CarriesKeepIdentity(enc, w, i, j); }
    if OneIdentity(w, i, j) { SameMajorSameIdentityCarries(enc, w, i, j); }
  }

  /** Two activations of one major and minor number share them with the one before the last. */
  lemma SameCoreBetween(enc: Encoding, w: World, i: nat, j: nat)
    requires Chained(enc, w) && i < j < |w.documents|
    requires w.documents[i].product.version.major == w.documents[j].product.version.major
    requires w.documents[i].product.version.minor == w.documents[j].product.version.minor
    ensures w.documents[j - 1].product.version.major == w.documents[j].product.version.major
    ensures w.documents[j - 1].product.version.minor == w.documents[j].product.version.minor
  {
    assert Linked(w.ledger[j - 1], w.documents[j - 1], w.ledger[j], w.documents[j]);
    CoresAscend(enc, w, i, j - 1);
  }

  lemma SameFactsOneMore(first: Contract, earlier: Contract, before: Migration, after: Migration, later: Contract)
    requires SameFacts(first, earlier) && Continues(first, earlier)
    requires Linked(before, earlier, after, later) && after.fields.kind == Carry
    requires earlier.product.version.major == later.product.version.major
    requires earlier.product.version.minor == later.product.version.minor
    ensures SameFacts(first, later)
  {
    SameFactsTransitive(first, earlier, later);
  }

  lemma {:induction false} SameFactsOverCarries(enc: Encoding, w: World, i: nat, j: nat)
    requires Chained(enc, w) && i <= j < |w.documents| && OnlyCarries(w, i, j)
    requires w.documents[i].product.version.major == w.documents[j].product.version.major
    requires w.documents[i].product.version.minor == w.documents[j].product.version.minor
    ensures SameFacts(w.documents[i], w.documents[j])
  {
    if i < j {
      assert Linked(w.ledger[j - 1], w.documents[j - 1], w.ledger[j], w.documents[j]);
      SameCoreBetween(enc, w, i, j);
      SameFactsOverCarries(enc, w, i, j - 1);
      CarriesContinue(enc, w, i, j - 1);
      SameFactsOneMore(w.documents[i], w.documents[j - 1], w.ledger[j - 1], w.ledger[j], w.documents[j]);
    }
  }

  /**
    Over a whole run, two activations of one unbroken identity with the same major and minor
    numbers have the same columns and published columns, with the same types and nullability,
    and the same schedule, policies, display name, quality and trust: only patches part them.
  */
  lemma SameMinorIsSameFacts(enc: Encoding, w: World, i: nat, j: nat)
    requires Faithful(enc) && Reachable(enc, w) && i <= j < |w.documents| && OneIdentity(w, i, j)
    requires w.documents[i].product.version.major == w.documents[j].product.version.major
    requires w.documents[i].product.version.minor == w.documents[j].product.version.minor
    ensures Continues(w.documents[i], w.documents[j]) && SameFacts(w.documents[i], w.documents[j])
  {
    ReachableInv(enc, w);
    SameMajorSameIdentityCarries(enc, w, i, j);
    CarriesContinue(enc, w, i, j);
    SameFactsOverCarries(enc, w, i, j);
  }

  // A registry that leaves one identity and comes back keeps its major number across resets.

  const NEXT_DAY: string := "2026-01-02T00:00:00.000000Z"

  lemma RunOne(enc: Encoding, commands: seq<Command>, command: Command)
    ensures Run(enc, commands + [command]) == Step(enc, Run(enc, commands), command)
  {
    assert (commands + [command])[..|commands|] == commands;
  }

  /** Nothing is registered and nothing is staged. */
  ghost predicate Quiet(enc: Encoding, w: World) {
    Inv(enc, w) && w.state.candidateDigest.None? && w.state.pending.None?
  }

  /** `next` may follow `prior` as a new product with a higher version. */
  ghost predicate NewProductAfter(enc: Encoding, prior: Option<Contract>, next: Contract) {
    && Document(enc, next) == Ok(next)
    && (prior.Some? ==>
          && Document(enc, prior.value) == Ok(prior.value)
          && prior.value.identity != next.identity
          && CoreLess(prior.value.product.version, next.product.version))
  }

  lemma ResetStages(enc: Encoding, w: World, prior: Option<Contract>, next: Contract)
    requires Faithful(enc) && Chained(enc, w) && ActiveIsLast(w) && prior == LastDocument(w)
    requires NewProductAfter(enc, prior, next)
    requires w.state.candidateDigest == Some(enc.contractDigest(next))
    ensures Stages(enc, w, Step(enc, w, Activate(prior, next, w.state.revision, None, 0, 0)), next)
  {
    ResetIsPlanned(enc, w.state, prior, next);
    PlannedActivation(enc, w, Activate(prior, next, w.state.revision, None, 0, 0));
  }

  lemma ResetIsPlanned(enc: Encoding, state: State, prior: Option<Contract>, next: Contract)
    requires NewProductAfter(enc, prior, next) && OptionalDigest(enc, prior) == Ok(state.activeDigest)
    requires state.candidateDigest == Some(enc.contractDigest(next))
    ensures ActivateContract(enc, state, prior, next, state.revision, None, 0, 0).Ok?
  {
    assert ClassifyContractChange(enc, prior, next) == Ok(NewProduct);
  }

  lemma BaselineConfirms(enc: Encoding, w: World, confirm: Command)
    requires Inv(enc, w) && w.state.pending.Some?
    requires confirm == Confirm(w.state.revision, Some(NEXT_DAY))
    ensures Confirms(enc, w, Step(enc, w, confirm), Some(NEXT_DAY))
  {}

  lemma RegisterRuns(enc: Encoding, commands: seq<Command>, next: Contract) returns (longer: seq<Command>)
    requires Faithful(enc) && Quiet(enc, Run(enc, commands)) && Document(enc, next) == Ok(next)
    ensures Inv(enc, Run(enc, longer))
    ensures Run(enc, longer).documents == Run(enc, commands).documents
    ensures Run(enc, longer).ledger == Run(enc, commands).ledger
    ensures Run(enc, longer).state.ancestry == Run(enc, commands).state.ancestry
    ensures Run(enc, longer).state.epoch == Run(enc, commands).state.epoch
    ensures Run(enc, longer).state.candidateDigest == Some(enc.contractDigest(next))
  {
    var w := Run(enc, commands);
    var register := Register(next, w.state.revision);
    longer := commands + [register];
    RunOne(enc, commands, register);
    assert Registers(w, Step(enc, w, register), enc.contractDigest(next));
    RegisterKeeps(enc, w, Step(enc, w, register), enc.contractDigest(next));
  }

  lemma StageRuns(enc: Encoding, commands: seq<Command>, prior: Option<Contract>, next: Contract)
    returns (longer: seq<Command>)
    requires Faithful(enc) && Inv(enc, Run(enc, commands))
    requires Run(enc, commands).state.candidateDigest == Some(enc.contractDigest(next))
    requires prior == LastDocument(Run(enc, commands)) && NewProductAfter(enc, prior, next)
    ensures Inv(enc, Run(enc, longer))
    ensures Run(enc, longer).documents == Run(enc, commands).documents
    ensures Run(enc, longer).ledger == Run(enc, commands).ledger
    ensures Run(enc, longer).state.pending.Some? && Run(enc, longer).staged == Some(next)
  {
    var w := Run(enc, commands);
    var activate := Activate(prior, next, w.state.revision, None, 0, 0);
    longer := commands + [activate];
    RunOne(enc, commands, activate);
    ResetStages(enc, w, prior, next);
    StageKeeps(enc, w, Step(enc, w, activate), next);
  }

  lemma ConfirmRuns(enc: Encoding, commands: seq<Command>, next: Contract) returns (longer: seq<Command>)
    requires Inv(enc, Run(enc, commands))
    requires Run(enc, commands).state.pending.Some? && Run(enc, commands).staged == Some(next)
    ensures Quiet(enc, Run(enc, longer))
    ensures Run(enc, longer).documents == Run(enc, commands).documents + [next]
    ensures Run(enc, commands).ledger <= Run(enc, longer).ledger
    ensures |Run(enc, longer).ledger| == |Run(enc, commands).ledger| + 1
    ensures var m := Run(enc, longer).ledger[|Run(enc, commands).ledger|].fields;
            m.kind == Reset && m.activatedAt == Some(NEXT_DAY)
  {
    var w := Run(enc, commands);
    var confirm := Confirm(w.state.revision, Some(NEXT_DAY));
    longer := commands + [confirm];
    RunOne(enc, commands, confirm);
    BaselineConfirms(enc, w, confirm);
    ConfirmKeeps(enc, w, Step(enc, w, confirm), Some(NEXT_DAY));
  }

  /** Registering, staging and confirming a new product is one complete reset. */
  lemma ResetRuns(enc: Encoding, commands: seq<Command>, prior: Option<Contract>, next: Contract)
    returns (longer: seq<Command>)
    requires Faithful(enc) && Quiet(enc, Run(enc, commands))
    requires prior == LastDocument(Run(enc, commands)) && NewProductAfter(enc, prior, next)
    ensures Quiet(enc, Run(enc, longer))
    ensures Run(enc, longer).documents == Run(enc, commands).documents + [next]
    ensures Run(enc, commands).ledger <= Run(enc, longer).ledger
    ensures |Run(enc, longer).ledger| == |Run(enc, commands).ledger| + 1
    ensures var m := Run(enc, longer).ledger[|Run(enc, commands).ledger|].fields;
            m.kind == Reset && m.activatedAt == Some(NEXT_DAY)
  {
    var registered := RegisterRuns(enc, commands, next);
    var staged := StageRuns(enc, registered, prior, next);
    longer := ConfirmRuns(enc, staged, next);
  }

  /** Every activation so far was a reset, to these documents in this order. */
  ghost predicate AllResets(w: World, documents: seq<Contract>) {
    && w.documents == documents && |w.ledger| == |documents|
    && forall i | 0 <= i < |w.ledger| ::
         w.ledger[i].fields.kind == Reset && w.ledger[i].fields.activatedAt == Some(NEXT_DAY)
  }

  lemma MoreResets(enc: Encoding, commands: seq<Command>, documents: seq<Contract>, next: Contract)
    returns (longer: seq<Command>)
    requires Faithful(enc) && Quiet(enc, Run(enc, commands)) && AllResets(Run(enc, commands), documents)
    requires NewProductAfter(enc, if documents == [] then None else Some(documents[|documents| - 1]), next)
    ensures Quiet(enc, Run(enc, longer)) && AllResets(Run(enc, longer), documents + [next])
  {
    longer := ResetRuns(enc, commands, LastDocument(Run(enc, commands)), next);
    ResetsGrow(Run(enc, commands), Run(enc, longer), documents, next);
  }

  lemma ResetsGrow(w: World, w': World, documents: seq<Contract>, next: Contract)
    requires AllResets(w, documents) && w'.documents == w.documents + [next]
    requires w.ledger <= w'.ledger && |w'.ledger| == |w.ledger| + 1
    requires w'.ledger[|w.ledger|].fields.kind == Reset && w'.ledger[|w.ledger|].fields.activatedAt == Some(NEXT_DAY)
    ensures AllResets(w', documents + [next])
  {}

  lemma OneByOne(a: Contract, b: Contract, c: Contract)
    ensures [] + [a] == [a] && [a] + [b] == [a, b] && [a, b] + [c] == [a, b, c]
  {}

  /** Three new products, one after the other, are three complete resets. */
  lemma ThreeResets(enc: Encoding, a: Contract, b: Contract, c: Contract) returns (commands: seq<Command>)
    requires Faithful(enc) && NewProductAfter(enc, None, a)
    requires NewProductAfter(enc, Some(a), b) && NewProductAfter(enc, Some(b), c)
    ensures AllResets(Run(enc, commands), [a, b, c])
  {
    OneByOne(a, b, c);
    commands := MoreResets(enc, [], [], a);
    commands := MoreResets(enc, commands, [a], b);
    commands := MoreResets(enc, commands, [a, b], c);
  }

  lemma NextDayOnWire()
    ensures IsUtcInstant(NEXT_DAY)
  {}

  lemma ThreeContracts(enc: Encoding, libraries: Libraries) returns (a: Contract, b: Contract, c: Contract)
    ensures Admitted(enc, libraries, a) && Admitted(enc, libraries, b) && Admitted(enc, libraries, c)
    ensures NewProductAfter(enc, None, a) && NewProductAfter(enc, Some(a), b) && NewProductAfter(enc, Some(b), c)
    ensures a.identity == c.identity && a.identity != b.identity
    ensures a.product.version == Version(1, 0, 0, "") && c.product.version == Version(1, 2, 0, "")
  {
    var home, away := TwoTables();
    a := AcceptedContract(enc, libraries, home, 0);
    b := AcceptedContract(enc, libraries, away, 1);
    c := AcceptedContract(enc, libraries, home, 2);
  }

  /**
    One major number does not always mean one closure: a registry reset to another identity
    and back activates the first identity twice, at 1.0.0 and 1.2.0, with resets between. The
    contracts are ones that are accepted, and the instant is one the wire admits.
  */
  lemma SameMajorAcrossResets(enc: Encoding, libraries: Libraries)
    returns (commands: seq<Command>, a: Contract, b: Contract, c: Contract)
    requires Faithful(enc)
    ensures Admitted(enc, libraries, a) && Admitted(enc, libraries, b) && Admitted(enc, libraries, c)
    ensures a.identity == c.identity && a.product.version.major == c.product.version.major && IsUtcInstant(NEXT_DAY)
    ensures AllResets(Run(enc, commands), [a, b, c])
  {
    NextDayOnWire();
    a, b, c := ThreeContracts(enc, libraries);
    commands := ThreeResets(enc, a, b, c);
  }

  /** An accepted contract without a document is never registered, whatever the registry holds. */
  lemma AcceptedButNeverRegistered(enc: Encoding, libraries: Libraries, c: Contract)
    requires Faithful(enc) && Admitted(enc, libraries, c)
    ensures (forall state, expected :: RegisterCandidate(enc, state, c, expected).Err?)
            <==> !NoRepeatedTombstone(c.delivery) || !NoRepeatedSnapshotKey(c.delivery)
  {
    assert Document(enc, c).Ok? <==> NoRepeatedTombstone(c.delivery) && NoRepeatedSnapshotKey(c.delivery) by {
      AcceptedIsValidated(enc, libraries, c);
    }
    RegistersWithDocument(enc, c);
  }

  lemma RegistersWithDocument(enc: Encoding, c: Contract)
    ensures (forall state, expected :: RegisterCandidate(enc, state, c, expected).Err?) <==> Document(enc, c).Err?
  {
    if Document(enc, c).Ok? { assert RegisterCandidate(enc, Initial(), c, 0).Ok?; }
  }

  // ---------------------------------------------------------------- carries

  /** `next` is a document that may follow `last` in its series. */
  ghost predicate NextInSeries(enc: Encoding, last: Contract, next: Contract) {
    && Document(enc, next) == Ok(next) && Document(enc, last) == Ok(last)
    && Continues(last, next) && VersionStep(last, next)
  }

  /** One carry extended the closure and made `next` active. */
  ghost predicate CarriedTo(enc: Encoding, w: World, w': World, next: Contract) {
    && w'.documents == w.documents + [next] && w'.state.activation == Active
    && w'.state.activeDigest == Some(enc.contractDigest(next))
    && w'.state.ancestry == w.state.ancestry + [w.state.epoch + 1]
  }

  /** A carry to `next`, given as many rows and bytes as the extended ancestry needs. */
  function CarryCommand(state: State, last: Contract, next: Contract): Command {
    Activate(Some(last), next, state.revision, Some(NEXT_DAY), |CarriedAncestry(state)|,
             |EpochList(CarriedAncestry(state))|)
  }

  /** After any run a next contract of the series can be registered and carried to. */
  lemma CarryRuns(enc: Encoding, commands: seq<Command>, last: Contract, next: Contract) returns (longer: seq<Command>)
    requires Faithful(enc) && Quiet(enc, Run(enc, commands)) && NextInSeries(enc, last, next)
    requires LastDocument(Run(enc, commands)) == Some(last)
    ensures Quiet(enc, Run(enc, longer)) && CarriedTo(enc, Run(enc, commands), Run(enc, longer), next)
  {
    var registered := RegisterRuns(enc, commands, next);
    longer := CarryRegistered(enc, registered, last, next);
    SameStart(enc, Run(enc, commands), Run(enc, registered), Run(enc, longer), next);
  }

  lemma SameStart(enc: Encoding, w: World, w1: World, w': World, next: Contract)
    requires CarriedTo(enc, w1, w', next) && w1.documents == w.documents
    requires w1.state.ancestry == w.state.ancestry && w1.state.epoch == w.state.epoch
    ensures CarriedTo(enc, w, w', next)
  {}

  lemma CarryRegistered(enc: Encoding, commands: seq<Command>, last: Contract, next: Contract)
    returns (longer: seq<Command>)
    requires Faithful(enc) && Inv(enc, Run(enc, commands)) && NextInSeries(enc, last, next)
    requires LastDocument(Run(enc, commands)) == Some(last)
    requires Run(enc, commands).state.candidateDigest == Some(enc.contractDigest(next))
    ensures Quiet(enc, Run(enc, longer)) && CarriedTo(enc, Run(enc, commands), Run(enc, longer), next)
  {
    var carry := CarryCommand(Run(enc, commands).state, last, next);
    longer := commands + [carry];
    RunOne(enc, commands, carry);
    CarryHappens(enc, Run(enc, commands), last, next);
  }

  lemma CarryHappens(enc: Encoding, w: World, last: Contract, next: Contract)
    requires Faithful(enc) && Inv(enc, w) && LastDocument(w) == Some(last) && NextInSeries(enc, last, next)
    requires w.state.candidateDigest == Some(enc.contractDigest(next))
    ensures var w' := Step(enc, w, CarryCommand(w.state, last, next));
            Quiet(enc, w') && CarriedTo(enc, w, w', next)
  {
    var c := CarryCommand(w.state, last, next);
    CarryIsActivable(enc, w, last, next);
    ActivationStep(enc, w, c);
    CarryKeeps(enc, w, Step(enc, w, c), next, c.activatedAt);
    CarryLeaves(enc, w, Step(enc, w, c), next, c.activatedAt);
  }

  lemma CarryIsActivable(enc: Encoding, w: World, last: Contract, next: Contract)
    requires LastDocument(w) == Some(last) && NextInSeries(enc, last, next)
    requires w.state.candidateDigest == Some(enc.contractDigest(next))
    ensures Activable(enc, w, CarryCommand(w.state, last, next)) && CarriesOn(w, next)
  {}

  lemma CarryLeaves(enc: Encoding, w: World, w': World, next: Contract, activatedAt: Option<string>)
    requires Carries(enc, w, w', next, activatedAt)
    ensures CarriedTo(enc, w, w', next) && w'.state.candidateDigest.None? && w'.state.pending.None?
  {}

  /** Two accepted versions of one table run to a closure of two epochs. */
  lemma CarriesHappen(enc: Encoding, libraries: Libraries) returns (commands: seq<Command>, a: Contract, b: Contract)
    requires Faithful(enc)
    ensures Admitted(enc, libraries, a) && Admitted(enc, libraries, b)
    ensures Run(enc, commands).documents == [a, b] && Run(enc, commands).state.ancestry == [1, 2]
  {
    a, b := TwoVersions(enc, libraries);
    commands := ResetThenCarry(enc, a, b);
  }

  lemma ResetThenCarry(enc: Encoding, a: Contract, b: Contract) returns (commands: seq<Command>)
    requires Faithful(enc) && NewProductAfter(enc, None, a) && NextInSeries(enc, a, b)
    ensures Run(enc, commands).documents == [a, b] && Run(enc, commands).state.ancestry == [1, 2]
  {
    var first := ResetRuns(enc, [], None, a);
    OneByOne(a, b, b);
    OneReset(enc, Run(enc, first), a);
    commands := CarryRuns(enc, first, a, b);
    OneThenTwo();
  }

  lemma OneThenTwo()
    ensures [1] + [2] == [1, 2]
  {}

  lemma OneReset(enc: Encoding, w: World, a: Contract)
    requires Chained(enc, w) && AncestryIsLastRun(w) && w.documents == [a]
    ensures w.state.ancestry == [1] && w.state.epoch == 1 && LastDocument(w) == Some(a)
  {}

  lemma TwoVersions(enc: Encoding, libraries: Libraries) returns (a: Contract, b: Contract)
    ensures Admitted(enc, libraries, a) && Admitted(enc, libraries, b)
    ensures NewProductAfter(enc, None, a) && NextInSeries(enc, a, b)
  {
    var home, _ := TwoTables();
    a, b := AcceptedVersions(enc, libraries, home);
    MinorVersionFollows(a, b);
  }

  lemma MinorVersionFollows(a: Contract, b: Contract)
    requires b == a.(product := a.product.(version := Version(1, 1, 0, "")))
    requires a.product.version == Version(1, 0, 0, "")
    ensures Continues(a, b) && VersionStep(a, b)
  {
    ContinuesReflexive(a);
  }

  // ---------------------------------------------------------------- concurrent clients

  /** What a client asks for; the revision it expects is the one it last read. */
  datatype Request =
    | AskRegister(candidate: Contract)
    | AskActivate(prior: Option<Contract>, candidate: Contract, activatedAt: Option<string>,
                  maxRows: int, maxBytes: int)
    | AskConfirm(activatedAt: Option<string>)

  datatype Action = Read(client: nat) | Submit(client: nat, request: Request)

  /** The stored registry and the revision each client last read. */
  datatype System = System(world: World, views: map<nat, nat>)

  function CommandOf(request: Request, expected: nat): Command {
    match request
    case AskRegister(candidate) => Register(candidate, expected)
    case AskActivate(prior, candidate, activatedAt, maxRows, maxBytes) =>
      Activate(prior, candidate, expected, activatedAt, maxRows, maxBytes)
    case AskConfirm(activatedAt) => Confirm(expected, activatedAt)
  }

  function Act(enc: Encoding, s: System, action: Action): System {
    match action
    case Read(client) => s.(views := s.views[client := s.world.state.revision])
    case Submit(client, request) =>
      if client !in s.views then s
      else s.(world := Step(enc, s.world, CommandOf(request, s.views[client])))
  }

  function Interleave(enc: Encoding, actions: seq<Action>): System {
    if actions == [] then System(Start(), map[])
    else Act(enc, Interleave(enc, actions[..|actions| - 1]), actions[|actions| - 1])
  }

  /** The stored registry after the first `n` actions. */
  function WorldAt(enc: Encoding, actions: seq<Action>, n: nat): World
    requires n <= |actions|
  {
    Interleave(enc, actions[..n]).world
  }

  lemma {:induction false} InterleavingKeeps(enc: Encoding, actions: seq<Action>)
    requires Faithful(enc)
    ensures Inv(enc, Interleave(enc, actions).world)
    ensures forall client | client in Interleave(enc, actions).views ::
              Interleave(enc, actions).views[client] <= Interleave(enc, actions).world.state.revision
  {
    if actions != [] {
      var n := |actions| - 1;
      InterleavingKeeps(enc, actions[..n]);
      var s := Interleave(enc, actions[..n]);
      if actions[n].Submit? && actions[n].client in s.views {
        SubmissionAdvances(enc, s.world, CommandOf(actions[n].request, s.views[actions[n].client]));
      }
    }
  }

  /** How one submission relates the stored registry before and after it. */
  ghost predicate Advances(w: World, w': World) {
    && w'.state.revision == w.state.revision + 1
    && w.ledger <= w'.ledger
    && (w.state.candidateDigest.Some? && w'.state.candidateDigest != w.state.candidateDigest ==>
          && |w'.ledger| == |w.ledger| + 1
          && w'.ledger[|w.ledger|].fields.toDigest == w.state.candidateDigest.value
          && w'.state.activeDigest == w.state.candidateDigest)
  }

  lemma SubmissionAdvances(enc: Encoding, w: World, command: Command)
    requires Faithful(enc) && Inv(enc, w)
    ensures Inv(enc, Step(enc, w, command))
    ensures Step(enc, w, command) == w
            || (command.expected == w.state.revision && Advances(w, Step(enc, w, command)))
  {
    StepIsAcceptedOrNothing(enc, w, command);
    if Step(enc, w, command) != w {
      AcceptedKeeps(enc, w, Step(enc, w, command));
      AcceptedAdvances(enc, w, Step(enc, w, command));
    }
  }

  lemma AcceptedAdvances(enc: Encoding, w: World, w': World)
    requires |w.documents| == w.state.epoch && PendingIsStaged(enc, w) && Accepted(enc, w, w')
    ensures Advances(w, w')
  {
    if digest :| Registers(w, w', digest) {
    } else if next, activatedAt :| Carries(enc, w, w', next, activatedAt) {
    } else if next :| Stages(enc, w, w', next) {
    } else {
      var activatedAt :| Confirms(enc, w, w', activatedAt);
    }
  }

  /** A client whose read is out of date never changes the stored registry. */
  lemma StaleClientChangesNothing(enc: Encoding, actions: seq<Action>, client: nat, request: Request)
    requires Faithful(enc)
    requires var s := Interleave(enc, actions); client !in s.views || s.views[client] != s.world.state.revision
    ensures Act(enc, Interleave(enc, actions), Submit(client, request)) == Interleave(enc, actions)
  {
    InterleavingKeeps(enc, actions);
    var s := Interleave(enc, actions);
    if client in s.views {
      SubmissionAdvances(enc, s.world, CommandOf(request, s.views[client]));
    }
  }

  /** What a client asked for, at the revision it read. */
  ghost predicate Asks(request: Request, revision: nat, c: Command) {
    match request
    case AskRegister(candidate) => c == Register(candidate, revision)
    case AskActivate(prior, candidate, activatedAt, maxRows, maxBytes) =>
      c == Activate(prior, candidate, revision, activatedAt, maxRows, maxBytes)
    case AskConfirm(activatedAt) => c == Confirm(revision, activatedAt)
  }

  /**
    A client that reads and then submits is answered at the revision it read: an acceptable
    request is carried out, and any other changes nothing.
  */
  lemma FreshClientIsAnswered(enc: Encoding, actions: seq<Action>, client: nat, request: Request, c: Command)
    requires Faithful(enc) && Asks(request, Interleave(enc, actions).world.state.revision, c)
    ensures var s := Interleave(enc, actions);
            var read := Act(enc, s, Read(client));
            var answered := Act(enc, read, Submit(client, request));
            && read.world == s.world && answered.views == read.views
            && (forall other :: other in s.views && other != client ==>
                  other in read.views && read.views[other] == s.views[other])
            && if Acceptable(enc, s.world, c) then Does(enc, s.world, answered.world, c) else answered.world == s.world
  {
    InterleavingKeeps(enc, actions);
    AnsweredExactly(enc, Interleave(enc, actions), client, request, c);
  }

  /** What a client that has just read submits is put to the registry as it stands. */
  lemma AnswerIsStep(enc: Encoding, s: System, client: nat, request: Request, c: Command)
    requires Asks(request, s.world.state.revision, c)
    ensures var read := Act(enc, s, Read(client));
            var answered := Act(enc, read, Submit(client, request));
            && read.world == s.world && answered.views == read.views
            && (forall other :: other in s.views && other != client ==>
                  other in read.views && read.views[other] == s.views[other])
            && answered.world == Step(enc, s.world, c)
  {
    assert CommandOf(request, s.world.state.revision) == c;
  }

  lemma AnsweredExactly(enc: Encoding, s: System, client: nat, request: Request, c: Command)
    requires Faithful(enc) && Inv(enc, s.world) && Asks(request, s.world.state.revision, c)
    ensures var read := Act(enc, s, Read(client));
            var answered := Act(enc, read, Submit(client, request));
            && read.world == s.world && answered.views == read.views
            && (forall other :: other in s.views && other != client ==>
                  other in read.views && read.views[other] == s.views[other])
            && if Acceptable(enc, s.world, c) then Does(enc, s.world, answered.world, c) else answered.world == s.world
  {
    AnswerIsStep(enc, s, client, request, c);
    StepExactly(enc, s.world, c);
  }

  lemma OneAction(enc: Encoding, actions: seq<Action>, n: nat)
    requires Faithful(enc) && n < |actions|
    ensures Inv(enc, WorldAt(enc, actions, n))
    ensures var w, w' := WorldAt(enc, actions, n), WorldAt(enc, actions, n + 1);
            w' == w || Advances(w, w')
  {
    InterleavingKeeps(enc, actions[..n]);
    assert actions[..n + 1][..n] == actions[..n];
    var s := Interleave(enc, actions[..n]);
    if actions[n].Submit? && actions[n].client in s.views {
      SubmissionAdvances(enc, s.world, CommandOf(actions[n].request, s.views[actions[n].client]));
    }
  }

  ghost predicate Precedes(w: World, w': World) {
    w.state.revision <= w'.state.revision && w.ledger <= w'.ledger
  }

  /** Over any stretch of an interleaving the revision and the ledger only grow. */
  lemma {:induction false} HistoryGrows(enc: Encoding, actions: seq<Action>, i: nat, j: nat)
    requires Faithful(enc) && i <= j <= |actions|
    ensures Precedes(WorldAt(enc, actions, i), WorldAt(enc, actions, j))
  {
    if i < j {
      HistoryGrows(enc, actions, i, j - 1);
      OneAction(enc, actions, j - 1);
      PrecedesThen(WorldAt(enc, actions, i), WorldAt(enc, actions, j - 1), WorldAt(enc, actions, j));
    }
  }

  lemma PrecedesThen(w: World, w1: World, w': World)
    requires Precedes(w, w1) && (w' == w1 || Advances(w1, w'))
    ensures Precedes(w, w')
  {}

  /** However clients interleave, at most one request is ever accepted from one revision. */
  lemma OneSuccessorPerRevision(enc: Encoding, actions: seq<Action>, i: nat, j: nat)
    requires Faithful(enc) && i < j < |actions|
    requires WorldAt(enc, actions, i + 1) != WorldAt(enc, actions, i)
    requires WorldAt(enc, actions, j + 1) != WorldAt(enc, actions, j)
    ensures WorldAt(enc, actions, i).state.revision < WorldAt(enc, actions, j).state.revision
  {
    OneAction(enc, actions, i);
    HistoryGrows(enc, actions, i + 1, j);
  }

  /** What was registered in `w` is still registered in `w'`, or was activated in between. */
  ghost predicate StillOrActivated(w: World, w': World) {
    w.state.candidateDigest.Some? && w'.state.candidateDigest != w.state.candidateDigest ==>
      exists k :: |w.ledger| <= k < |w'.ledger|
                  && w'.ledger[k].fields.toDigest == w.state.candidateDigest.value
  }

  lemma StillOrActivatedThen(w: World, w1: World, w': World)
    requires StillOrActivated(w, w1) && w.ledger <= w1.ledger && (w' == w1 || Advances(w1, w'))
    ensures StillOrActivated(w, w')
  {
    if w.state.candidateDigest.Some? && w'.state.candidateDigest != w.state.candidateDigest {
      if w1.state.candidateDigest != w.state.candidateDigest {
        var k :| |w.ledger| <= k < |w1.ledger| && w1.ledger[k].fields.toDigest == w.state.candidateDigest.value;
        assert w'.ledger[k] == w1.ledger[k];
      } else {
        assert w'.ledger[|w1.ledger|].fields.toDigest == w.state.candidateDigest.value;
      }
    }
  }

  /**
    A registered candidate leaves only by becoming active: if it is no longer registered, a
    migration completed since then activated it.
  */
  lemma {:induction false} CandidateLeavesByActivation(enc: Encoding, actions: seq<Action>, i: nat, j: nat)
    requires Faithful(enc) && i <= j <= |actions|
    ensures StillOrActivated(WorldAt(enc, actions, i), WorldAt(enc, actions, j))
  {
    if i < j {
      CandidateLeavesByActivation(enc, actions, i, j - 1);
      assert WorldAt(enc, actions, j) == WorldAt(enc, actions, j - 1)
             || Advances(WorldAt(enc, actions, j - 1), WorldAt(enc, actions, j)) by {
        OneAction(enc, actions, j - 1);
      }
      HistoryGrows(enc, actions, i, j - 1);
      StillOrActivatedThen(WorldAt(enc, actions, i), WorldAt(enc, actions, j - 1), WorldAt(enc, actions, j));
    }
  }

  /** Each migration starts where the one before it ended, and the last ends at what is active. */
  ghost predicate OneChain(w: World) {
    && |w.ledger| == w.state.epoch
    && (forall i | 0 < i < |w.ledger| ::
          && w.ledger[i].fields.fromDigest == Some(w.ledger[i - 1].fields.toDigest)
          && w.ledger[i].fields.fromEpoch == w.ledger[i - 1].fields.toEpoch)
    && (w.ledger == [] <==> w.state.activeDigest.None?)
    && (w.ledger != [] ==>
          && w.ledger[0].fields.fromDigest.None? && w.ledger[0].fields.fromEpoch == 0
          && w.state.activeDigest == Some(w.ledger[|w.ledger| - 1].fields.toDigest)
          && w.state.epoch == w.ledger[|w.ledger| - 1].fields.toEpoch)
  }

  /**
    The completed migrations form one gap-free chain: each starts at the digest and epoch the
    one before it ended at, and the last ends at the active contract.
  */
  lemma LedgerIsOneChain(enc: Encoding, actions: seq<Action>)
    requires Faithful(enc)
    ensures OneChain(Interleave(enc, actions).world)
  {
    InterleavingKeeps(enc, actions);
    LedgerChains(enc, Interleave(enc, actions).world);
  }

  lemma LedgerChains(enc: Encoding, w: World)
    requires Chained(enc, w) && ActiveIsLast(w)
    ensures OneChain(w)
  {
    forall i | 0 < i < |w.ledger|
      ensures w.ledger[i].fields.fromDigest == Some(w.ledger[i - 1].fields.toDigest)
    {
      assert Linked(w.ledger[i - 1], w.documents[i - 1], w.ledger[i], w.documents[i]);
    }
  }
}
